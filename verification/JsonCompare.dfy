/** Structural comparison of trees: members are looked up by key, once in each direction. */
module JsonCompare {
  import opened Bytes
  import opened Wrappers
  import opened JsonNumber
  import opened JsonText
  import opened JsonRoundTrip

  /** 2^-52 */
  const EPSILON: real := 1.0 / 4503599627370496.0

  function AbsReal(d: real): real {
    if d < 0.0 then -d else d
  }

  predicate CompareDouble(a: real, b: real) {
    AbsReal(a - b) <= (if AbsReal(a) > AbsReal(b) then AbsReal(a) else AbsReal(b)) * EPSILON
  }

  function Lower(key: ByteString): (lower: ByteString)
    ensures |lower| == |key|
  {
    seq(|key|, i requires 0 <= i < |key| => if 0x41 <= key[i] <= 0x5a then key[i] + 32 else key[i])
  }

  predicate KeyMatches(a: ByteString, b: ByteString, caseSensitive: bool) {
    if caseSensitive then a == b else Lower(a) == Lower(b)
  }

  /** Keys match without case when they differ at most between the letters A to Z and a to z. */
  lemma KeyMatchesMeans(a: ByteString, b: ByteString)
    ensures KeyMatches(a, b, true) <==> a == b
    ensures KeyMatches(a, b, false) <==>
            |a| == |b| && forall i | 0 <= i < |a| ::
              || a[i] == b[i]
              || ('A' <= a[i] as int as char <= 'Z' && b[i] == a[i] + 32)
              || ('A' <= b[i] as int as char <= 'Z' && a[i] == b[i] + 32)
  {
    if |a| == |b| {
      forall i | 0 <= i < |a|
        ensures Lower(a)[i] == Lower(b)[i] <==>
                || a[i] == b[i]
                || ('A' <= a[i] as int as char <= 'Z' && b[i] == a[i] + 32)
                || ('A' <= b[i] as int as char <= 'Z' && a[i] == b[i] + 32)
      {
      }
      if !KeyMatches(a, b, false) {
        var i :| 0 <= i < |a| && Lower(a)[i] != Lower(b)[i];
      }
    } else {
      assert |Lower(a)| != |Lower(b)|;
    }
  }

  /** Two numbers are taken to be equal within 2^-52 of the larger one. */
  lemma CompareDoubleMeans(a: real, b: real)
    ensures CompareDouble(a, b) <==>
            var larger := if -a < a then (if -b < b then (if a > b then a else b) else if a > -b then a else -b)
                else if -b < b then (if -a > b then -a else b) else if -a > -b then -a else -b;
            && (a - b) * 4503599627370496.0 <= larger && (b - a) * 4503599627370496.0 <= larger
  {
  }

  /** The first member from i on with this key. */
  function Find(members: seq<Member>, key: ByteString, caseSensitive: bool, i: nat): (at: Option<nat>)
    requires i <= |members|
    ensures at.Some? ==> i <= at.value < |members| && KeyMatches(key, members[at.value].key, caseSensitive)
    ensures forall k | i <= k < (if at.Some? then at.value else |members|) ::
              !KeyMatches(key, members[k].key, caseSensitive)
    decreases |members| - i
  {
    if i == |members| then None
    else if KeyMatches(key, members[i].key, caseSensitive) then Some(i)
    else Find(members, key, caseSensitive, i + 1)
  }

  /** Containers are nested deeper than what they contain. */
  lemma {:induction false} ItemsNesting(t: Json, i: nat)
    requires t.Array? && i <= |t.items|
    ensures forall k | i <= k < |t.items| :: Nesting(t.items[k]) <= DeepestItem(t, i)
    ensures forall k | i <= k < |t.items| :: Nesting(t.items[k]) < Nesting(t) || i > 0
    decreases |t.items| - i
  {
    if i < |t.items| {
      ItemsNesting(t, i + 1);
    }
  }

  lemma {:induction false} MembersNesting(t: Json, i: nat)
    requires t.Object? && i <= |t.members|
    ensures forall k | i <= k < |t.members| :: Nesting(t.members[k].value) <= DeepestMember(t, i)
    ensures forall k | i <= k < |t.members| :: Nesting(t.members[k].value) < Nesting(t) || i > 0
    decreases |t.members| - i
  {
    if i < |t.members| {
      MembersNesting(t, i + 1);
    }
  }

  /** The comparison of the code, on trees that share no node. */
  predicate Equal(a: Json, b: Json, caseSensitive: bool)
    decreases Nesting(a) + Nesting(b), 1
  {
    match (a, b)
    case (Null, Null) => true
    case (False, False) => true
    case (True, True) => true
    case (Number(x), Number(y)) => CompareDouble(x, y)
    case (String(x), String(y)) => x == y
    case (Array(_), Array(_)) => EqualItems(a, b, caseSensitive)
    case (Object(_), Object(_)) => Covers(a, b, caseSensitive) && Covers(b, a, caseSensitive)
    case _ => false
  }

  predicate EqualItems(a: Json, b: Json, caseSensitive: bool)
    requires a.Array? && b.Array?
    decreases Nesting(a) + Nesting(b), 0
  {
    ItemsNesting(a, 0);
    ItemsNesting(b, 0);
    |a.items| == |b.items| && forall i | 0 <= i < |a.items| :: Equal(a.items[i], b.items[i], caseSensitive)
  }

  /** Every member of a is found in b by its key, with an equal value. */
  predicate Covers(a: Json, b: Json, caseSensitive: bool)
    requires a.Object? && b.Object?
    decreases Nesting(a) + Nesting(b), 0
  {
    MembersNesting(a, 0);
    MembersNesting(b, 0);
    forall i | 0 <= i < |a.members| ::
      var at := Find(b.members, a.members[i].key, caseSensitive, 0);
      at.Some? && Equal(a.members[i].value, b.members[at.value].value, caseSensitive)
  }

  /** Comparison is symmetric on all trees, repeated keys included. */
  lemma {:induction false} EqualSymmetric(a: Json, b: Json, caseSensitive: bool)
    ensures Equal(a, b, caseSensitive) == Equal(b, a, caseSensitive)
    decreases Nesting(a) + Nesting(b)
  {
    if a.Array? && b.Array? && |a.items| == |b.items| {
      ItemsNesting(a, 0);
      ItemsNesting(b, 0);
      forall i | 0 <= i < |a.items|
        ensures Equal(a.items[i], b.items[i], caseSensitive) == Equal(b.items[i], a.items[i], caseSensitive)
      {
        EqualSymmetric(a.items[i], b.items[i], caseSensitive);
      }
    }
  }

  // ----- Equality up to the order of members -----

  /** A list of the numbers below n in some order. */
  ghost predicate Permutation(p: seq<nat>, n: nat) {
    |p| == n && (forall i | 0 <= i < n :: p[i] < n) && (forall i, j | 0 <= i < j < n :: p[i] != p[j])
  }

  /** The same tree, but for the order of object members and the tolerance between numbers. */
  ghost predicate Same(a: Json, b: Json, caseSensitive: bool)
    decreases Nesting(a) + Nesting(b), 1
  {
    match (a, b)
    case (Null, Null) => true
    case (False, False) => true
    case (True, True) => true
    case (Number(x), Number(y)) => CompareDouble(x, y)
    case (String(x), String(y)) => x == y
    case (Array(_), Array(_)) => SameItems(a, b, caseSensitive)
    case (Object(_), Object(_)) => exists p: seq<nat> :: SameMembers(a, b, caseSensitive, p)
    case _ => false
  }

  ghost predicate SameItems(a: Json, b: Json, caseSensitive: bool)
    requires a.Array? && b.Array?
    decreases Nesting(a) + Nesting(b), 0
  {
    ItemsNesting(a, 0);
    ItemsNesting(b, 0);
    |a.items| == |b.items| && forall i | 0 <= i < |a.items| :: Same(a.items[i], b.items[i], caseSensitive)
  }

  /** Member i of a has the key of member p[i] of b and the same value. */
  ghost predicate SameMembers(a: Json, b: Json, caseSensitive: bool, p: seq<nat>)
    requires a.Object? && b.Object?
    decreases Nesting(a) + Nesting(b), 0
  {
    MembersNesting(a, 0);
    MembersNesting(b, 0);
    && |a.members| == |b.members| && Permutation(p, |a.members|)
    && forall i | 0 <= i < |a.members| ::
         KeyMatches(a.members[i].key, b.members[p[i]].key, caseSensitive) &&
         Same(a.members[i].value, b.members[p[i]].value, caseSensitive)
  }

  /** No object anywhere in the tree repeats a key. */
  ghost predicate NoRepeats(t: Json, caseSensitive: bool) {
    match t
    case Array(items) => forall i | 0 <= i < |items| :: NoRepeats(items[i], caseSensitive)
    case Object(members) =>
      && DistinctKeys(members, caseSensitive)
      && forall i | 0 <= i < |members| :: NoRepeats(members[i].value, caseSensitive)
    case _ => true
  }

  ghost predicate DistinctKeys(members: seq<Member>, caseSensitive: bool) {
    forall i, j | 0 <= i < j < |members| :: !KeyMatches(members[i].key, members[j].key, caseSensitive)
  }

  lemma DistinctKeysMean(members: seq<Member>, caseSensitive: bool)
    ensures DistinctKeys(members, caseSensitive) <==>
            forall i, j
              | 0 <= i < |members| && 0 <= j < |members| &&
                KeyMatches(members[i].key, members[j].key, caseSensitive) :: i == j
  {
    hide Lower;
  }

  /** The tolerance never confuses two ints: on them it is equality. */
  lemma IntegersCompareExactly(x: real, y: real)
    requires IsInteger(x) && IsInteger(y)
    ensures CompareDouble(x, y) <==> x == y
  {
    var m, n := ToInt(x), ToInt(y);
    var bound := 2147483648.0;
    assert AbsReal(x) <= bound && AbsReal(y) <= bound;
    assert bound * EPSILON < 1.0;
    var largest := if AbsReal(x) > AbsReal(y) then AbsReal(x) else AbsReal(y);
    assert 0.0 <= largest * EPSILON <= bound * EPSILON;
    assert m != n ==> AbsReal(x - y) >= 1.0;
  }

  /** On trees without repeated keys comparing is sameness, for all numbers. */
  lemma {:induction false} EqualIsSame(a: Json, b: Json, caseSensitive: bool)
    requires NoRepeats(a, caseSensitive) && NoRepeats(b, caseSensitive)
    ensures Equal(a, b, caseSensitive) <==> Same(a, b, caseSensitive)
    decreases Nesting(a) + Nesting(b)
  {
    if a.Array? && b.Array? {
      ItemsNesting(a, 0);
      ItemsNesting(b, 0);
      if |a.items| == |b.items| {
        forall i | 0 <= i < |a.items|
          ensures Equal(a.items[i], b.items[i], caseSensitive) <==> Same(a.items[i], b.items[i], caseSensitive)
        {
          EqualIsSame(a.items[i], b.items[i], caseSensitive);
        }
      }
    } else if a.Object? && b.Object? {
      MembersNesting(a, 0);
      MembersNesting(b, 0);
      forall i, j | 0 <= i < |a.members| && 0 <= j < |b.members|
        ensures Equal(a.members[i].value, b.members[j].value, caseSensitive) <==>
                Same(a.members[i].value, b.members[j].value, caseSensitive)
      {
        EqualIsSame(a.members[i].value, b.members[j].value, caseSensitive);
      }
      hide Equal, Same, Nesting, Covers, DistinctKeys;
      EqualObjectsAreSame(a, b, caseSensitive);
    }
  }

  lemma EqualObjectsAreSame(a: Json, b: Json, caseSensitive: bool)
    requires a.Object? && b.Object? && DistinctKeys(a.members, caseSensitive) && DistinctKeys(b.members, caseSensitive)
    requires forall i, j | 0 <= i < |a.members| && 0 <= j < |b.members| ::
               Equal(a.members[i].value, b.members[j].value, caseSensitive) <==>
               Same(a.members[i].value, b.members[j].value, caseSensitive)
    ensures Equal(a, b, caseSensitive) <==> Same(a, b, caseSensitive)
  {
    hide DistinctKeys, Covers, SameMembers, KeyMatches;
    if Equal(a, b, caseSensitive) {
      assert Covers(a, b, caseSensitive) && Covers(b, a, caseSensitive);
      var p := MatchingOrder(a, b, caseSensitive);
      SameMembersFrom(a, b, caseSensitive, p);
    }
    if Same(a, b, caseSensitive) {
      var p := OrderOf(a, b, caseSensitive);
      OrderMatches(a, b, caseSensitive, p);
    }
  }

  lemma SameMembersFrom(a: Json, b: Json, caseSensitive: bool, p: seq<nat>)
    requires a.Object? && b.Object? && |a.members| == |b.members| && Permutation(p, |a.members|)
    requires forall i | 0 <= i < |a.members| ::
               KeyMatches(a.members[i].key, b.members[p[i]].key, caseSensitive) &&
               Same(a.members[i].value, b.members[p[i]].value, caseSensitive)
    ensures Same(a, b, caseSensitive)
  {
    hide Permutation, KeyMatches;
    assert SameMembers(a, b, caseSensitive, p);
  }

  lemma OrderOf(a: Json, b: Json, caseSensitive: bool) returns (p: seq<nat>)
    requires a.Object? && b.Object? && Same(a, b, caseSensitive)
    ensures |a.members| == |b.members| && Permutation(p, |a.members|)
    ensures forall i | 0 <= i < |a.members| ::
              KeyMatches(a.members[i].key, b.members[p[i]].key, caseSensitive) &&
              Same(a.members[i].value, b.members[p[i]].value, caseSensitive)
  {
    hide Permutation, KeyMatches;
    p :| SameMembers(a, b, caseSensitive, p);
  }

  lemma MatchingOrder(a: Json, b: Json, caseSensitive: bool) returns (p: seq<nat>)
    requires a.Object? && b.Object? && DistinctKeys(a.members, caseSensitive) && DistinctKeys(b.members, caseSensitive)
    requires Covers(a, b, caseSensitive) && Covers(b, a, caseSensitive)
    ensures |a.members| == |b.members| && Permutation(p, |a.members|)
    ensures forall i | 0 <= i < |a.members| ::
              KeyMatches(a.members[i].key, b.members[p[i]].key, caseSensitive) &&
              Equal(a.members[i].value, b.members[p[i]].value, caseSensitive)
  {
    p := Lookups(a, b, caseSensitive);
    var q := Lookups(b, a, caseSensitive);
    hide DistinctKeys, KeyMatches, Equal, Nesting, Find, Covers;
    Pigeonhole(p, |b.members|);
    Pigeonhole(q, |a.members|);
  }

  /** Where the members of a are found in b. */
  lemma Lookups(a: Json, b: Json, caseSensitive: bool) returns (p: seq<nat>)
    requires a.Object? && b.Object? && DistinctKeys(a.members, caseSensitive) && Covers(a, b, caseSensitive)
    ensures |p| == |a.members| && forall i, j | 0 <= i < j < |p| :: p[i] != p[j]
    ensures forall i | 0 <= i < |a.members| ::
              p[i] < |b.members| && KeyMatches(a.members[i].key, b.members[p[i]].key, caseSensitive) &&
              Equal(a.members[i].value, b.members[p[i]].value, caseSensitive)
  {
    hide Equal, Nesting;
    p := seq(|a.members|, i requires 0 <= i < |a.members| =>
               var at := Find(b.members, a.members[i].key, caseSensitive, 0); if at.Some? then at.value else 0);
    forall i, j | 0 <= i < j < |p|
      ensures p[i] != p[j]
    {
      assert !KeyMatches(a.members[i].key, a.members[j].key, caseSensitive);
    }
  }

  lemma {:induction false} Pigeonhole(p: seq<nat>, n: nat)
    requires (forall i | 0 <= i < |p| :: p[i] < n) && (forall i, j | 0 <= i < j < |p| :: p[i] != p[j])
    ensures |p| <= n
    ensures |p| == n ==> forall k | 0 <= k < n :: k in p
  {
    assert |p| > 0 ==> p[0] < n;
    if n > 0 {
      if n - 1 in p {
        var at :| 0 <= at < |p| && p[at] == n - 1;
        var rest := p[..at] + p[at + 1..];
        Pigeonhole(rest, n - 1);
        assert forall k | k in rest :: k in p;
      } else {
        Pigeonhole(p, n - 1);
      }
    }
  }

  lemma OrderMatches(a: Json, b: Json, caseSensitive: bool, p: seq<nat>)
    requires a.Object? && b.Object? && DistinctKeys(a.members, caseSensitive) && DistinctKeys(b.members, caseSensitive)
    requires |a.members| == |b.members| && Permutation(p, |a.members|)
    requires forall i | 0 <= i < |a.members| ::
               KeyMatches(a.members[i].key, b.members[p[i]].key, caseSensitive) &&
               Equal(a.members[i].value, b.members[p[i]].value, caseSensitive)
    ensures Covers(a, b, caseSensitive) && Covers(b, a, caseSensitive)
  {
    hide DistinctKeys, KeyMatches, Equal, Nesting, Find, Covers;
    forall i | 0 <= i < |a.members|
      ensures FoundEqual(a, b, caseSensitive, i)
    {
      FoundAt(a, b, caseSensitive, i, p[i]);
    }
    CoversFrom(a, b, caseSensitive);
    var q := Inverse(p, |a.members|);
    hide Permutation;
    forall j | 0 <= j < |b.members|
      ensures FoundEqual(b, a, caseSensitive, j)
    {
      var i := q[j];
      KeyMatchesSymmetric(a.members[i].key, b.members[j].key, caseSensitive);
      EqualSymmetric(a.members[i].value, b.members[j].value, caseSensitive);
      FoundAt(b, a, caseSensitive, j, i);
    }
    CoversFrom(b, a, caseSensitive);
  }

  lemma Inverse(p: seq<nat>, n: nat) returns (q: seq<nat>)
    requires Permutation(p, n)
    ensures |q| == n && forall j | 0 <= j < n :: q[j] < n && p[q[j]] == j
  {
    Pigeonhole(p, n);
    q := [];
    while |q| < n
      invariant |q| <= n && forall j | 0 <= j < |q| :: q[j] < n && p[q[j]] == j
    {
      var next: nat := |q|;
      assert next in p;
      var i :| 0 <= i < |p| && p[i] == next;
      q := q + [i];
    }
  }

  lemma FoundAt(a: Json, b: Json, caseSensitive: bool, i: nat, j: nat)
    requires a.Object? && b.Object? && DistinctKeys(b.members, caseSensitive) && i < |a.members| && j < |b.members|
    requires KeyMatches(a.members[i].key, b.members[j].key, caseSensitive)
    requires Equal(a.members[i].value, b.members[j].value, caseSensitive)
    ensures FoundEqual(a, b, caseSensitive, i)
  {
    hide Equal, Nesting;
    FindDistinct(b.members, a.members[i].key, caseSensitive, j);
  }

  ghost predicate FoundEqual(a: Json, b: Json, caseSensitive: bool, i: nat)
    requires a.Object? && b.Object? && i < |a.members|
  {
    var at := Find(b.members, a.members[i].key, caseSensitive, 0);
    at.Some? && Equal(a.members[i].value, b.members[at.value].value, caseSensitive)
  }

  lemma CoversFrom(a: Json, b: Json, caseSensitive: bool)
    requires a.Object? && b.Object? && forall i | 0 <= i < |a.members| :: FoundEqual(a, b, caseSensitive, i)
    ensures Covers(a, b, caseSensitive)
  {
    hide Find, KeyMatches, Nesting;
    forall i | 0 <= i < |a.members|
      ensures var at := Find(b.members, a.members[i].key, caseSensitive, 0);
              at.Some? && Equal(a.members[i].value, b.members[at.value].value, caseSensitive)
    {
      assert FoundEqual(a, b, caseSensitive, i);
    }
  }

  lemma KeyMatchesSymmetric(x: ByteString, y: ByteString, caseSensitive: bool)
    requires KeyMatches(x, y, caseSensitive)
    ensures KeyMatches(y, x, caseSensitive)
  {
  }

  lemma FindDistinct(members: seq<Member>, key: ByteString, caseSensitive: bool, at: nat)
    requires DistinctKeys(members, caseSensitive) && at < |members|
    requires KeyMatches(key, members[at].key, caseSensitive)
    ensures Find(members, key, caseSensitive, 0) == Some(at)
  {
    var found := Find(members, key, caseSensitive, 0);
    assert found.Some? && KeyMatches(members[found.value].key, members[at].key, caseSensitive)
        && KeyMatches(members[at].key, members[found.value].key, caseSensitive);
  }

  /** Sameness, unlike comparing, is reflexive on all trees. */
  lemma {:induction false} SameReflexive(t: Json, caseSensitive: bool)
    ensures Same(t, t, caseSensitive)
    decreases Nesting(t)
  {
    if t.Array? {
      ItemsNesting(t, 0);
      forall i | 0 <= i < |t.items|
        ensures Same(t.items[i], t.items[i], caseSensitive)
      {
        SameReflexive(t.items[i], caseSensitive);
      }
    } else if t.Object? {
      MembersNesting(t, 0);
      var p := seq(|t.members|, i requires 0 <= i < |t.members| => i);
      forall i | 0 <= i < |t.members|
        ensures Same(t.members[i].value, t.members[i].value, caseSensitive)
      {
        SameReflexive(t.members[i].value, caseSensitive);
      }
      assert SameMembers(t, t, caseSensitive, p);
    }
  }

  // ----- When a tree equals itself -----

  /**
   Every member of every object is the first one with its key, and so is everything in its value, or it
   equals that first one.
   */
  predicate RepeatsAgree(t: Json, caseSensitive: bool)
    decreases Nesting(t)
  {
    match t
    case Array(items) =>
      ItemsNesting(t, 0);
      forall i | 0 <= i < |items| :: RepeatsAgree(items[i], caseSensitive)
    case Object(members) =>
      MembersNesting(t, 0);
      forall i | 0 <= i < |members| ::
        var first := Find(members, members[i].key, caseSensitive, 0);
        first.Some? && if first.value == i then RepeatsAgree(members[i].value, caseSensitive)
                       else Equal(members[i].value, members[first.value].value, caseSensitive)
    case _ => true
  }

  /** A tree equals its copy exactly when its repeated keys agree. */
  lemma {:induction false} EqualReflexive(t: Json, caseSensitive: bool)
    ensures Equal(t, t, caseSensitive) <==> RepeatsAgree(t, caseSensitive)
    decreases Nesting(t)
  {
    if t.Array? {
      ItemsNesting(t, 0);
      forall i | 0 <= i < |t.items|
        ensures Equal(t.items[i], t.items[i], caseSensitive) <==> RepeatsAgree(t.items[i], caseSensitive)
      {
        EqualReflexive(t.items[i], caseSensitive);
      }
    } else if t.Object? {
      MembersNesting(t, 0);
      forall i | 0 <= i < |t.members|
        ensures Equal(t.members[i].value, t.members[i].value, caseSensitive) <==>
                RepeatsAgree(t.members[i].value, caseSensitive)
      {
        EqualReflexive(t.members[i].value, caseSensitive);
      }
    }
  }

  /** So a tree without repeated keys equals its copy, whatever its numbers. */
  lemma {:induction false} NoRepeatsAgree(t: Json, caseSensitive: bool)
    requires NoRepeats(t, caseSensitive)
    ensures RepeatsAgree(t, caseSensitive) && Equal(t, t, caseSensitive)
    decreases Nesting(t)
  {
    if t.Array? {
      ItemsNesting(t, 0);
      forall i | 0 <= i < |t.items|
        ensures RepeatsAgree(t.items[i], caseSensitive)
      {
        NoRepeatsAgree(t.items[i], caseSensitive);
      }
    } else if t.Object? {
      MembersNesting(t, 0);
      forall i | 0 <= i < |t.members|
        ensures RepeatsAgree(t.members[i].value, caseSensitive)
        ensures Find(t.members, t.members[i].key, caseSensitive, 0) == Some(i)
      {
        NoRepeatsAgree(t.members[i].value, caseSensitive);
        FindDistinct(t.members, t.members[i].key, caseSensitive, i);
      }
    }
    EqualReflexive(t, caseSensitive);
  }

  /** With a repeated key the lookup always finds the first member, so a tree may differ from its copy. */
  lemma RepeatedKeysNotReflexive(key: ByteString, caseSensitive: bool)
    ensures var t := Object([Member(key, Null), Member(key, True)]);
            !Equal(t, t, caseSensitive) && Same(t, t, caseSensitive)
  {
    var t := Object([Member(key, Null), Member(key, True)]);
    FirstOfTwo(t.members, key, caseSensitive);
    SameReflexive(t, caseSensitive);
    NotCovered(t, caseSensitive);
  }

  lemma NotCovered(t: Json, caseSensitive: bool)
    requires t.Object? && |t.members| == 2 && t.members[0].value == Null && t.members[1].value == True
    requires Find(t.members, t.members[1].key, caseSensitive, 0) == Some(0)
    ensures !Equal(t, t, caseSensitive)
  {
    hide Find, KeyMatches, Nesting;
    assert !Equal(True, Null, caseSensitive);
    assert !Covers(t, t, caseSensitive);
  }

  lemma FirstOfTwo(members: seq<Member>, key: ByteString, caseSensitive: bool)
    requires members != [] && members[0].key == key
    ensures Find(members, key, caseSensitive, 0) == Some(0)
  {
  }
}
