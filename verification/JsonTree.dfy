/** Whole trees of nodes on the heap: the value they stand for, comparison and copying. */
module JsonTree {
  import opened Bytes
  import opened Wrappers
  import opened JsonText
  import opened JsonRoundTrip
  import opened JsonCompare
  import opened JsonNode
  import opened Memory

  /** The nodes of the tree under n form a tree: subtrees of different children share no node. */
  ghost predicate Valid(n: Node)
    reads n`child, n`kids, n`repr, n.repr - {n}
    decreases n.repr
  {
    Owns(n) && n.Linked()
  }

  ghost predicate Owns(n: Node)
    reads n`kids, n`repr, n.repr - {n}
    decreases n.repr, 0
  {
    && n in n.repr
    && (forall i | 0 <= i < |n.kids| ::
          n.kids[i] in n.repr && n.kids[i] != n && n.kids[i].repr <= n.repr - {n} && Valid(n.kids[i]))
    && (forall i, j | 0 <= i < j < |n.kids| :: n.kids[i].repr !! n.kids[j].repr)
  }

  /** The value of the tree. Children of a node that is no container do not matter. */
  ghost function Tree(n: Node): Json
    requires Valid(n)
    reads n`kind, n`number, n`text, n`child, n`kids, n`repr, n.repr - {n}
    decreases n.repr
  {
    match n.kind
    case NullKind => Null
    case FalseKind => False
    case TrueKind => True
    case NumberKind => Number(n.number)
    case StringKind => String(n.text)
    case ArrayKind => Array(Items(n, 0))
    case ObjectKind => Object(Members(n, 0))
  }

  /** A well-formed tree of nodes for this value. */
  ghost predicate Stands(n: Node, t: Json)
    reads n, n.repr
  {
    Valid(n) && Tree(n) == t
  }

  ghost function Items(n: Node, i: nat): (items: seq<Json>)
    requires Owns(n) && i <= |n.kids|
    reads n`kids, n`repr, n.repr - {n}
    ensures |items| == |n.kids| - i
    ensures forall k {:trigger items[k]} | 0 <= k < |items| :: items[k] == Tree(n.kids[i + k])
    decreases n.repr, 0, |n.kids| - i
  {
    if i == |n.kids| then [] else [Tree(n.kids[i])] + Items(n, i + 1)
  }

  ghost function Members(n: Node, i: nat): (members: seq<Member>)
    requires Owns(n) && i <= |n.kids|
    reads n`kids, n`repr, n.repr - {n}
    ensures |members| == |n.kids| - i
    ensures forall k {:trigger members[k]} | 0 <= k < |members| ::
              members[k] == Member(n.kids[i + k].key, Tree(n.kids[i + k]))
    decreases n.repr, 0, |n.kids| - i
  {
    if i == |n.kids| then [] else [Member(n.kids[i].key, Tree(n.kids[i]))] + Members(n, i + 1)
  }

  /** The first child with this key. */
  method GetObjectItem(parent: Node?, name: ByteString, caseSensitive: bool) returns (item: Node?)
    requires parent != null ==> Valid(parent)
    ensures parent == null ==> item == null
    ensures parent != null ==>
              var at := Find(Members(parent, 0), name, caseSensitive, 0);
              item == if at.Some? then parent.kids[at.value] else null
  {
    if parent == null {
      return null;
    }
    item := parent.child;
    ghost var i := 0;
    ghost var members := Members(parent, 0);
    while item != null && !KeyMatches(name, item.key, caseSensitive)
      invariant 0 <= i <= |members|
      invariant item == if i < |members| then parent.kids[i] else null
      invariant Find(members, name, caseSensitive, 0) == Find(members, name, caseSensitive, i)
      decreases |members| - i
    {
      assert members[i].key == item.key;
      assert item.next == Successor(parent.kids, i);
      item := item.next;
      i := i + 1;
    }
    if item != null {
      assert members[i].key == item.key;
    }
  }

  /** No node is met on both sides, or if one is, it equals itself because no key is repeated. */
  ghost predicate Apart(a: Node, b: Node, caseSensitive: bool)
    requires Valid(a) && Valid(b)
    reads a, a.repr, b, b.repr
  {
    a.repr !! b.repr || NoRepeats(Tree(a), caseSensitive) || NoRepeats(Tree(b), caseSensitive)
  }

  /**
   Trees that are equal always compare equal. Others do not, except that a node compares equal to itself even
   where a copy of it would not: the same one given twice, or met on both sides in trees that are not apart.
   */
  method Compare(a: Node?, b: Node?, caseSensitive: bool) returns (same: bool)
    requires a != null ==> Valid(a)
    requires b != null ==> Valid(b)
    ensures a == null || b == null ==> !same
    ensures a != null && b != null && (a == b || Equal(Tree(a), Tree(b), caseSensitive)) ==> same
    ensures a != null && b != null && a != b && same && Apart(a, b, caseSensitive) ==>
              Equal(Tree(a), Tree(b), caseSensitive)
    decreases Depth(a) + Depth(b), 2
  {
    hide *;
    if a == null || b == null {
      return false;
    }
    EqualByKind(a, b, caseSensitive);
    if a.kind != b.kind {
      return false;
    }
    if a == b {
      return true;
    }
    match a.kind
    case NullKind => same := true;
    case FalseKind => same := true;
    case TrueKind => same := true;
    case NumberKind => same := CompareDouble(a.number, b.number);
    case StringKind => same := a.text == b.text;
    case ArrayKind => same := CompareArrays(a, b, caseSensitive);
    case ObjectKind =>
      same := CompareObjects(a, b, caseSensitive);
      if same {
        ApartIs(a, b, caseSensitive);
        ApartIs(b, a, caseSensitive);
        same := CompareObjects(b, a, caseSensitive);
      }
  }

  ghost function Depth(n: Node?): nat
    reads n, if n == null then {} else n.repr
  {
    if n != null && Valid(n) then Nesting(Tree(n)) else 0
  }

  lemma EqualByKind(a: Node, b: Node, caseSensitive: bool)
    requires Valid(a) && Valid(b)
    ensures var s, t := Tree(a), Tree(b);
            if a.kind != b.kind then !Equal(s, t, caseSensitive) else
            match a.kind
            case NullKind => Equal(s, t, caseSensitive)
            case FalseKind => Equal(s, t, caseSensitive)
            case TrueKind => Equal(s, t, caseSensitive)
            case NumberKind => Equal(s, t, caseSensitive) == CompareDouble(a.number, b.number)
            case StringKind => Equal(s, t, caseSensitive) == (a.text == b.text)
            case ArrayKind => s.Array? && t.Array? && Equal(s, t, caseSensitive) == EqualItems(s, t, caseSensitive)
            case ObjectKind =>
              s.Object? && t.Object? &&
              Equal(s, t, caseSensitive) == (Covers(s, t, caseSensitive) && Covers(t, s, caseSensitive))
  {
    hide Valid, Items, Members, Nesting, EqualItems, Covers;
  }

  method CompareArrays(a: Node, b: Node, caseSensitive: bool) returns (same: bool)
    requires Valid(a) && Valid(b) && a.kind == ArrayKind && b.kind == ArrayKind
    ensures EqualItems(Tree(a), Tree(b), caseSensitive) ==> same
    ensures same && Apart(a, b, caseSensitive) ==> EqualItems(Tree(a), Tree(b), caseSensitive)
    decreases Depth(a) + Depth(b), 0
  {
    hide *;
    FirstItem(a);
    FirstItem(b);
    ghost var s, t := Tree(a), Tree(b);
    var aElement, bElement := a.child, b.child;
    ghost var i := 0;
    while aElement != null && bElement != null
      invariant 0 <= i <= |s.items| && i <= |t.items|
      invariant aElement == if i < |s.items| then a.kids[i] else null
      invariant bElement == if i < |t.items| then b.kids[i] else null
      invariant Apart(a, b, caseSensitive) ==>
                  forall k | 0 <= k < i :: Equal(s.items[k], t.items[k], caseSensitive)
      decreases |s.items| - i
    {
      ItemStep(a, b, i, caseSensitive);
      var equal := Compare(aElement, bElement, caseSensitive);
      if !equal {
        return false;
      }
      aElement, bElement := aElement.next, bElement.next;
      i := i + 1;
    }
    ItemsCompared(s, t, caseSensitive);
    return aElement == bElement;
  }

  lemma FirstItem(n: Node)
    requires Valid(n) && n.kind == ArrayKind
    ensures Tree(n).Array? && |Tree(n).items| == |n.kids|
    ensures n.child == if |n.kids| > 0 then n.kids[0] else null
  {
  }

  lemma ItemStep(a: Node, b: Node, i: nat, caseSensitive: bool)
    requires Valid(a) && Valid(b) && a.kind == ArrayKind && b.kind == ArrayKind
    requires i < |a.kids| && i < |b.kids|
    ensures Valid(a.kids[i]) && a.kids[i].next == if i + 1 < |a.kids| then a.kids[i + 1] else null
    ensures Valid(b.kids[i]) && b.kids[i].next == if i + 1 < |b.kids| then b.kids[i + 1] else null
    ensures Depth(a.kids[i]) + Depth(b.kids[i]) < Depth(a) + Depth(b)
    ensures Apart(a, b, caseSensitive) ==>
              && Apart(a.kids[i], b.kids[i], caseSensitive)
              && (a.kids[i] == b.kids[i] ==> Equal(Tree(a.kids[i]), Tree(b.kids[i]), caseSensitive))
    ensures var s, t := Tree(a), Tree(b);
            && s.Array? && t.Array? && i < |s.items| && i < |t.items|
            && s.items[i] == Tree(a.kids[i]) && t.items[i] == Tree(b.kids[i])
            && (EqualItems(s, t, caseSensitive) ==> Equal(s.items[i], t.items[i], caseSensitive))
  {
    hide *;
    NextChild(a, i);
    NextChild(b, i);
    ItemAt(a, i);
    ItemAt(b, i);
    ChildDepth(a, i);
    ChildDepth(b, i);
    if Apart(a, b, caseSensitive) {
      ChildrenApart(a, b, i, i, caseSensitive);
    }
    EqualAt(Tree(a), Tree(b), i, caseSensitive);
  }

  lemma FirstMember(n: Node)
    requires Valid(n) && n.kind == ObjectKind
    ensures Tree(n).Object? && Tree(n).members == Members(n, 0)
    ensures n.child == if |n.kids| > 0 then n.kids[0] else null
  {
  }

  lemma NextChild(n: Node, i: nat)
    requires Valid(n) && i < |n.kids|
    ensures Valid(n.kids[i]) && n.kids[i].next == if i + 1 < |n.kids| then n.kids[i + 1] else null
  {
    assert n.kids[i].next == Successor(n.kids, i);
  }

  lemma {:induction false} InRepr(n: Node)
    requires Valid(n)
    ensures n in n.repr
  {
  }

  lemma ChildDepth(n: Node, i: nat)
    requires Valid(n) && i < |n.kids| && (n.kind == ArrayKind || n.kind == ObjectKind)
    ensures Valid(n.kids[i]) && Depth(n.kids[i]) < Depth(n)
  {
    NextChild(n, i);
    if n.kind == ArrayKind {
      ItemAt(n, i);
      ItemsNesting(Tree(n), 0);
    } else {
      MemberAt(n, i);
      MembersNesting(Tree(n), 0);
    }
    hide Valid, Tree, Nesting;
  }

  /** What holds of two containers holds of their children. */
  lemma ChildrenApart(a: Node, b: Node, i: nat, j: nat, caseSensitive: bool)
    requires Valid(a) && Valid(b) && Apart(a, b, caseSensitive) && a.kind == b.kind
    requires (a.kind == ArrayKind || a.kind == ObjectKind) && i < |a.kids| && j < |b.kids|
    ensures Valid(a.kids[i]) && Valid(b.kids[j]) && Apart(a.kids[i], b.kids[j], caseSensitive)
    ensures a.kids[i] == b.kids[j] ==> Equal(Tree(a.kids[i]), Tree(b.kids[j]), caseSensitive)
  {
    ChildRepeats(a, i, caseSensitive);
    ChildRepeats(b, j, caseSensitive);
    InRepr(a.kids[i]);
    hide *;
    ApartIs(a, b, caseSensitive);
    ApartIs(a.kids[i], b.kids[j], caseSensitive);
    if NoRepeats(Tree(a.kids[i]), caseSensitive) {
      NoRepeatsAgree(Tree(a.kids[i]), caseSensitive);
    } else if NoRepeats(Tree(b.kids[j]), caseSensitive) {
      NoRepeatsAgree(Tree(b.kids[j]), caseSensitive);
    }
  }

  lemma ApartIs(a: Node, b: Node, caseSensitive: bool)
    requires Valid(a) && Valid(b)
    ensures Apart(a, b, caseSensitive) <==>
            a.repr !! b.repr || NoRepeats(Tree(a), caseSensitive) || NoRepeats(Tree(b), caseSensitive)
  {
    hide Valid, Tree, NoRepeats;
  }

  lemma ChildRepeats(n: Node, i: nat, caseSensitive: bool)
    requires Valid(n) && i < |n.kids| && (n.kind == ArrayKind || n.kind == ObjectKind)
    ensures Valid(n.kids[i]) && n.kids[i].repr <= n.repr
    ensures NoRepeats(Tree(n), caseSensitive) ==> NoRepeats(Tree(n.kids[i]), caseSensitive)
  {
    NextChild(n, i);
    if n.kind == ArrayKind {
      ItemAt(n, i);
    } else {
      MemberAt(n, i);
    }
  }

  lemma ItemAt(n: Node, i: nat)
    requires Valid(n) && n.kind == ArrayKind && i < |n.kids|
    ensures Valid(n.kids[i])
    ensures Tree(n).Array? && i < |Tree(n).items| && Tree(n).items[i] == Tree(n.kids[i])
  {
  }

  lemma EqualAt(a: Json, b: Json, i: nat, caseSensitive: bool)
    requires a.Array? && b.Array? && i < |a.items| && i < |b.items|
    ensures EqualItems(a, b, caseSensitive) ==> Equal(a.items[i], b.items[i], caseSensitive)
  {
    hide Nesting;
  }

  lemma ItemsCompared(a: Json, b: Json, caseSensitive: bool)
    requires a.Array? && b.Array?
    ensures |a.items| != |b.items| ==> !EqualItems(a, b, caseSensitive)
    ensures |a.items| == |b.items| &&
              (forall k | 0 <= k < |a.items| :: Equal(a.items[k], b.items[k], caseSensitive)) ==>
              EqualItems(a, b, caseSensitive)
  {
    hide Nesting;
  }

  /** Looks every member of a up in b. */
  method CompareObjects(a: Node, b: Node, caseSensitive: bool) returns (same: bool)
    requires Valid(a) && Valid(b) && a.kind == ObjectKind && b.kind == ObjectKind
    ensures Covers(Tree(a), Tree(b), caseSensitive) ==> same
    ensures same && Apart(a, b, caseSensitive) ==> Covers(Tree(a), Tree(b), caseSensitive)
    decreases Depth(a) + Depth(b), 1
  {
    hide *;
    FirstMember(a);
    FirstMember(b);
    ghost var s, t := Tree(a), Tree(b);
    var aElement := a.child;
    ghost var i := 0;
    while aElement != null
      invariant 0 <= i <= |s.members|
      invariant aElement == if i < |s.members| then a.kids[i] else null
      invariant Apart(a, b, caseSensitive) ==> forall k | 0 <= k < i :: FoundEqual(s, t, caseSensitive, k)
      decreases |s.members| - i
    {
      NextChild(a, i);
      var equal := CompareMember(a, aElement, b, caseSensitive, i);
      if !equal {
        NotFound(s, t, caseSensitive, i);
        return false;
      }
      aElement := aElement.next;
      i := i + 1;
    }
    if Apart(a, b, caseSensitive) {
      CoversFrom(s, t, caseSensitive);
    }
    return true;
  }

  /** The body of the loop over the members of a. */
  method CompareMember(a: Node, aElement: Node, b: Node, caseSensitive: bool, ghost i: nat) returns (equal: bool)
    requires Valid(a) && Valid(b) && a.kind == ObjectKind && b.kind == ObjectKind
    requires i < |a.kids| && aElement == a.kids[i]
    ensures FoundEqual(Tree(a), Tree(b), caseSensitive, i) ==> equal
    ensures equal && Apart(a, b, caseSensitive) ==> FoundEqual(Tree(a), Tree(b), caseSensitive, i)
    decreases Depth(a) + Depth(b), 0
  {
    hide *;
    MemberAt(a, i);
    FirstMember(b);
    var bElement := GetObjectItem(b, aElement.key, caseSensitive);
    ghost var at := Find(Tree(b).members, aElement.key, caseSensitive, 0);
    if bElement == null {
      LookedUp(Tree(a), Tree(b), caseSensitive, i, at);
      return false;
    }
    MemberAt(b, at.value);
    ChildDepth(a, i);
    ChildDepth(b, at.value);
    if Apart(a, b, caseSensitive) {
      ChildrenApart(a, b, i, at.value, caseSensitive);
    }
    equal := Compare(aElement, bElement, caseSensitive);
    LookedUp(Tree(a), Tree(b), caseSensitive, i, at);
  }

  lemma MemberAt(n: Node, i: nat)
    requires Valid(n) && n.kind == ObjectKind && i < |n.kids|
    ensures Valid(n.kids[i])
    ensures Tree(n).Object? && i < |Tree(n).members| && Tree(n).members[i] == Member(n.kids[i].key, Tree(n.kids[i]))
  {
  }

  lemma LookedUp(a: Json, b: Json, caseSensitive: bool, i: nat, at: Option<nat>)
    requires a.Object? && b.Object? && i < |a.members|
    requires Find(b.members, a.members[i].key, caseSensitive, 0) == at
    ensures FoundEqual(a, b, caseSensitive, i) ==
            (at.Some? && Equal(a.members[i].value, b.members[at.value].value, caseSensitive))
  {
  }

  lemma NotFound(a: Json, b: Json, caseSensitive: bool, i: nat)
    requires a.Object? && b.Object? && i < |a.members|
    ensures Covers(a, b, caseSensitive) ==> FoundEqual(a, b, caseSensitive, i)
  {
    hide Find, Nesting;
  }

  // ----- Copying -----

  /** A list of children still open at its end: the first child does not yet point to the last. */
  ghost predicate OpenList(first: Node?, kids: seq<Node>)
    reads kids`next, kids`prev
  {
    && first == (if kids == [] then null else kids[0])
    && Distinct(kids) && NextLinks(kids)
    && forall i {:trigger kids[i].prev} | 0 < i < |kids| :: kids[i].prev == kids[i - 1]
  }

  /** n is a tree with these children. */
  ghost predicate Holds(n: Node, members: seq<Member>)
    reads n`child, n`kids, n`repr, n.repr - {n}
  {
    Valid(n) && Members(n, 0) == members
  }

  datatype Household = Household(parent: Node, kids: seq<Node>, repr: set<Node>, members: seq<Member>)

  /** Nodes that can be the children of a parent: trees of their own within repr, with these keys and values. */
  ghost predicate Family(h: Household)
    reads h.repr - {h.parent}
  {
    && h.parent in h.repr && |h.members| == |h.kids|
    && (forall i | 0 <= i < |h.kids| ::
          && h.kids[i] in h.repr - {h.parent} && h.kids[i] in h.kids[i].repr && h.kids[i].repr <= h.repr - {h.parent}
          && Valid(h.kids[i])
          && h.members[i] == Member(h.kids[i].key, Tree(h.kids[i])))
    && (forall i, j | 0 <= i < j < |h.kids| :: h.kids[i].repr !! h.kids[j].repr)
  }

  /** n is being given these children, its list still open. */
  ghost predicate Building(n: Node, members: seq<Member>)
    reads n`child, n`kids, n`repr, n.repr - {n}
  {
    Family(Household(n, n.kids, n.repr, members)) && OpenList(n.child, n.kids)
  }

  /**
   A copy, with everything below when recurse is set; there is none exactly when memory is refused. No
   node of the original is touched, and none is shared.
   */
  method Duplicate(item: Node?, recurse: bool, memory: Allocator) returns (copy: Node?)
    requires item != null ==> Valid(item)
    modifies memory
    ensures memory.Refused() >= old(memory.Refused())
    ensures copy == null <==> item == null || memory.Refused() > old(memory.Refused())
    ensures copy != null ==>
              && Valid(copy) && fresh(copy.repr) && copy.next == null && copy.prev == null
              && copy.kind == item.kind && copy.number == item.number && copy.text == item.text && copy.key == item.key
              && |copy.kids| == (if recurse then |item.kids| else 0)
    ensures copy != null && recurse ==> Tree(copy) == Tree(item)
    decreases if item == null then {} else item.repr, 2
  {
    if item == null {
      return null;
    }
    ghost var members := Members(item, 0);
    assert Holds(item, members);
    hide *;
    copy := CopyLeaf(item, memory);
    if copy != null && recurse {
      var copied := DuplicateChildren(item, copy, memory, members);
      if !copied {
        return null;
      }
      SameTree(copy, item, members);
    }
  }

  /** Copies the node itself. */
  method CopyLeaf(item: Node, memory: Allocator) returns (newItem: Node?)
    modifies memory
    ensures memory.Refused() >= old(memory.Refused()) && (newItem == null <==> memory.Refused() > old(memory.Refused()))
    ensures newItem != null ==>
              && fresh(newItem) && Valid(newItem) && newItem.repr == {newItem} && newItem.kids == []
              && newItem.child == null && newItem.next == null && newItem.prev == null
              && newItem.kind == item.kind && newItem.number == item.number
              && newItem.text == item.text && newItem.key == item.key
  {
    hide *;
    var granted := memory.Ask();
    if !granted {
      return null;
    }
    newItem := new Node(item.kind);
    newItem.number := item.number;
    newItem.text := item.text;
    newItem.key := item.key;
    granted := memory.Ask();
    if !granted {
      return null;
    }
    LeafValid(newItem);
  }

  /** The end of a list built outside its parent: the circle is closed and the parent takes the children. */
  method Adopt(item: Node, head: Node?, last: Node?, ghost h: Household)
    requires h.parent == item && Family(h) && OpenList(head, h.kids)
    requires last == if |h.kids| > 0 then h.kids[|h.kids| - 1] else null
    modifies item`child, item`kids, item`repr, (if head == null then {} else {head})`prev
    ensures Holds(item, h.members) && item.repr == h.repr
  {
    FamilyInside(h, head);
    hide Family, OpenList, Valid, Tree, Holds, Distinct, NextLinks, PrevLinks;
    CloseChain(head, last, h.kids);
    LinksUnseen(h);
    item.child := head;
    item.kids, item.repr := h.kids, h.repr;
    NowHolds(item, h.members);
  }

  lemma FamilyInside(h: Household, head: Node?)
    requires Family(h) && OpenList(head, h.kids)
    ensures h.parent !in h.kids && forall k | k in h.kids :: k in h.repr
    ensures head == if h.kids == [] then null else h.kids[0]
  {
  }

  lemma LeafValid(n: Node)
    requires n.child == null && n.kids == [] && n.repr == {n}
    ensures Valid(n)
  {
  }

  /** The first i children have been copied. */
  ghost predicate Copied(item: Node, newItem: Node, members: seq<Member>, i: nat, last: Node?)
    reads item`child, item`kids, item`repr, item.repr - {item}, newItem`child, newItem`kids, newItem`repr,
          newItem.repr - {newItem}
  {
    && Holds(item, members) && i <= |item.kids| == |members|
    && newItem in newItem.repr && newItem.repr !! item.repr
    && Building(newItem, members[..i]) && |newItem.kids| == i
    && last == (if i > 0 then newItem.kids[i - 1] else null)
  }

  /** The loop over the children of the original. */
  method DuplicateChildren(item: Node, newItem: Node, memory: Allocator, ghost members: seq<Member>)
    returns (copied: bool)
    requires Holds(item, members) && newItem !in item.repr
    requires newItem.child == null && newItem.kids == [] && newItem.repr == {newItem}
    modifies newItem`child, newItem`kids, newItem`repr, memory
    ensures memory.Refused() >= old(memory.Refused()) && (copied <==> memory.Refused() == old(memory.Refused()))
    ensures copied ==> Holds(item, members) && Holds(newItem, members)
    ensures fresh(newItem.repr - {newItem})
    decreases item.repr, 1
  {
    StartCopy(item, newItem, members);
    hide *;
    var child := item.child;
    var last: Node? := null;
    ghost var i := 0;
    while child != null
      invariant Copied(item, newItem, members, i, last) && fresh(newItem.repr - {newItem})
      invariant 0 <= i <= |item.kids| && child == if i < |item.kids| then item.kids[i] else null
      invariant memory.Refused() == old(memory.Refused())
      decreases |item.kids| - i
    {
      last := DuplicateChild(item, child, newItem, last, memory, members, i);
      if last == null {
        return false;
      }
      child := child.next;
      i := i + 1;
    }
    FinishCopy(item, newItem, members, last);
    return true;
  }

  method FinishCopy(ghost item: Node, newItem: Node, ghost members: seq<Member>, last: Node?)
    requires Copied(item, newItem, members, |item.kids|, last)
    modifies newItem.repr - {newItem}
    ensures Holds(item, members) && Holds(newItem, members)
  {
    hide *;
    CopyGoesOn(item, newItem, members, |item.kids|, last);
    CopyDone(item, newItem, members, last);
    CloseList(newItem, last, members);
  }

  /** Copies child i and links the copy in. */
  method DuplicateChild(ghost item: Node, child: Node, newItem: Node, last: Node?, memory: Allocator,
                        ghost members: seq<Member>, ghost i: nat)
    returns (newChild: Node?)
    requires Copied(item, newItem, members, i, last) && i < |item.kids| && child == item.kids[i]
    modifies newItem`child, newItem`kids, newItem`repr, newItem.repr - {newItem}, memory
    ensures memory.Refused() >= old(memory.Refused()) &&
              (newChild == null <==> memory.Refused() > old(memory.Refused()))
    ensures newChild != null ==>
              && Copied(item, newItem, members, i + 1, newChild)
              && fresh(newItem.repr - old(newItem.repr)) && old(newItem.repr) <= newItem.repr
              && child.next == if i + 1 < |item.kids| then item.kids[i + 1] else null
    ensures newChild == null ==> unchanged(newItem)
    decreases item.repr, 0
  {
    hide *;
    CopyGoesOn(item, newItem, members, i, last);
    ChildInside(item, members, i);
    newChild := Duplicate(child, true, memory);
    if newChild != null {
      InRepr(newChild);
      AppendCopy(newItem, last, newChild, members[..i]);
      NowCopied(item, newItem, members, i + 1, newChild);
    }
  }

  lemma StartCopy(item: Node, newItem: Node, members: seq<Member>)
    requires Holds(item, members) && newItem !in item.repr
    requires newItem.child == null && newItem.kids == [] && newItem.repr == {newItem}
    ensures Copied(item, newItem, members, 0, null)
    ensures item.child == if |item.kids| > 0 then item.kids[0] else null
  {
    FirstChild(item);
    StartList(newItem);
    assert members[..0] == [];
  }

  lemma CopyGoesOn(item: Node, newItem: Node, members: seq<Member>, i: nat, last: Node?)
    requires Copied(item, newItem, members, i, last)
    ensures Holds(item, members) && i <= |item.kids| == |members| && item in item.repr
    ensures newItem in newItem.repr && newItem.repr !! item.repr
    ensures Building(newItem, members[..i]) && |newItem.kids| == i
    ensures last == if i > 0 then newItem.kids[i - 1] else null
  {
    assert Valid(item);
    InRepr(item);
    hide Holds, Building;
  }

  lemma NowCopied(item: Node, newItem: Node, members: seq<Member>, i: nat, last: Node?)
    requires Holds(item, members) && i <= |item.kids| == |members|
    requires newItem in newItem.repr && newItem.repr !! item.repr
    requires Building(newItem, members[..i]) && |newItem.kids| == i
    requires last == if i > 0 then newItem.kids[i - 1] else null
    ensures Copied(item, newItem, members, i, last)
  {
    hide Holds, Building;
  }

  lemma CopyDone(item: Node, newItem: Node, members: seq<Member>, last: Node?)
    requires Copied(item, newItem, members, |item.kids|, last)
    ensures Holds(item, members) && Building(newItem, members)
    ensures last == if |newItem.kids| > 0 then newItem.kids[|newItem.kids| - 1] else null
  {
    hide Holds, Building;
    assert members[..|item.kids|] == members;
  }

  lemma FirstChild(n: Node)
    requires Valid(n)
    ensures |Members(n, 0)| == |n.kids| && n.child == if |n.kids| > 0 then n.kids[0] else null
  {
  }

  lemma ChildInside(n: Node, members: seq<Member>, i: nat)
    requires Holds(n, members) && i < |n.kids| == |members|
    ensures Valid(n.kids[i]) && n.kids[i].next == if i + 1 < |n.kids| then n.kids[i + 1] else null
    ensures n in n.repr && n.kids[i] in n.repr && n.kids[i].repr < n.repr
    ensures members[..i + 1] == members[..i] + [Member(n.kids[i].key, Tree(n.kids[i]))]
  {
    assert Valid(n) && Owns(n);
    NextChild(n, i);
    InRepr(n);
  }

  lemma StartList(n: Node)
    requires n.child == null && n.kids == [] && n.repr == {n}
    ensures Building(n, [])
  {
  }

  /** The pointer writes of the copying loop. */
  method AppendCopy(newItem: Node, last: Node?, newChild: Node, ghost members: seq<Member>)
    requires Building(newItem, members) && Valid(newChild) && newChild.repr !! newItem.repr
    requires newChild.next == null
    requires last == if |newItem.kids| > 0 then newItem.kids[|newItem.kids| - 1] else null
    modifies newItem`child, newItem`kids, newItem`repr, newItem.repr - {newItem}, newChild`prev
    ensures Building(newItem, members + [Member(newChild.key, old(Tree(newChild)))])
    ensures newItem.kids == old(newItem.kids) + [newChild] && newItem.repr == old(newItem.repr) + newChild.repr
  {
    ghost var h := Household(newItem, newItem.kids, newItem.repr, members);
    ghost var longer := Joined(h, newChild);
    hide Family, OpenList, Valid, Tree, Joined;
    Grown(h, newChild);
    newItem.child := Attach(newItem.child, last, newChild, newItem.kids, longer);
    newItem.kids, newItem.repr := longer.kids, longer.repr;
  }

  /** The household with one more child. */
  ghost function Joined(h: Household, newChild: Node): Household
    requires Valid(newChild)
    reads newChild, newChild.repr
  {
    h.(kids := h.kids + [newChild], repr := h.repr + newChild.repr,
       members := h.members + [Member(newChild.key, Tree(newChild))])
  }

  lemma Grown(h: Household, newChild: Node)
    requires Family(h) && Valid(newChild) && newChild.repr !! h.repr
    ensures Family(Joined(h, newChild))
    ensures h.parent in h.repr && h.parent !in h.kids && newChild !in h.kids && h.parent != newChild
    ensures forall k | k in h.kids :: k in h.repr
    ensures var longer := Joined(h, newChild);
            && longer.parent == h.parent && longer.kids == h.kids + [newChild] && longer.repr == h.repr + newChild.repr
            && longer.members == h.members + [Member(newChild.key, Tree(newChild))]
  {
    InRepr(newChild);
  }

  method CloseList(newItem: Node, last: Node?, ghost members: seq<Member>)
    requires Building(newItem, members)
    requires last == if |newItem.kids| > 0 then newItem.kids[|newItem.kids| - 1] else null
    modifies newItem.repr - {newItem}
    ensures Holds(newItem, members)
  {
    ghost var h := Household(newItem, newItem.kids, newItem.repr, members);
    FamilyInside(h, newItem.child);
    hide Family, OpenList, Valid, Tree, Holds, Distinct, NextLinks, PrevLinks;
    CloseChain(newItem.child, last, newItem.kids);
    LinksUnseen(h);
    NowHolds(newItem, members);
  }

  lemma NowHolds(n: Node, members: seq<Member>)
    requires Family(Household(n, n.kids, n.repr, members)) && n.Linked()
    ensures Holds(n, members)
  {
  }

  /** The first child is made to point to the last. */
  method CloseChain(head: Node?, last: Node?, ghost kids: seq<Node>)
    requires OpenList(head, kids)
    requires last == if |kids| > 0 then kids[|kids| - 1] else null
    modifies (if head == null then {} else {head})`prev
    ensures Distinct(kids) && NextLinks(kids) && PrevLinks(kids)
  {
    if head != null {
      head.prev := last;
    }
  }

  /** Changing the links among the children does not show in their values. */
  twostate lemma LinksUnseen(h: Household)
    requires old(Family(h)) && forall k | k in h.kids :: SameValue(k)
    requires Untouched(set m | m in h.repr && m != h.parent && m !in h.kids)
    ensures Family(h)
  {
    forall i | 0 <= i < |h.kids|
      ensures Valid(h.kids[i]) && Tree(h.kids[i]) == old(Tree(h.kids[i]))
    {
      StillValid(h.kids[i]);
    }
  }

  /** Links a node in behind the last one, or starts the list with it. */
  method LinkLast(head: Node?, last: Node?, newChild: Node, ghost kids: seq<Node>) returns (first: Node)
    requires OpenList(head, kids) && newChild.next == null && newChild !in kids
    requires last == if |kids| > 0 then kids[|kids| - 1] else null
    modifies (if last == null then {} else {last})`next, newChild`prev
    ensures OpenList(first, kids + [newChild])
  {
    if last == null {
      return newChild;
    }
    last.next := newChild;
    newChild.prev := last;
    return head;
  }

  /** The same, seen from a household that has these children: it stays one. */
  method Attach(head: Node?, last: Node?, newChild: Node, ghost kids: seq<Node>, ghost h: Household)
    returns (first: Node)
    requires OpenList(head, kids) && newChild.next == null && newChild !in kids
    requires last == if |kids| > 0 then kids[|kids| - 1] else null
    requires Family(h) && (forall k | k in kids :: k in h.kids) && (newChild in h.kids || newChild !in h.repr)
    modifies (if last == null then {} else {last})`next, newChild`prev
    ensures OpenList(first, kids + [newChild]) && Family(h)
  {
    hide Family, OpenList;
    first := LinkLast(head, last, newChild, kids);
    LinksUnseen(h);
  }

  /** Only the links to the neighbours may have changed. */
  twostate predicate SameValue(n: Node)
    reads n
  {
    && n.kind == old(n.kind) && n.number == old(n.number) && n.text == old(n.text) && n.key == old(n.key)
    && n.child == old(n.child) && n.kids == old(n.kids) && n.repr == old(n.repr)
  }

  twostate predicate Untouched(nodes: set<Node>)
    reads nodes
  {
    unchanged(nodes)
  }

  /** Validity and value do not depend on a node's own place in its list. */
  twostate lemma StillValid(n: Node)
    requires old(Valid(n))
    requires SameValue(n) && Untouched(old(n.repr) - {n})
    ensures Valid(n) && Tree(n) == old(Tree(n))
  {
  }

  lemma SameTree(a: Node, b: Node, members: seq<Member>)
    requires Holds(a, members) && Holds(b, members)
    requires a.kind == b.kind && a.number == b.number && a.text == b.text
    ensures Valid(a) && Valid(b) && |a.kids| == |b.kids| && Tree(a) == Tree(b)
  {
    var x, y := Items(a, 0), Items(b, 0);
    forall k | 0 <= k < |members|
      ensures x[k] == y[k]
    {
      assert members[k].value == x[k] == y[k];
    }
  }
}
