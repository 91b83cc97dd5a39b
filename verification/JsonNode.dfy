/**
 The nodes of a parsed tree on the heap. The children of a node form a list linked both ways whose
 first node points back to the last one.
 */
module JsonNode {
  import opened Bytes

  datatype Kind = NullKind | FalseKind | TrueKind | NumberKind | StringKind | ArrayKind | ObjectKind

  class Node {
    var kind: Kind
    var number: real
    var text: ByteString
    var key: ByteString
    var next: Node?
    var prev: Node?
    var child: Node?
    /** The children in order. */
    ghost var kids: seq<Node>
    /** Every node of the tree below and including this one. */
    ghost var repr: set<Node>

    constructor (kind: Kind)
      ensures this.kind == kind && next == null && prev == null && child == null
      ensures kids == [] && repr == {this} && number == 0.0 && text == [] && key == []
    {
      this.kind := kind;
      next, prev, child := null, null, null;
      number, text, key := 0.0, [], [];
      kids, repr := [], {this};
    }

    /** The links of the children agree with their order: no cycle, prev inverse to next, first.prev the last. */
    ghost predicate Linked()
      reads `child, `kids, kids
    {
      && child == (if kids == [] then null else kids[0])
      && this !in kids
      && Distinct(kids) && NextLinks(kids) && PrevLinks(kids)
    }
  }

  ghost predicate Distinct(kids: seq<Node>) {
    forall i, j | 0 <= i < j < |kids| :: kids[i] != kids[j]
  }

  ghost predicate NextLinks(kids: seq<Node>)
    reads kids`next
  {
    forall i {:trigger kids[i].next} | 0 <= i < |kids| :: kids[i].next == Successor(kids, i)
  }

  ghost predicate PrevLinks(kids: seq<Node>)
    reads kids`prev
  {
    forall i {:trigger kids[i].prev} | 0 <= i < |kids| :: kids[i].prev == Predecessor(kids, i)
  }

  function Without<T>(s: seq<T>, k: nat): seq<T>
    requires k < |s|
  {
    s[..k] + s[k + 1..]
  }

  function Inserted<T>(s: seq<T>, k: nat, x: T): seq<T>
    requires k <= |s|
  {
    s[..k] + [x] + s[k..]
  }

  lemma DistinctNear(kids: seq<Node>, k: nat)
    requires Distinct(kids) && k < |kids|
    ensures forall j | 0 <= j < |kids| && j != k :: kids[j] != kids[k]
    ensures k > 0 ==> forall j | 0 <= j < |kids| && j != k - 1 :: kids[j] != kids[k - 1]
    ensures k + 1 < |kids| ==> forall j | 0 <= j < |kids| && j != k + 1 :: kids[j] != kids[k + 1]
    ensures forall j | 0 < j < |kids| :: kids[j] != kids[0]
    ensures forall j | 0 <= j < |kids| - 1 :: kids[j] != kids[|kids| - 1]
  {
  }

  lemma DistinctEdits(kids: seq<Node>, k: nat, x: Node)
    requires Distinct(kids)
    ensures k < |kids| ==> Distinct(Without(kids, k)) && kids[k] !in Without(kids, k)
    ensures x !in kids && k <= |kids| ==> Distinct(Inserted(kids, k, x))
    ensures x !in kids && k < |kids| ==> Distinct(kids[k := x])
    ensures x !in kids ==> Distinct(kids + [x])
  {
  }

  function Successor(kids: seq<Node>, i: nat): Node?
    requires i < |kids|
  {
    if i + 1 < |kids| then kids[i + 1] else null
  }

  function Predecessor(kids: seq<Node>, i: nat): Node
    requires i < |kids|
  {
    if i > 0 then kids[i - 1] else kids[|kids| - 1]
  }

  method GetArrayItem(parent: Node?, index: nat) returns (item: Node?)
    requires parent != null ==> parent.Linked()
    ensures item == if parent != null && index < |parent.kids| then parent.kids[index] else null
  {
    if parent == null {
      return null;
    }
    item := parent.child;
    var left := index;
    ghost var kids := parent.kids;
    while item != null && left > 0
      invariant 0 <= left <= index && parent.Linked()
      invariant item == if index - left < |kids| then kids[index - left] else null
    {
      assert item.next == Successor(kids, index - left);
      left := left - 1;
      item := item.next;
    }
  }

  /**
   Appends a node. In a list that is not empty the code leaves the new node's own `next` alone, so the
   result is a proper list exactly when the node was detached before.
   */
  method AddItemToArray(parent: Node?, item: Node?) returns (ok: bool)
    requires parent != null ==> parent.Linked()
    requires parent != null && item != null && parent != item ==> item !in parent.kids
    modifies parent, item, if parent == null then [] else parent.kids
    ensures ok == (parent != null && item != null && parent != item)
    ensures ok ==> parent.kids == old(parent.kids) + [item]
    ensures ok ==> (parent.Linked() <==> old(parent.kids) == [] || old(item.next) == null)
    ensures !ok && parent != null ==> parent.Linked() && parent.kids == old(parent.kids)
  {
    if item == null || parent == null || parent == item {
      return false;
    }
    hide Distinct, NextLinks, PrevLinks, EndsWith;
    ghost var kids := parent.kids;
    if parent.child == null {
      parent.child := item;
      item.prev := item;
      item.next := null;
    } else {
      LinkBehind(parent, item);
      AppendedLinks(kids, item);
    }
    parent.kids := kids + [item];
    DistinctEdits(kids, |kids|, item);
    return true;
  }

  /** The pointer writes of an append to a list that is not empty. */
  method LinkBehind(parent: Node, item: Node)
    requires parent.Linked() && parent.kids != [] && item != parent && item !in parent.kids
    modifies item, parent.kids
    ensures item.next == old(item.next) && EndsWith(parent.kids, item) && parent.child == parent.kids[0]
  {
    var child := parent.child;
    DistinctNear(parent.kids, 0);
    hide Distinct;
    assert child.prev == Predecessor(parent.kids, 0);
    var last := child.prev;
    if last != null {
      last.next := item;
      item.prev := last;
      parent.child.prev := item;
    }
  }

  ghost predicate EndsWith(kids: seq<Node>, item: Node)
    requires kids != []
    reads kids, item
  {
    && item.prev == kids[|kids| - 1]
    && (forall j {:trigger kids[j].next} | 0 <= j < |kids| ::
         kids[j].next == if j + 1 == |kids| then item else Successor(kids, j))
    && (forall j {:trigger kids[j].prev} | 0 <= j < |kids| ::
         kids[j].prev == if j == 0 then item else Predecessor(kids, j))
  }

  lemma AppendedLinks(kids: seq<Node>, item: Node)
    requires kids != [] && EndsWith(kids, item)
    ensures PrevLinks(kids + [item]) && (NextLinks(kids + [item]) <==> item.next == null)
  {
    var longer := kids + [item];
    forall i | 0 <= i < |longer|
      ensures longer[i].prev == Predecessor(longer, i)
      ensures i < |kids| ==> longer[i].next == Successor(longer, i)
    {
      assert i < |kids| ==> longer[i] == kids[i];
    }
    assert longer[|kids|] == item && Successor(longer, |kids|) == null;
  }

  /** Inserts a node in front of the child with that index, or appends it when there is none. */
  method InsertItemInArray(parent: Node, which: int, item: Node) returns (ok: bool)
    requires parent.Linked() && item != parent && item !in parent.kids
    modifies parent, item, parent.kids
    ensures ok == (which >= 0)
    ensures parent.Linked() <==> which >= |old(parent.kids)| > 0 ==> old(item.next) == null
    ensures which < 0 ==> parent.kids == old(parent.kids)
    ensures which >= 0 ==>
              parent.kids == Inserted(old(parent.kids), if which < |old(parent.kids)| then which
                  else |old(parent.kids)|, item)
  {
    if which < 0 {
      return false;
    }
    hide Distinct, NextLinks, PrevLinks, PutBefore, Inserted;
    ghost var kids := parent.kids;
    var after := GetArrayItem(parent, which);
    if after == null {
      ok := AddItemToArray(parent, item);
      InsertedAtEnd(kids, item);
      return;
    }
    LinkBefore(parent, after, item, which);
    parent.kids := Inserted(kids, which, item);
    DistinctEdits(kids, which, item);
    InsertedForm(kids, which, item, parent);
    InsertedLinks(kids, which, item);
    return true;
  }

  /** The pointer writes of an insertion in front of child k. */
  method LinkBefore(parent: Node, after: Node, item: Node, ghost k: nat)
    requires parent.Linked() && k < |parent.kids| && parent.kids[k] == after
    requires item != parent && item !in parent.kids
    modifies parent`child, item, parent.kids
    ensures PutBefore(parent.kids, k, item)
    ensures parent.child == if k == 0 then item else parent.kids[0]
  {
    ghost var kids := parent.kids;
    DistinctNear(kids, k);
    hide Distinct;
    assert after.prev == Predecessor(kids, k);
    assert after == parent.child <==> k == 0;
    item.next := after;
    item.prev := after.prev;
    after.prev := item;
    if after == parent.child {
      parent.child := item;
    } else {
      item.prev.next := item;
    }
  }

  ghost predicate PutBefore(kids: seq<Node>, k: nat, item: Node)
    requires k < |kids|
    reads kids, item
  {
    && item.next == kids[k] && item.prev == Predecessor(kids, k)
    && (forall j {:trigger kids[j].next} | 0 <= j < |kids| ::
         kids[j].next == if j + 1 == k then item else Successor(kids, j))
    && (forall j {:trigger kids[j].prev} | 0 <= j < |kids| ::
         kids[j].prev == if j == k then item else Predecessor(kids, j))
  }

  lemma InsertedAtEnd(kids: seq<Node>, item: Node)
    ensures Inserted(kids, |kids|, item) == kids + [item]
  {
  }

  lemma InsertedForm(kids: seq<Node>, k: nat, item: Node, other: Node)
    requires k <= |kids|
    ensures other in Inserted(kids, k, item) <==> other in kids || other == item
    ensures Inserted(kids, k, item) != [] && Inserted(kids, k, item)[0] == if k == 0 then item else kids[0]
  {
    assert kids == kids[..k] + kids[k..];
  }

  lemma InsertedLinks(kids: seq<Node>, k: nat, item: Node)
    requires k < |kids| && PutBefore(kids, k, item)
    ensures NextLinks(Inserted(kids, k, item)) && PrevLinks(Inserted(kids, k, item))
  {
    var longer := Inserted(kids, k, item);
    forall i | 0 <= i < |longer|
      ensures longer[i].next == Successor(longer, i) && longer[i].prev == Predecessor(longer, i)
    {
      assert i < k ==> longer[i] == kids[i];
      assert i > k ==> longer[i] == kids[i - 1];
    }
  }

  /** Unlinks a child; the child itself comes out pointing nowhere. */
  method DetachItemViaPointer(parent: Node, item: Node, ghost k: nat)
    requires parent.Linked() && k < |parent.kids| && parent.kids[k] == item
    modifies parent, parent.kids
    ensures parent.Linked() && parent.kids == Without(old(parent.kids), k)
    ensures item.next == null && item.prev == null && item !in parent.kids
  {
    hide Distinct, NextLinks, PrevLinks, SkippedOver, Without;
    ghost var kids := parent.kids;
    WithoutForm(kids, k, parent);
    Unlink(parent, item, k);
    parent.kids := Without(kids, k);
    DistinctEdits(kids, k, item);
    WithoutLinks(kids, k);
  }

  lemma WithoutForm(kids: seq<Node>, k: nat, other: Node)
    requires k < |kids|
    ensures other in Without(kids, k) ==> other in kids
    ensures Without(kids, k) == [] <==> |kids| == 1
    ensures Without(kids, k) != [] ==> Without(kids, k)[0] == if k > 0 then kids[0] else kids[1]
  {
  }

  /** The pointer writes of a detach: the neighbours of k now skip it. */
  method Unlink(parent: Node, item: Node, ghost k: nat)
    requires parent.Linked() && k < |parent.kids| && parent.kids[k] == item
    modifies parent`child, parent.kids`next, parent.kids`prev
    ensures SkippedOver(parent.kids, k) && item.next == null && item.prev == null
    ensures var kids := parent.kids;
            parent.child == if k > 0 then kids[0] else Successor(kids, 0)
  {
    ghost var kids := parent.kids;
    DistinctNear(kids, k);
    hide Distinct;
    assert item.prev == Predecessor(kids, k) && item.next == Successor(kids, k);
    assert item == parent.child <==> k == 0;
    if item != parent.child {
      item.prev.next := item.next;
    }
    if item.next != null {
      item.next.prev := item.prev;
    }
    if item == parent.child {
      parent.child := item.next;
    } else if item.next == null {
      parent.child.prev := item.prev;
    }
    item.prev := null;
    item.next := null;
  }

  /** Every node but k is linked as before, except that k is stepped over. */
  ghost predicate SkippedOver(kids: seq<Node>, k: nat)
    requires k < |kids|
    reads kids
  {
    && (forall j {:trigger kids[j].next} | 0 <= j < |kids| && j != k ::
         kids[j].next == if j + 1 == k then Successor(kids, k) else Successor(kids, j))
    && (forall j {:trigger kids[j].prev} | 0 <= j < |kids| && j != k ::
           kids[j].prev == Predecessor(kids, if j == k + 1 || (j == 0 && k + 1 == |kids|) then k else j))
  }

  lemma WithoutLinks(kids: seq<Node>, k: nat)
    requires k < |kids| && SkippedOver(kids, k)
    ensures NextLinks(Without(kids, k)) && PrevLinks(Without(kids, k))
  {
    var rest := Without(kids, k);
    forall i | 0 <= i < |rest|
      ensures rest[i].next == Successor(rest, i) && rest[i].prev == Predecessor(rest, i)
    {
      var j := if i < k then i else i + 1;
      assert rest[i] == kids[j] && j != k;
    }
  }

  /** Puts a node in the place of a child; the child comes out pointing nowhere. */
  method ReplaceItemViaPointer(parent: Node, item: Node, replacement: Node, ghost k: nat)
    requires parent.Linked() && k < |parent.kids| && parent.kids[k] == item
    requires replacement != item ==> replacement != parent && replacement !in parent.kids
    modifies parent, parent.kids, replacement
    ensures parent.Linked() && parent.kids == old(parent.kids)[k := replacement]
    ensures replacement != item ==> item.next == null && item.prev == null
  {
    if replacement == item {
      return;
    }
    hide Distinct, NextLinks, PrevLinks, TookPlace;
    ghost var kids := parent.kids;
    TakePlace(parent, item, replacement, k);
    parent.kids := kids[k := replacement];
    DistinctEdits(kids, k, replacement);
    ReplacedLinks(kids, k, replacement);
  }

  /** The pointer writes of a replacement. */
  method TakePlace(parent: Node, item: Node, replacement: Node, ghost k: nat)
    requires parent.Linked() && k < |parent.kids| && parent.kids[k] == item
    requires replacement != item && replacement != parent && replacement !in parent.kids
    modifies parent`child, parent.kids, replacement
    ensures TookPlace(parent.kids, k, replacement) && item.next == null && item.prev == null
    ensures parent.child == if k == 0 then replacement else parent.kids[0]
  {
    ghost var kids := parent.kids;
    DistinctNear(kids, k);
    hide Distinct;
    assert item.prev == Predecessor(kids, k) && item.next == Successor(kids, k);
    assert parent.child == item <==> k == 0;
    replacement.next := item.next;
    replacement.prev := item.prev;
    if replacement.next != null {
      replacement.next.prev := replacement;
    }
    if parent.child == item {
      if parent.child.prev == parent.child {
        replacement.prev := replacement;
      }
      parent.child := replacement;
    } else {
      if replacement.prev != null {
        replacement.prev.next := replacement;
      }
      if replacement.next == null {
        parent.child.prev := replacement;
      }
    }
    item.next := null;
    item.prev := null;
  }

  ghost predicate TookPlace(kids: seq<Node>, k: nat, replacement: Node)
    requires k < |kids|
    reads kids, replacement
  {
    && replacement.next == Successor(kids, k)
    && replacement.prev == (if |kids| == 1 then replacement else Predecessor(kids, k))
    && (forall j {:trigger kids[j].next} | 0 <= j < |kids| && j != k ::
         kids[j].next == if j + 1 == k then replacement else Successor(kids, j))
    && (forall j {:trigger kids[j].prev} | 0 <= j < |kids| && j != k ::
          kids[j].prev == if j == k + 1 || (j == 0 && k + 1 == |kids|) then replacement else Predecessor(kids, j))
  }

  lemma ReplacedLinks(kids: seq<Node>, k: nat, replacement: Node)
    requires k < |kids| && TookPlace(kids, k, replacement)
    ensures NextLinks(kids[k := replacement]) && PrevLinks(kids[k := replacement])
  {
    var edited := kids[k := replacement];
    forall i | 0 <= i < |edited|
      ensures edited[i].next == Successor(edited, i) && edited[i].prev == Predecessor(edited, i)
    {
      assert i != k ==> edited[i] == kids[i];
    }
  }
}
