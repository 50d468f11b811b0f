/**
 * The bucket trie of the routing table, held as an arena: a sequence of
 * buckets where index 0 is the root and child links are indices. A split
 * appends the two new children at the end, so a child always sits at a
 * larger index than its parent.
 */
module Trie {
  import opened Options
  import opened NodeIds
  import opened BucketPolicy

  /**
   * One bucket: its depth (the number of fixed leading bits), its contacts
   * (oldest first) and its two child links. The source's `parent` link is
   * never assigned and is not modelled.
   */
  datatype Bucket = Bucket(depth: nat, contacts: seq<Contact>, left: Option<nat>, right: Option<nat>)
  {
    predicate IsLeaf() {
      left.None? && right.None?
    }
  }

  /** The table a fresh routing table starts from: one empty leaf at depth 0. */
  function Initial(): (bs: seq<Bucket>) {
    [Bucket(0, [], None, None)]
  }

  /** The indices bucket `n` links to. */
  function Children(n: Bucket): (r: set<nat>)
    ensures forall k :: k in r <==> Some(k) == n.left || Some(k) == n.right
  {
    (if n.left.Some? then {n.left.value} else {}) + (if n.right.Some? then {n.right.value} else {})
  }

  /**
   * Bucket `i` is a leaf, or has two distinct children, each one level deeper
   * and placed after it; no bucket is deeper than `MaxDepth`.
   */
  ghost predicate LinkedAt(bs: seq<Bucket>, i: nat)
    requires i < |bs|
  {
    var n := bs[i];
    && n.depth <= MaxDepth
    && (n.IsLeaf() ||
        (&& n.left.Some? && n.right.Some?
         && n.depth < MaxDepth
         && i < n.left.value < |bs| && i < n.right.value < |bs|
         && n.left.value != n.right.value
         && bs[n.left.value].depth == n.depth + 1
         && bs[n.right.value].depth == n.depth + 1))
  }

  /** Distinct buckets `i` and `j` link to no common child. */
  ghost predicate ChildrenApart(bs: seq<Bucket>, i: nat, j: nat)
    requires i < |bs| && j < |bs|
  {
    Children(bs[i]) !! Children(bs[j])
  }

  /**
   * The arena is a well-linked trie rooted at index 0, depth 0: every bucket
   * is linked correctly and no bucket has two parents.
   */
  ghost predicate Shape(bs: seq<Bucket>) {
    && |bs| > 0
    && bs[0].depth == 0
    && (forall i :: 0 <= i < |bs| ==> LinkedAt(bs, i))
    && (forall i, j :: 0 <= i < j < |bs| ==> ChildrenApart(bs, i, j))
  }

  /**
   * Trie descent from bucket `from`: at an inner bucket of depth d, go left
   * when bit d of `id` is 0 and right otherwise; stop at a leaf.
   */
  function Locate(bs: seq<Bucket>, id: NodeId, from: nat): (b: nat)
    requires Shape(bs) && from < |bs|
    ensures from <= b < |bs| && bs[b].IsLeaf()
    ensures bs[from].depth <= bs[b].depth <= MaxDepth
    decreases |bs| - from
  {
    var n := bs[from];
    assert LinkedAt(bs, from);
    if n.left.Some? || n.right.Some? then
      if Bit(id, n.depth) == 0 then Locate(bs, id, n.left.value) else Locate(bs, id, n.right.value)
    else
      from
  }

  /** Leaf `i` holds at most `BucketSize` contacts, with unique ids, each of which descends to `i`. */
  ghost predicate LeafOk(bs: seq<Bucket>, i: nat)
    requires Shape(bs) && i < |bs|
  {
    bs[i].IsLeaf() ==>
      && |bs[i].contacts| <= BucketSize
      && UniqueIds(bs[i].contacts)
      && forall x :: x in bs[i].contacts ==> Locate(bs, x.node, 0) == i
  }

  /** The routing-table invariant. Contacts left behind in inner buckets are not constrained. */
  ghost predicate Inv(bs: seq<Bucket>) {
    Shape(bs) && forall i :: 0 <= i < |bs| ==> LeafOk(bs, i)
  }

  /** `x` is stored in the leaf its id descends to. */
  ghost predicate Knows(bs: seq<Bucket>, x: Contact)
    requires Shape(bs)
  {
    x in bs[Locate(bs, x.node, 0)].contacts
  }

  /** The contacts of `cs` whose bit `depth` equals `bit`, in their original order. */
  function Side(cs: seq<Contact>, depth: nat, bit: byte): (r: seq<Contact>)
    requires depth < 8
    ensures |r| <= |cs|
    ensures forall x :: x in r <==> x in cs && Bit(x.node, depth) == bit
    decreases |cs|
  {
    if cs == [] then []
    else
      var last := cs[|cs| - 1];
      Side(cs[..|cs| - 1], depth, bit) + if Bit(last.node, depth) == bit then [last] else []
  }

  /**
   * `splitBucket`: bucket `b` gets two new leaf children at `depth + 1`,
   * appended to the arena; the left one takes the contacts whose bit `depth`
   * is 0, the right one the rest. The contacts of `b` itself are left in place.
   */
  function Split(bs: seq<Bucket>, b: nat): (s: seq<Bucket>)
    requires b < |bs| && bs[b].depth < MaxDepth
    ensures |s| == |bs| + 2
    ensures s[b].left == Some(|bs|) && s[b].right == Some(|bs| + 1)
    ensures s[|bs|].IsLeaf() && s[|bs| + 1].IsLeaf()
    ensures s[|bs|].depth == bs[b].depth + 1 && s[|bs| + 1].depth == bs[b].depth + 1
    ensures forall i :: 0 <= i < |bs| && i != b ==> s[i] == bs[i]
  {
    var n := bs[b];
    var l := |bs|;
    bs[b := n.(left := Some(l), right := Some(l + 1))]
      + [Bucket(n.depth + 1, Side(n.contacts, n.depth, 0), None, None),
         Bucket(n.depth + 1, Side(n.contacts, n.depth, 1), None, None)]
  }

  /** Two arenas with the same links and depths; contacts may differ. */
  ghost predicate SameShape(bs: seq<Bucket>, bs': seq<Bucket>) {
    && |bs| == |bs'|
    && forall i :: 0 <= i < |bs| ==>
         bs[i].depth == bs'[i].depth && bs[i].left == bs'[i].left && bs[i].right == bs'[i].right
  }

  // ----- properties of the initial table -----

  /** The initial table satisfies the invariant and knows no contact. */
  lemma InitialValid()
    ensures Inv(Initial())
    ensures forall x :: !Knows(Initial(), x)
  {
    assert LinkedAt(Initial(), 0);
  }

  // ----- properties of descent -----

  /** Well-linkedness reads only the links and depths. */
  lemma SameShapeKeepsShape(bs: seq<Bucket>, bs': seq<Bucket>)
    requires Shape(bs) && SameShape(bs, bs')
    ensures Shape(bs')
  {
    assert forall i :: 0 <= i < |bs| ==> LinkedAt(bs, i) == LinkedAt(bs', i);
    forall i, j | 0 <= i < j < |bs'| ensures ChildrenApart(bs', i, j) {
      assert ChildrenApart(bs, i, j);
      assert Children(bs[i]) == Children(bs'[i]) && Children(bs[j]) == Children(bs'[j]);
    }
  }

  /** Descent reads only the links and depths, never the contacts. */
  lemma {:induction false} LocateSameShape(bs: seq<Bucket>, bs': seq<Bucket>, id: NodeId, from: nat)
    requires Shape(bs) && SameShape(bs, bs') && from < |bs|
    ensures Shape(bs')
    ensures Locate(bs', id, from) == Locate(bs, id, from)
    decreases |bs| - from
  {
    SameShapeKeepsShape(bs, bs');
    var n := bs[from];
    assert LinkedAt(bs, from);
    if n.left.Some? || n.right.Some? {
      if Bit(id, n.depth) == 0 {
        LocateSameShape(bs, bs', id, n.left.value);
      } else {
        LocateSameShape(bs, bs', id, n.right.value);
      }
    }
  }

  /**
   * The leaf an id descends to depends only on the id's leading bits, as many
   * as the leaf's depth: a bucket is responsible for one prefix range.
   */
  lemma {:induction false} LocateByPrefix(bs: seq<Bucket>, a: NodeId, b: NodeId, from: nat)
    requires Shape(bs) && from < |bs|
    requires forall k :: bs[from].depth <= k < bs[Locate(bs, a, from)].depth ==> Bit(a, k) == Bit(b, k)
    ensures Locate(bs, b, from) == Locate(bs, a, from)
    decreases |bs| - from
  {
    var n := bs[from];
    assert LinkedAt(bs, from);
    if n.left.Some? || n.right.Some? {
      var next := if Bit(a, n.depth) == 0 then n.left.value else n.right.value;
      assert LinkedAt(bs, next);
      assert Locate(bs, a, from) == Locate(bs, a, next);
      assert Bit(a, n.depth) == Bit(b, n.depth);
      LocateByPrefix(bs, a, b, next);
    }
  }

  /**
   * Two buckets of the same depth from which descent reaches the same leaf
   * are the same bucket: subtrees of distinct buckets at one depth are disjoint.
   */
  lemma {:induction false} SameDepthSameLeaf(bs: seq<Bucket>, a: NodeId, b: NodeId, x: nat, y: nat)
    requires Shape(bs) && x < |bs| && y < |bs| && bs[x].depth == bs[y].depth
    requires Locate(bs, a, x) == Locate(bs, b, y)
    ensures x == y
    decreases MaxDepth - bs[x].depth
  {
    var nx, ny := bs[x], bs[y];
    assert LinkedAt(bs, x) && LinkedAt(bs, y);
    if nx.IsLeaf() || ny.IsLeaf() {
      // the leaf is reached without descending, so its depth equals the start depth on both sides
    } else {
      var cx := if Bit(a, nx.depth) == 0 then nx.left.value else nx.right.value;
      var cy := if Bit(b, ny.depth) == 0 then ny.left.value else ny.right.value;
      assert Locate(bs, a, x) == Locate(bs, a, cx) && Locate(bs, b, y) == Locate(bs, b, cy);
      assert cx in Children(nx) && cy in Children(ny);
      if x != y {
        // distinct parents have disjoint children
        if x < y { assert ChildrenApart(bs, x, y); } else { assert ChildrenApart(bs, y, x); }
        assert cx != cy;
      }
      SameDepthSameLeaf(bs, a, b, cx, cy);
    }
  }

  /**
   * The converse of `LocateByPrefix`: two ids that descend to the same leaf
   * agree on every bit from the start depth up to the leaf's depth.
   */
  lemma {:induction false} SameLeafSharesPrefix(bs: seq<Bucket>, a: NodeId, b: NodeId, from: nat)
    requires Shape(bs) && from < |bs| && Locate(bs, a, from) == Locate(bs, b, from)
    ensures forall k :: bs[from].depth <= k < bs[Locate(bs, a, from)].depth ==> Bit(a, k) == Bit(b, k)
    decreases |bs| - from
  {
    var n := bs[from];
    assert LinkedAt(bs, from);
    if !n.IsLeaf() {
      var ca := if Bit(a, n.depth) == 0 then n.left.value else n.right.value;
      var cb := if Bit(b, n.depth) == 0 then n.left.value else n.right.value;
      assert Locate(bs, a, from) == Locate(bs, a, ca) && Locate(bs, b, from) == Locate(bs, b, cb);
      SameDepthSameLeaf(bs, a, b, ca, cb);
      assert Bit(a, n.depth) == Bit(b, n.depth);
      SameLeafSharesPrefix(bs, a, b, ca);
    }
  }

  /**
   * Each leaf covers exactly one prefix range: two ids reach the same leaf
   * if and only if they agree on as many leading bits as that leaf's depth.
   */
  lemma LeafIsPrefixRange(bs: seq<Bucket>, a: NodeId, b: NodeId)
    requires Shape(bs)
    ensures Locate(bs, b, 0) == Locate(bs, a, 0) <==>
              forall k :: 0 <= k < bs[Locate(bs, a, 0)].depth ==> Bit(a, k) == Bit(b, k)
  {
    assert bs[0].depth == 0;
    if Locate(bs, b, 0) == Locate(bs, a, 0) {
      SameLeafSharesPrefix(bs, a, b, 0);
    }
    if forall k :: 0 <= k < bs[Locate(bs, a, 0)].depth ==> Bit(a, k) == Bit(b, k) {
      LocateByPrefix(bs, a, b, 0);
    }
  }

  /**
   * Ids are unique across the whole table: two stored contacts with the same
   * id are the same contact, in the same leaf.
   */
  lemma UniqueAcrossLeaves(bs: seq<Bucket>, i: nat, j: nat, x: Contact, y: Contact)
    requires Inv(bs) && i < |bs| && j < |bs| && bs[i].IsLeaf() && bs[j].IsLeaf()
    requires x in bs[i].contacts && y in bs[j].contacts && x.node == y.node
    ensures i == j && x == y
  {
    assert LeafOk(bs, i) && LeafOk(bs, j);
  }

  // ----- properties of the split partition -----

  /** Extending the scanned prefix by one contact extends its side by that contact or by nothing. */
  lemma SideExtend(cs: seq<Contact>, k: nat, depth: nat, bit: byte)
    requires k < |cs| && depth < 8
    ensures Side(cs[..k + 1], depth, bit) ==
              Side(cs[..k], depth, bit) + if Bit(cs[k].node, depth) == bit then [cs[k]] else []
  {
    assert cs[..k + 1][..k] == cs[..k];
  }

  /** The two sides of a split hold, between them, exactly the original contacts. */
  lemma {:induction false} SidesPartition(cs: seq<Contact>, depth: nat)
    requires depth < 8
    ensures multiset(Side(cs, depth, 0)) + multiset(Side(cs, depth, 1)) == multiset(cs)
    decreases |cs|
  {
    if cs != [] {
      var init := cs[..|cs| - 1];
      SidesPartition(init, depth);
      assert cs == init + [cs[|cs| - 1]];
    }
  }

  /** Each side keeps ids unique when the original list does. */
  lemma {:induction false} SideUnique(cs: seq<Contact>, depth: nat, bit: byte)
    requires depth < 8 && UniqueIds(cs)
    ensures UniqueIds(Side(cs, depth, bit))
    decreases |cs|
  {
    if cs != [] {
      var init := cs[..|cs| - 1];
      var last := cs[|cs| - 1];
      assert UniqueIds(init);
      SideUnique(init, depth, bit);
      assert forall x :: x in init ==> x.node != last.node;
    }
  }

  // ----- properties of split -----

  /** After splitting leaf `b`, ids that used to reach `b` reach the child their bit selects; all others are unaffected. */
  lemma {:induction false} LocateAfterSplit(bs: seq<Bucket>, b: nat, id: NodeId, from: nat)
    requires Shape(bs) && b < |bs| && bs[b].IsLeaf() && bs[b].depth < MaxDepth && from < |bs|
    ensures Shape(Split(bs, b))
    ensures Locate(Split(bs, b), id, from) ==
              if Locate(bs, id, from) == b then (if Bit(id, bs[b].depth) == 0 then |bs| else |bs| + 1)
              else Locate(bs, id, from)
    decreases |bs| - from
  {
    var s := Split(bs, b);
    SplitShape(bs, b);
    var n := bs[from];
    assert LinkedAt(bs, from);
    if from == b {
      var child := if Bit(id, n.depth) == 0 then |bs| else |bs| + 1;
      assert s[child].IsLeaf();
      assert Locate(s, id, from) == Locate(s, id, child);
    } else if n.left.Some? || n.right.Some? {
      assert s[from] == n;
      if Bit(id, n.depth) == 0 {
        LocateAfterSplit(bs, b, id, n.left.value);
      } else {
        LocateAfterSplit(bs, b, id, n.right.value);
      }
    } else {
      assert s[from] == n;
    }
  }

  /** Splitting a leaf keeps the trie well linked. */
  lemma SplitShape(bs: seq<Bucket>, b: nat)
    requires Shape(bs) && b < |bs| && bs[b].IsLeaf() && bs[b].depth < MaxDepth
    ensures Shape(Split(bs, b))
  {
    var s := Split(bs, b);
    forall i | 0 <= i < |s| ensures LinkedAt(s, i) {
      if i < |bs| {
        assert LinkedAt(bs, i);
      }
    }
    forall i, j | 0 <= i < j < |s| ensures ChildrenApart(s, i, j) {
      if j >= |bs| {
        assert Children(s[j]) == {};
      } else {
        assert LinkedAt(bs, i) && LinkedAt(bs, j);
        if i == b {
          assert forall k :: k in Children(bs[j]) ==> k < |bs|;
        } else if j == b {
          assert forall k :: k in Children(bs[i]) ==> k < |bs|;
        } else {
          assert ChildrenApart(bs, i, j);
        }
      }
    }
  }

  /**
   * `splitBucket`: both children sit one level deeper; the left child holds
   * exactly the contacts whose bit `depth` is 0 and the right child the rest,
   * in their original order, with nothing lost or duplicated; the split
   * bucket becomes inner and every other bucket is unchanged.
   */
  lemma SplitCorrect(bs: seq<Bucket>, b: nat)
    requires Shape(bs) && b < |bs| && bs[b].IsLeaf() && bs[b].depth < MaxDepth
    ensures var s := Split(bs, b); var d := bs[b].depth;
      && |s| == |bs| + 2
      && s[b].left == Some(|bs|) && s[b].right == Some(|bs| + 1) && !s[b].IsLeaf()
      && s[|bs|].IsLeaf() && s[|bs| + 1].IsLeaf()
      && s[|bs|].depth == d + 1 && s[|bs| + 1].depth == d + 1
      && (forall x :: x in s[|bs|].contacts <==> x in bs[b].contacts && Bit(x.node, d) == 0)
      && (forall x :: x in s[|bs| + 1].contacts <==> x in bs[b].contacts && Bit(x.node, d) == 1)
      && multiset(s[|bs|].contacts) + multiset(s[|bs| + 1].contacts) == multiset(bs[b].contacts)
      && (forall i :: 0 <= i < |bs| && i != b ==> s[i] == bs[i])
  {
    var d := bs[b].depth;
    SidesPartition(bs[b].contacts, d);
    forall x | x in bs[b].contacts && Bit(x.node, d) != 0 ensures Bit(x.node, d) == 1 { }
  }

  /** Splitting a leaf of a valid table keeps the invariant. */
  lemma SplitPreservesInv(bs: seq<Bucket>, b: nat)
    requires Inv(bs) && b < |bs| && bs[b].IsLeaf() && bs[b].depth < MaxDepth
    ensures Inv(Split(bs, b))
  {
    var s := Split(bs, b);
    var n := bs[b];
    SplitShape(bs, b);
    assert LeafOk(bs, b);
    forall i | 0 <= i < |s| ensures LeafOk(s, i) {
      if i < |bs| && i != b {
        assert LeafOk(bs, i);
        forall x | x in s[i].contacts && s[i].IsLeaf() ensures Locate(s, x.node, 0) == i {
          LocateAfterSplit(bs, b, x.node, 0);
        }
      } else if i >= |bs| {
        var bit: byte := if i == |bs| then 0 else 1;
        assert s[i].contacts == Side(n.contacts, n.depth, bit);
        SideUnique(n.contacts, n.depth, bit);
        forall x | x in s[i].contacts ensures Locate(s, x.node, 0) == i {
          LocateAfterSplit(bs, b, x.node, 0);
        }
      }
    }
  }

  /** Splitting stores exactly the same contacts as before. */
  lemma SplitKeepsKnown(bs: seq<Bucket>, b: nat, x: Contact)
    requires Inv(bs) && b < |bs| && bs[b].IsLeaf() && bs[b].depth < MaxDepth
    ensures Shape(Split(bs, b))
    ensures Knows(Split(bs, b), x) <==> Knows(bs, x)
  {
    var s := Split(bs, b);
    LocateAfterSplit(bs, b, x.node, 0);
    var at := Locate(bs, x.node, 0);
    if at == b {
      assert LeafOk(bs, b);
    }
  }
}
