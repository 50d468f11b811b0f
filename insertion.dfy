/**
 * `addContact` on the whole trie: apply the bucket policy at the leaf the
 * contact's id descends to, splitting and retrying on the child while the
 * leaf is full and its depth is below `MaxDepth`.
 */
module Insertion {
  import opened Options
  import opened NodeIds
  import opened BucketPolicy
  import opened Trie

  /** The table after an insertion, and what happened to the inserted contact. */
  datatype Inserted = Inserted(table: seq<Bucket>, outcome: Outcome)

  /** Storing a fitting list of contacts that all descend to leaf `b` keeps the invariant and the links. */
  lemma StorePreservesInv(bs: seq<Bucket>, b: nat, cs: seq<Contact>)
    requires Inv(bs) && b < |bs| && bs[b].IsLeaf()
    requires |cs| <= BucketSize && UniqueIds(cs)
    requires forall x :: x in cs ==> Locate(bs, x.node, 0) == b
    ensures SameShape(bs, bs[b := bs[b].(contacts := cs)])
    ensures Inv(bs[b := bs[b].(contacts := cs)])
    ensures forall id :: Locate(bs[b := bs[b].(contacts := cs)], id, 0) == Locate(bs, id, 0)
  {
    var s := bs[b := bs[b].(contacts := cs)];
    assert SameShape(bs, s);
    SameShapeKeepsShape(bs, s);
    forall id ensures Locate(s, id, 0) == Locate(bs, id, 0) {
      LocateSameShape(bs, s, id, 0);
    }
    forall i | 0 <= i < |s| ensures LeafOk(s, i) {
      assert LeafOk(bs, i);
    }
  }

  /**
   * `addContact(c, bucket)` with the list edits applied to the bucket itself.
   * `b` is the leaf `c` descends to; `isAlive` is the liveness check.
   * Each retry happens one level deeper, so the recursion ends by `MaxDepth`.
   */
  function Insert(bs: seq<Bucket>, c: Contact, b: nat, isAlive: Contact -> bool): (r: Inserted)
    requires Inv(bs) && b == Locate(bs, c.node, 0)
    ensures Inv(r.table)
    decreases MaxDepth - bs[b].depth
  {
    var n := bs[b];
    assert LeafOk(bs, b);
    match Admit(n.contacts, c, n.depth, isAlive)
    case NeedsSplit =>
      var s := Split(bs, b);
      SplitPreservesInv(bs, b);
      LocateAfterSplit(bs, b, c.node, 0);
      LocateAfterSplit(bs, b, c.node, b);
      Insert(s, c, Locate(s, c.node, b), isAlive)
    case Done(cs, o) =>
      StorePreservesInv(bs, b, cs);
      Inserted(bs[b := n.(contacts := cs)], o)
  }

  /**
   * When the leaf needs no split, insertion only replaces that leaf's contacts
   * by the policy's result and leaves every other bucket and every link alone.
   */
  lemma InsertInPlace(bs: seq<Bucket>, c: Contact, b: nat, isAlive: Contact -> bool)
    requires Inv(bs) && b == Locate(bs, c.node, 0)
    requires Admit(bs[b].contacts, c, bs[b].depth, isAlive).Done?
    ensures var v := Admit(bs[b].contacts, c, bs[b].depth, isAlive);
            var r := Insert(bs, c, b, isAlive);
      && r.outcome == v.outcome
      && |r.table| == |bs|
      && r.table[b].contacts == v.contacts
      && (forall j :: 0 <= j < |bs| && j != b ==> r.table[j] == bs[j])
      && SameShape(bs, r.table)
  {
  }

  /**
   * A full leaf whose depth is below `MaxDepth` and which does not hold the id
   * is split, and the insertion is retried on the child that descent now
   * selects for the id.
   */
  lemma InsertSplitsAndRetries(bs: seq<Bucket>, c: Contact, b: nat, isAlive: Contact -> bool)
    requires Inv(bs) && b == Locate(bs, c.node, 0)
    requires !Knows(bs, c) && |bs[b].contacts| == BucketSize && bs[b].depth < MaxDepth
    ensures Inv(Split(bs, b))
    ensures var child := if Bit(c.node, bs[b].depth) == 0 then |bs| else |bs| + 1;
      && child == Locate(Split(bs, b), c.node, 0)
      && Split(bs, b)[child].depth == bs[b].depth + 1
      && Insert(bs, c, b, isAlive) == Insert(Split(bs, b), c, child, isAlive)
  {
    SplitPreservesInv(bs, b);
    LocateAfterSplit(bs, b, c.node, 0);
    LocateAfterSplit(bs, b, c.node, b);
  }

  /**
   * What an insertion with result `r` did to the stored contacts: `x` is
   * stored afterwards exactly when `StoredAfter` says so. A refresh happens
   * exactly when `c` was stored; `c` is stored afterwards unless dropped, and
   * then it is the most recently seen contact of its leaf; dropping or
   * evicting only happens in a full leaf at `MaxDepth`.
   */
  ghost predicate EffectOf(bs: seq<Bucket>, c: Contact, r: Inserted)
    requires Shape(bs) && Shape(r.table)
  {
    var leaf := r.table[Locate(r.table, c.node, 0)];
    && (forall x :: Knows(r.table, x) <==> StoredAfter(Knows(bs, x), r.outcome, c, x))
    && (r.outcome == Refreshed <==> Knows(bs, c))
    && (Knows(r.table, c) <==> r.outcome != Dropped)
    && (r.outcome != Dropped ==> leaf.contacts[|leaf.contacts| - 1] == c)
    && (r.outcome == Dropped || r.outcome.Replaced? ==>
          leaf.depth == MaxDepth && |leaf.contacts| == BucketSize)
  }

  /** The effect of an insertion that needs no split. */
  lemma EffectInPlace(bs: seq<Bucket>, c: Contact, b: nat, isAlive: Contact -> bool)
    requires Inv(bs) && b == Locate(bs, c.node, 0)
    requires Admit(bs[b].contacts, c, bs[b].depth, isAlive).Done?
    ensures EffectOf(bs, c, Insert(bs, c, b, isAlive))
  {
    var n := bs[b];
    assert LeafOk(bs, b);
    var v := Admit(n.contacts, c, n.depth, isAlive);
    var r := Insert(bs, c, b, isAlive);
    StorePreservesInv(bs, b, v.contacts);
    var t := r.table;
    assert t == bs[b := n.(contacts := v.contacts)];
    forall x ensures Knows(t, x) <==> StoredAfter(Knows(bs, x), v.outcome, c, x) {
      if Locate(bs, x.node, 0) != b {
        assert x != c;
        if v.outcome.Replaced? {
          assert v.outcome.evicted in n.contacts;
        }
      }
    }
    assert LinkedAt(t, b);
  }

  /** A split before the retry changes nothing about the effect. */
  lemma EffectThroughSplit(bs: seq<Bucket>, c: Contact, b: nat, r: Inserted)
    requires Inv(bs) && b == Locate(bs, c.node, 0) && bs[b].depth < MaxDepth && Shape(r.table)
    requires Shape(Split(bs, b)) && EffectOf(Split(bs, b), c, r)
    ensures EffectOf(bs, c, r)
  {
    forall x ensures Knows(Split(bs, b), x) <==> Knows(bs, x) {
      SplitKeepsKnown(bs, b, x);
    }
  }

  /** The effect of every insertion, by induction over the split-and-retry recursion. */
  lemma {:induction false} InsertEffect(bs: seq<Bucket>, c: Contact, b: nat, isAlive: Contact -> bool)
    requires Inv(bs) && b == Locate(bs, c.node, 0)
    ensures EffectOf(bs, c, Insert(bs, c, b, isAlive))
    decreases MaxDepth - bs[b].depth
  {
    var n := bs[b];
    assert LeafOk(bs, b);
    if Admit(n.contacts, c, n.depth, isAlive).NeedsSplit? {
      var s := Split(bs, b);
      SplitPreservesInv(bs, b);
      LocateAfterSplit(bs, b, c.node, 0);
      LocateAfterSplit(bs, b, c.node, b);
      var child := Locate(s, c.node, b);
      assert Insert(bs, c, b, isAlive) == Insert(s, c, child, isAlive);
      InsertEffect(s, c, child, isAlive);
      EffectThroughSplit(bs, c, b, Insert(s, c, child, isAlive));
    } else {
      EffectInPlace(bs, c, b, isAlive);
    }
  }

  /**
   * `addContact` exactly as written: the list edits go to a copy of the
   * bucket's list and are lost, so only the splits take effect.
   */
  function InsertAsWritten(bs: seq<Bucket>, c: Contact, b: nat, isAlive: Contact -> bool): (r: seq<Bucket>)
    requires Inv(bs) && b == Locate(bs, c.node, 0)
    ensures Inv(r)
    ensures forall x :: Knows(r, x) <==> Knows(bs, x)
    decreases MaxDepth - bs[b].depth
  {
    var n := bs[b];
    match Admit(n.contacts, c, n.depth, isAlive)
    case NeedsSplit =>
      var s := Split(bs, b);
      SplitPreservesInv(bs, b);
      LocateAfterSplit(bs, b, c.node, 0);
      LocateAfterSplit(bs, b, c.node, b);
      assert forall x :: Knows(s, x) <==> Knows(bs, x) by {
        forall x ensures Knows(s, x) <==> Knows(bs, x) {
          SplitKeepsKnown(bs, b, x);
        }
      }
      InsertAsWritten(s, c, Locate(s, c.node, b), isAlive)
    case Done(_, _) =>
      bs
  }

  /**
   * The copy loses every new contact: inserting into a fresh table as written
   * leaves it knowing nothing, where the in-place update stores the contact.
   */
  lemma AsWrittenLosesNewContact(c: Contact, isAlive: Contact -> bool)
    ensures Inv(Initial()) && Locate(Initial(), c.node, 0) == 0
    ensures !Knows(InsertAsWritten(Initial(), c, 0, isAlive), c)
    ensures Knows(Insert(Initial(), c, 0, isAlive).table, c)
  {
    InitialValid();
    InsertEffect(Initial(), c, 0, isAlive);
  }

  /**
   * Two new contacts inserted into a fresh table sit in the root leaf in
   * insertion order, oldest first.
   */
  lemma FreshTableKeepsInsertionOrder(a: Contact, b: Contact, isAlive: Contact -> bool)
    requires a.node != b.node
    ensures Inv(Initial())
    ensures var t := Insert(Initial(), a, 0, isAlive).table;
      && Locate(t, b.node, 0) == 0
      && Insert(t, b, 0, isAlive).table == [Bucket(0, [a, b], None, None)]
  {
    InitialValid();
    var t := Insert(Initial(), a, 0, isAlive).table;
    assert Admit([], a, 0, isAlive) == Done([a], Added);
    assert t == [Bucket(0, [a], None, None)];
    assert FindContact([a], b.node) == None;
    assert Admit([a], b, 0, isAlive) == Done([a, b], Added);
  }
}
