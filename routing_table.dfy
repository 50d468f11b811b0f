/**
 * The routing table object: it owns the bucket trie and updates it in place.
 * Each method is proved to leave the trie exactly as the functions of
 * `Trie` and `Insertion` describe; the pure reads are functions.
 */
module Routing {
  import opened Options
  import opened NodeIds
  import opened BucketPolicy
  import opened Trie
  import opened Insertion

  /**
   * The loop of `splitBucket`: walk the contacts in order and push each one
   * onto the left list when its bit `depth` is 0, else onto the right list.
   */
  method PartitionByBit(contacts: seq<Contact>, depth: nat) returns (lefts: seq<Contact>, rights: seq<Contact>)
    requires depth < MaxDepth
    ensures lefts == Side(contacts, depth, 0) && rights == Side(contacts, depth, 1)
  {
    lefts, rights := [], [];
    for k := 0 to |contacts|
      invariant lefts == Side(contacts[..k], depth, 0)
      invariant rights == Side(contacts[..k], depth, 1)
    {
      var x := contacts[k];
      SideExtend(contacts, k, depth, 0);
      SideExtend(contacts, k, depth, 1);
      if Bit(x.node, depth) == 0 {
        lefts := lefts + [x];
      } else {
        rights := rights + [x];
      }
    }
    assert contacts[..|contacts|] == contacts;
  }

  class RoutingTable {
    /** The bucket arena; index 0 is the root bucket. */
    var buckets: seq<Bucket>

    ghost predicate Valid()
      reads this
    {
      Inv(buckets)
    }

    /** A fresh table: a single empty root leaf at depth 0. */
    constructor ()
      ensures Valid() && buckets == Initial()
    {
      buckets := Initial();
      InitialValid();
    }

    /** `getBucket(node)`: the leaf responsible for `id`; every contact stored there descends to it. */
    function GetBucket(id: NodeId): (b: nat)
      reads this
      requires Valid()
      ensures b < |buckets| && buckets[b].IsLeaf() && buckets[b].depth <= MaxDepth
      ensures forall x :: x in buckets[b].contacts ==> Locate(buckets, x.node, 0) == b
    {
      var b := Locate(buckets, id, 0);
      assert LeafOk(buckets, b);
      b
    }

    /** `getBucket(node, bucket)`: descent starting from bucket `from`, ending at a leaf no shallower than it. */
    function GetBucketFrom(id: NodeId, from: nat): (b: nat)
      reads this
      requires Valid() && from < |buckets|
      ensures from <= b < |buckets| && buckets[b].IsLeaf()
      ensures buckets[from].depth <= buckets[b].depth <= MaxDepth
    {
      Locate(buckets, id, from)
    }

    /**
     * `getClosestContacts(c)`: the stored list of the leaf responsible for
     * `c.node`, which is exactly the set of stored contacts sharing that leaf.
     */
    function GetClosestContacts(c: Contact): (r: seq<Contact>)
      reads this
      requires Valid()
      ensures |r| <= BucketSize && UniqueIds(r)
      ensures forall x :: x in r <==> Knows(buckets, x) && GetBucket(x.node) == GetBucket(c.node)
    {
      var b := GetBucket(c.node);
      assert LeafOk(buckets, b);
      buckets[b].contacts
    }

    /**
     * `splitBucket(bucket)`: copy every contact, in order, into the list of
     * the child its bit `depth` selects, then attach the two new leaves one
     * level deeper. The split bucket keeps its own list.
     */
    method SplitBucket(b: nat)
      requires Valid() && b < |buckets| && buckets[b].IsLeaf() && buckets[b].depth < MaxDepth
      modifies this
      ensures Valid() && buckets == Split(old(buckets), b)
    {
      SplitPreservesInv(buckets, b);
      var n := buckets[b];
      var d := n.depth;
      var contacts := n.contacts;
      var lefts, rights := PartitionByBit(contacts, d);
      var l := |buckets|;
      buckets := buckets[b := n.(left := Some(l), right := Some(l + 1))]
        + [Bucket(d + 1, lefts, None, None), Bucket(d + 1, rights, None, None)];
    }

    /** `addContact(c)`: insert into the leaf responsible for `c.node`. */
    method AddContact(c: Contact, isAlive: Contact -> bool)
      requires Valid()
      modifies this
      ensures Valid()
      ensures buckets == Insert(old(buckets), c, Locate(old(buckets), c.node, 0), isAlive).table
    {
      var b := GetBucket(c.node);
      AddContactAt(c, b, isAlive);
    }

    /**
     * `addContact(c, bucket)`: refresh a known id, append into room, split and
     * retry on the child below `MaxDepth`, or else ping the oldest contact and
     * rotate it or evict it. The list edits are written back to the bucket.
     */
    method AddContactAt(c: Contact, b: nat, isAlive: Contact -> bool)
      requires Valid() && b < |buckets| && b == GetBucket(c.node)
      modifies this
      ensures Valid()
      ensures buckets == Insert(old(buckets), c, b, isAlive).table
      decreases MaxDepth - buckets[b].depth
    {
      // names the specified result, so that its invariant is at hand in every branch
      ghost var inserted := Insert(buckets, c, b, isAlive);
      var contacts := buckets[b].contacts;
      var it := FindContact(contacts, c.node);
      if it.Some? {
        contacts := contacts[..it.value] + contacts[it.value + 1..];
        contacts := contacts + [c];
        buckets := buckets[b := buckets[b].(contacts := contacts)];
      } else if |contacts| < BucketSize {
        contacts := contacts + [c];
        buckets := buckets[b := buckets[b].(contacts := contacts)];
      } else if buckets[b].depth < MaxDepth {
        SplitBucket(b);
        var child := GetBucketFrom(c.node, b);
        LocateAfterSplit(old(buckets), b, c.node, 0);
        LocateAfterSplit(old(buckets), b, c.node, b);
        AddContactAt(c, child, isAlive);
      } else if isAlive(contacts[0]) {
        var pinged := contacts[0];
        contacts := contacts[1..];
        contacts := contacts + [pinged];
        buckets := buckets[b := buckets[b].(contacts := contacts)];
      } else {
        contacts := contacts[1..];
        contacts := contacts + [c];
        buckets := buckets[b := buckets[b].(contacts := contacts)];
      }
    }
  }
}
