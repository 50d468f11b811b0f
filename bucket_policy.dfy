/**
 * The insertion policy of one bucket, as a function over its contact list.
 * Contacts are ordered from the oldest (front) to the most recently seen (back).
 */
module BucketPolicy {
  import opened Options
  import opened NodeIds

  /** Capacity of one bucket. */
  const BucketSize: nat := 20

  /** A bucket at this depth is never split. */
  const MaxDepth: nat := 5

  /** No two contacts of the list share a node id. */
  predicate UniqueIds(cs: seq<Contact>) {
    forall i, j :: 0 <= i < j < |cs| ==> cs[i].node != cs[j].node
  }

  /** What an insertion did to the contact it was given. */
  datatype Outcome =
    | Refreshed            // the id was known and moved to the back
    | Added                // appended into free room
    | Dropped              // the bucket was full and its oldest contact answered: the new one is dropped
    | Replaced(evicted: Contact) // the oldest contact did not answer: it is evicted, the new one appended

  /** The decision of the policy: either the new contact list, or "split this bucket first". */
  datatype Verdict = NeedsSplit | Done(contacts: seq<Contact>, outcome: Outcome)

  /** Whether `x` is stored after an insertion of `c` with outcome `o`, given whether it was stored before. */
  predicate StoredAfter(was: bool, o: Outcome, c: Contact, x: Contact) {
    match o
    case Refreshed => was
    case Added => was || x == c
    case Dropped => was
    case Replaced(e) => (was && x != e) || x == c
  }

  /** The first position holding `id`, as a forward search over the list. */
  function FindContact(cs: seq<Contact>, id: NodeId): (r: Option<nat>)
    ensures r.Some? ==> r.value < |cs| && cs[r.value].node == id
    ensures r.Some? ==> forall k :: 0 <= k < r.value ==> cs[k].node != id
    ensures r.None? ==> forall k :: 0 <= k < |cs| ==> cs[k].node != id
  {
    if cs == [] then None
    else if cs[0].node == id then Some(0)
    else match FindContact(cs[1..], id)
      case None => None
      case Some(k) => Some(k + 1)
  }

  /** Erase position `i` and push `c` at the back. */
  function Refresh(cs: seq<Contact>, i: nat, c: Contact): (r: seq<Contact>)
    requires i < |cs|
    ensures |r| == |cs| && r[|r| - 1] == c
    ensures forall x :: x in r ==> x == c || x in cs
  {
    cs[..i] + cs[i + 1..] + [c]
  }

  /** Move the oldest contact to the back. */
  function Rotate(cs: seq<Contact>): (r: seq<Contact>)
    requires |cs| > 0
    ensures |r| == |cs| && r[|r| - 1] == cs[0]
  {
    cs[1..] + [cs[0]]
  }

  /** Erase the oldest contact and push `c` at the back. */
  function Evict(cs: seq<Contact>, c: Contact): (r: seq<Contact>)
    requires |cs| > 0
    ensures |r| == |cs| && r[|r| - 1] == c
    ensures forall x :: x in r ==> x == c || x in cs
  {
    cs[1..] + [c]
  }

  /**
   * The policy for inserting `c` into a bucket at `depth` holding `cs`.
   * `isAlive` is the liveness check; it is only consulted on the oldest contact
   * of a full bucket that cannot be split.
   */
  function Admit(cs: seq<Contact>, c: Contact, depth: nat, isAlive: Contact -> bool): (v: Verdict)
    ensures v.NeedsSplit? <==> c !in cs && |cs| >= BucketSize && depth < MaxDepth
    ensures v.Done? ==> forall x :: x in v.contacts ==> x in cs || x == c
    ensures v.Done? ==> (v.outcome == Refreshed <==> c in cs)
    ensures v.Done? ==> (c in v.contacts <==> v.outcome != Dropped)
    ensures v.Done? && (v.outcome == Dropped || v.outcome.Replaced?) ==>
              |cs| >= BucketSize && depth >= MaxDepth && |v.contacts| == |cs|
    ensures v.Done? && v.outcome != Dropped ==> v.contacts[|v.contacts| - 1] == c
    ensures v.Done? && UniqueIds(cs) ==> UniqueIds(v.contacts)
    ensures v.Done? && UniqueIds(cs) ==> forall x :: x in v.contacts <==> StoredAfter(x in cs, v.outcome, c, x)
    ensures v.Done? && |cs| <= BucketSize ==> |v.contacts| <= BucketSize
  {
    match FindContact(cs, c.node)
    case Some(i) =>
      RefreshFacts(cs, i, c);
      Done(Refresh(cs, i, c), Refreshed)
    case None =>
      assert c !in cs;
      if |cs| < BucketSize then
        AppendFacts(cs, c);
        Done(cs + [c], Added)
      else if depth < MaxDepth then
        NeedsSplit
      else if isAlive(cs[0]) then
        RotateFacts(cs);
        Done(Rotate(cs), Dropped)
      else
        EvictFacts(cs, c);
        Done(Evict(cs, c), Replaced(cs[0]))
  }

  /** Refreshing a known id keeps the size and the stored set, keeps ids unique and puts `c` last. */
  lemma RefreshFacts(cs: seq<Contact>, i: nat, c: Contact)
    requires i < |cs| && cs[i].node == c.node
    ensures |Refresh(cs, i, c)| == |cs|
    ensures multiset(Refresh(cs, i, c)) == multiset(cs)
    ensures forall x :: x in Refresh(cs, i, c) <==> x in cs
    ensures UniqueIds(cs) ==> UniqueIds(Refresh(cs, i, c))
  {
    RefreshMultiset(cs, i, c);
    if UniqueIds(cs) {
      RefreshUnique(cs, i, c);
    }
  }

  lemma RefreshMultiset(cs: seq<Contact>, i: nat, c: Contact)
    requires i < |cs| && cs[i].node == c.node
    ensures multiset(Refresh(cs, i, c)) == multiset(cs)
    ensures forall x :: x in Refresh(cs, i, c) <==> x in cs
  {
    var r := Refresh(cs, i, c);
    assert cs[i] == c;
    assert cs == cs[..i] + [cs[i]] + cs[i + 1..];
    assert multiset(r) == multiset(cs[..i]) + multiset(cs[i + 1..]) + multiset([c]);
    forall x ensures x in r <==> x in cs {
      assert x in r <==> x in multiset(r);
      assert x in cs <==> x in multiset(cs);
    }
  }

  lemma RefreshUnique(cs: seq<Contact>, i: nat, c: Contact)
    requires i < |cs| && cs[i].node == c.node && UniqueIds(cs)
    ensures UniqueIds(Refresh(cs, i, c))
  {
    var r := Refresh(cs, i, c);
    forall p, q | 0 <= p < q < |r| ensures r[p].node != r[q].node {
      var p' := if p < i then p else p + 1;
      assert r[p] == cs[p'];
      if q == |r| - 1 {
        assert r[q] == c && p' != i;
      } else {
        var q' := if q < i then q else q + 1;
        assert r[q] == cs[q'] && p' < q';
      }
    }
  }

  /** Appending a new id keeps ids unique and grows the list by one. */
  lemma AppendFacts(cs: seq<Contact>, c: Contact)
    requires forall k :: 0 <= k < |cs| ==> cs[k].node != c.node
    ensures UniqueIds(cs) ==> UniqueIds(cs + [c])
    ensures forall x :: x in cs + [c] <==> x in cs || x == c
  {
  }

  /** Rotating keeps the stored multiset and the uniqueness of ids. */
  lemma RotateFacts(cs: seq<Contact>)
    requires |cs| > 0
    ensures |Rotate(cs)| == |cs|
    ensures multiset(Rotate(cs)) == multiset(cs)
    ensures forall x :: x in Rotate(cs) <==> x in cs
    ensures UniqueIds(cs) ==> UniqueIds(Rotate(cs))
  {
    var r := Rotate(cs);
    assert cs == [cs[0]] + cs[1..];
    assert multiset(r) == multiset(cs[1..]) + multiset([cs[0]]);
    assert forall x :: x in r <==> x in multiset(r);
    assert forall x :: x in cs <==> x in multiset(cs);
    if UniqueIds(cs) {
      forall p, q | 0 <= p < q < |r| ensures r[p].node != r[q].node {
        if q == |r| - 1 {
          assert r[p] == cs[p + 1] && r[q] == cs[0];
        } else {
          assert r[p] == cs[p + 1] && r[q] == cs[q + 1];
        }
      }
    }
  }

  /** Evicting the oldest contact for a new id keeps the size and the uniqueness of ids. */
  lemma EvictFacts(cs: seq<Contact>, c: Contact)
    requires |cs| > 0
    requires forall k :: 0 <= k < |cs| ==> cs[k].node != c.node
    ensures |Evict(cs, c)| == |cs|
    ensures UniqueIds(cs) ==> UniqueIds(Evict(cs, c))
    ensures UniqueIds(cs) ==> forall x :: x in Evict(cs, c) <==> (x in cs && x != cs[0]) || x == c
  {
    var r := Evict(cs, c);
    if UniqueIds(cs) {
      forall x | x in cs && x != cs[0] ensures x in r {
        var k :| 0 <= k < |cs| && cs[k] == x;
        assert r[k - 1] == x;
      }
      forall x | x in r && x != c ensures x in cs && x != cs[0] {
        var k :| 0 <= k < |r| && r[k] == x;
        assert k < |r| - 1 && x == cs[k + 1];
      }
    }
  }

  /** A known id is refreshed: the size is unchanged, the id is last and the others keep their order. */
  lemma AdmitKnownId(cs: seq<Contact>, i: nat, c: Contact, depth: nat, isAlive: Contact -> bool)
    requires UniqueIds(cs) && i < |cs| && cs[i].node == c.node
    ensures Admit(cs, c, depth, isAlive) == Done(Refresh(cs, i, c), Refreshed)
    ensures |Refresh(cs, i, c)| == |cs|
    ensures Refresh(cs, i, c)[|cs| - 1] == c
    ensures Refresh(cs, i, c)[..|cs| - 1] == cs[..i] + cs[i + 1..]
    ensures UniqueIds(Refresh(cs, i, c))
  {
    var f := FindContact(cs, c.node);
    assert f.Some?;
    assert f.value == i;
    RefreshFacts(cs, i, c);
  }

  /** A new id fits while the bucket has room; the result stays within capacity with unique ids. */
  lemma AdmitWithRoom(cs: seq<Contact>, c: Contact, depth: nat, isAlive: Contact -> bool)
    requires UniqueIds(cs) && c !in cs && |cs| < BucketSize
    ensures Admit(cs, c, depth, isAlive) == Done(cs + [c], Added)
    ensures |cs + [c]| <= BucketSize && UniqueIds(cs + [c])
  {
  }

  /** Full, unsplittable bucket whose oldest contact answers: it moves to the back and `c` is dropped. */
  lemma AdmitFullOldestAlive(cs: seq<Contact>, c: Contact, depth: nat, isAlive: Contact -> bool)
    requires UniqueIds(cs) && c !in cs && |cs| == BucketSize && depth >= MaxDepth
    requires isAlive(cs[0])
    ensures Admit(cs, c, depth, isAlive) == Done(Rotate(cs), Dropped)
    ensures |Rotate(cs)| == BucketSize
    ensures multiset(Rotate(cs)) == multiset(cs)
    ensures Rotate(cs)[BucketSize - 1] == cs[0] && c !in Rotate(cs)
  {
    RotateFacts(cs);
  }

  /** Full, unsplittable bucket whose oldest contact is silent: it is evicted and `c` appended. */
  lemma AdmitFullOldestSilent(cs: seq<Contact>, c: Contact, depth: nat, isAlive: Contact -> bool)
    requires UniqueIds(cs) && c !in cs && |cs| == BucketSize && depth >= MaxDepth
    requires !isAlive(cs[0])
    ensures Admit(cs, c, depth, isAlive) == Done(Evict(cs, c), Replaced(cs[0]))
    ensures |Evict(cs, c)| == BucketSize && UniqueIds(Evict(cs, c))
    ensures cs[0] !in Evict(cs, c) && Evict(cs, c)[BucketSize - 1] == c
  {
  }
}
