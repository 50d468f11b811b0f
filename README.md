# Kademlia routing table, modelled in Dafny

This project models the routing table of a small C++ Kademlia library,
`libkademlia/RoutingTable.h`. The table is a binary trie of buckets keyed on the
leading bits of a 160-bit node id. Each leaf bucket holds up to `bucketSize`
(20) contacts, ordered from the oldest (front) to the most recently seen (back).
A bucket at depth d sends an id left when bit d of the id is 0 and right
otherwise. Bit d is `(id[0] >> (7 - d)) & 1`, bit d of byte 0 counted from the
most significant bit. A bucket at depth 5 is never split.

Files and modules:

- `node_ids.dfy` has two modules. `Options` is a stock Option type. `NodeIds`
  holds the 20-byte `NodeId` (a `seq<bv8>` of length 20), `Contact` and the
  branch bit `Bit`.
- `bucket_policy.dfy` (module `BucketPolicy`) is the insertion policy of one
  bucket as a function over its contact list. `Admit` returns the new list and
  an `Outcome` (refreshed, added, dropped, or replaced with the evicted
  contact), or says that the bucket must be split first. The constants
  `BucketSize = 20` and `MaxDepth = 5` are here.
- `trie.dfy` (module `Trie`) holds the trie as an arena, a `seq<Bucket>` with
  the root at index 0 and child links as indices. It defines descent
  (`Locate`, which is `getBucket`), the split (`Split`, which is `splitBucket`)
  and the table invariant `Inv`.
- `insertion.dfy` (module `Insertion`) defines `Insert`, which is `addContact`
  over the whole trie with its split-and-retry recursion. It also holds the
  lemmas about the effect of an insertion and the as-written variant
  described under Findings.
- `routing_table.dfy` (module `Routing`) holds the `RoutingTable` class. It owns
  the arena in a field `buckets`. Its methods `AddContact`, `AddContactAt` and
  `SplitBucket` update the field in place and are proved equal to `Insert` and
  `Split`. `GetBucket`, `GetBucketFrom` and `GetClosestContacts` are read-only
  functions.

The invariant `Inv` says the following:

- Every bucket is a leaf or has two distinct children ("both or neither").
- Each child is one level deeper than its parent and sits at a larger index.
- No bucket has two parents: distinct buckets link to disjoint children.
- No bucket is deeper than 5; the root has depth 0.
- Every leaf holds at most 20 contacts, with unique ids.
- Every contact in a leaf descends to that leaf.

`Knows(bs, x)` says that `x` is stored in the leaf its id descends to.

How the model treats the source's own quirks:

- `addContact` edits a copy of the bucket's list (line 46), so its erase and
  push_back calls never reach the bucket. The comments describe an in-place
  update. The model uses the in-place update, and the copy is logged under
  Findings.
- `splitBucket` clears only a copy of the split bucket's list (lines 117, 124).
  The model does the same: the split bucket keeps its old list. Nothing is
  claimed about the lists of inner buckets. Descent never stops at an inner
  bucket (`Locate` ends at a leaf), so those lists cannot be reached.
- The root bucket `m_bucket` (line 143) is never created in the source. The
  model's constructor starts from one empty leaf at depth 0.
- `getBucket` tests `left || right` (line 102) but then follows either child.
  The model makes "both children or neither" part of `Inv`.
- `splitBucket` always links two freshly allocated buckets (lines 113-114), so
  no bucket is ever shared by two links. The model states this in `Inv` too:
  the children of a bucket are distinct, and distinct buckets have disjoint
  children.
- `pingContact` is a stub that always answers true. The model passes the
  liveness check in as a parameter `isAlive: Contact -> bool`, so both eviction
  branches are covered.

## Model

| member | source | states |
|---|---|---|
| `NodeIds.Bit` | libkademlia/RoutingTable.h:104 | The branch bit at a depth below 8 is 0 or 1; its meaning as bit d of byte 0 is `BitIsMsbFirst`. The same expression picks the side at line 120. |
| `NodeIds.BitIsMsbFirst` | libkademlia/RoutingTable.h:104 | The branch bit at depth d is 1 exactly when byte 0 has its bit d, counted from the most significant bit, set. |
| `BucketPolicy.FindContact` | libkademlia/RoutingTable.h:47-50 | The search returns the first position holding the id, or reports that no contact has it. |
| `BucketPolicy.Admit` | libkademlia/RoutingTable.h:46-93 | A split is needed exactly when the id is new, the bucket is full and its depth is below 5. Otherwise the result stays within capacity with unique ids. It holds only old contacts and `c`. It is a refresh exactly when `c` was stored. `c` ends up last unless dropped. Membership afterwards follows `StoredAfter`. Dropping or evicting happens only in a full bucket at depth 5. |
| `BucketPolicy.Refresh` | libkademlia/RoutingTable.h:54-55 | Erasing a contact and pushing `c` keeps the list length, puts `c` last and brings in nothing but `c`. Permutation and uniqueness are `RefreshFacts`. |
| `BucketPolicy.RefreshFacts` | libkademlia/RoutingTable.h:52-56 | Erasing the old entry and pushing the new one keeps the size, the multiset of contacts and the uniqueness of ids. |
| `BucketPolicy.RefreshMultiset` | libkademlia/RoutingTable.h:54-55 | The refreshed list is a permutation of the old one. |
| `BucketPolicy.RefreshUnique` | libkademlia/RoutingTable.h:54-55 | The refreshed list keeps ids unique. |
| `BucketPolicy.AppendFacts` | libkademlia/RoutingTable.h:60-61 | Appending a new id keeps ids unique and adds exactly that contact. |
| `BucketPolicy.Rotate` | libkademlia/RoutingTable.h:78-80 | Moving the oldest contact to the back keeps the length and puts that contact last. The multiset facts are `RotateFacts`. |
| `BucketPolicy.RotateFacts` | libkademlia/RoutingTable.h:78-80 | Moving the front contact to the back keeps the size, the multiset and the uniqueness of ids. |
| `BucketPolicy.Evict` | libkademlia/RoutingTable.h:87-90 | Erasing the oldest contact and pushing `c` keeps the length, puts `c` last and brings in nothing but `c`. The exact change in the stored set is `EvictFacts`. |
| `BucketPolicy.EvictFacts` | libkademlia/RoutingTable.h:87-90 | Dropping the front contact and appending a new id keeps the size and unique ids. The stored set loses the front contact and gains the new one. |
| `BucketPolicy.AdmitKnownId` | libkademlia/RoutingTable.h:46-56 | A known id is refreshed. The size is unchanged, the id is last, the other contacts keep their relative order, and ids stay unique. |
| `BucketPolicy.AdmitWithRoom` | libkademlia/RoutingTable.h:59-61 | A new id is appended while the bucket has room. The result has at most 20 contacts with unique ids. |
| `BucketPolicy.AdmitFullOldestAlive` | libkademlia/RoutingTable.h:73-83 | Full bucket at depth 5 with a live oldest contact: that contact moves to the back, the new contact is dropped, and the size and multiset are unchanged. |
| `BucketPolicy.AdmitFullOldestSilent` | libkademlia/RoutingTable.h:84-91 | Full bucket at depth 5 with a silent oldest contact: that contact is removed, the new contact is appended last, the size stays 20 and ids stay unique. |
| `Trie.Locate` | libkademlia/RoutingTable.h:100-109 | Descent ends at a leaf. The leaf is no shallower than the start and no deeper than 5. |
| `Trie.LocateByPrefix` | libkademlia/RoutingTable.h:100-109 | An id that agrees with another on the first d bits, where d is the depth of the leaf the other reaches, reaches the same leaf. |
| `Trie.SameDepthSameLeaf` | libkademlia/RoutingTable.h:100-116 | Descent from two buckets of the same depth ends at the same leaf only when the two buckets are the same: subtrees at one depth are disjoint. |
| `Trie.SameLeafSharesPrefix` | libkademlia/RoutingTable.h:100-109 | Two ids that reach the same leaf agree on every bit from the start depth up to that leaf's depth. |
| `Trie.LeafIsPrefixRange` | libkademlia/RoutingTable.h:100-109 | Two ids reach the same leaf if and only if they agree on as many leading bits as that leaf's depth: each leaf covers exactly one prefix range. |
| `Trie.LocateSameShape` | libkademlia/RoutingTable.h:100-109 | Descent reads only links and depths. Changing contact lists never changes where an id goes. |
| `Trie.SameShapeKeepsShape` | libkademlia/RoutingTable.h:23-31 | Whether the trie is well linked depends only on links and depths. |
| `Trie.InitialValid` | libkademlia/RoutingTable.h:143 | The initial table, one empty leaf at depth 0, satisfies the invariant and stores no contact. |
| `Trie.UniqueAcrossLeaves` | libkademlia/RoutingTable.h:47-56 | In a valid table two stored contacts with the same id are the same contact, in the same leaf. |
| `Trie.Side` | libkademlia/RoutingTable.h:119-123 | One side of the split holds exactly the contacts whose bit `depth` has the given value, and is no longer than the original list. |
| `Trie.SideExtend` | libkademlia/RoutingTable.h:119-123 | Scanning one more contact appends it to the side its bit selects and to no other. |
| `Trie.SidesPartition` | libkademlia/RoutingTable.h:119-123 | The two sides together are the original list as a multiset: nothing is lost or duplicated. |
| `Trie.SideUnique` | libkademlia/RoutingTable.h:119-123 | Each side keeps ids unique. |
| `Trie.Split` | libkademlia/RoutingTable.h:111-125 | The split adds exactly two buckets: both are leaves one level deeper, linked from the split bucket as its left and right child. Every other bucket is unchanged. The bit partition of the contacts is `SplitCorrect`. |
| `Trie.SplitShape` | libkademlia/RoutingTable.h:113-116 | Splitting a leaf whose depth is below 5 keeps the trie well linked. The two new children are distinct and no other bucket links to them, as with the two fresh buckets of lines 113-114. |
| `Trie.SplitCorrect` | libkademlia/RoutingTable.h:111-125 | Both new children are leaves at `depth + 1`. The left one holds exactly the contacts with bit `depth` = 0 and the right one the rest. Their multisets add up to the original list. The split bucket becomes inner and the other buckets are unchanged. |
| `Trie.LocateAfterSplit` | libkademlia/RoutingTable.h:111-125 | After a split, ids that reached the split leaf reach the child their bit selects. All other ids reach the same leaf as before. |
| `Trie.SplitPreservesInv` | libkademlia/RoutingTable.h:111-125 | Splitting a leaf keeps the invariant: capacity, unique ids, depth at most 5, and every contact reachable by descent. |
| `Trie.SplitKeepsKnown` | libkademlia/RoutingTable.h:111-125 | A split stores exactly the same contacts as before. |
| `Insertion.StorePreservesInv` | libkademlia/RoutingTable.h:54-90 | Writing back a fitting list whose contacts all descend to the leaf keeps the invariant and every descent. |
| `Insertion.Insert` | libkademlia/RoutingTable.h:44-93 | Insertion keeps the invariant: every leaf stays within 20 contacts with unique ids, no bucket goes deeper than 5, and every stored contact stays reachable. The retry recursion ends because depth grows by one per split and is bounded by 5. |
| `Insertion.InsertInPlace` | libkademlia/RoutingTable.h:52-61 | When no split is needed, only the target leaf's list changes, to the policy's result. Every other bucket and every link are unchanged. |
| `Insertion.InsertSplitsAndRetries` | libkademlia/RoutingTable.h:62-72 | A full leaf whose depth is below 5 receiving a new id is split. Insertion is retried on the child that descent now selects, one level deeper. |
| `Insertion.EffectInPlace` | libkademlia/RoutingTable.h:52-91 | The effect `EffectOf` holds for an insertion that needs no split. |
| `Insertion.EffectThroughSplit` | libkademlia/RoutingTable.h:62-72 | A split before the retry does not change the effect of the insertion. |
| `Insertion.InsertEffect` | libkademlia/RoutingTable.h:44-93 | For every contact x, x is stored afterwards exactly as `StoredAfter` says: refreshed or dropped means nothing changes; added means c is added; replaced means the evicted contact goes and c comes in. A refresh happens exactly when c was stored. c is stored afterwards, as the newest contact of its leaf, unless dropped. Dropping and eviction happen only in a full leaf at depth 5. |
| `Insertion.InsertAsWritten` | libkademlia/RoutingTable.h:46 | As written, with the edits going to a copy, insertion keeps the invariant but never changes which contacts are stored. |
| `Insertion.AsWrittenLosesNewContact` | libkademlia/RoutingTable.h:46 | As written, inserting into the allocated empty root leaf (`Initial()`) leaves the contact unstored. The in-place update stores it. |
| `Insertion.FreshTableKeepsInsertionOrder` | libkademlia/RoutingTable.h:26 | Two new contacts inserted into a fresh table sit in the root leaf oldest first. |
| `Routing.PartitionByBit` | libkademlia/RoutingTable.h:119-123 | The loop puts in the left list exactly the contacts with bit `depth` = 0 and in the right list the rest, each in original order. |
| `Routing.RoutingTable.constructor` | libkademlia/RoutingTable.h:141-143 | A new table is valid and is one empty root leaf at depth 0. |
| `Routing.RoutingTable.GetBucket` | libkademlia/RoutingTable.h:95-98 | Returns a leaf of depth at most 5. Every contact stored in that leaf descends to it. |
| `Routing.RoutingTable.GetBucketFrom` | libkademlia/RoutingTable.h:100-109 | Descent from any bucket returns a leaf no shallower than that bucket and no deeper than 5. |
| `Routing.RoutingTable.GetClosestContacts` | libkademlia/RoutingTable.h:127-132 | Returns at most 20 contacts with unique ids. They are exactly the stored contacts whose ids fall in the same leaf as the query. Nothing is gathered from neighbouring leaves. |
| `Routing.RoutingTable.SplitBucket` | libkademlia/RoutingTable.h:111-125 | Leaves the table valid and equal to `Split` of the old table. |
| `Routing.RoutingTable.AddContact` | libkademlia/RoutingTable.h:38-42 | Leaves the table valid and equal to `Insert` at the leaf `getBucket` selects. |
| `Routing.RoutingTable.AddContactAt` | libkademlia/RoutingTable.h:44-93 | Leaves the table valid and equal to `Insert` of the old table; the recursion terminates on the depth bound. |

## Left out

- The body of `pingContact` (lines 135-139) is a network round trip in intent and always answers true. It is replaced by the parameter `isAlive`.
- The `parent` field (line 28) is never assigned, and `m_node` (line 142) is never used. Neither is modelled.
- `shared_ptr` ownership and reference counting are replaced by arena indices.
- Ordering by XOR distance and gathering contacts from neighbouring buckets are a TODO in the source (line 130). They are not modelled: `GetClosestContacts` returns one leaf's list, as the source does.
- Concurrency, transport, message formats and persistence do not exist in this file.
- The bucket capacity (20), the depth cap (5) and the id length (20 bytes) are fixed constants, as in the source; scenarios with other values are not modelled.
- Routing.RoutingTable.AddContactAt: requires the bucket that `getBucket` returns for the contact. The source's public two-argument overload accepts any bucket, and a call with another bucket is not modelled.
- The `Outcome` that `Insert` returns is a proof device. The source's `addContact` returns nothing, and neither do the methods.

## Findings

| source | as written | input that shows it | evidently intended | confidence | as-written member | corrected member |
|---|---|---|---|---|---|---|
| libkademlia/RoutingTable.h:46 | `auto contacts = _bucket->contacts;` copies the list. The erase and push_back calls at lines 54-55, 61, 79-80 and 87-90 change only the copy, so the bucket never gains a contact. | A first `addContact(c)` on a table whose root bucket has been allocated as one empty leaf (the model's `Initial()`; the source never allocates it, line 143): `getClosestContacts(c)` is still empty afterwards. | The bucket's own list is edited, as the comments at lines 26, 55, 75, 82 and 89 describe. | high; not executed | `Insertion.AsWrittenLosesNewContact` | `Insertion.InsertEffect` |
