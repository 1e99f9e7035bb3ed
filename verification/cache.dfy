/** The semantic response cache (crates/core/src/cache.rs).

    `Partition` is the source's mutable structure: a dense store with swap-removal, a
    map of slots, a bucketed exact index and a lazy queue of age records. Beside it stand
    ghost fields that say what it means: `view`, a plain map from core text (through its
    two hashes) to the newest answer, and `log`, every answer ever put. The similarity of
    two texts is a real number; the 64-bit hash is any function at all. */
module Cache {
  import opened Wrappers

  type Digest = seq<nat>
  type Embedding = seq<real>

  /** The bucket hash and the digest of a normalized core text. */
  datatype Key = Key(indexHash: nat, digest: Digest)
  datatype Answer = Answer(response: seq<nat>, contentType: string, cost: int)

  /** What is compared of a text: its embedding, its entities and its length. */
  datatype Query = Query(embedding: Embedding, entities: set<string>, coreLen: nat)

  datatype Cached = Cached(id: nat, answer: Answer, created: int, asked: Query)

  datatype Entry = Entry(
    id: nat, embedding: Embedding, entities: set<string>, coreLen: nat,
    key: Key, answer: Answer, created: int)
  {
    function Record(): OrderRecord { OrderRecord(id, created) }
    function Asked(): Query { Query(embedding, entities, coreLen) }
    function Shown(): Cached { Cached(id, answer, created, Asked()) }
  }

  datatype OrderRecord = OrderRecord(id: nat, created: int)

  /** One `put` that reached the partition. */
  datatype Stamped = Stamped(key: Key, answer: Answer, at: int)

  function LatestPut(log: seq<Stamped>, key: Key): Option<Stamped> {
    if log == [] then None
    else if log[|log| - 1].key == key then Some(log[|log| - 1])
    else LatestPut(log[..|log| - 1], key)
  }

  function SwapRemove<T>(s: seq<T>, pos: nat): seq<T>
    requires pos < |s|
  {
    seq(|s| - 1, i requires 0 <= i < |s| - 1 => if i == pos then s[|s| - 1] else s[i])
  }

  function Retain(bucket: seq<nat>, id: nat): seq<nat> {
    if bucket == [] then []
    else if bucket[0] == id then Retain(bucket[1..], id)
    else [bucket[0]] + Retain(bucket[1..], id)
  }

  lemma {:induction false} RetainKeepsOthers(bucket: seq<nat>, id: nat)
    ensures forall x :: x in Retain(bucket, id) <==> x in bucket && x != id
  {
    if bucket != [] {
      assert bucket == [bucket[0]] + bucket[1..];
      RetainKeepsOthers(bucket[1..], id);
    }
  }

  ghost predicate Rising(order: seq<OrderRecord>) {
    forall i, k :: 0 <= i < k < |order| ==> order[i].created <= order[k].created
  }

  // The stable sort of the compaction.

  function InsertByAge(rec: OrderRecord, order: seq<OrderRecord>): seq<OrderRecord> {
    if order == [] || rec.created < order[0].created then [rec] + order
    else [order[0]] + InsertByAge(rec, order[1..])
  }

  function SortByAge(recs: seq<OrderRecord>): seq<OrderRecord> {
    if recs == [] then [] else InsertByAge(recs[|recs| - 1], SortByAge(recs[..|recs| - 1]))
  }

  lemma {:induction false} InsertByAgeRises(rec: OrderRecord, order: seq<OrderRecord>)
    requires Rising(order)
    ensures Rising(InsertByAge(rec, order)) && |InsertByAge(rec, order)| == |order| + 1
    ensures forall r :: r in InsertByAge(rec, order) <==> r == rec || r in order
  {
    if order != [] && rec.created >= order[0].created {
      InsertByAgeRises(rec, order[1..]);
      assert order == [order[0]] + order[1..];
      var rest := InsertByAge(rec, order[1..]);
      forall k | 0 <= k < |rest| ensures order[0].created <= rest[k].created {
        assert rest[k] in rest;
      }
    }
  }

  lemma {:induction false} SortByAgeRises(recs: seq<OrderRecord>)
    ensures Rising(SortByAge(recs)) && |SortByAge(recs)| == |recs|
    ensures forall r :: r in SortByAge(recs) <==> r in recs
  {
    if recs != [] {
      var last, front := recs[|recs| - 1], recs[..|recs| - 1];
      assert recs == front + [last];
      SortByAgeRises(front);
      InsertByAgeRises(last, SortByAge(front));
    }
  }

  // ------------------------------------------------- how the structures agree

  ghost predicate SlotsAgree(entries: seq<Entry>, idToPos: map<nat, nat>) {
    && (forall p :: 0 <= p < |entries| ==> entries[p].id in idToPos && idToPos[entries[p].id] == p)
    && (forall id :: id in idToPos ==> idToPos[id] < |entries| && entries[idToPos[id]].id == id)
  }

  ghost predicate InBucket(exactIndex: map<nat, seq<nat>>, h: nat, id: nat) {
    h in exactIndex && id in exactIndex[h]
  }

  /** Every bucket is non-empty and names exactly the ids stored under its hash. */
  ghost predicate IndexAgrees(entries: seq<Entry>, idToPos: map<nat, nat>, exactIndex: map<nat, seq<nat>>)
    requires SlotsAgree(entries, idToPos)
  {
    && (forall p :: 0 <= p < |entries| ==> InBucket(exactIndex, entries[p].key.indexHash, entries[p].id))
    && (forall h, id :: InBucket(exactIndex, h, id) ==>
          id in idToPos && entries[idToPos[id]].key.indexHash == h)
    && (forall h :: h in exactIndex ==> exactIndex[h] != [])
  }

  /** The view is the stored entries by key; so no key is stored twice. */
  ghost predicate ViewAgrees(entries: seq<Entry>, idToPos: map<nat, nat>, view: map<Key, Cached>)
    requires SlotsAgree(entries, idToPos)
  {
    && (forall p :: 0 <= p < |entries| ==> entries[p].key in view && view[entries[p].key] == entries[p].Shown())
    && (forall k :: k in view ==> view[k].id in idToPos && entries[idToPos[view[k].id]].key == k)
  }

  /** The four structures, and the view, are one and the same store. */
  ghost predicate Agree(
    entries: seq<Entry>, idToPos: map<nat, nat>, exactIndex: map<nat, seq<nat>>, view: map<Key, Cached>, nextId: nat)
  {
    && SlotsAgree(entries, idToPos)
    && IndexAgrees(entries, idToPos, exactIndex)
    && ViewAgrees(entries, idToPos, view)
    && (forall id :: id in idToPos ==> id < nextId)
  }

  lemma ViewSize(
    entries: seq<Entry>, idToPos: map<nat, nat>, exactIndex: map<nat, seq<nat>>, view: map<Key, Cached>, nextId: nat)
    requires Agree(entries, idToPos, exactIndex, view, nextId)
    ensures |view.Keys| == |entries|
  {
    var n := 0;
    var seen: set<Key> := {};
    while n < |entries|
      invariant n <= |entries| && |seen| == n
      invariant forall k :: k in seen <==> k in view && idToPos[view[k].id] < n
    {
      seen := seen + {entries[n].key};
      n := n + 1;
    }
    assert seen == view.Keys;
  }

  /** Every entry has a live age record in the queue. */
  ghost predicate OrderCovers(entries: seq<Entry>, order: seq<OrderRecord>) {
    forall p :: 0 <= p < |entries| ==> entries[p].Record() in order
  }

  /** The queue is in age order and holds nothing newer than `clock`. */
  ghost predicate Aged(order: seq<OrderRecord>, clock: int) {
    Rising(order) && forall k :: 0 <= k < |order| ==> order[k].created <= clock
  }

  /** Every answer shown is the newest one put for its key, at the time it was put. */
  ghost predicate ViewIsLatest(view: map<Key, Cached>, log: seq<Stamped>) {
    forall k :: k in view ==> LatestPut(log, k) == Some(Stamped(k, view[k].answer, view[k].created))
  }

  function Live(entries: seq<Entry>, idToPos: map<nat, nat>, rec: OrderRecord): bool
    requires SlotsAgree(entries, idToPos)
  {
    rec.id in idToPos && entries[idToPos[rec.id]].created == rec.created
  }

  // Removing one entry, on values.

  function SlotsWithout(entries: seq<Entry>, idToPos: map<nat, nat>, id: nat): map<nat, nat>
    requires SlotsAgree(entries, idToPos) && id in idToPos
  {
    var pos := idToPos[id];
    if pos < |entries| - 1 then (idToPos - {id})[entries[|entries| - 1].id := pos] else idToPos - {id}
  }

  function IndexWithout(exactIndex: map<nat, seq<nat>>, h: nat, id: nat): map<nat, seq<nat>> {
    if h !in exactIndex then exactIndex
    else if Retain(exactIndex[h], id) == [] then exactIndex - {h}
    else exactIndex[h := Retain(exactIndex[h], id)]
  }

  /** `es` and `slots` are the store without the entry of `id`. */
  ghost predicate IsWithout(entries: seq<Entry>, idToPos: map<nat, nat>, id: nat, es: seq<Entry>, slots: map<nat, nat>)
    requires SlotsAgree(entries, idToPos)
  {
    && SlotsAgree(es, slots)
    && (forall i :: i in slots <==> i in idToPos && i != id)
    && (forall i :: i in slots ==> es[slots[i]] == entries[idToPos[i]])
    && (forall p :: 0 <= p < |es| ==> es[p].id in idToPos && es[p].id != id && es[p] == entries[idToPos[es[p].id]])
    && |es| == |entries| - 1
  }

  lemma SwapRemoved(entries: seq<Entry>, idToPos: map<nat, nat>, id: nat)
    requires SlotsAgree(entries, idToPos) && id in idToPos
    ensures IsWithout(entries, idToPos, id, SwapRemove(entries, idToPos[id]), SlotsWithout(entries, idToPos, id))
  {
    var pos := idToPos[id];
    var es, slots := SwapRemove(entries, pos), SlotsWithout(entries, idToPos, id);
    forall p | 0 <= p < |es|
      ensures es[p].id in slots && slots[es[p].id] == p && es[p].id in idToPos && es[p].id != id
      ensures es[p] == entries[idToPos[es[p].id]]
    {
      var q := if p == pos then |entries| - 1 else p;
      assert es[p] == entries[q];
      assert idToPos[entries[q].id] == q;
    }
    forall i | i in slots ensures slots[i] < |es| && es[slots[i]] == entries[idToPos[i]] {
      assert idToPos[i] < |entries|;
    }
  }

  lemma IndexRemoved(
    entries: seq<Entry>, idToPos: map<nat, nat>, exactIndex: map<nat, seq<nat>>, id: nat,
    es: seq<Entry>, slots: map<nat, nat>)
    requires SlotsAgree(entries, idToPos) && id in idToPos && IndexAgrees(entries, idToPos, exactIndex)
    requires IsWithout(entries, idToPos, id, es, slots)
    ensures IndexAgrees(es, slots, IndexWithout(exactIndex, entries[idToPos[id]].key.indexHash, id))
  {
    var h := entries[idToPos[id]].key.indexHash;
    assert h in exactIndex;
    var index := IndexWithout(exactIndex, h, id);
    RetainKeepsOthers(exactIndex[h], id);
    forall p | 0 <= p < |es| ensures InBucket(index, es[p].key.indexHash, es[p].id) {
      var q := idToPos[es[p].id];
      assert InBucket(exactIndex, entries[q].key.indexHash, entries[q].id);
      if entries[q].key.indexHash == h { assert es[p].id in Retain(exactIndex[h], id); }
    }
    forall x, i | InBucket(index, x, i) ensures i in slots && es[slots[i]].key.indexHash == x {
      assert InBucket(exactIndex, x, i);
    }
  }

  lemma ViewRemoved(
    entries: seq<Entry>, idToPos: map<nat, nat>, view: map<Key, Cached>, id: nat,
    es: seq<Entry>, slots: map<nat, nat>)
    requires SlotsAgree(entries, idToPos) && id in idToPos && ViewAgrees(entries, idToPos, view)
    requires IsWithout(entries, idToPos, id, es, slots)
    ensures ViewAgrees(es, slots, view - {entries[idToPos[id]].key})
  {
    var gone := entries[idToPos[id]].key;
    var next := view - {gone};
    forall p | 0 <= p < |es| ensures es[p].key in next && next[es[p].key] == es[p].Shown() {
      var q := idToPos[es[p].id];
      assert entries[q].key in view && view[entries[q].key] == entries[q].Shown();
      assert view[gone] == entries[idToPos[id]].Shown();
    }
  }

  /** Where an id is stored, and the slots once its entry is swapped out. */
  lemma StoredSlot(
    entries: seq<Entry>, idToPos: map<nat, nat>, exactIndex: map<nat, seq<nat>>, view: map<Key, Cached>,
    nextId: nat, id: nat)
    requires Agree(entries, idToPos, exactIndex, view, nextId) && id in idToPos
    ensures SlotsAgree(entries, idToPos) && idToPos[id] < |entries|
    ensures var pos := idToPos[id];
            var es := SwapRemove(entries, pos);
            |es| == |entries| - 1
            && SlotsWithout(entries, idToPos, id)
                 == if pos < |es| then (idToPos - {id})[es[pos].id := pos] else idToPos - {id}
  {
  }

  lemma Removed(
    entries: seq<Entry>, idToPos: map<nat, nat>, exactIndex: map<nat, seq<nat>>, view: map<Key, Cached>,
    nextId: nat, id: nat, es: seq<Entry>, slots: map<nat, nat>)
    requires Agree(entries, idToPos, exactIndex, view, nextId) && id in idToPos
    requires es == SwapRemove(entries, idToPos[id]) && slots == SlotsWithout(entries, idToPos, id)
    ensures IsWithout(entries, idToPos, id, es, slots)
    ensures Agree(es, slots, IndexWithout(exactIndex, entries[idToPos[id]].key.indexHash, id),
              view - {entries[idToPos[id]].key}, nextId)
  {
    SwapRemoved(entries, idToPos, id);
    IndexRemoved(entries, idToPos, exactIndex, id, es, slots);
    ViewRemoved(entries, idToPos, view, id, es, slots);
  }

  /** `next` shows nothing that `view` does not. */
  ghost predicate Within(next: map<Key, Cached>, view: map<Key, Cached>) {
    forall k :: k in next ==> k in view && next[k] == view[k]
  }

  /** Popping the front record uncovers at most the entry it is live for. */
  lemma PopCovers(entries: seq<Entry>, idToPos: map<nat, nat>, order: seq<OrderRecord>)
    requires SlotsAgree(entries, idToPos) && OrderCovers(entries, order) && order != []
    ensures forall p :: 0 <= p < |entries| ==>
              entries[p].Record() in order[1..] || (Live(entries, idToPos, order[0]) && entries[p].id == order[0].id)
  {
    assert order == [order[0]] + order[1..];
  }

  lemma ShownIsCovered(entries: seq<Entry>, idToPos: map<nat, nat>, view: map<Key, Cached>, order: seq<OrderRecord>)
    requires SlotsAgree(entries, idToPos) && ViewAgrees(entries, idToPos, view) && OrderCovers(entries, order)
    ensures forall k :: k in view ==> OrderRecord(view[k].id, view[k].created) in order
    ensures order == [] ==> entries == []
  {
    forall k | k in view ensures OrderRecord(view[k].id, view[k].created) in order {
      var p := idToPos[view[k].id];
      assert view[entries[p].key] == entries[p].Shown();
    }
    if entries != [] { assert entries[0].Record() in order; }
  }

  function Records(entries: seq<Entry>): seq<OrderRecord> {
    seq(|entries|, p requires 0 <= p < |entries| => entries[p].Record())
  }

  ghost predicate IsSuffix(order: seq<OrderRecord>, whole: seq<OrderRecord>) {
    |order| <= |whole| && order == whole[|whole| - |order|..]
  }

  /** Nothing shown is past its time to live. */
  ghost predicate Fresh(view: map<Key, Cached>, now: int, ttl: int) {
    forall k :: k in view ==> now - view[k].created <= ttl
  }

  /** What is gone was expired; the rest is as it was. */
  ghost predicate IsSweep(view: map<Key, Cached>, next: map<Key, Cached>, now: int, ttl: int) {
    && Within(next, view)
    && forall k :: k in view && k !in next ==> now - view[k].created > ttl
  }

  /** What is gone is at most the answers of one age. */
  ghost predicate DropsOnly(view: map<Key, Cached>, next: map<Key, Cached>, created: int) {
    && Within(next, view)
    && forall k :: k in view && k !in next ==> view[k].created == created
  }

  /** No dropped answer is newer than a kept one. */
  ghost predicate DropsOldest(view: map<Key, Cached>, next: map<Key, Cached>) {
    forall k, m :: k in view && k !in next && m in next ==> view[k].created <= next[m].created
  }

  /** Each dropped answer went with one of the first `n` records. */
  ghost predicate DroppedWith(view: map<Key, Cached>, next: map<Key, Cached>, whole: seq<OrderRecord>, n: int) {
    && Within(next, view)
    && forall k :: k in view && k !in next ==> PoppedAt(whole, n, view[k].created)
  }

  ghost predicate PoppedAt(whole: seq<OrderRecord>, n: int, created: int) {
    exists i :: 0 <= i < n && i < |whole| && whole[i].created == created
  }

  lemma SuffixRises(order: seq<OrderRecord>, whole: seq<OrderRecord>, n: nat)
    requires n <= |whole| && order == whole[n..] && Rising(whole)
    ensures Rising(order)
    ensures order != [] ==> forall r :: r in order ==> order[0].created <= r.created
  {
    forall r | r in order ensures order[0].created <= r.created {
      var i :| 0 <= i < |order| && order[i] == r;
      assert order[0] == whole[n] && order[i] == whole[n + i];
    }
  }

  lemma SweptIsFresh(
    entries: seq<Entry>, idToPos: map<nat, nat>, view: map<Key, Cached>, order: seq<OrderRecord>,
    whole: seq<OrderRecord>, now: int, ttl: int)
    requires SlotsAgree(entries, idToPos) && ViewAgrees(entries, idToPos, view) && OrderCovers(entries, order)
    requires IsSuffix(order, whole)
    requires order != [] ==> now - order[0].created <= ttl
    ensures Rising(whole) ==> Fresh(view, now, ttl)
  {
    ShownIsCovered(entries, idToPos, view, order);
    if Rising(whole) {
      SuffixRises(order, whole, |whole| - |order|);
      forall k | k in view ensures now - view[k].created <= ttl {
        assert OrderRecord(view[k].id, view[k].created) in order;
      }
    }
  }

  lemma NothingUncovered(entries: seq<Entry>, order: seq<OrderRecord>)
    requires OrderCovers(entries, order)
    ensures order == [] ==> entries == []
  {
    if entries != [] { assert entries[0].Record() in order; }
  }

  lemma DroppedOneMore(
    view: map<Key, Cached>, before: map<Key, Cached>, next: map<Key, Cached>, whole: seq<OrderRecord>, n: nat)
    requires n < |whole| && DroppedWith(view, before, whole, n)
    requires DropsOnly(before, next, whole[n].created)
    ensures DroppedWith(view, next, whole, n + 1)
  {
    forall k | k in view && k !in next ensures PoppedAt(whole, n + 1, view[k].created) {
      if k !in before { assert PoppedAt(whole, n, view[k].created); }
    }
  }

  lemma EvictedIsOldest(
    entries: seq<Entry>, idToPos: map<nat, nat>, next: map<Key, Cached>, order: seq<OrderRecord>,
    view: map<Key, Cached>, whole: seq<OrderRecord>)
    requires SlotsAgree(entries, idToPos) && ViewAgrees(entries, idToPos, next) && OrderCovers(entries, order)
    requires IsSuffix(order, whole) && DroppedWith(view, next, whole, |whole| - |order|)
    ensures Rising(whole) ==> DropsOldest(view, next)
  {
    ShownIsCovered(entries, idToPos, next, order);
    var n := |whole| - |order|;
    if Rising(whole) {
      forall k, m | k in view && k !in next && m in next ensures view[k].created <= next[m].created {
        assert PoppedAt(whole, n, view[k].created);
        var i :| 0 <= i < n && whole[i].created == view[k].created;
        var j :| 0 <= j < |order| && order[j] == OrderRecord(next[m].id, next[m].created);
        assert whole[i].created <= whole[n + j].created;
      }
    }
  }

  // Refreshing and inserting one entry, on values.

  lemma Refreshed(
    entries: seq<Entry>, idToPos: map<nat, nat>, exactIndex: map<nat, seq<nat>>, view: map<Key, Cached>, nextId: nat,
    order: seq<OrderRecord>, key: Key, answer: Answer, now: int)
    requires Agree(entries, idToPos, exactIndex, view, nextId) && OrderCovers(entries, order) && key in view
    ensures var pos := idToPos[view[key].id];
            var es := entries[pos := entries[pos].(answer := answer, created := now)];
            && Agree(es, idToPos, exactIndex, view[key := view[key].(answer := answer, created := now)], nextId)
            && OrderCovers(es, order + [OrderRecord(view[key].id, now)])
  {
    var pos := idToPos[view[key].id];
    var es := entries[pos := entries[pos].(answer := answer, created := now)];
    var next := view[key := view[key].(answer := answer, created := now)];
    forall p | 0 <= p < |es|
      ensures es[p].id == entries[p].id && es[p].key == entries[p].key
      ensures es[p].key in next && next[es[p].key] == es[p].Shown()
    {
      assert view[entries[p].key] == entries[p].Shown();
      if p != pos { assert entries[p].id != entries[pos].id; }
    }
    forall p | 0 <= p < |es| ensures es[p].Record() in order + [OrderRecord(view[key].id, now)] {
      if p != pos { assert es[p].Record() in order; }
    }
  }

  function Indexed(exactIndex: map<nat, seq<nat>>, h: nat, id: nat): map<nat, seq<nat>> {
    exactIndex[h := (if h in exactIndex then exactIndex[h] else []) + [id]]
  }

  lemma Inserted(
    entries: seq<Entry>, idToPos: map<nat, nat>, exactIndex: map<nat, seq<nat>>, view: map<Key, Cached>, nextId: nat,
    order: seq<OrderRecord>, e: Entry)
    requires Agree(entries, idToPos, exactIndex, view, nextId) && OrderCovers(entries, order)
    requires e.key !in view && e.id == nextId
    ensures Agree(entries + [e], idToPos[e.id := |entries|], Indexed(exactIndex, e.key.indexHash, e.id),
              view[e.key := e.Shown()], nextId + 1)
    ensures OrderCovers(entries + [e], order + [e.Record()])
  {
    var es, slots := entries + [e], idToPos[e.id := |entries|];
    var index := Indexed(exactIndex, e.key.indexHash, e.id);
    assert SlotsAgree(es, slots);
    forall p | 0 <= p < |es| ensures InBucket(index, es[p].key.indexHash, es[p].id) {
      if p < |entries| { assert InBucket(exactIndex, es[p].key.indexHash, es[p].id); }
    }
    forall h, id | InBucket(index, h, id) ensures id in slots && es[slots[id]].key.indexHash == h {
      if InBucket(exactIndex, h, id) { assert id in idToPos; }
    }
  }

  /** What inserting an entry and evicting past the cap does to the view. */
  ghost predicate IsInsert(view: map<Key, Cached>, next: map<Key, Cached>, e: Entry, cap: nat) {
    && (forall k :: k in next && k != e.key ==> k in view && next[k] == view[k])
    && (e.key in next ==> next[e.key] == e.Shown())
    && |next.Keys| == if |view.Keys| + 1 <= cap then |view.Keys| + 1 else cap
  }

  /** What a `put` does to the view, given what the sweep left of it. A text stored before
      stays as it was asked then. */
  ghost predicate IsPut(
    view: map<Key, Cached>, swept: map<Key, Cached>, next: map<Key, Cached>,
    key: Key, asked: Query, answer: Answer, now: int, ttl: int, cap: nat)
  {
    && IsSweep(view, swept, now, ttl)
    && if key in swept then next == swept[key := swept[key].(answer := answer, created := now)]
       else exists e: Entry ::
              && e.key == key && e.answer == answer && e.created == now && e.Asked() == asked
              && IsInsert(swept, next, e, cap)
  }

  /** No evicted answer, the new one among them, is newer than one that stays. */
  ghost predicate EvictsOldest(swept: map<Key, Cached>, next: map<Key, Cached>, key: Key, now: int) {
    && (forall k, m :: k in swept && k !in next && m in next ==> swept[k].created <= next[m].created)
    && (key !in next ==> forall m :: m in next ==> now <= next[m].created)
  }

  lemma RefreshEvictsNone(swept: map<Key, Cached>, next: map<Key, Cached>, key: Key, now: int)
    requires forall k :: k in swept ==> k in next
    requires key in next
    ensures EvictsOldest(swept, next, key, now)
  {
  }

  lemma GrownThenEvicted(view: map<Key, Cached>, grown: map<Key, Cached>, next: map<Key, Cached>, e: Entry, cap: nat)
    requires e.key !in view && grown == view[e.key := e.Shown()] && Within(next, grown)
    requires |next.Keys| == if |view.Keys| + 1 <= cap then |view.Keys| + 1 else cap
    ensures IsInsert(view, next, e, cap)
    ensures DropsOldest(grown, next) ==> EvictsOldest(view, next, e.key, e.created)
  {
  }

  lemma RefreshIsPut(
    view: map<Key, Cached>, swept: map<Key, Cached>, next: map<Key, Cached>,
    key: Key, asked: Query, answer: Answer, now: int, ttl: int, cap: nat)
    requires IsSweep(view, swept, now, ttl)
    requires key in swept && next == swept[key := swept[key].(answer := answer, created := now)]
    ensures IsPut(view, swept, next, key, asked, answer, now, ttl, cap)
  {
  }

  lemma InsertIsPut(
    view: map<Key, Cached>, swept: map<Key, Cached>, next: map<Key, Cached>, e: Entry, ttl: int, cap: nat)
    requires IsSweep(view, swept, e.created, ttl)
    requires e.key !in swept && IsInsert(swept, next, e, cap)
    ensures IsPut(view, swept, next, e.key, e.Asked(), e.answer, e.created, ttl, cap)
  {
  }

  lemma LatestAfter(view: map<Key, Cached>, swept: map<Key, Cached>, next: map<Key, Cached>, log: seq<Stamped>, put: Stamped)
    requires ViewIsLatest(view, log)
    requires exists asked, ttl, cap :: IsPut(view, swept, next, put.key, asked, put.answer, put.at, ttl, cap)
    ensures ViewIsLatest(next, log + [put])
  {
    assert (log + [put])[..|log|] == log;
  }

  /** The queue is as it was, or some of its records in age order. */
  ghost predicate Compacts(o1: seq<OrderRecord>, o2: seq<OrderRecord>) {
    o2 == o1 || (Rising(o2) && forall r :: r in o2 ==> r in o1)
  }

  lemma AgedRises(order: seq<OrderRecord>, clock: int)
    ensures Aged(order, clock) ==> Rising(order)
  {
  }

  lemma CompactedIsAged(o1: seq<OrderRecord>, o2: seq<OrderRecord>, clock: int)
    requires Compacts(o1, o2)
    ensures Aged(o1, clock) ==> Aged(o2, clock)
  {
    if o2 != o1 && Aged(o1, clock) {
      forall k | 0 <= k < |o2| ensures o2[k].created <= clock { assert o2[k] in o2; }
    }
  }

  /** The queue stays in age order when a record of now is pushed behind a suffix of it. */
  lemma AgedByOne(o0: seq<OrderRecord>, o1: seq<OrderRecord>, o2: seq<OrderRecord>, rec: OrderRecord, clock: int)
    requires IsSuffix(o1, o0) && IsSuffix(o2, o1 + [rec])
    ensures Aged(o0, clock) && clock <= rec.created ==> Rising(o1 + [rec]) && Aged(o2, rec.created)
  {
    if Aged(o0, clock) && clock <= rec.created {
      var n, m := |o0| - |o1|, |o1| + 1 - |o2|;
      assert forall i :: 0 <= i < |o1| ==> o1[i] == o0[n + i];
      assert forall i :: 0 <= i < |o2| ==> o2[i] == (o1 + [rec])[m + i];
    }
  }

  // --------------------------------------------------------------------- lookups

  datatype CacheMode = Off | Shadow | On

  datatype CacheConfig = CacheConfig(
    mode: CacheMode, threshold: real, ttl: int, cap: nat, entityGuard: bool, lengthRatioMax: real)

  /** The functions of a text the cache is built on, all taken as given. */
  datatype Texts = Texts(
    trim: string -> string, hash: string -> nat, digest: string -> Digest,
    embed: string -> Embedding, entities: string -> set<string>)
  {
    function KeyOf(core: string): Key {
      Key(hash(trim(core)), digest(trim(core)))
    }

    function Ask(core: string): Query {
      Query(embed(core), entities(core), |core|)
    }

    ghost predicate DigestIsInjective() {
      forall a, b :: digest(a) == digest(b) ==> a == b
    }
  }

  datatype Lookup = Lookup(response: seq<nat>, contentType: string, similarity: real, saved: int)

  function DotFrom(a: Embedding, b: Embedding, i: nat): real
    requires i <= |a| == |b|
  {
    if i == 0 then 0.0 else DotFrom(a, b, i - 1) + a[i - 1] * b[i - 1]
  }

  function Dot(a: Embedding, b: Embedding): real {
    if |a| != |b| then 0.0 else DotFrom(a, b, |a|)
  }

  function Ratio(a: nat, b: nat): real {
    var x: real := if a == 0 then 1.0 else a as real;
    var y: real := if b == 0 then 1.0 else b as real;
    if x > y then x / y else y / x
  }

  /** Whether the guards let an entry answer a query, whatever other entries say. */
  predicate Eligible(e: Entry, q: Query, now: int, config: CacheConfig) {
    && now - e.created <= config.ttl
    && (config.entityGuard ==> e.entities == q.entities)
    && Ratio(q.coreLen, e.coreLen) <= config.lengthRatioMax
    && Dot(q.embedding, e.embedding) >= config.threshold
  }

  function Hit(e: Entry, similarity: real): Lookup {
    Lookup(e.answer.response, e.answer.contentType, similarity, e.answer.cost)
  }

  /** `best` is the first of the most similar eligible entries among the first `n`. */
  ghost predicate IsBest(entries: seq<Entry>, n: nat, q: Query, now: int, config: CacheConfig, best: Option<nat>)
    requires n <= |entries|
  {
    if best.None? then forall p :: 0 <= p < n ==> !Eligible(entries[p], q, now, config)
    else
      && best.value < n && Eligible(entries[best.value], q, now, config)
      && (forall p :: 0 <= p < n && Eligible(entries[p], q, now, config) ==>
            Dot(q.embedding, entries[p].embedding) <= Dot(q.embedding, entries[best.value].embedding))
      && (forall p :: 0 <= p < best.value && Eligible(entries[p], q, now, config) ==>
            Dot(q.embedding, entries[p].embedding) < Dot(q.embedding, entries[best.value].embedding))
  }

  /** How a lookup is answered: by the answer stored for exactly this text if it has not
      expired, otherwise by the most similar entry the guards let through. */
  ghost predicate ServedAs(
    entries: seq<Entry>, view: map<Key, Cached>, key: Key, q: Query, now: int, config: CacheConfig, hit: Option<Lookup>)
  {
    if key in view && now - view[key].created <= config.ttl then
      var a := view[key].answer;
      hit == Some(Lookup(a.response, a.contentType, 1.0, a.cost))
    else
      exists best: Option<nat> ::
        && IsBest(entries, |entries|, q, now, config, best)
        && hit == if best.None? then None
                  else Some(Hit(entries[best.value], Dot(q.embedding, entries[best.value].embedding)))
  }

  // ------------------------------------------- what that means of the texts themselves

  /** The sum of the products, component by component. */
  function Product(a: Embedding, b: Embedding): real {
    if a == [] || b == [] then 0.0 else a[0] * b[0] + Product(a[1..], b[1..])
  }

  lemma {:induction false} ProductAppends(a: Embedding, b: Embedding, x: real, y: real)
    requires |a| == |b|
    ensures Product(a + [x], b + [y]) == Product(a, b) + x * y
  {
    if a == [] {
      assert [x][1..] == [] && [y][1..] == [];
    } else {
      assert (a + [x])[1..] == a[1..] + [x] && (b + [y])[1..] == b[1..] + [y];
      ProductAppends(a[1..], b[1..], x, y);
    }
  }

  lemma {:induction false} DotFromIsProduct(a: Embedding, b: Embedding, i: nat)
    requires i <= |a| == |b|
    ensures DotFrom(a, b, i) == Product(a[..i], b[..i])
  {
    if i > 0 {
      DotFromIsProduct(a, b, i - 1);
      ProductAppends(a[..i - 1], b[..i - 1], a[i - 1], b[i - 1]);
      assert a[..i] == a[..i - 1] + [a[i - 1]] && b[..i] == b[..i - 1] + [b[i - 1]];
    }
  }

  /** Embeddings of one length are as similar as their product, and others not at all. */
  lemma DotIsProduct(a: Embedding, b: Embedding)
    ensures Dot(a, b) == if |a| == |b| then Product(a, b) else 0.0
  {
    if |a| == |b| {
      DotFromIsProduct(a, b, |a|);
      assert a[..|a|] == a && b[..|b|] == b;
    }
  }

  /** Neither length is more than `most` times the other; an empty text counts as one. */
  predicate LengthsClose(a: nat, b: nat, most: real) {
    var x, y := if a == 0 then 1 else a, if b == 0 then 1 else b;
    x as real <= most * y as real && y as real <= most * x as real
  }

  lemma RatioIsClose(a: nat, b: nat, most: real)
    requires most >= 1.0
    ensures Ratio(a, b) <= most <==> LengthsClose(a, b, most)
  {
    var x: real := if a == 0 then 1.0 else a as real;
    var y: real := if b == 0 then 1.0 else b as real;
    Quotient(x, y, most);
    Quotient(y, x, most);
  }

  lemma Quotient(x: real, y: real, most: real)
    requires x > 0.0 && y > 0.0 && most >= 1.0
    ensures x / y <= most <==> x <= most * y
    ensures x <= y ==> x <= most * y
  {
    var r := x / y;
    assert r * y == x;
    if r <= most { assert (most - r) * y >= 0.0; } else { assert (r - most) * y > 0.0; }
    assert (most - 1.0) * y >= 0.0;
  }

  /** What was compared of an entry is that of the text. */
  predicate IsOf(asked: Query, texts: Texts, t: string) {
    asked.embedding == texts.embed(t) && asked.entities == texts.entities(t) && asked.coreLen == |t|
  }

  /** The text `t` may answer the text `core`: the guards let it, and they are similar enough. */
  predicate Meets(texts: Texts, config: CacheConfig, core: string, t: string) {
    && (config.entityGuard ==> texts.entities(core) == texts.entities(t))
    && Ratio(|core|, |t|) <= config.lengthRatioMax
    && Dot(texts.embed(core), texts.embed(t)) >= config.threshold
  }

  /** An answer put for the text `t` is shown and has not expired. */
  ghost predicate Stands(texts: Texts, config: CacheConfig, view: map<Key, Cached>, t: string, now: int) {
    texts.KeyOf(t) in view && now - view[texts.KeyOf(t)].created <= config.ttl && IsOf(view[texts.KeyOf(t)].asked, texts, t)
  }

  ghost predicate HasExact(texts: Texts, config: CacheConfig, view: map<Key, Cached>, core: string, now: int) {
    texts.KeyOf(core) in view && now - view[texts.KeyOf(core)].created <= config.ttl
  }

  /** The lookup is the answer shown for the text `t`, with that similarity. */
  ghost predicate IsAnswerOf(texts: Texts, view: map<Key, Cached>, t: string, similarity: real, hit: Option<Lookup>) {
    texts.KeyOf(t) in view
    && var a := view[texts.KeyOf(t)].answer;
       hit == Some(Lookup(a.response, a.contentType, similarity, a.cost))
  }

  /** A text is served its own unexpired answer; without one, that of a text which may answer
      it, and no text that may is more similar; and nothing only if there is no such text. */
  ghost predicate IsServed(
    texts: Texts, config: CacheConfig, view: map<Key, Cached>, core: string, now: int, hit: Option<Lookup>)
  {
    if HasExact(texts, config, view, core, now) then IsAnswerOf(texts, view, core, 1.0, hit)
    else
      && (hit.Some? ==> exists t ::
            && Stands(texts, config, view, t, now) && Meets(texts, config, core, t)
            && IsAnswerOf(texts, view, t, Dot(texts.embed(core), texts.embed(t)), hit))
      && (forall t :: Stands(texts, config, view, t, now) && Meets(texts, config, core, t) ==>
            hit.Some? && hit.value.similarity >= Dot(texts.embed(core), texts.embed(t)))
  }

  /** Whatever is shown was put for a text, and compared as that text. */
  ghost predicate IsOfTexts(texts: Texts, view: map<Key, Cached>, history: seq<TextPut>) {
    forall k :: k in view ==> IsOfSome(texts, k, view[k].asked, history)
  }

  ghost predicate IsOfSome(texts: Texts, key: Key, asked: Query, history: seq<TextPut>) {
    exists i :: 0 <= i < |history| && texts.KeyOf(history[i].core) == key && IsOf(asked, texts, history[i].core)
  }

  lemma EntryIsOfText(
    texts: Texts, config: CacheConfig, entries: seq<Entry>, idToPos: map<nat, nat>, view: map<Key, Cached>,
    history: seq<TextPut>, core: string, now: int, p: nat) returns (t: string)
    requires SlotsAgree(entries, idToPos) && ViewAgrees(entries, idToPos, view) && IsOfTexts(texts, view, history)
    requires p < |entries| && Eligible(entries[p], texts.Ask(core), now, config)
    ensures Stands(texts, config, view, t, now) && Meets(texts, config, core, t)
    ensures Dot(texts.Ask(core).embedding, entries[p].embedding) == Dot(texts.embed(core), texts.embed(t))
    ensures IsAnswerOf(texts, view, t, Dot(texts.embed(core), texts.embed(t)),
              Some(Hit(entries[p], Dot(texts.embed(core), texts.embed(t)))))
  {
    hide Dot, Ratio, SlotsAgree;
    var e := entries[p];
    assert view[e.key] == e.Shown() && IsOfSome(texts, e.key, view[e.key].asked, history);
    var i :| 0 <= i < |history| && texts.KeyOf(history[i].core) == e.key && IsOf(view[e.key].asked, texts, history[i].core);
    t := history[i].core;
  }

  lemma TextIsOfEntry(
    texts: Texts, config: CacheConfig, entries: seq<Entry>, idToPos: map<nat, nat>, view: map<Key, Cached>,
    core: string, now: int, t: string) returns (p: nat)
    requires SlotsAgree(entries, idToPos) && ViewAgrees(entries, idToPos, view)
    requires Stands(texts, config, view, t, now) && Meets(texts, config, core, t)
    ensures p < |entries| && Eligible(entries[p], texts.Ask(core), now, config)
    ensures Dot(texts.Ask(core).embedding, entries[p].embedding) == Dot(texts.embed(core), texts.embed(t))
  {
    hide Dot, Ratio;
    p := idToPos[view[texts.KeyOf(t)].id];
    assert view[entries[p].key] == entries[p].Shown();
  }

  /** What serves by entry serves by text. */
  lemma ServedByText(
    texts: Texts, config: CacheConfig, entries: seq<Entry>, idToPos: map<nat, nat>, view: map<Key, Cached>,
    history: seq<TextPut>, core: string, now: int, hit: Option<Lookup>)
    requires SlotsAgree(entries, idToPos) && ViewAgrees(entries, idToPos, view) && IsOfTexts(texts, view, history)
    requires ServedAs(entries, view, texts.KeyOf(core), texts.Ask(core), now, config, hit)
    ensures IsServed(texts, config, view, core, now, hit)
  {
    hide Dot, Ratio, Eligible, SlotsAgree, ViewAgrees, IsOfTexts, Stands, Meets, IsAnswerOf, Hit;
    var q := texts.Ask(core);
    if HasExact(texts, config, view, core, now) {
      ExactIsAnswer(texts, config, entries, view, core, now, hit);
    } else {
      var best: Option<nat> :|
        && IsBest(entries, |entries|, q, now, config, best)
        && hit == if best.None? then None
                  else Some(Hit(entries[best.value], Dot(q.embedding, entries[best.value].embedding)));
      if best.Some? {
        var t := EntryIsOfText(texts, config, entries, idToPos, view, history, core, now, best.value);
        HitIs(entries[best.value], Dot(q.embedding, entries[best.value].embedding));
      }
      forall t | Stands(texts, config, view, t, now) && Meets(texts, config, core, t)
        ensures hit.Some? && hit.value.similarity >= Dot(texts.embed(core), texts.embed(t))
      {
        var p := TextIsOfEntry(texts, config, entries, idToPos, view, core, now, t);
        if best.Some? { HitIs(entries[best.value], Dot(q.embedding, entries[best.value].embedding)); }
      }
    }
  }

  lemma ExactIsAnswer(
    texts: Texts, config: CacheConfig, entries: seq<Entry>, view: map<Key, Cached>, core: string, now: int, hit: Option<Lookup>)
    requires ServedAs(entries, view, texts.KeyOf(core), texts.Ask(core), now, config, hit)
    requires HasExact(texts, config, view, core, now)
    ensures IsAnswerOf(texts, view, core, 1.0, hit)
  {
  }

  lemma HitIs(e: Entry, similarity: real)
    ensures Hit(e, similarity).similarity == similarity
  {
  }

  /** A put leaves what is shown that of texts, the new one among them. */
  lemma PutKeepsTexts(
    texts: Texts, view: map<Key, Cached>, swept: map<Key, Cached>, next: map<Key, Cached>, history: seq<TextPut>,
    core: string, answer: Answer, now: int, ttl: int, cap: nat)
    requires IsOfTexts(texts, view, history)
    requires IsPut(view, swept, next, texts.KeyOf(core), texts.Ask(core), answer, now, ttl, cap)
    ensures IsOfTexts(texts, next, history + [TextPut(core, answer, now)])
  {
    var more := history + [TextPut(core, answer, now)];
    forall k | k in next ensures IsOfSome(texts, k, next[k].asked, more) {
      if k in swept {
        assert IsOfSome(texts, k, view[k].asked, history);
        var i :| 0 <= i < |history| && texts.KeyOf(history[i].core) == k && IsOf(view[k].asked, texts, history[i].core);
        assert more[i] == history[i];
      } else {
        assert more[|history|].core == core;
      }
    }
  }

  /** From end to end: once an answer was put for `a`, and while it is shown and has not expired,
      a text that has none of its own is served, and at least as similarly as by `a`, whenever
      `a` may answer it. If `a` was stored before in other white space, that holds of the text
      `t` it was stored as. */
  lemma ParaphraseIsServed(
    texts: Texts, config: CacheConfig, view: map<Key, Cached>, swept: map<Key, Cached>, next: map<Key, Cached>,
    history: seq<TextPut>, a: string, answer: Answer, now: int, b: string, later: int, hit: Option<Lookup>)
    returns (t: string)
    requires IsOfTexts(texts, view, history)
    requires IsPut(view, swept, next, texts.KeyOf(a), texts.Ask(a), answer, now, config.ttl, config.cap)
    requires texts.KeyOf(a) in next && later - now <= config.ttl
    requires IsServed(texts, config, next, b, later, hit) && !HasExact(texts, config, next, b, later)
    ensures texts.KeyOf(t) == texts.KeyOf(a) && (texts.KeyOf(a) !in swept ==> t == a)
    ensures (config.entityGuard ==> texts.entities(b) == texts.entities(t))
            && config.lengthRatioMax >= 1.0 && LengthsClose(|b|, |t|, config.lengthRatioMax)
            && |texts.embed(b)| == |texts.embed(t)| && Product(texts.embed(b), texts.embed(t)) >= config.threshold
            ==> hit.Some? && hit.value.similarity >= Product(texts.embed(b), texts.embed(t))
  {
    hide Dot, Ratio, LengthsClose, Product;
    t := a;
    if texts.KeyOf(a) in swept {
      assert IsOfSome(texts, texts.KeyOf(a), view[texts.KeyOf(a)].asked, history);
      var i :| 0 <= i < |history| && texts.KeyOf(history[i].core) == texts.KeyOf(a)
               && IsOf(view[texts.KeyOf(a)].asked, texts, history[i].core);
      t := history[i].core;
    }
    assert Stands(texts, config, next, t, later);
    if config.lengthRatioMax >= 1.0 { RatioIsClose(|b|, |t|, config.lengthRatioMax); }
    if |texts.embed(b)| == |texts.embed(t)| { DotIsProduct(texts.embed(b), texts.embed(t)); }
  }

  // ------------------------------------------------------------- one partition

  class Partition {
    var entries: seq<Entry>
    var idToPos: map<nat, nat>
    var order: seq<OrderRecord>
    var exactIndex: map<nat, seq<nat>>
    var nextId: nat

    ghost var view: map<Key, Cached>
    ghost var log: seq<Stamped>
    // Age records popped, discarded and rebuilt so far.
    ghost var work: nat

    ghost predicate Stored()
      reads this
    {
      Agree(entries, idToPos, exactIndex, view, nextId)
    }

    /** What every `put` keeps, whatever the clock does. */
    ghost predicate Valid()
      reads this
    {
      && Stored()
      && OrderCovers(entries, order)
      && ViewIsLatest(view, log)
      && |order| <= 2 * |entries| + 16
      && work + 3 * |order| <= 3 * |log|
    }

    constructor ()
      ensures Valid() && view == map[] && log == [] && order == [] && entries == []
    {
      entries, idToPos, order, exactIndex, nextId := [], map[], [], map[], 0;
      view, log, work := map[], [], 0;
    }

    predicate IsLiveRecord(rec: OrderRecord)
      requires SlotsAgree(entries, idToPos)
      reads this
    {
      Live(entries, idToPos, rec)
    }

    method RemoveById(id: nat)
      requires Stored()
      modifies this`entries, this`idToPos, this`exactIndex, this`view
      ensures Stored()
      ensures id !in old(idToPos) ==> entries == old(entries) && idToPos == old(idToPos) && view == old(view)
      ensures id in old(idToPos) ==>
                && IsWithout(old(entries), old(idToPos), id, entries, idToPos)
                && view == old(view) - {old(entries[idToPos[id]].key)}
    {
      if id !in idToPos {
        return;
      }
      StoredSlot(entries, idToPos, exactIndex, view, nextId, id);
      hide Agree, IsWithout, SlotsWithout, SlotsAgree, IndexWithout, SwapRemove;
      var pos := idToPos[id];
      var removed := entries[pos];
      var slots := idToPos - {id};
      var es := SwapRemove(entries, pos);
      if pos < |es| {
        slots := slots[es[pos].id := pos];
      }
      var index := IndexWithout(exactIndex, removed.key.indexHash, id);
      Removed(entries, idToPos, exactIndex, view, nextId, id, es, slots);
      entries, idToPos, exactIndex, view := es, slots, index, view - {removed.key};
    }

    /** The entry stored under a key, found through its bucket and told from others in
        the bucket by its digest. */
    method FindExact(key: Key) returns (found: Option<nat>)
      requires Stored()
      ensures found.Some? <==> key in view
      ensures found.Some? ==> found.value == view[key].id && found.value in idToPos
    {
      if key.indexHash !in exactIndex {
        return None;
      }
      var bucket := exactIndex[key.indexHash];
      for i := 0 to |bucket|
        invariant key in view ==> view[key].id !in bucket[..i]
      {
        var id := bucket[i];
        assert InBucket(exactIndex, key.indexHash, id);
        if id in idToPos {
          if entries[idToPos[id]].key.digest == key.digest {
            return Some(id);
          }
        }
      }
      return None;
    }

    /** Pop a stale record. */
    method SkipFront()
      requires Stored() && OrderCovers(entries, order)
      requires order != [] && !Live(entries, idToPos, order[0])
      modifies this`order, this`work
      ensures OrderCovers(entries, order)
      ensures order == old(order)[1..] && work == old(work) + 1
    {
      PopCovers(entries, idToPos, order);
      order, work := order[1..], work + 1;
    }

    /** Pop a live record and remove the entry it stands for. */
    method TakeFront() returns (ghost gone: Key)
      requires Stored() && OrderCovers(entries, order)
      requires order != [] && Live(entries, idToPos, order[0])
      modifies this`entries, this`idToPos, this`exactIndex, this`view, this`order, this`work
      ensures Stored() && OrderCovers(entries, order)
      ensures order == old(order)[1..] && work == old(work) + 1
      ensures |entries| == old(|entries|) - 1
      ensures gone in old(view) && view == old(view) - {gone}
      ensures old(view)[gone].created == old(order)[0].created
    {
      var rec := order[0];
      gone := entries[idToPos[rec.id]].key;
      assert view[gone] == entries[idToPos[rec.id]].Shown();
      PopCovers(entries, idToPos, order);
      order, work := order[1..], work + 1;
      RemoveById(rec.id);
    }

    /** Pop the front record, and the entry with it if the record is live. */
    method PopFront()
      requires Stored() && OrderCovers(entries, order) && order != []
      modifies this`entries, this`idToPos, this`exactIndex, this`view, this`order, this`work
      ensures Stored() && OrderCovers(entries, order)
      ensures order == old(order)[1..] && work == old(work) + 1
      ensures |entries| == old(|entries|) - if old(Live(entries, idToPos, order[0])) then 1 else 0
      ensures |entries| == old(|entries|) ==> view == old(view)
      ensures DropsOnly(old(view), view, old(order)[0].created)
    {
      if IsLiveRecord(order[0]) {
        ghost var gone := TakeFront();
      } else {
        SkipFront();
      }
    }

    /** Drop expired entries from the front of the queue. Only expired ones go; and when
        the queue is in age order, all of them go. */
    method SweepExpired(now: int, ttl: int)
      requires Stored() && OrderCovers(entries, order)
      modifies this`entries, this`idToPos, this`exactIndex, this`view, this`order, this`work
      ensures Stored() && OrderCovers(entries, order)
      ensures |entries| <= old(|entries|)
      ensures IsSweep(old(view), view, now, ttl)
      ensures Rising(old(order)) ==> Fresh(view, now, ttl)
      ensures IsSuffix(order, old(order))
      ensures work + 3 * |order| <= old(work) + 3 * old(|order|)
    {
      while order != []
        invariant Stored() && OrderCovers(entries, order)
        invariant |entries| <= old(|entries|)
        invariant IsSweep(old(view), view, now, ttl)
        invariant IsSuffix(order, old(order))
        invariant work + |order| == old(work) + old(|order|)
        decreases |order|
      {
        if IsLiveRecord(order[0]) && now - order[0].created <= ttl {
          break;
        }
        PopFront();
      }
      SweptIsFresh(entries, idToPos, view, order, old(order), now, ttl);
    }

    method EvictFront(ghost v0: map<Key, Cached>, ghost whole: seq<OrderRecord>)
      requires Stored() && OrderCovers(entries, order) && order != []
      requires IsSuffix(order, whole) && DroppedWith(v0, view, whole, |whole| - |order|)
      modifies this`entries, this`idToPos, this`exactIndex, this`view, this`order, this`work
      ensures Stored() && OrderCovers(entries, order)
      ensures IsSuffix(order, whole) && DroppedWith(v0, view, whole, |whole| - |order|)
      ensures |order| == old(|order|) - 1 && work == old(work) + 1
      ensures old(|entries|) - 1 <= |entries| <= old(|entries|)
      ensures |entries| == old(|entries|) ==> view == old(view)
    {
      hide Agree, OrderCovers, DroppedWith, DropsOnly;
      ghost var before, n := view, |whole| - |order|;
      assert order[0] == whole[n];
      PopFront();
      DroppedOneMore(v0, before, view, whole, n);
    }

    /** Evict from the front of the queue until the cap is met. When the queue is in age
        order, no evicted answer is newer than one that stays. */
    method EvictOverCap(cap: nat)
      requires Stored() && OrderCovers(entries, order)
      modifies this`entries, this`idToPos, this`exactIndex, this`view, this`order, this`work
      ensures Stored() && OrderCovers(entries, order)
      ensures |entries| == if old(|entries|) <= cap then old(|entries|) else cap
      ensures Within(view, old(view)) && (old(|entries|) <= cap ==> view == old(view))
      ensures Rising(old(order)) ==> DropsOldest(old(view), view)
      ensures IsSuffix(order, old(order))
      ensures work + 3 * |order| <= old(work) + 3 * old(|order|)
    {
      ghost var v0, whole := view, order;
      while |entries| > cap
        invariant Stored() && OrderCovers(entries, order)
        invariant |entries| <= old(|entries|) && (|entries| >= cap || |entries| == old(|entries|))
        invariant |entries| == old(|entries|) ==> view == v0
        invariant IsSuffix(order, whole)
        invariant DroppedWith(v0, view, whole, |whole| - |order|)
        invariant work + |order| == old(work) + |whole|
        decreases |order|
      {
        if order == [] {
          break;
        }
        EvictFront(v0, whole);
      }
      NothingUncovered(entries, order);
      EvictedIsOldest(entries, idToPos, view, order, v0, whole);
    }

    /** Rebuild an overgrown queue from the stored entries, in age order. */
    method MaybeCompactOrder()
      requires Stored() && OrderCovers(entries, order)
      modifies this`order, this`work
      ensures OrderCovers(entries, order) && |order| <= 2 * |entries| + 16
      ensures Compacts(old(order), order)
      ensures work + 3 * |order| <= old(work) + 3 * old(|order|)
    {
      if |order| <= 2 * |entries| + 16 {
        return;
      }
      var recs := Records(entries);
      SortByAgeRises(recs);
      work := work + |order| + |recs|;
      forall p | 0 <= p < |entries| ensures entries[p].Record() in SortByAge(recs) {
        assert recs[p] in recs;
      }
      assert forall r :: r in recs ==> r in order;
      order := SortByAge(recs);
    }

    method MostSimilar(q: Query, now: int, config: CacheConfig) returns (best: Option<nat>)
      ensures IsBest(entries, |entries|, q, now, config, best)
    {
      best := None;
      for p := 0 to |entries|
        invariant IsBest(entries, p, q, now, config, best)
      {
        var e := entries[p];
        if now - e.created > config.ttl { continue; }
        if config.entityGuard && e.entities != q.entities { continue; }
        if Ratio(q.coreLen, e.coreLen) > config.lengthRatioMax { continue; }
        var sim := Dot(q.embedding, e.embedding);
        if sim >= config.threshold && (best.None? || sim > Dot(q.embedding, entries[best.value].embedding)) {
          best := Some(p);
        }
      }
    }

    /** The reading half of `get`: nothing is removed. */
    method Find(key: Key, q: Query, now: int, config: CacheConfig) returns (hit: Option<Lookup>)
      requires Valid()
      ensures ServedAs(entries, view, key, q, now, config, hit)
    {
      var found := FindExact(key);
      if found.Some? {
        var e := entries[idToPos[found.value]];
        assert view[e.key] == e.Shown();
        if now - e.created <= config.ttl {
          return Some(Hit(e, 1.0));
        }
      }
      hide Agree;
      var best := MostSimilar(q, now, config);
      if best.Some? {
        hit := Some(Hit(entries[best.value], Dot(q.embedding, entries[best.value].embedding)));
      } else {
        hit := None;
      }
    }

    /** The partition is in order, within the cap, and holds what these puts left. */
    ghost predicate Holds(texts: Texts, history: seq<TextPut>, cap: nat)
      reads this
    {
      Valid() && |entries| <= cap && log == ByKey(texts, history) && IsOfTexts(texts, view, history)
    }

    lemma IsOneStore(texts: Texts, history: seq<TextPut>, cap: nat)
      requires Holds(texts, history, cap)
      ensures Valid() && ViewIsLatest(view, log) && log == ByKey(texts, history)
      ensures SlotsAgree(entries, idToPos) && ViewAgrees(entries, idToPos, view) && IsOfTexts(texts, view, history)
    {
    }

    /** `Put` by the text itself. */
    method PutText(
      texts: Texts, config: CacheConfig, core: string, answer: Answer, now: int, ghost history: seq<TextPut>, ghost clock: int)
      returns (ghost swept: map<Key, Cached>)
      requires Holds(texts, history, config.cap)
      modifies this
      ensures Holds(texts, history + [TextPut(core, answer, now)], config.cap)
      ensures IsPut(old(view), swept, view, texts.KeyOf(core), texts.Ask(core), answer, now, config.ttl, config.cap)
      ensures clock <= now && Aged(old(order), clock) ==>
                Aged(order, now) && Fresh(swept, now, config.ttl) && EvictsOldest(swept, view, texts.KeyOf(core), now)
    {
      hide Stored, Valid, IsPut, Fresh, EvictsOldest, ByKey, Aged, IsOfTexts;
      ghost var before := view;
      var q := texts.Ask(core);
      var made := Entry(0, q.embedding, q.entities, q.coreLen, texts.KeyOf(core), answer, now);
      swept := Put(made, config.cap, config.ttl, now, clock);
      ByKeyAppends(texts, history, TextPut(core, answer, now));
      PutKeepsTexts(texts, before, swept, view, history, core, answer, now, config.ttl, config.cap);
    }

    /** Replace the answer of a stored key: new answer and age, same id, same slot. */
    method Refresh(id: nat, key: Key, answer: Answer, now: int)
      requires Stored() && OrderCovers(entries, order)
      requires key in view && id == view[key].id
      modifies this`entries, this`order, this`view
      ensures Stored() && OrderCovers(entries, order)
      ensures |entries| == old(|entries|) && order == old(order) + [OrderRecord(id, now)]
      ensures view == old(view)[key := old(view)[key].(answer := answer, created := now)]
    {
      var pos := idToPos[id];
      Refreshed(entries, idToPos, exactIndex, view, nextId, order, key, answer, now);
      entries := entries[pos := entries[pos].(answer := answer, created := now)];
      view := view[key := view[key].(answer := answer, created := now)];
      order := order + [OrderRecord(id, now)];
    }

    /** Append an entry for a key not stored yet. */
    method Insert(e: Entry)
      requires Stored() && OrderCovers(entries, order)
      requires e.key !in view && e.id == nextId
      modifies this`entries, this`idToPos, this`exactIndex, this`order, this`nextId, this`view
      ensures Stored() && OrderCovers(entries, order)
      ensures |entries| == old(|entries|) + 1 && order == old(order) + [e.Record()]
      ensures view == old(view)[e.key := e.Shown()]
    {
      Inserted(entries, idToPos, exactIndex, view, nextId, order, e);
      nextId := nextId + 1;
      var pos := |entries|;
      entries := entries + [e];
      idToPos := idToPos[e.id := pos];
      exactIndex := Indexed(exactIndex, e.key.indexHash, e.id);
      order := order + [e.Record()];
      view := view[e.key := e.Shown()];
    }

    /** Append an entry, then evict past the cap. */
    method InsertAndEvict(e: Entry, cap: nat)
      requires Stored() && OrderCovers(entries, order)
      requires e.key !in view && e.id == nextId
      modifies this`entries, this`idToPos, this`exactIndex, this`order, this`nextId, this`view, this`work
      ensures Stored() && OrderCovers(entries, order)
      ensures IsInsert(old(view), view, e, cap) && |entries| <= cap
      ensures Rising(old(order) + [e.Record()]) ==> EvictsOldest(old(view), view, e.key, e.created)
      ensures IsSuffix(order, old(order) + [e.Record()])
      ensures work + 3 * |order| <= old(work) + 3 * old(|order|) + 3
    {
      hide Agree, OrderCovers;
      ViewSize(entries, idToPos, exactIndex, view, nextId);
      ghost var before := view;
      Insert(e);
      ghost var grown := view;
      EvictOverCap(cap);
      ViewSize(entries, idToPos, exactIndex, view, nextId);
      GrownThenEvicted(before, grown, view, e, cap);
    }

    /** Store an answer. `swept` is what the sweep left. Whatever the clock does, the log's
        newest answer for every shown key is the one shown; on a clock that does not run
        backwards nothing expired is left, and what is evicted is the oldest. */
    method Put(made: Entry, cap: nat, ttl: int, now: int, ghost clock: int) returns (ghost swept: map<Key, Cached>)
      requires Valid() && made.created == now
      modifies this
      ensures Valid()
      ensures log == old(log) + [Stamped(made.key, made.answer, now)]
      ensures IsPut(old(view), swept, view, made.key, made.Asked(), made.answer, now, ttl, cap)
      ensures old(|entries|) <= cap ==> |entries| <= cap
      ensures clock <= now && Aged(old(order), clock) ==>
                Aged(order, now) && Fresh(swept, now, ttl) && EvictsOldest(swept, view, made.key, now)
    {
      hide Agree, OrderCovers, IsInsert, IsSweep, ViewIsLatest, EvictsOldest, Fresh, IsPut, IsSuffix,
           Aged, Rising, Compacts;
      ghost var v0, o0 := view, order;
      AgedRises(o0, clock);
      SweepExpired(now, ttl);
      swept := view;
      ghost var o1 := order;
      var found := FindExact(made.key);
      if found.Some? {
        Refresh(found.value, made.key, made.answer, now);
        AgedByOne(o0, o1, order, OrderRecord(found.value, now), clock);
        RefreshEvictsNone(swept, view, made.key, now);
        RefreshIsPut(v0, swept, view, made.key, made.Asked(), made.answer, now, ttl, cap);
      } else {
        var e := made.(id := nextId);
        InsertAndEvict(e, cap);
        AgedByOne(o0, o1, order, e.Record(), clock);
        InsertIsPut(v0, swept, view, e, ttl, cap);
      }
      ghost var o2 := order;
      MaybeCompactOrder();
      CompactedIsAged(o2, order, now);
      log := log + [Stamped(made.key, made.answer, now)];
      LatestAfter(v0, swept, view, old(log), Stamped(made.key, made.answer, now));
    }
  }

  // ------------------------------------------------------------ the whole cache

  /** One `put`, by its text. */
  datatype TextPut = TextPut(core: string, answer: Answer, at: int)

  function ByKey(texts: Texts, history: seq<TextPut>): seq<Stamped> {
    if history == [] then []
    else
      var last := history[|history| - 1];
      ByKey(texts, history[..|history| - 1]) + [Stamped(texts.KeyOf(last.core), last.answer, last.at)]
  }

  lemma ByKeyAppends(texts: Texts, history: seq<TextPut>, put: TextPut)
    ensures ByKey(texts, history + [put]) == ByKey(texts, history) + [Stamped(texts.KeyOf(put.core), put.answer, put.at)]
  {
    assert (history + [put])[..|history|] == history;
  }

  /** The newest answer put for a core text, up to the whitespace around it. */
  function LatestFor(texts: Texts, history: seq<TextPut>, core: string): Option<TextPut> {
    if history == [] then None
    else if texts.trim(history[|history| - 1].core) == texts.trim(core) then Some(history[|history| - 1])
    else LatestFor(texts, history[..|history| - 1], core)
  }

  /** Whatever the 64-bit hash does: with an injective digest, the newest put under a
      text's key is the newest put for that text. */
  lemma {:induction false} KeysStandForTexts(texts: Texts, history: seq<TextPut>, core: string)
    requires texts.DigestIsInjective()
    ensures var byKey, byText := LatestPut(ByKey(texts, history), texts.KeyOf(core)), LatestFor(texts, history, core);
            && (byKey.Some? <==> byText.Some?)
            && (byKey.Some? ==> byKey.value.answer == byText.value.answer && byKey.value.at == byText.value.at)
  {
    if history != [] {
      var last, front := history[|history| - 1], history[..|history| - 1];
      var log := ByKey(texts, history);
      assert log[..|log| - 1] == ByKey(texts, front);
      KeysStandForTexts(texts, front, core);
    }
  }

  lemma AllAgedLater(parts: set<Partition>, clock: int, now: int)
    ensures forall p :: p in parts && clock <= now && Aged(p.order, clock) ==> Aged(p.order, now)
  {
  }

  lemma OverwriteTwice<K, V>(m: map<K, V>, k: K, v: V, w: V)
    ensures m[k := v][k := w] == m[k := w]
  {
  }

  lemma NoPuts(texts: Texts, clock: int)
    ensures ByKey(texts, []) == [] && Aged([], clock) && IsOfTexts(texts, map[], [])
  {
  }

  class SemanticCache {
    const texts: Texts
    const config: CacheConfig
    var store: map<nat, Partition>
    // Every put so far, by partition.
    ghost var history: map<nat, seq<TextPut>>

    constructor (texts: Texts, config: CacheConfig)
      ensures Valid() && InAgeOrder(0) && store == map[] && this.texts == texts && this.config == config
    {
      this.texts, this.config := texts, config;
      store, history := map[], map[];
    }

    ghost predicate Valid()
      reads this, store.Values
    {
      && store.Keys == history.Keys
      && (forall k :: k in store ==> store[k].Holds(texts, history[k], config.cap))
      && (forall k, l :: k in store && l in store && k != l ==> store[k] != store[l])
    }

    /** No clock reading so far was later than `clock`, and none ran backwards. */
    ghost predicate InAgeOrder(clock: int)
      reads this, store.Values
    {
      forall k :: k in store ==> Aged(store[k].order, clock)
    }

    method Get(partition: nat, core: string, now: int) returns (hit: Option<Lookup>)
      requires Valid()
      ensures config.mode.Off? || partition !in store ==> hit.None?
      ensures config.mode.Off? || partition !in store ||
              ServedAs(store[partition].entries, store[partition].view, texts.KeyOf(core), texts.Ask(core), now, config, hit)
      ensures config.mode.Off? || partition !in store ||
              IsServed(texts, config, store[partition].view, core, now, hit)
      // An exact answer is the newest one put for that text.
      ensures !config.mode.Off? && partition in store && texts.DigestIsInjective()
              && texts.KeyOf(core) in store[partition].view ==>
                var latest := LatestFor(texts, history[partition], core);
                var shown := store[partition].view[texts.KeyOf(core)];
                latest.Some? && latest.value.answer == shown.answer && latest.value.at == shown.created
    {
      if config.mode.Off? {
        return None;
      }
      var key := texts.KeyOf(core);
      if partition !in store {
        return None;
      }
      hide Partition.Valid, Partition.Holds, ServedAs, IsServed, IsOfTexts;
      store[partition].IsOneStore(texts, history[partition], config.cap);
      if texts.DigestIsInjective() {
        KeysStandForTexts(texts, history[partition], core);
      }
      hit := store[partition].Find(key, texts.Ask(core), now, config);
      ServedByText(texts, config, store[partition].entries, store[partition].idToPos, store[partition].view,
        history[partition], core, now, hit);
    }

    /** What a partition shows; nothing when there is none. */
    ghost function ViewOf(partition: nat): map<Key, Cached>
      reads this, store.Values
    {
      if partition in store then store[partition].view else map[]
    }

    ghost function HistoryOf(partition: nat): seq<TextPut>
      reads this
    {
      if partition in history then history[partition] else []
    }

    /** A new, empty partition. */
    method AddPartition(partition: nat, ghost clock: int) returns (part: Partition)
      requires Valid() && partition !in store
      modifies this`store, this`history
      ensures Valid() && fresh(part) && part.view == map[]
      ensures store == old(store)[partition := part] && history == old(history)[partition := []]
      ensures old(InAgeOrder(clock)) ==> InAgeOrder(clock)
    {
      hide Partition.Valid, Aged, ByKey, IsOfTexts;
      NoPuts(texts, clock);
      part := new Partition();
      store := store[partition := part];
      history := history[partition := []];
    }

    /** The partition of a key, made empty if there is none yet. */
    method OrDefault(partition: nat, ghost clock: int) returns (part: Partition)
      requires Valid()
      modifies this`store, this`history
      ensures Valid() && partition in store && part == store[partition]
      ensures store == old(store)[partition := part]
      ensures partition in old(store) ==> part == old(store)[partition]
      ensures partition !in old(store) ==>
                fresh(part) && part.view == map[]
      ensures history == old(history)[partition := old(HistoryOf(partition))]
      ensures old(InAgeOrder(clock)) ==> InAgeOrder(clock)
    {
      hide Partition.Holds, Aged;
      if partition in store {
        part := store[partition];
      } else {
        part := AddPartition(partition, clock);
      }
    }

    /** Store an answer. Only the named partition changes. */
    method Put(partition: nat, core: string, answer: Answer, now: int, ghost clock: int)
      returns (ghost swept: map<Key, Cached>)
      requires Valid()
      modifies this, if partition in store then {store[partition]} else {}
      ensures Valid()
      ensures config.mode.Off? ==> store == old(store) && history == old(history)
      ensures config.mode.Off? ==> ViewOf(partition) == old(ViewOf(partition))
      ensures !config.mode.Off? ==>
                && partition in store
                && store == old(store)[partition := store[partition]]
                && partition in history
                && history == old(history)[partition := history[partition]]
                && history[partition] == old(HistoryOf(partition)) + [TextPut(core, answer, now)]
                && IsPut(old(ViewOf(partition)), swept, ViewOf(partition), texts.KeyOf(core), texts.Ask(core), answer, now,
                         config.ttl, config.cap)
      ensures !config.mode.Off? && clock <= now && old(InAgeOrder(clock)) ==>
                && InAgeOrder(now) && Fresh(swept, now, config.ttl)
                && EvictsOldest(swept, ViewOf(partition), texts.KeyOf(core), now)
    {
      swept := map[];
      if config.mode.Off? {
        return;
      }
      hide Partition.Holds, IsPut, Fresh, EvictsOldest, Aged;
      ghost var h0, s0 := history, store;
      var part := OrDefault(partition, clock);
      ghost var before := history[partition];
      swept := PutInto(partition, core, answer, now, clock);
      OverwriteTwice(h0, partition, before, history[partition]);
      OverwriteTwice(s0, partition, part, part);
    }

    method PutInto(partition: nat, core: string, answer: Answer, now: int, ghost clock: int)
      returns (ghost swept: map<Key, Cached>)
      requires Valid() && partition in store
      modifies this`history, store[partition]
      ensures Valid()
      ensures history == old(history)[partition := old(history[partition]) + [TextPut(core, answer, now)]]
      ensures IsPut(old(store[partition].view), swept, store[partition].view,
                    texts.KeyOf(core), texts.Ask(core), answer, now, config.ttl, config.cap)
      ensures clock <= now && old(InAgeOrder(clock)) ==>
                && InAgeOrder(now) && Fresh(swept, now, config.ttl)
                && EvictsOldest(swept, store[partition].view, texts.KeyOf(core), now)
    {
      hide Partition.Holds, IsPut, Fresh, EvictsOldest, Aged;
      var part := store[partition];
      ghost var before := history[partition];
      swept := part.PutText(texts, config, core, answer, now, before, clock);
      history := history[partition := before + [TextPut(core, answer, now)]];
      assert forall k :: k in store && k != partition ==> store[k] != part;
      AllAgedLater(store.Values, clock, now);
    }
  }
}
