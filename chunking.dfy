/**
 * Fragmentation of outgoing network messages into 14000-byte chunks and the
 * receiving side's reassembly table, keyed by sender and by transfer id, with
 * one slot per chunk and a counter of received chunks.
 */
module Chunking {

  import opened Wrappers
  import opened Ints

  /** Largest payload carried by one chunk. */
  const ChunkSize: nat := 14000

  datatype Packet =
    | Message(data: seq<u8>)
    | Chunk(id: u64, index: u32, total: u32, data: seq<u8>)

  /** `(len + 14000 - 1) / 14000`. */
  function ChunksCount(len: nat): (count: nat)
    ensures len == 0 ==> count == 0
    ensures len > 0 ==> (count - 1) * ChunkSize < len <= count * ChunkSize
  {
    (len + ChunkSize - 1) / ChunkSize
  }

  /** The bytes the `i`-th chunk carries: bytes `i*14000` up to the next multiple or the end. */
  function ChunkAt(data: seq<u8>, i: nat): (piece: seq<u8>)
    requires i < ChunksCount(|data|)
    ensures 0 < |piece| <= ChunkSize
  {
    var start := i * ChunkSize;
    var end := if start + ChunkSize <= |data| then start + ChunkSize else |data|;
    assert start < |data| by { ChunkStartInRange(|data|, i); }
    data[start..end]
  }

  lemma ChunkStartInRange(len: nat, i: nat)
    requires i < ChunksCount(len)
    ensures i * ChunkSize < len
  {
    var c := ChunksCount(len);
    assert i <= c - 1;
    assert i * ChunkSize <= (c - 1) * ChunkSize;
  }

  /**
   * The broadcast path: a message that fits in one chunk (or is empty) goes out
   * as a single `Message`; a longer one is cut into `count` chunks numbered
   * 0..count-1, each carrying the total and at most 14000 bytes.
   */
  method SplitForSend(data: seq<u8>, id: u64) returns (packets: seq<Packet>)
    requires ChunksCount(|data|) < 0x1_0000_0000
    ensures ChunksCount(|data|) <= 1 ==> packets == [Message(data)]
    ensures ChunksCount(|data|) > 1 ==>
              |packets| == ChunksCount(|data|) &&
              forall k :: 0 <= k < |packets| ==>
                packets[k] == Chunk(id, k as u32, ChunksCount(|data|) as u32, ChunkAt(data, k))
  {
    var count := ChunksCount(|data|);
    if count <= 1 {
      return [Message(data)];
    }
    packets := [];
    var start := 0;
    while start < |data|
      invariant start == |packets| * ChunkSize
      invariant |packets| <= count
      invariant start < |data| ==> |packets| < count
      invariant start >= |data| ==> |packets| == count
      invariant forall k :: 0 <= k < |packets| ==>
                  packets[k] == Chunk(id, k as u32, count as u32, ChunkAt(data, k))
    {
      var i := |packets|;
      var end := if start + ChunkSize <= |data| then start + ChunkSize else |data|;
      packets := packets + [Chunk(id, i as u32, count as u32, data[start..end])];
      start := start + ChunkSize;
      if start < |data| {
        ChunkStartBelowCount(|data|, i + 1);
      } else {
        ChunkEndReachesCount(|data|, i + 1);
      }
    }
  }

  lemma ChunkStartBelowCount(len: nat, i: nat)
    requires i * ChunkSize < len
    ensures i < ChunksCount(len)
  {
  }

  lemma ChunkEndReachesCount(len: nat, i: nat)
    requires len > 0 && (i - 1) * ChunkSize < len <= i * ChunkSize
    ensures i == ChunksCount(len)
  {
  }

  // ---------------------------------------------------------------------------
  // Reassembly
  // ---------------------------------------------------------------------------

  /** One incomplete transfer: the count of chunks received and one slot per chunk. */
  datatype Transfer = Transfer(received: nat, slots: seq<Option<seq<u8>>>)

  /** Incomplete transfers per sender identity and per transfer id. */
  type Table = map<string, map<u64, Transfer>>

  /** What receiving one chunk leads to. */
  datatype Outcome =
    | OutOfRange             // index not below the number of slots: dropped
    | Pending                // stored (or a duplicate), transfer not complete
    | Delivered(payload: seq<u8>)
    | Panicked               // counter reached `total` with a slot still empty

  predicate AllFilled(slots: seq<Option<seq<u8>>>) {
    forall k :: 0 <= k < |slots| ==> slots[k].Some?
  }

  /** The slots' payloads joined in index order. */
  function Joined(slots: seq<Option<seq<u8>>>): seq<u8>
    requires AllFilled(slots)
  {
    if slots == [] then [] else Joined(slots[..|slots| - 1]) + slots[|slots| - 1].value
  }

  /** Joining distributes over concatenation of the slot lists. */
  lemma {:induction false} JoinedAppend(a: seq<Option<seq<u8>>>, b: seq<Option<seq<u8>>>)
    requires AllFilled(a) && AllFilled(b)
    ensures AllFilled(a + b) && Joined(a + b) == Joined(a) + Joined(b)
    decreases |b|
  {
    if b == [] {
      assert a + b == a;
    } else {
      var n := |b| - 1;
      assert (a + b)[..|a + b| - 1] == a + b[..n];
      JoinedAppend(a, b[..n]);
    }
  }

  /** Number of filled slots. */
  function Filled(slots: seq<Option<seq<u8>>>): (n: nat)
    ensures n <= |slots|
    ensures n == |slots| <==> AllFilled(slots)
  {
    if slots == [] then 0
    else Filled(slots[..|slots| - 1]) + (if slots[|slots| - 1].Some? then 1 else 0)
  }

  /** The counter of a transfer equals its number of filled slots. */
  predicate CounterMatches(t: Transfer) {
    t.received == Filled(t.slots)
  }

  /** The counter of every stored transfer equals its number of filled slots. */
  ghost predicate Consistent(table: Table) {
    forall s, id :: s in table && id in table[s] ==> CounterMatches(table[s][id])
  }

  function TransfersOf(table: Table, sender: string): map<u64, Transfer> {
    if sender in table then table[sender] else map[]
  }

  /**
   * Receiving `Chunk{id, index, total, data}` from `sender`: the sender's map and
   * the transfer are created on first sight (with `total` empty slots); an index
   * past the slots is dropped; an empty slot is filled and counted, a filled one
   * is left alone; when the counter equals this chunk's `total` the slots are
   * joined and the transfer is removed.
   */
  function Receive(table: Table, sender: string, id: u64, index: u32, total: u32, data: seq<u8>)
    : (result: (Table, Outcome))
    ensures sender in result.0
    ensures result.1.OutOfRange? <==> index as int >= |Found(table, sender, id, total).slots|
    ensures result.1.OutOfRange? ==>
              result.0[sender] == TransfersOf(table, sender)[id := Found(table, sender, id, total)]
    ensures result.1.Pending? || result.1.Panicked? ==>
              result.0[sender] == TransfersOf(table, sender)[id := Store(Found(table, sender, id, total), index as nat, data)]
    ensures result.1.Delivered? <==> id !in result.0[sender]
    ensures result.1.Delivered? || result.1.Panicked? <==>
              !result.1.OutOfRange? && Store(Found(table, sender, id, total), index as nat, data).received == total as int
  {
    var inner := TransfersOf(table, sender);
    var t := Found(table, sender, id, total);
    if index as int >= |t.slots| then
      (table[sender := inner[id := t]], OutOfRange)
    else
      var t' := Store(t, index as nat, data);
      if t'.received == total as int then
        if AllFilled(t'.slots) then (table[sender := inner - {id}], Delivered(Joined(t'.slots)))
        else (table[sender := inner[id := t']], Panicked)
      else (table[sender := inner[id := t']], Pending)
  }

  /** The transfer `id` of `sender` as stored, or a new one with `total` empty slots on first sight. */
  function Found(table: Table, sender: string, id: u64, total: u32): Transfer {
    var inner := TransfersOf(table, sender);
    if id in inner then inner[id] else Transfer(0, seq(total as int, _ => None))
  }

  /** An empty slot takes the chunk and is counted; a filled slot is left alone. */
  function Store(t: Transfer, index: nat, data: seq<u8>): (r: Transfer)
    requires index < |t.slots|
    ensures |r.slots| == |t.slots|
    ensures r.slots[index] == if t.slots[index].None? then Some(data) else t.slots[index]
    ensures forall k :: 0 <= k < |t.slots| && k != index ==> r.slots[k] == t.slots[k]
    ensures r.received == if t.slots[index].None? then t.received + 1 else t.received
  {
    if t.slots[index].None? then Transfer(t.received + 1, t.slots[index := Some(data)]) else t
  }

  /** Storing a chunk keeps a transfer's counter equal to its number of filled slots. */
  lemma StoreKeepsCounter(t: Transfer, index: nat, data: seq<u8>)
    requires index < |t.slots| && CounterMatches(t)
    ensures CounterMatches(Store(t, index, data))
  {
    if t.slots[index].None? {
      FilledUpdate(t.slots, index, data);
    }
  }

  lemma {:induction false} FilledUpdate(slots: seq<Option<seq<u8>>>, k: nat, v: seq<u8>)
    requires k < |slots| && slots[k].None?
    ensures Filled(slots[k := Some(v)]) == Filled(slots) + 1
    decreases |slots|
  {
    var n := |slots|;
    var s' := slots[k := Some(v)];
    assert Filled(s') == Filled(s'[..n - 1]) + (if s'[n - 1].Some? then 1 else 0);
    assert Filled(slots) == Filled(slots[..n - 1]) + (if slots[n - 1].Some? then 1 else 0);
    if k < n - 1 {
      assert s'[..n - 1] == slots[..n - 1][k := Some(v)];
      FilledUpdate(slots[..n - 1], k, v);
    } else {
      assert s'[..n - 1] == slots[..n - 1];
    }
  }

  lemma {:induction false} FilledAllNone(n: nat)
    ensures Filled(seq(n, _ => None)) == 0
  {
    if n > 0 {
      var s: seq<Option<seq<u8>>> := seq(n, _ => None);
      assert s[..n - 1] == seq(n - 1, _ => None);
      FilledAllNone(n - 1);
    }
  }

  /** Receiving a chunk keeps every counter equal to its number of filled slots. */
  lemma ReceiveKeepsCounters(table: Table, sender: string, id: u64, index: u32, total: u32, data: seq<u8>)
    requires Consistent(table)
    ensures Consistent(Receive(table, sender, id, index, total, data).0)
  {
    FilledAllNone(total as int);
    var t := Found(table, sender, id, total);
    assert CounterMatches(t);
    if index as int < |t.slots| {
      StoreKeepsCounter(t, index as nat, data);
      ConsistentAfterSet(table, sender, id, Store(t, index as nat, data));
      ConsistentAfterRemove(table, sender, id);
    } else {
      ConsistentAfterSet(table, sender, id, t);
    }
  }

  lemma ConsistentAfterSet(table: Table, sender: string, id: u64, t: Transfer)
    requires Consistent(table) && CounterMatches(t)
    ensures Consistent(table[sender := TransfersOf(table, sender)[id := t]])
  {
  }

  lemma ConsistentAfterRemove(table: Table, sender: string, id: u64)
    requires Consistent(table)
    ensures Consistent(table[sender := TransfersOf(table, sender) - {id}])
  {
  }

  /**
   * A chunk whose slot is already filled changes neither that slot nor the
   * counter: the stored transfer, if it stays, is the one that was there.
   */
  lemma ReceiveDuplicateIsIgnored(table: Table, sender: string, id: u64, index: u32, total: u32, data: seq<u8>)
    requires sender in table && id in table[sender]
    requires index as int < |table[sender][id].slots| && table[sender][id].slots[index].Some?
    ensures var (t', o) := Receive(table, sender, id, index, total, data);
            !o.Delivered? ==> sender in t' && id in t'[sender] && t'[sender][id] == table[sender][id]
    ensures var (t', o) := Receive(table, sender, id, index, total, data);
            o.Delivered? <==> table[sender][id].received == total as int && AllFilled(table[sender][id].slots)
  {
  }

  /** Transfers of other senders, and other transfers of the same sender, are untouched. */
  lemma ReceiveTouchesOneTransfer(table: Table, sender: string, id: u64, index: u32, total: u32, data: seq<u8>,
                                  s: string, other: u64)
    requires s in table && other in table[s] && (s != sender || other != id)
    ensures var t' := Receive(table, sender, id, index, total, data).0;
            s in t' && other in t'[s] && t'[s][other] == table[s][other]
  {
  }

  // ---------------------------------------------------------------------------
  // Split then reassemble
  // ---------------------------------------------------------------------------

  /** Slots holding the chunks whose indices are in `done`, the others empty. */
  function SlotsAfter(data: seq<u8>, done: seq<nat>): (slots: seq<Option<seq<u8>>>)
    ensures |slots| == ChunksCount(|data|)
  {
    seq(ChunksCount(|data|), i requires 0 <= i < ChunksCount(|data|) =>
      if i in done then Some(ChunkAt(data, i)) else None)
  }

  /** The first `j` chunks joined in order are the first `j * 14000` bytes (or all of them). */
  lemma {:induction false} JoinedChunkPrefix(data: seq<u8>, j: nat)
    requires j <= ChunksCount(|data|)
    ensures var slots := seq(j, i requires 0 <= i < j => Some(ChunkAt(data, i)));
            AllFilled(slots) &&
            Joined(slots) == data[..if j * ChunkSize <= |data| then j * ChunkSize else |data|]
  {
    var slots := seq(j, i requires 0 <= i < j => Some(ChunkAt(data, i)));
    if j > 0 {
      var prev := seq(j - 1, i requires 0 <= i < j - 1 => Some(ChunkAt(data, i)));
      assert slots[..j - 1] == prev;
      JoinedChunkPrefix(data, j - 1);
      ChunkStartInRange(|data|, j - 1);
      var start := (j - 1) * ChunkSize;
      var end := if start + ChunkSize <= |data| then start + ChunkSize else |data|;
      assert j * ChunkSize == start + ChunkSize;
      calc {
        Joined(slots);
        Joined(prev) + ChunkAt(data, j - 1);
        data[..start] + data[start..end];
        { assert data[..end] == data[..start] + data[start..end]; }
        data[..end];
      }
    }
  }

  /** Joining every chunk of a message gives the message back. */
  lemma SplitThenJoin(data: seq<u8>)
    ensures var all := SlotsAfter(data, seq(ChunksCount(|data|), i => i));
            AllFilled(all) && Joined(all) == data
  {
    var n := ChunksCount(|data|);
    var all: seq<nat> := seq(n, i => i);
    var slots := seq(n, i requires 0 <= i < n => Some(ChunkAt(data, i)));
    forall i | 0 <= i < n ensures i in all { assert all[i] == i; }
    assert SlotsAfter(data, all) == slots;
    JoinedChunkPrefix(data, n);
    assert data[..|data|] == data;
  }

  /** `order` lists every index below `n` exactly once. */
  predicate IsPermutation(order: seq<nat>, n: nat) {
    && |order| == n
    && (forall k :: 0 <= k < n ==> order[k] < n)
    && (forall k {:trigger order[..k]} :: 0 <= k < n ==> order[k] !in order[..k])
    && (forall i :: 0 <= i < n ==> i in order)
  }

  /** Receiving, from `sender`, the chunks of a split message in the given order. */
  function FeedChunks(table: Table, sender: string, id: u64, data: seq<u8>, order: seq<nat>)
    : (result: (Table, seq<Outcome>))
    requires ChunksCount(|data|) < 0x1_0000_0000
    requires forall k :: 0 <= k < |order| ==> order[k] < ChunksCount(|data|)
    ensures |result.1| == |order|
  {
    if order == [] then (table, [])
    else
      var prev := FeedChunks(table, sender, id, data, order[..|order| - 1]);
      var q := order[|order| - 1];
      var step := Receive(prev.0, sender, id, q as u32, ChunksCount(|data|) as u32, ChunkAt(data, q));
      (step.0, prev.1 + [step.1])
  }

  /** Feeding `order[..j + 1]` is feeding `order[..j]` and then chunk `order[j]`. */
  lemma FeedChunksStep(table: Table, sender: string, id: u64, data: seq<u8>, order: seq<nat>, j: nat)
    requires ChunksCount(|data|) < 0x1_0000_0000
    requires forall k :: 0 <= k < |order| ==> order[k] < ChunksCount(|data|)
    requires j < |order|
    ensures var prev := FeedChunks(table, sender, id, data, order[..j]);
            var step := Receive(prev.0, sender, id, order[j] as u32, ChunksCount(|data|) as u32, ChunkAt(data, order[j]));
            && FeedChunks(table, sender, id, data, order[..j + 1]).0 == step.0
            && FeedChunks(table, sender, id, data, order[..j + 1]).1 == prev.1 + [step.1]
  {
    assert order[..j + 1][..j] == order[..j];
  }

  predicate AllPending(outs: seq<Outcome>) {
    forall k :: 0 <= k < |outs| ==> outs[k] == Pending
  }

  /** After the chunks `order[..j]` the table holds one transfer with exactly those slots filled. */
  ghost predicate HoldsFirst(table: Table, t: Table, sender: string, id: u64, data: seq<u8>, order: seq<nat>, j: nat)
    requires ChunksCount(|data|) < 0x1_0000_0000
    requires j <= |order|
  {
    && (j == 0 ==> t == table)
    && (j > 0 ==> t == table[sender := TransfersOf(table, sender)[id := Transfer(j, SlotsAfter(data, order[..j]))]])
  }

  /** While chunks are missing, each one is stored and the transfer holds exactly those seen. */
  lemma {:induction false} FeedPrefix(table: Table, sender: string, id: u64, data: seq<u8>, order: seq<nat>, j: nat)
    requires 2 <= ChunksCount(|data|) < 0x1_0000_0000
    requires id !in TransfersOf(table, sender)
    requires IsPermutation(order, ChunksCount(|data|))
    requires j < ChunksCount(|data|)
    ensures AllPending(FeedChunks(table, sender, id, data, order[..j]).1)
    ensures HoldsFirst(table, FeedChunks(table, sender, id, data, order[..j]).0, sender, id, data, order, j)
  {
    if j > 0 {
      FeedPrefix(table, sender, id, data, order, j - 1);
      FeedPendingStep(table, sender, id, data, order, j - 1);
    }
  }

  lemma FeedPendingStep(table: Table, sender: string, id: u64, data: seq<u8>, order: seq<nat>, j: nat)
    requires 2 <= ChunksCount(|data|) < 0x1_0000_0000
    requires id !in TransfersOf(table, sender)
    requires IsPermutation(order, ChunksCount(|data|))
    requires j + 1 < ChunksCount(|data|)
    requires AllPending(FeedChunks(table, sender, id, data, order[..j]).1)
    requires HoldsFirst(table, FeedChunks(table, sender, id, data, order[..j]).0, sender, id, data, order, j)
    ensures AllPending(FeedChunks(table, sender, id, data, order[..j + 1]).1)
    ensures HoldsFirst(table, FeedChunks(table, sender, id, data, order[..j + 1]).0, sender, id, data, order, j + 1)
  {
    var prev := FeedChunks(table, sender, id, data, order[..j]);
    FeedChunksStep(table, sender, id, data, order, j);
    FeedStepPending(table, prev.0, sender, id, data, order, j);
    assert AllPending(prev.1 + [Pending]);
  }

  /**
   * Receiving into an empty slot of a transfer that has `j` chunks (or of a new
   * transfer, `j` = 0) stores the chunk and counts it, and delivers the joined
   * slots once the count reaches `total` with every slot filled.
   */
  lemma ReceiveIntoEmptySlot(t: Table, sender: string, id: u64, q: nat, n: nat, d: seq<u8>,
                             j: nat, before: seq<Option<seq<u8>>>)
    requires n < 0x1_0000_0000 && q < n && |before| == n && before[q].None?
    requires id in TransfersOf(t, sender) ==> TransfersOf(t, sender)[id] == Transfer(j, before)
    requires id !in TransfersOf(t, sender) ==> j == 0 && before == seq(n, _ => None)
    ensures var after := before[q := Some(d)];
            var inner := TransfersOf(t, sender);
            var (t', o) := Receive(t, sender, id, q as u32, n as u32, d);
            && (j + 1 != n ==> o == Pending && t' == t[sender := inner[id := Transfer(j + 1, after)]])
            && (j + 1 == n && AllFilled(after) ==> o == Delivered(Joined(after)) && t' == t[sender := inner - {id}])
  {
  }

  /** The slot of the next chunk is still empty, and filling it gives the slots of `order[..j + 1]`. */
  lemma NextSlot(data: seq<u8>, order: seq<nat>, j: nat)
    requires ChunksCount(|data|) < 0x1_0000_0000
    requires IsPermutation(order, ChunksCount(|data|))
    requires j < ChunksCount(|data|)
    ensures var before := SlotsAfter(data, order[..j]);
            && before[order[j]].None?
            && SlotsAfter(data, order[..j + 1]) == before[order[j] := Some(ChunkAt(data, order[j]))]
            && Filled(SlotsAfter(data, order[..j + 1])) == j + 1
  {
    var q := order[j];
    var before := SlotsAfter(data, order[..j]);
    assert q !in order[..j];
    assert SlotsAfter(data, order[..j + 1]) == before[q := Some(ChunkAt(data, q))] by {
      assert order[..j + 1] == order[..j] + [q];
    }
    FilledCountsDone(data, order, j + 1);
  }

  /** The transfer a table in state `HoldsFirst(.., j)` holds, and how updating it relates to `table`. */
  lemma HeldTransfer(table: Table, t: Table, sender: string, id: u64, data: seq<u8>, order: seq<nat>, j: nat, x: Transfer)
    requires 2 <= ChunksCount(|data|) < 0x1_0000_0000
    requires id !in TransfersOf(table, sender)
    requires j < |order|
    requires HoldsFirst(table, t, sender, id, data, order, j)
    ensures var before := SlotsAfter(data, order[..j]);
            && (id in TransfersOf(t, sender) ==> TransfersOf(t, sender)[id] == Transfer(j, before))
            && (id !in TransfersOf(t, sender) ==> j == 0 && before == seq(ChunksCount(|data|), _ => None))
            && TransfersOf(t, sender) - {id} == TransfersOf(table, sender)
            && t[sender := TransfersOf(t, sender)[id := x]] == table[sender := TransfersOf(table, sender)[id := x]]
  {
    if j == 0 {
      assert SlotsAfter(data, order[..j]) == seq(ChunksCount(|data|), _ => None);
    } else {
      assert TransfersOf(t, sender)[id := x] == TransfersOf(table, sender)[id := x];
    }
  }

  /** A chunk that is not the last one is stored and counted. */
  lemma FeedStepPending(table: Table, t: Table, sender: string, id: u64, data: seq<u8>, order: seq<nat>, j: nat)
    requires 2 <= ChunksCount(|data|) < 0x1_0000_0000
    requires id !in TransfersOf(table, sender)
    requires IsPermutation(order, ChunksCount(|data|))
    requires j + 1 < ChunksCount(|data|)
    requires HoldsFirst(table, t, sender, id, data, order, j)
    ensures var n := ChunksCount(|data|);
            var (t', o) := Receive(t, sender, id, order[j] as u32, n as u32, ChunkAt(data, order[j]));
            o == Pending && HoldsFirst(table, t', sender, id, data, order, j + 1)
  {
    var n := ChunksCount(|data|);
    NextSlot(data, order, j);
    HeldTransfer(table, t, sender, id, data, order, j, Transfer(j + 1, SlotsAfter(data, order[..j + 1])));
    ReceiveIntoEmptySlot(t, sender, id, order[j], n, ChunkAt(data, order[j]), j, SlotsAfter(data, order[..j]));
  }

  /** The last chunk delivers the original message and removes the transfer. */
  lemma FeedStepLast(table: Table, t: Table, sender: string, id: u64, data: seq<u8>, order: seq<nat>, j: nat)
    requires 2 <= ChunksCount(|data|) < 0x1_0000_0000
    requires id !in TransfersOf(table, sender)
    requires IsPermutation(order, ChunksCount(|data|))
    requires j + 1 == ChunksCount(|data|)
    requires HoldsFirst(table, t, sender, id, data, order, j)
    ensures var n := ChunksCount(|data|);
            var (t', o) := Receive(t, sender, id, order[j] as u32, n as u32, ChunkAt(data, order[j]));
            o == Delivered(data) && t' == table[sender := TransfersOf(table, sender)]
  {
    var n := ChunksCount(|data|);
    var after := SlotsAfter(data, order[..j + 1]);
    NextSlot(data, order, j);
    HeldTransfer(table, t, sender, id, data, order, j, Transfer(j + 1, after));
    ReceiveIntoEmptySlot(t, sender, id, order[j], n, ChunkAt(data, order[j]), j, SlotsAfter(data, order[..j]));
    assert order[..j + 1] == order;
    SplitThenJoin(data);
    var all: seq<nat> := seq(n, i => i);
    assert after == SlotsAfter(data, all) by {
      forall i | 0 <= i < n ensures (i in order) == (i in all) { assert all[i] == i; }
    }
  }

  /** With distinct indices, the number of filled slots is the number of chunks seen. */
  lemma {:induction false} FilledCountsDone(data: seq<u8>, order: seq<nat>, j: nat)
    requires ChunksCount(|data|) < 0x1_0000_0000
    requires IsPermutation(order, ChunksCount(|data|))
    requires j <= ChunksCount(|data|)
    ensures Filled(SlotsAfter(data, order[..j])) == j
  {
    var n := ChunksCount(|data|);
    if j == 0 {
      assert SlotsAfter(data, order[..0]) == seq(n, _ => None);
      FilledAllNone(n);
    } else {
      FilledCountsDone(data, order, j - 1);
      var q := order[j - 1];
      assert q !in order[..j - 1];
      var before := SlotsAfter(data, order[..j - 1]);
      assert SlotsAfter(data, order[..j]) == before[q := Some(ChunkAt(data, q))] by {
        assert order[..j] == order[..j - 1] + [q];
      }
      FilledUpdate(before, q, ChunkAt(data, q));
    }
  }

  /**
   * Sending a long message and receiving all of its chunks, in any order,
   * from one sender that has no transfer with that id in progress: every chunk
   * but the last is merely stored, the last one delivers exactly the original
   * bytes, and the table is left as it was (with the sender's map present).
   */
  lemma DeliverInAnyOrder(table: Table, sender: string, id: u64, data: seq<u8>, order: seq<nat>)
    requires 2 <= ChunksCount(|data|) < 0x1_0000_0000
    requires id !in TransfersOf(table, sender)
    requires IsPermutation(order, ChunksCount(|data|))
    ensures var (t, outs) := FeedChunks(table, sender, id, data, order);
            && AllPending(outs[..|order| - 1])
            && outs[|order| - 1] == Delivered(data)
            && t == table[sender := TransfersOf(table, sender)]
  {
    var n := ChunksCount(|data|);
    FeedPrefix(table, sender, id, data, order, n - 1);
    FeedChunksStep(table, sender, id, data, order, n - 1);
    FeedStepLast(table, FeedChunks(table, sender, id, data, order[..n - 1]).0, sender, id, data, order, n - 1);
    assert order[..n] == order;
  }

  // ---------------------------------------------------------------------------
  // The receiving task's table of incomplete transfers
  // ---------------------------------------------------------------------------

  /**
   * `transfer.1.iter().flat_map(|c| c.as_ref().unwrap().clone())`: the slots'
   * payloads in index order; `ok` is false where an empty slot makes `unwrap` panic.
   */
  method JoinSlots(slots: seq<Option<seq<u8>>>) returns (full: seq<u8>, ok: bool)
    ensures ok <==> AllFilled(slots)
    ensures ok ==> full == Joined(slots)
  {
    full := [];
    var k := 0;
    while k < |slots|
      invariant 0 <= k <= |slots|
      invariant AllFilled(slots[..k]) && full == Joined(slots[..k])
    {
      if slots[k].None? {
        return full, false;
      }
      assert slots[..k + 1][..k] == slots[..k];
      full := full + slots[k].value;
      k := k + 1;
    }
    assert slots[..k] == slots;
    ok := true;
  }

  class TransferTable {
    var transfers: Table

    /** The table starts empty. */
    constructor ()
      ensures transfers == map[]
    {
      transfers := map[];
    }

    /** Handling `TransportPacket::Chunk{id, index, total, data}` from `sender`. */
    method ReceiveChunk(sender: string, id: u64, index: u32, total: u32, data: seq<u8>) returns (o: Outcome)
      modifies this
      ensures (transfers, o) == Receive(old(transfers), sender, id, index, total, data)
      ensures Consistent(old(transfers)) ==> Consistent(transfers)
    {
      var inner := if sender in transfers then transfers[sender] else map[];
      var t := if id in inner then inner[id] else Transfer(0, seq(total as int, _ => None));
      if index as int >= |t.slots| {
        transfers := transfers[sender := inner[id := t]];
        o := OutOfRange;
      } else {
        if t.slots[index].None? {
          t := Transfer(t.received + 1, t.slots[index as int := Some(data)]);
        }
        if t.received == total as int {
          var full, ok := JoinSlots(t.slots);
          if ok {
            transfers := transfers[sender := inner - {id}];
            o := Delivered(full);
          } else {
            transfers := transfers[sender := inner[id := t]];
            o := Panicked;
          }
        } else {
          transfers := transfers[sender := inner[id := t]];
          o := Pending;
        }
      }
      if Consistent(old(transfers)) {
        ReceiveKeepsCounters(old(transfers), sender, id, index, total, data);
      }
    }

    /** A participant that disconnects loses its incomplete transfers. */
    method ForgetSender(sender: string)
      modifies this
      ensures transfers == old(transfers) - {sender}
      ensures Consistent(old(transfers)) ==> Consistent(transfers)
    {
      transfers := transfers - {sender};
    }
  }
}
