/**
 * The RGA-style text buffer as the source keeps it: a version vector object,
 * a buffer object whose node list, sequence counter and version change in
 * place, and the backend that breaks edit intents into single-character
 * operations on it.
 */
module Crdt {

  import opened Wrappers
  import opened Ints
  import opened CrdtNodes
  import BackendApi

  /** The version vector a buffer that has made `seqNo` local edits holds. */
  function VersionAt(replica: u16, seqNo: u32): (v: map<u16, u32>)
    ensures seqNo > 0 ==> replica in v && v[replica] == seqNo
  {
    if seqNo == 0 then map[] else map[replica := seqNo]
  }

  /** Recording the next local `Id` moves the vector to the next sequence number. */
  lemma BumpNext(replica: u16, seqNo: u32)
    requires (seqNo as int) < U32_MAX
    ensures Bump(VersionAt(replica, seqNo), Id(replica, seqNo + 1)) == VersionAt(replica, seqNo + 1)
  {
    var b := Bump(VersionAt(replica, seqNo), Id(replica, seqNo + 1));
    assert b.Keys == {replica};
  }

  /** `Global`: the highest sequence number seen from each replica. */
  class Global {

    var state: map<u16, u32>

    /** `Global::new`: nothing seen yet. */
    constructor ()
      ensures state == map[]
    {
      state := map[];
    }

    /** `Global::update`: raise the replica's entry, inserted as 0 when absent, to the `Id`'s value. */
    method Update(id: Id)
      modifies this
      ensures state == Bump(old(state), id)
    {
      var current: u32 := if id.replicaId in state then state[id.replicaId] else 0;
      if id.value > current {
        current := id.value;
      }
      state := state[id.replicaId := current];
    }
  }

  /** `Buffer`: one replica's copy of the document. */
  class Buffer {

    const replicaId: u16
    var sequence: u32
    var nodes: seq<Node>
    const version: Global
    /** Initialised and never read. */
    var holdbackQueue: seq<Op>

    /** The node list is well formed and the version vector records exactly the local sequence number. */
    ghost predicate Valid()
      reads this, version
    {
      WellFormed(nodes, replicaId, sequence as int) && version.state == VersionAt(replicaId, sequence)
    }

    /** `Buffer::new`: no nodes, no edits, an empty version vector and queue. */
    constructor (replicaId: u16)
      ensures this.replicaId == replicaId && sequence == 0 && nodes == [] && holdbackQueue == []
      ensures fresh(version) && Valid()
    {
      this.replicaId := replicaId;
      sequence := 0;
      nodes := [];
      version := new Global();
      holdbackQueue := [];
    }

    /**
     * `find_visible_insertion_point`: counts visible nodes from the front and
     * returns the `Id` of the `visiblePos`-th one (from 1); `None` for 0 or a
     * position past the visible length.
     */
    method FindVisibleInsertionPoint(visiblePos: nat) returns (r: Option<Id>)
      ensures r == AnchorFor(nodes, visiblePos)
    {
      if visiblePos == 0 {
        return None;
      }
      var count := 0;
      var i := 0;
      while i < |nodes|
        invariant 0 <= i <= |nodes|
        invariant count == VisibleCount(nodes[..i]) && count < visiblePos
      {
        PrefixCountStep(nodes, i);
        if nodes[i].visible {
          count := count + 1;
          if count == visiblePos {
            NthVisibleUnique(nodes, i, count - 1);
            return Some(nodes[i].insertionId);
          }
        }
        i := i + 1;
      }
      assert nodes[..i] == nodes;
      return None;
    }

    /**
     * `insert_node`: start after the anchor (at 0 without one, at the end when
     * it is unknown), step over same-anchor siblings with smaller `Id`, insert.
     */
    method InsertNode(node: Node)
      modifies this
      ensures nodes == Placed(old(nodes), node)
      ensures sequence == old(sequence) && holdbackQueue == old(holdbackQueue)
    {
      var index := 0;
      if node.relativeToId.Some? {
        var idx := FindIndex(nodes, node.relativeToId.value);
        if idx.Some? {
          index := idx.value + 1;
        } else {
          index := |nodes|;
        }
      }
      ghost var start := index;
      assert start == AnchorStart(nodes, node.relativeToId);
      while index < |nodes|
        invariant start <= index <= |nodes|
        invariant SkipSiblings(nodes, node, index) == SkipSiblings(nodes, node, start)
      {
        var curr := nodes[index];
        if curr.relativeToId == node.relativeToId && Cmp(curr.insertionId, node.insertionId) == Less {
          index := index + 1;
        } else {
          break;
        }
      }
      nodes := nodes[..index] + [node] + nodes[index..];
    }

    /**
     * `apply_local_insert`: take the next sequence number, anchor to the node
     * before visible position `pos`, place the new visible node, record the
     * `Id` in the version vector and describe the edit as an `Op`.
     */
    method ApplyLocalInsert(pos: nat, c: char) returns (op: Op)
      requires Valid() && (sequence as int) < U32_MAX
      modifies this, version
      ensures Valid()
      ensures sequence as int == old(sequence) as int + 1 && holdbackQueue == old(holdbackQueue)
      ensures nodes == Placed(old(nodes), LocalNode(old(nodes), replicaId, old(sequence) as nat, pos, c))
      ensures op == Op(Id(replicaId, sequence), AnchorFor(old(nodes), pos), Some(c), version.state, false)
      ensures version.state[replicaId] == sequence
    {
      ghost var n0, s0 := nodes, sequence;
      sequence := sequence + 1;
      var id := Id(replicaId, sequence);
      var relativeId := FindVisibleInsertionPoint(pos);
      var node := Node(id, relativeId, c, true);
      assert node == LocalNode(n0, replicaId, s0 as nat, pos, c);
      InsertNode(node);
      version.Update(id);
      LocalInsertWellFormed(n0, replicaId, s0 as nat, pos, c);
      BumpNext(replicaId, s0);
      op := Op(id, relativeId, Some(c), version.state, false);
    }

    /**
     * The search loop of `apply_local_delete`: walk the nodes counting visible
     * ones and clear the flag of the one at 0-based visible position `pos`.
     */
    method TombstoneVisible(pos: nat) returns (targetId: Option<Id>)
      modifies this
      ensures nodes == LocalDeleted(old(nodes), pos) && targetId == DeleteTarget(old(nodes), pos)
      ensures sequence == old(sequence) && holdbackQueue == old(holdbackQueue)
    {
      ghost var n0 := nodes;
      var count := 0;
      targetId := None;
      var i := 0;
      while i < |nodes|
        invariant 0 <= i <= |nodes| && nodes == n0
        invariant sequence == old(sequence) && holdbackQueue == old(holdbackQueue)
        invariant count == VisibleCount(nodes[..i]) && count <= pos
      {
        PrefixCountStep(nodes, i);
        if nodes[i].visible {
          if count == pos {
            NthVisibleUnique(nodes, i, count);
            targetId := Some(nodes[i].insertionId);
            nodes := Hide(nodes, i);
            return;
          }
          count := count + 1;
        }
        i := i + 1;
      }
      assert n0[..|n0|] == n0;
    }

    /**
     * `apply_local_delete`: tombstone the visible node at 0-based position
     * `pos`, if there is one, then take the next sequence number and record
     * it in the version vector whether or not anything was deleted.
     */
    method ApplyLocalDelete(pos: nat) returns (op: Op)
      requires Valid() && (sequence as int) < U32_MAX
      modifies this, version
      ensures Valid()
      ensures sequence as int == old(sequence) as int + 1 && holdbackQueue == old(holdbackQueue)
      ensures nodes == LocalDeleted(old(nodes), pos)
      ensures op == Op(Id(replicaId, sequence), DeleteTarget(old(nodes), pos), None, version.state, true)
      ensures version.state[replicaId] == sequence
    {
      ghost var s0 := sequence;
      if pos < VisibleCount(nodes) {
        WellFormedHide(nodes, replicaId, sequence as int, NthVisible(nodes, pos));
      }
      var targetId := TombstoneVisible(pos);
      WellFormedLater(nodes, replicaId, sequence as int);
      sequence := sequence + 1;
      var id := Id(replicaId, sequence);
      version.Update(id);
      BumpNext(replicaId, s0);
      op := Op(id, targetId, None, version.state, true);
    }
  }

  /** `b` is `a` with some flags cleared: same nodes, same order, nothing made visible. */
  ghost predicate OnlyHidden(a: seq<Node>, b: seq<Node>) {
    |a| == |b| &&
    forall j :: 0 <= j < |a| ==> b[j] == a[j].(visible := b[j].visible) && (b[j].visible ==> a[j].visible)
  }

  lemma HideOnlyHides(a: seq<Node>, b: seq<Node>, i: nat)
    requires OnlyHidden(a, b) && i < |b|
    ensures OnlyHidden(a, Hide(b, i))
  {
  }

  /** The text with the characters in `[start, end)` removed, the range clipped to the text. */
  function RangeRemoved(r: string, start: nat, end: nat): string {
    var e := if end < |r| then end else |r|;
    if start < e then r[..start] + r[e..] else r
  }

  /** Deleting the character at `start` once more removes one more character of the range. */
  lemma DeleteStep(r0: string, start: nat, n: nat)
    ensures var r := RangeRemoved(r0, start, start + n);
            if start < |r| then r[..start] + r[start + 1..] == RangeRemoved(r0, start, start + n + 1)
            else r == RangeRemoved(r0, start, start + n + 1)
  {
    var r := RangeRemoved(r0, start, start + n);
    if start < |r| {
      if n == 0 {
        assert r == r0;
      } else {
        assert r == r0[..start] + r0[start + n..];
        assert r[..start] == r0[..start];
        assert r[start + 1..] == r0[start + n + 1..];
      }
    }
  }

  /** Typing character `i` of `t` right after the first `i` keeps the splice shape. */
  lemma SpliceStep(r0: string, pos: nat, t: string, i: nat)
    requires pos <= |r0| && i < |t|
    ensures var r := r0[..pos] + t[..i] + r0[pos..];
            pos + i <= |r| && r[..pos + i] + [t[i]] + r[pos + i..] == r0[..pos] + t[..i + 1] + r0[pos..]
  {
    var r := r0[..pos] + t[..i] + r0[pos..];
    assert r[..pos + i] == r0[..pos] + t[..i];
    assert r[pos + i..] == r0[pos..];
    assert t[..i + 1] == t[..i] + [t[i]];
  }

  /** Splicing one character in adds it to the multiset of characters. */
  lemma SpliceMultiset(r: string, v: nat, c: char)
    requires v <= |r|
    ensures multiset(r[..v] + [c] + r[v..]) == multiset(r) + multiset{c}
  {
    assert r == r[..v] + r[v..];
  }

  /**
   * What a run of local inserts of `text` starting at `pos` does to the node
   * list `n0`, giving `n1`: one new node per character, every old node kept,
   * the characters of `text` added to the rendering, and `text` spliced in at
   * `pos` when the first insert is splice-safe.
   */
  ghost predicate InsertOutcome(n0: seq<Node>, pos: nat, text: string, n1: seq<Node>) {
    |n1| == |n0| + |text| && multiset(n0) <= multiset(n1) &&
    multiset(Render(n1)) == multiset(Render(n0)) + multiset(text) &&
    (SpliceSafe(n0, pos) ==> pos <= |Render(n0)| && Render(n1) == Render(n0)[..pos] + text + Render(n0)[pos..])
  }

  /** After `ReplaceAll` the document is `text` and every earlier node is still there, as a tombstone. */
  ghost predicate ReplaceOutcome(n0: seq<Node>, text: string, n1: seq<Node>) {
    Render(n1) == text && forall j :: 0 <= j < |n0| ==> n0[j].(visible := false) in n1
  }

  /** The loop invariant of the `InsertAt` arm after `i` characters. */
  ghost predicate InsertProgress(n0: seq<Node>, pos: nat, text: string, i: nat, nodes: seq<Node>)
    requires i <= |text|
  {
    InsertCounts(n0, text, i, nodes) && InsertSpliced(n0, pos, text, i, nodes)
  }

  /** The lengths and contents the `InsertAt` arm has reached after `i` characters. */
  ghost predicate InsertCounts(n0: seq<Node>, text: string, i: nat, nodes: seq<Node>)
    requires i <= |text|
  {
    |nodes| == |n0| + i && multiset(n0) <= multiset(nodes) &&
    multiset(Render(nodes)) == multiset(Render(n0)) + multiset(text[..i])
  }

  /** Where `pos` is a safe splice point, the first `i` characters sit spliced in at `pos`. */
  ghost predicate InsertSpliced(n0: seq<Node>, pos: nat, text: string, i: nat, nodes: seq<Node>)
    requires i <= |text|
  {
    SpliceSafe(n0, pos) ==>
      pos <= |Render(n0)| && Render(nodes) == Render(n0)[..pos] + text[..i] + Render(n0)[pos..] &&
      SpliceSafe(nodes, pos + i)
  }

  /** One more character placed anywhere keeps the counting half of the invariant. */
  lemma InsertCountsStep(n0: seq<Node>, text: string, i: nat, nodes: seq<Node>, after: seq<Node>,
                         v: nat, c: char)
    requires i < |text| && c == text[i] && InsertCounts(n0, text, i, nodes)
    requires v <= |Render(nodes)| && Render(after) == Render(nodes)[..v] + [c] + Render(nodes)[v..]
    requires |after| == |nodes| + 1 && multiset(nodes) <= multiset(after)
    ensures InsertCounts(n0, text, i + 1, after)
  {
    var r := Render(nodes);
    SpliceMultiset(r, v, c);
    var t, t' := text[..i], text[..i + 1];
    assert t' == t + [c];
    assert multiset(t') == multiset(t) + multiset{c};
  }

  /** A one-character splice at `pos + i` keeps the splice half of the invariant. */
  lemma InsertSplicedStep(n0: seq<Node>, pos: nat, text: string, i: nat, nodes: seq<Node>,
                          after: seq<Node>, v: nat, p: nat, c: char)
    requires i < |text| && p == pos + i && c == text[i] && InsertSpliced(n0, pos, text, i, nodes)
    requires v <= |Render(nodes)| && Render(after) == Render(nodes)[..v] + [c] + Render(nodes)[v..]
    requires SpliceSafe(nodes, p) ==> v == p && SpliceSafe(after, p + 1)
    ensures InsertSpliced(n0, pos, text, i + 1, after)
  {
    if SpliceSafe(n0, pos) {
      assert SpliceSafe(nodes, p);
      SpliceStep(Render(n0), pos, text, i);
    }
  }

  /** What one local insert does, in the terms the `InsertAt` invariant needs. */
  lemma LocalInsertStep(nodes: seq<Node>, replica: u16, seqNo: nat, p: nat, c: char) returns (v: nat)
    requires seqNo < U32_MAX && WellFormed(nodes, replica, seqNo)
    ensures var after := Placed(nodes, LocalNode(nodes, replica, seqNo, p, c));
            v <= |Render(nodes)| && Render(after) == Render(nodes)[..v] + [c] + Render(nodes)[v..] &&
            |after| == |nodes| + 1 && multiset(nodes) <= multiset(after) &&
            (SpliceSafe(nodes, p) ==> v == p && SpliceSafe(after, p + 1))
  {
    var x := LocalNode(nodes, replica, seqNo, p, c);
    var k := PlacementIndex(nodes, x);
    var after := Placed(nodes, x);
    LocalInsertRender(nodes, replica, seqNo, p, c);
    v := VisibleCount(nodes[..k]);
    PlacedKeeps(nodes, x);
    if SpliceSafe(nodes, p) {
      assert v == p && NthVisible(after, p) == k;
    }
  }

  /** One more local insert, of `c == text[i]` at `p == pos + i`, keeps the `InsertAt` invariant. */
  lemma InsertProgressStep(n0: seq<Node>, pos: nat, text: string, i: nat, nodes: seq<Node>,
                           replica: u16, seqNo: nat, p: nat, c: char)
    requires i < |text| && p == pos + i && c == text[i]
    requires seqNo < U32_MAX && WellFormed(nodes, replica, seqNo)
    requires InsertProgress(n0, pos, text, i, nodes)
    ensures InsertProgress(n0, pos, text, i + 1, Placed(nodes, LocalNode(nodes, replica, seqNo, p, c)))
  {
    var after := Placed(nodes, LocalNode(nodes, replica, seqNo, p, c));
    var v := LocalInsertStep(nodes, replica, seqNo, p, c);
    InsertCountsStep(n0, text, i, nodes, after, v, c);
    InsertSplicedStep(n0, pos, text, i, nodes, after, v, p, c);
  }

  /** Before the first character the `InsertAt` invariant holds of the untouched list. */
  lemma InsertProgressStart(n0: seq<Node>, pos: nat, text: string)
    ensures InsertProgress(n0, pos, text, 0, n0)
  {
    assert text[..0] == [];
    if SpliceSafe(n0, pos) {
      assert Render(n0) == Render(n0)[..pos] + Render(n0)[pos..];
    }
  }

  /** After the last character the `InsertAt` invariant is the outcome the arm promises. */
  lemma InsertProgressDone(n0: seq<Node>, pos: nat, text: string, nodes: seq<Node>)
    requires InsertProgress(n0, pos, text, |text|, nodes)
    ensures InsertOutcome(n0, pos, text, nodes)
  {
    assert text[..|text|] == text;
  }

  /** The node list after `apply_local_delete(pos)`. */
  function LocalDeleted(nodes: seq<Node>, pos: nat): (r: seq<Node>)
    ensures OnlyHidden(nodes, r)
  {
    if pos < VisibleCount(nodes) then Hide(nodes, NthVisible(nodes, pos)) else nodes
  }

  /** `apply_local_delete` takes one off the visible count, unless `pos` is past it. */
  lemma LocalDeletedCount(nodes: seq<Node>, pos: nat)
    ensures VisibleCount(LocalDeleted(nodes, pos)) ==
            if pos < VisibleCount(nodes) then VisibleCount(nodes) - 1 else VisibleCount(nodes)
  {
    if pos < VisibleCount(nodes) {
      HideCount(nodes, NthVisible(nodes, pos));
    }
  }

  /** The `relative_id` of the `Op` `apply_local_delete(pos)` returns: the tombstoned node's `Id`. */
  function DeleteTarget(nodes: seq<Node>, pos: nat): (t: Option<Id>)
    ensures t.Some? <==> pos < VisibleCount(nodes)
  {
    if pos < VisibleCount(nodes) then Some(nodes[NthVisible(nodes, pos)].insertionId) else None
  }

  lemma OnlyHiddenTransitive(a: seq<Node>, b: seq<Node>, c: seq<Node>)
    requires OnlyHidden(a, b) && OnlyHidden(b, c)
    ensures OnlyHidden(a, c)
  {
  }

  /** The loop invariant of the `DeleteRange` arm after `n` deletions. */
  ghost predicate DeleteProgress(n0: seq<Node>, start: nat, n: nat, nodes: seq<Node>) {
    Render(nodes) == RangeRemoved(Render(n0), start, start + n) && OnlyHidden(n0, nodes)
  }

  /** One more delete at `start` keeps the `DeleteRange` invariant. */
  lemma DeleteProgressStep(n0: seq<Node>, start: nat, n: nat, nodes: seq<Node>)
    requires DeleteProgress(n0, start, n, nodes)
    ensures DeleteProgress(n0, start, n + 1, LocalDeleted(nodes, start))
  {
    if start < VisibleCount(nodes) {
      RenderHide(nodes, start);
    }
    DeleteStep(Render(n0), start, n);
    OnlyHiddenTransitive(n0, nodes, LocalDeleted(nodes, start));
  }

  /** Before the first deletion the `DeleteRange` invariant holds of the untouched list. */
  lemma DeleteProgressStart(n0: seq<Node>, start: nat)
    ensures DeleteProgress(n0, start, 0, n0)
  {
  }

  /** After `end - start` deletions (none for an empty range) the whole range is gone. */
  lemma DeleteProgressDone(n0: seq<Node>, start: nat, end: nat, nodes: seq<Node>)
    requires DeleteProgress(n0, start, if end > start then end - start else 0, nodes)
    ensures Render(nodes) == RangeRemoved(Render(n0), start, end) && OnlyHidden(n0, nodes)
  {
  }

  /** One delete at position 0 of the `ReplaceAll` arm: one fewer visible node. */
  lemma ClearStep(n0: seq<Node>, nodes: seq<Node>)
    requires OnlyHidden(n0, nodes)
    ensures OnlyHidden(n0, LocalDeleted(nodes, 0))
  {
    OnlyHiddenTransitive(n0, nodes, LocalDeleted(nodes, 0));
  }

  /** Inserting `text` into a list with nothing visible renders `text` and keeps every tombstone. */
  lemma ReplaceDone(n0: seq<Node>, cleared: seq<Node>, text: string, after: seq<Node>)
    requires OnlyHidden(n0, cleared) && VisibleCount(cleared) == 0
    requires InsertOutcome(cleared, 0, text, after)
    ensures ReplaceOutcome(n0, text, after)
  {
    NoneVisible(cleared);
    forall j | 0 <= j < |n0|
      ensures n0[j].(visible := false) in after
    {
      assert cleared[j] == n0[j].(visible := false);
      assert cleared[j] in multiset(cleared);
    }
  }

  /** How many local operations an intent turns into, given the visible length. */
  function IntentCost(intent: BackendApi.Intent, visible: nat): nat {
    match intent
    case InsertAt(_, text) => |text|
    case DeleteRange(start, end) => if end > start then end - start else 0
    case ReplaceAll(text) => visible + |text|
    case MoveCursor(_) => 0
  }

  /**
   * The node list after the local inserts of the first `n` characters of
   * `text` into `nodes`, character `i` at visible position `pos + i` with
   * sequence number `seqNo + i + 1`.
   */
  function InsertRun(nodes: seq<Node>, replica: u16, seqNo: nat, pos: nat, text: string, n: nat): (r: seq<Node>)
    requires n <= |text| && seqNo + n <= U32_MAX
    ensures |r| == |nodes| + n
  {
    if n == 0 then nodes
    else
      var prev := InsertRun(nodes, replica, seqNo, pos, text, n - 1);
      Placed(prev, LocalNode(prev, replica, seqNo + n - 1, pos + n - 1, text[n - 1]))
  }

  /** One more character of the run is one more local insert. */
  lemma InsertRunNext(nodes: seq<Node>, replica: u16, seqNo: nat, pos: nat, text: string, i: nat)
    requires i < |text| && seqNo + i < U32_MAX
    ensures InsertRun(nodes, replica, seqNo, pos, text, i + 1) ==
            Placed(InsertRun(nodes, replica, seqNo, pos, text, i),
                   LocalNode(InsertRun(nodes, replica, seqNo, pos, text, i), replica, seqNo + i, pos + i, text[i]))
  {
  }

  /** One more local insert, with the run's next sequence number, position and character, extends the run. */
  lemma InsertRunStep(n0: seq<Node>, replica: u16, s0: nat, pos: nat, text: string, i: nat,
                      prev: seq<Node>, after: seq<Node>)
    requires i < |text| && s0 + |text| <= U32_MAX
    requires prev == InsertRun(n0, replica, s0, pos, text, i)
    requires after == Placed(prev, LocalNode(prev, replica, s0 + i, pos + i, text[i]))
    ensures after == InsertRun(n0, replica, s0, pos, text, i + 1)
  {
    InsertRunNext(n0, replica, s0, pos, text, i);
  }

  /** The node list after `n` local deletes, all at visible position `pos`. */
  function DeleteRun(nodes: seq<Node>, pos: nat, n: nat): (r: seq<Node>)
    ensures |r| == |nodes|
  {
    if n == 0 then nodes else LocalDeleted(DeleteRun(nodes, pos, n - 1), pos)
  }

  /** The node list after the `DeleteRange` arm: `end - start` local deletes at `start`, none when `end <= start`. */
  function RangeRun(nodes: seq<Node>, start: nat, end: nat): (r: seq<Node>)
    ensures |r| == |nodes|
  {
    DeleteRun(nodes, start, if end > start then end - start else 0)
  }

  /** After as many deletes as the range is long, the `DeleteRange` run is complete. */
  lemma RangeRunIs(n0: seq<Node>, start: nat, end: nat, n: nat, nodes: seq<Node>)
    requires n == (if end > start then end - start else 0) && nodes == DeleteRun(n0, start, n)
    ensures nodes == RangeRun(n0, start, end)
  {
  }

  /**
   * The node list after the `ReplaceAll` arm: one local delete at position 0
   * per visible character, then the inserts of `text` from position 0, the
   * first of them with sequence number `cleared`, the one the deletes reached.
   */
  function ReplaceRun(nodes: seq<Node>, replica: u16, cleared: nat, text: string): (r: seq<Node>)
    requires cleared + |text| <= U32_MAX
    ensures |r| == |nodes| + |text|
  {
    InsertRun(DeleteRun(nodes, 0, VisibleCount(nodes)), replica, cleared, 0, text, |text|)
  }

  /** One more local delete at the run's position extends the run. */
  lemma DeleteRunStep(n0: seq<Node>, pos: nat, n: nat, prev: seq<Node>, after: seq<Node>)
    requires prev == DeleteRun(n0, pos, n) && after == LocalDeleted(prev, pos)
    ensures after == DeleteRun(n0, pos, n + 1)
  {
  }

  /** `CrdtBackend`: the `DocBackend` over one buffer. Positions are visible character indices. */
  class CrdtBackend {

    const buffer: Buffer

    ghost predicate Valid()
      reads this, buffer, buffer.version
    {
      buffer.Valid()
    }

    /** `CrdtBackend::new`. */
    constructor (replicaId: u16)
      ensures fresh(buffer) && fresh(buffer.version) && Valid()
      ensures buffer.replicaId == replicaId && buffer.nodes == [] && buffer.sequence == 0
      ensures buffer.holdbackQueue == []
    {
      buffer := new Buffer(replicaId);
    }

    /** Character `i` of an `InsertAt` run, inserted locally at visible position `pos + i`. */
    method InsertNext(ghost n0: seq<Node>, ghost s0: nat, pos: nat, text: string, i: nat)
      requires i < |text| && s0 + |text| <= U32_MAX
      requires buffer.Valid() && buffer.sequence as nat == s0 + i
      requires InsertProgress(n0, pos, text, i, buffer.nodes)
      modifies buffer, buffer.version
      ensures buffer.Valid() && buffer.sequence as nat == s0 + i + 1
      ensures buffer.nodes == Placed(old(buffer.nodes), LocalNode(old(buffer.nodes), buffer.replicaId, s0 + i, pos + i, text[i]))
      ensures buffer.holdbackQueue == old(buffer.holdbackQueue)
      ensures InsertProgress(n0, pos, text, i + 1, buffer.nodes)
    {
      var p, c := pos + i, text[i];
      InsertProgressStep(n0, pos, text, i, buffer.nodes, buffer.replicaId, buffer.sequence as nat, p, c);
      var _ := buffer.ApplyLocalInsert(p, c);
    }

    /** The `InsertAt` arm: character `i` of `text` is inserted locally at visible position `pos + i`. */
    method ApplyInsertAt(pos: nat, text: string)
      requires Valid() && buffer.sequence as int + |text| <= U32_MAX
      modifies buffer, buffer.version
      ensures Valid()
      ensures buffer.sequence as int == old(buffer.sequence) as int + |text|
      ensures buffer.nodes == InsertRun(old(buffer.nodes), buffer.replicaId, old(buffer.sequence) as nat, pos, text, |text|)
      ensures buffer.holdbackQueue == old(buffer.holdbackQueue)
      ensures InsertOutcome(old(buffer.nodes), pos, text, buffer.nodes)
    {
      ghost var n0, s0 := buffer.nodes, buffer.sequence as nat;
      InsertProgressStart(n0, pos, text);
      var i := 0;
      while i < |text|
        invariant 0 <= i <= |text|
        invariant buffer.Valid() && buffer.sequence as nat == s0 + i
        invariant buffer.holdbackQueue == old(buffer.holdbackQueue)
        invariant buffer.nodes == InsertRun(n0, buffer.replicaId, s0, pos, text, i)
        invariant InsertProgress(n0, pos, text, i, buffer.nodes)
      {
        ghost var prev := buffer.nodes;
        InsertNext(n0, s0, pos, text, i);
        InsertRunStep(n0, buffer.replicaId, s0, pos, text, i, prev, buffer.nodes);
        i := i + 1;
      }
      InsertProgressDone(n0, pos, text, buffer.nodes);
    }

    /** Deletion `n` of a `DeleteRange` run, always at visible position `start`. */
    method DeleteNext(ghost n0: seq<Node>, start: nat, n: nat)
      requires buffer.Valid() && (buffer.sequence as int) < U32_MAX
      requires DeleteProgress(n0, start, n, buffer.nodes)
      modifies buffer, buffer.version
      ensures buffer.Valid() && buffer.sequence as int == old(buffer.sequence) as int + 1
      ensures buffer.nodes == LocalDeleted(old(buffer.nodes), start)
      ensures buffer.holdbackQueue == old(buffer.holdbackQueue)
      ensures DeleteProgress(n0, start, n + 1, buffer.nodes)
    {
      DeleteProgressStep(n0, start, n, buffer.nodes);
      var _ := buffer.ApplyLocalDelete(start);
    }

    /** The `DeleteRange` arm: the character at `start` is deleted `end - start` times. */
    method ApplyDeleteRange(start: nat, end: nat)
      requires Valid() && buffer.sequence as int + (if end > start then end - start else 0) <= U32_MAX
      modifies buffer, buffer.version
      ensures Valid()
      ensures buffer.sequence as int == old(buffer.sequence) as int + (if end > start then end - start else 0)
      ensures buffer.nodes == RangeRun(old(buffer.nodes), start, end)
      ensures buffer.holdbackQueue == old(buffer.holdbackQueue)
      ensures Render(buffer.nodes) == RangeRemoved(Render(old(buffer.nodes)), start, end)
      ensures OnlyHidden(old(buffer.nodes), buffer.nodes)
    {
      ghost var n0, s0 := buffer.nodes, buffer.sequence as int;
      var count := if end > start then end - start else 0;
      var n := 0;
      DeleteProgressStart(n0, start);
      while n < count
        invariant 0 <= n <= count
        invariant buffer.Valid() && buffer.sequence as int == s0 + n
        invariant buffer.holdbackQueue == old(buffer.holdbackQueue)
        invariant buffer.nodes == DeleteRun(n0, start, n)
        invariant DeleteProgress(n0, start, n, buffer.nodes)
      {
        ghost var prev := buffer.nodes;
        DeleteNext(n0, start, n);
        DeleteRunStep(n0, start, n, prev, buffer.nodes);
        n := n + 1;
      }
      DeleteProgressDone(n0, start, end, buffer.nodes);
      RangeRunIs(n0, start, end, n, buffer.nodes);
    }

    /** The first half of the `ReplaceAll` arm: delete at position 0 once per visible character. */
    method ClearAll()
      requires Valid() && buffer.sequence as int + VisibleCount(buffer.nodes) <= U32_MAX
      modifies buffer, buffer.version
      ensures Valid()
      ensures buffer.sequence as int == old(buffer.sequence) as int + VisibleCount(old(buffer.nodes))
      ensures buffer.nodes == DeleteRun(old(buffer.nodes), 0, VisibleCount(old(buffer.nodes)))
      ensures buffer.holdbackQueue == old(buffer.holdbackQueue)
      ensures VisibleCount(buffer.nodes) == 0 && OnlyHidden(old(buffer.nodes), buffer.nodes)
    {
      ghost var n0 := buffer.nodes;
      var len := VisibleCount(buffer.nodes);
      var n := 0;
      while n < len
        invariant 0 <= n <= len
        invariant Valid() && buffer.sequence as int == old(buffer.sequence) as int + n
        invariant buffer.holdbackQueue == old(buffer.holdbackQueue)
        invariant buffer.nodes == DeleteRun(n0, 0, n)
        invariant VisibleCount(buffer.nodes) == len - n && OnlyHidden(n0, buffer.nodes)
      {
        ghost var prev := buffer.nodes;
        ClearStep(n0, buffer.nodes);
        LocalDeletedCount(buffer.nodes, 0);
        var _ := buffer.ApplyLocalDelete(0);
        DeleteRunStep(n0, 0, n, prev, buffer.nodes);
        n := n + 1;
      }
    }

    /**
     * The `ReplaceAll` arm: delete at position 0 once per visible character,
     * then insert `text` character by character from position 0.
     */
    method ApplyReplaceAll(text: string) returns (ghost cleared: nat)
      requires Valid() && buffer.sequence as int + VisibleCount(buffer.nodes) + |text| <= U32_MAX
      modifies buffer, buffer.version
      ensures Valid()
      ensures cleared == old(buffer.sequence) as nat + VisibleCount(old(buffer.nodes))
      ensures buffer.sequence as int == cleared + |text|
      ensures buffer.nodes == ReplaceRun(old(buffer.nodes), buffer.replicaId, cleared, text)
      ensures buffer.holdbackQueue == old(buffer.holdbackQueue)
      ensures ReplaceOutcome(old(buffer.nodes), text, buffer.nodes)
    {
      ghost var n0 := buffer.nodes;
      ClearAll();
      ghost var mid := buffer.nodes;
      cleared := buffer.sequence as nat;
      ApplyInsertAt(0, text);
      ReplaceDone(n0, mid, text, buffer.nodes);
    }

    /**
     * `apply_intent`: insert, delete or replace through local single-character
     * operations, ignore cursor moves, and hand back the whole rendering.
     */
    method ApplyIntent(intent: BackendApi.Intent) returns (u: BackendApi.FrontendUpdate)
      requires Valid() && buffer.sequence as int + IntentCost(intent, VisibleCount(buffer.nodes)) <= U32_MAX
      modifies buffer, buffer.version
      ensures Valid()
      ensures buffer.sequence as int == old(buffer.sequence) as int + IntentCost(intent, VisibleCount(old(buffer.nodes)))
      ensures u == BackendApi.FrontendUpdate(Some(Render(buffer.nodes)), [])
      ensures buffer.holdbackQueue == old(buffer.holdbackQueue)
      ensures intent.InsertAt? ==>
                buffer.nodes == InsertRun(old(buffer.nodes), buffer.replicaId, old(buffer.sequence) as nat, intent.pos, intent.text, |intent.text|) &&
                InsertOutcome(old(buffer.nodes), intent.pos, intent.text, buffer.nodes)
      ensures intent.DeleteRange? ==>
                buffer.nodes == RangeRun(old(buffer.nodes), intent.start, intent.end) &&
                Render(buffer.nodes) == RangeRemoved(Render(old(buffer.nodes)), intent.start, intent.end) &&
                OnlyHidden(old(buffer.nodes), buffer.nodes)
      ensures intent.ReplaceAll? ==>
                (exists cleared: nat :: cleared == old(buffer.sequence) as nat + VisibleCount(old(buffer.nodes)) &&
                   buffer.nodes == ReplaceRun(old(buffer.nodes), buffer.replicaId, cleared, intent.text)) &&
                ReplaceOutcome(old(buffer.nodes), intent.text, buffer.nodes)
      ensures intent.MoveCursor? ==> buffer.nodes == old(buffer.nodes)
    {
      match intent {
        case InsertAt(pos, text) =>
          ApplyInsertAt(pos, text);
        case DeleteRange(start, end) =>
          ApplyDeleteRange(start, end);
        case ReplaceAll(text) =>
          ghost var cleared := ApplyReplaceAll(text);
        case MoveCursor(_) =>
      }
      u := BackendApi.FrontendUpdate(Some(Render(buffer.nodes)), []);
    }

    /** `render_text`: the buffer's rendering, without changing anything. */
    method RenderText() returns (s: string)
      ensures s == Render(buffer.nodes)
    {
      s := Render(buffer.nodes);
    }
  }

  /**
   * On ASCII text, where the mock backend's byte offsets are character
   * positions, deleting an in-bounds range gives the same text in both
   * backends.
   */
  lemma DeleteAgreesWithMock(text: string, start: nat, end: nat)
    requires BackendApi.IsAscii(text) && start <= end <= |text|
    ensures BackendApi.MockEdit(text, BackendApi.DeleteRange(start, end)) == Some(RangeRemoved(text, start, end))
  {
    BackendApi.MockEditAscii(text, BackendApi.DeleteRange(start, end));
    if start == end {
      assert text[..start] + text[end..] == text;
    }
  }

  /**
   * On ASCII text the mock backend's insert is the splice that the CRDT
   * backend produces from a splice-safe position.
   */
  lemma InsertAgreesWithMock(nodes: seq<Node>, pos: nat, text: string, after: seq<Node>)
    requires BackendApi.IsAscii(Render(nodes)) && SpliceSafe(nodes, pos)
    requires InsertOutcome(nodes, pos, text, after)
    ensures BackendApi.MockEdit(Render(nodes), BackendApi.InsertAt(pos, text)) == Some(Render(after))
  {
    BackendApi.MockEditAscii(Render(nodes), BackendApi.InsertAt(pos, text));
  }
}
