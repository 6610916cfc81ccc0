/**
 * The value level of the RGA-style text buffer: identifiers and their order,
 * the version vector's update rule, nodes with tombstones, and the functions
 * that say what the node list renders to, where a visible position lives and
 * where the placement rule puts a new node.
 */
module CrdtNodes {

  import opened Wrappers
  import opened Ints

  /** An operation's identity: the replica that made it and that replica's sequence number. */
  datatype Id = Id(replicaId: u16, value: u32)

  datatype Ordering = Less | Equal | Greater

  function CompareInt(a: int, b: int): Ordering {
    if a < b then Less else if a == b then Equal else Greater
  }

  /** `Ord for Id`: by sequence number, ties broken by replica. */
  function Cmp(a: Id, b: Id): (o: Ordering)
    ensures o == Equal <==> a == b
    ensures o == Less <==> a.value < b.value || (a.value == b.value && a.replicaId < b.replicaId)
    ensures o == Greater <==> b.value < a.value || (a.value == b.value && b.replicaId < a.replicaId)
  {
    var byValue := CompareInt(a.value as int, b.value as int);
    if byValue != Equal then byValue else CompareInt(a.replicaId as int, b.replicaId as int)
  }

  predicate IdLess(a: Id, b: Id) {
    Cmp(a, b) == Less
  }

  /** Swapping the arguments swaps `Less` and `Greater`. */
  lemma CmpAntisymmetric(a: Id, b: Id)
    ensures Cmp(a, b) == Less <==> Cmp(b, a) == Greater
  {
  }

  lemma CmpTransitive(a: Id, b: Id, c: Id)
    requires IdLess(a, b) && IdLess(b, c)
    ensures IdLess(a, c)
  {
  }

  /** Any two identifiers are ordered one way, the other, or are equal. */
  lemma CmpTotal(a: Id, b: Id)
    ensures IdLess(a, b) || IdLess(b, a) || a == b
  {
  }

  /**
   * `Global::update` as a function of the map: the entry for the identifier's
   * replica becomes the larger of its old value (0 when absent) and the
   * identifier's value.
   */
  function Bump(state: map<u16, u32>, id: Id): (s: map<u16, u32>)
    ensures id.replicaId in s
    ensures id.value <= s[id.replicaId]
    ensures id.replicaId in state ==> state[id.replicaId] <= s[id.replicaId]
    ensures s[id.replicaId] == id.value || (id.replicaId in state && s[id.replicaId] == state[id.replicaId])
    ensures forall r :: r in state ==> r in s && state[r] <= s[r]
    ensures forall r :: r != id.replicaId ==> (r in s <==> r in state) && (r in s ==> s[r] == state[r])
  {
    var current := if id.replicaId in state then state[id.replicaId] else 0;
    state[id.replicaId := if id.value > current then id.value else current]
  }

  /** Bumping with a value that is already covered changes nothing. */
  lemma BumpIdempotent(state: map<u16, u32>, id: Id)
    ensures Bump(Bump(state, id), id) == Bump(state, id)
  {
  }

  /** One character of the document; a deleted one stays as a tombstone with `visible` false. */
  datatype Node = Node(insertionId: Id, relativeToId: Option<Id>, text: char, visible: bool)

  /** A local edit as it would be sent to other replicas; `version` is the vector after the edit. */
  datatype Op = Op(id: Id, relativeId: Option<Id>, text: Option<char>, version: map<u16, u32>, isDelete: bool)

  /** How many nodes are visible. */
  function VisibleCount(nodes: seq<Node>): (n: nat)
    ensures n <= |nodes|
  {
    if |nodes| == 0 then 0
    else VisibleCount(nodes[..|nodes| - 1]) + (if nodes[|nodes| - 1].visible then 1 else 0)
  }

  /** `Buffer::render`: the characters of the visible nodes, in list order. */
  function Render(nodes: seq<Node>): (s: string)
    ensures |s| == VisibleCount(nodes)
  {
    if |nodes| == 0 then []
    else Render(nodes[..|nodes| - 1]) + (if nodes[|nodes| - 1].visible then [nodes[|nodes| - 1].text] else [])
  }

  /** Rendering and counting distribute over concatenation. */
  lemma {:induction false} RenderAppend(a: seq<Node>, b: seq<Node>)
    ensures Render(a + b) == Render(a) + Render(b)
    ensures VisibleCount(a + b) == VisibleCount(a) + VisibleCount(b)
  {
    if |b| == 0 {
      assert a + b == a;
    } else {
      var n := |b| - 1;
      assert (a + b)[..|a + b| - 1] == a + b[..n];
      RenderAppend(a, b[..n]);
    }
  }

  /** The index of the `k`-th visible node, counting from 0. */
  function NthVisible(nodes: seq<Node>, k: nat): (i: nat)
    requires k < VisibleCount(nodes)
    ensures i < |nodes| && nodes[i].visible && VisibleCount(nodes[..i]) == k
  {
    var n := |nodes| - 1;
    if k < VisibleCount(nodes[..n]) then
      var i := NthVisible(nodes[..n], k);
      assert nodes[..n][..i] == nodes[..i];
      i
    else
      assert nodes[..n] == nodes[..n];
      n
  }

  /** Cutting the list at `i` splits the visible count. */
  lemma CountSplit(nodes: seq<Node>, i: nat)
    requires i <= |nodes|
    ensures VisibleCount(nodes) == VisibleCount(nodes[..i]) + VisibleCount(nodes[i..])
    ensures Render(nodes) == Render(nodes[..i]) + Render(nodes[i..])
  {
    assert nodes == nodes[..i] + nodes[i..];
    RenderAppend(nodes[..i], nodes[i..]);
  }

  /** One more node in the prefix adds one to the count when it is visible. */
  lemma PrefixCountStep(nodes: seq<Node>, a: nat)
    requires a < |nodes|
    ensures VisibleCount(nodes[..a + 1]) == VisibleCount(nodes[..a]) + (if nodes[a].visible then 1 else 0)
  {
    assert nodes[..a + 1][..a] == nodes[..a];
  }

  /** Longer prefixes have at least as many visible nodes. */
  lemma {:induction false} PrefixCountMono(nodes: seq<Node>, a: nat, b: nat)
    requires a <= b <= |nodes|
    ensures VisibleCount(nodes[..a]) <= VisibleCount(nodes[..b])
    decreases b - a
  {
    if a < b {
      PrefixCountStep(nodes, a);
      PrefixCountMono(nodes, a + 1, b);
    }
  }

  /** A visible node with `k` visible nodes before it is the `k`-th visible node. */
  lemma NthVisibleUnique(nodes: seq<Node>, i: nat, k: nat)
    requires i < |nodes| && nodes[i].visible && VisibleCount(nodes[..i]) == k
    ensures k < VisibleCount(nodes) && NthVisible(nodes, k) == i
  {
    PrefixCountStep(nodes, i);
    PrefixCountMono(nodes, i + 1, |nodes|);
    assert nodes[..|nodes|] == nodes;
    var j := NthVisible(nodes, k);
    if j < i {
      PrefixCountStep(nodes, j);
      PrefixCountMono(nodes, j + 1, i);
    } else if j > i {
      PrefixCountMono(nodes, i + 1, j);
    }
  }

  /** The character at visible position `VisibleCount(nodes[..i])` comes from visible node `i`. */
  lemma RenderAt(nodes: seq<Node>, i: nat)
    requires i < |nodes| && nodes[i].visible
    ensures VisibleCount(nodes[..i]) < |Render(nodes)|
    ensures Render(nodes)[VisibleCount(nodes[..i])] == nodes[i].text
  {
    CountSplit(nodes, i);
    assert nodes[i..] == [nodes[i]] + nodes[i + 1..];
    RenderAppend([nodes[i]], nodes[i + 1..]);
    assert Render([nodes[i]]) == [nodes[i].text] by {
      assert [nodes[i]][..0] == [];
    }
  }

  /** With no visible node the list renders to nothing and every node is a tombstone. */
  lemma NoneVisible(nodes: seq<Node>)
    requires VisibleCount(nodes) == 0
    ensures forall i :: 0 <= i < |nodes| ==> !nodes[i].visible
  {
    forall i | 0 <= i < |nodes|
      ensures !nodes[i].visible
    {
      if nodes[i].visible {
        NthVisibleUnique(nodes, i, VisibleCount(nodes[..i]));
      }
    }
  }

  /** `find_index`: the first position holding `id`, or `None`. */
  function FindIndex(nodes: seq<Node>, id: Id): (r: Option<nat>)
    ensures r.Some? ==> r.value < |nodes| && nodes[r.value].insertionId == id &&
                        forall j :: 0 <= j < r.value ==> nodes[j].insertionId != id
    ensures r.None? ==> forall j :: 0 <= j < |nodes| ==> nodes[j].insertionId != id
  {
    if |nodes| == 0 then None
    else if nodes[0].insertionId == id then Some(0)
    else match FindIndex(nodes[1..], id)
      case None => None
      case Some(i) => Some(i + 1)
  }

  /** Where the search for a new node's place starts: after its anchor, at 0 without one, at the end when the anchor is unknown. */
  function AnchorStart(nodes: seq<Node>, anchor: Option<Id>): (start: nat)
    ensures start <= |nodes|
    ensures anchor.None? ==> start == 0
    ensures anchor.Some? && FindIndex(nodes, anchor.value).None? ==> start == |nodes|
    ensures anchor.Some? && FindIndex(nodes, anchor.value).Some? ==>
              1 <= start && nodes[start - 1].insertionId == anchor.value
  {
    match anchor
    case None => 0
    case Some(a) =>
      match FindIndex(nodes, a)
      case Some(i) => i + 1
      case None => |nodes|
  }

  /** Node `n` is a sibling of `x` that sorts before it: same anchor, smaller `Id`. */
  predicate SkippedFor(n: Node, x: Node) {
    n.relativeToId == x.relativeToId && IdLess(n.insertionId, x.insertionId)
  }

  /** From `i` on, step over the contiguous siblings of `x` that sort before it. */
  function SkipSiblings(nodes: seq<Node>, x: Node, i: nat): (k: nat)
    requires i <= |nodes|
    ensures i <= k <= |nodes|
    ensures forall j :: i <= j < k ==> SkippedFor(nodes[j], x)
    ensures k < |nodes| ==> !SkippedFor(nodes[k], x)
    decreases |nodes| - i
  {
    if i < |nodes| && SkippedFor(nodes[i], x) then SkipSiblings(nodes, x, i + 1) else i
  }

  /**
   * `insert_node`'s placement rule: right after the anchor, past the contiguous
   * run of same-anchor siblings with smaller `Id`; at the end when the anchor
   * is not in the list.
   */
  function PlacementIndex(nodes: seq<Node>, x: Node): (k: nat)
    ensures AnchorStart(nodes, x.relativeToId) <= k <= |nodes|
    ensures forall j :: AnchorStart(nodes, x.relativeToId) <= j < k ==> SkippedFor(nodes[j], x)
    ensures k < |nodes| ==> !SkippedFor(nodes[k], x)
    ensures x.relativeToId.Some? && FindIndex(nodes, x.relativeToId.value).None? ==> k == |nodes|
  {
    SkipSiblings(nodes, x, AnchorStart(nodes, x.relativeToId))
  }

  /** The node list after `insert_node(x)`. */
  function Placed(nodes: seq<Node>, x: Node): (r: seq<Node>)
    ensures |r| == |nodes| + 1 && r[PlacementIndex(nodes, x)] == x
  {
    var k := PlacementIndex(nodes, x);
    nodes[..k] + [x] + nodes[k..]
  }

  /** Placing a node adds exactly that node and keeps every node already there. */
  lemma PlacedKeeps(nodes: seq<Node>, x: Node)
    ensures multiset(Placed(nodes, x)) == multiset(nodes) + multiset{x}
  {
    var k := PlacementIndex(nodes, x);
    assert nodes == nodes[..k] + nodes[k..];
  }

  /** Inserting a visible node splices its character into the rendering at the visible count before it. */
  lemma RenderInsert(nodes: seq<Node>, x: Node, k: nat)
    requires k <= |nodes| && x.visible
    ensures VisibleCount(nodes[..k]) <= |Render(nodes)|
    ensures Render(nodes[..k] + [x] + nodes[k..]) ==
              Render(nodes)[..VisibleCount(nodes[..k])] + [x.text] + Render(nodes)[VisibleCount(nodes[..k])..]
  {
    CountSplit(nodes, k);
    RenderAppend(nodes[..k] + [x], nodes[k..]);
    RenderAppend(nodes[..k], [x]);
    assert Render([x]) == [x.text] by {
      assert [x][..0] == [];
    }
  }

  /** `nodes` with node `i` turned into a tombstone. */
  function Hide(nodes: seq<Node>, i: nat): (r: seq<Node>)
    requires i < |nodes|
    ensures |r| == |nodes| && !r[i].visible
  {
    nodes[i := nodes[i].(visible := false)]
  }

  /** The rendering of a list with one node singled out. */
  lemma RenderAround(a: seq<Node>, n: Node, b: seq<Node>)
    ensures Render(a + [n] + b) == Render(a) + (if n.visible then [n.text] else []) + Render(b)
  {
    RenderAppend(a + [n], b);
    RenderAppend(a, [n]);
    assert [n][..0] == [];
  }

  /** Tombstoning the `k`-th visible node removes the `k`-th character of the rendering. */
  lemma RenderHide(nodes: seq<Node>, k: nat)
    requires k < VisibleCount(nodes)
    ensures Render(Hide(nodes, NthVisible(nodes, k))) == Render(nodes)[..k] + Render(nodes)[k + 1..]
  {
    var i := NthVisible(nodes, k);
    var h := Hide(nodes, i);
    var a, b := nodes[..i], nodes[i + 1..];
    var n, m := nodes[i], nodes[i].(visible := false);
    HideSplit(nodes, i);
    RenderAround(a, n, b);
    RenderAround(a, m, b);
    SliceAround(Render(a), n.text, Render(b));
  }

  /** Cutting a sequence around the element after `ra` gives back `ra` and `rb`. */
  lemma SliceAround<T>(ra: seq<T>, c: T, rb: seq<T>)
    ensures (ra + [c] + rb)[..|ra|] == ra && (ra + [c] + rb)[|ra| + 1..] == rb
  {
  }

  /** A list, and the list with node `i` hidden, around node `i`. */
  lemma HideSplit(nodes: seq<Node>, i: nat)
    requires i < |nodes|
    ensures nodes == nodes[..i] + [nodes[i]] + nodes[i + 1..]
    ensures Hide(nodes, i) == nodes[..i] + [nodes[i].(visible := false)] + nodes[i + 1..]
  {
  }

  /** Hiding a node takes one off the visible count exactly when it was visible. */
  lemma HideCount(nodes: seq<Node>, i: nat)
    requires i < |nodes|
    ensures VisibleCount(Hide(nodes, i)) == VisibleCount(nodes) - (if nodes[i].visible then 1 else 0)
  {
    HideSplit(nodes, i);
    RenderAround(nodes[..i], nodes[i], nodes[i + 1..]);
    RenderAround(nodes[..i], nodes[i].(visible := false), nodes[i + 1..]);
  }

  /**
   * `find_visible_insertion_point` as a function: the `Id` of the `pos`-th
   * visible node counting from 1, and `None` for position 0 or a position
   * past the visible length.
   */
  function AnchorFor(nodes: seq<Node>, pos: nat): (a: Option<Id>)
    ensures a.Some? <==> 1 <= pos <= VisibleCount(nodes)
  {
    if 1 <= pos <= VisibleCount(nodes) then Some(nodes[NthVisible(nodes, pos - 1)].insertionId) else None
  }

  /**
   * What a buffer that only ever edits locally keeps true of its node list:
   * every node carries this replica's `Id` with a value in `1..seqNo`, a node's
   * anchor is older than the node, and no `Id` occurs twice.
   */
  ghost predicate WellFormed(nodes: seq<Node>, replica: u16, seqNo: int) {
    (forall i :: 0 <= i < |nodes| ==>
       nodes[i].insertionId.replicaId == replica && 1 <= nodes[i].insertionId.value as int <= seqNo) &&
    (forall i :: 0 <= i < |nodes| && nodes[i].relativeToId.Some? ==>
       nodes[i].relativeToId.value.value < nodes[i].insertionId.value) &&
    (forall i, j :: 0 <= i < j < |nodes| ==> nodes[i].insertionId != nodes[j].insertionId)
  }

  /** No node is anchored to `id`. */
  ghost predicate Childless(nodes: seq<Node>, id: Id) {
    forall i :: 0 <= i < |nodes| ==> nodes[i].relativeToId != Some(id)
  }

  /** Nothing can be anchored to the newest `Id`: its children would be newer still. */
  lemma NewestChildless(nodes: seq<Node>, replica: u16, seqNo: int, id: Id)
    requires WellFormed(nodes, replica, seqNo) && id.value as int == seqNo
    ensures Childless(nodes, id)
  {
  }

  /** Sequence numbers only grow. */
  lemma WellFormedLater(nodes: seq<Node>, replica: u16, seqNo: int)
    requires WellFormed(nodes, replica, seqNo)
    ensures WellFormed(nodes, replica, seqNo + 1)
  {
  }

  /** Tombstoning keeps a list well formed. */
  lemma WellFormedHide(nodes: seq<Node>, replica: u16, seqNo: int, i: nat)
    requires i < |nodes| && WellFormed(nodes, replica, seqNo)
    ensures WellFormed(Hide(nodes, i), replica, seqNo)
  {
  }

  /** A well-formed list finds an `Id` it holds at the one index holding it. */
  lemma FindIndexOfHeld(nodes: seq<Node>, replica: u16, seqNo: int, i: nat)
    requires i < |nodes| && WellFormed(nodes, replica, seqNo)
    ensures FindIndex(nodes, nodes[i].insertionId) == Some(i)
  {
  }

  /**
   * The first character of an insert lands at the requested visible position
   * when nothing is visible and the position is 0, or when the anchor, the
   * node at position `pos - 1`, has no children yet.
   */
  ghost predicate SpliceSafe(nodes: seq<Node>, pos: nat) {
    (pos == 0 && VisibleCount(nodes) == 0) ||
    (1 <= pos <= VisibleCount(nodes) && Childless(nodes, nodes[NthVisible(nodes, pos - 1)].insertionId))
  }

  /** The node a local insert at `pos` creates with sequence number `seqNo + 1`. */
  function LocalNode(nodes: seq<Node>, replica: u16, seqNo: nat, pos: nat, c: char): (x: Node)
    requires seqNo < U32_MAX
    ensures x.insertionId == Id(replica, (seqNo + 1) as u32) && x.visible && x.text == c
    ensures x.relativeToId == AnchorFor(nodes, pos)
  {
    Node(Id(replica, (seqNo + 1) as u32), AnchorFor(nodes, pos), c, true)
  }

  /** Inserting a node newer than every node, anchored to an older one, keeps a list well formed. */
  lemma InsertWellFormed(nodes: seq<Node>, replica: u16, seqNo: nat, x: Node, k: nat)
    requires k <= |nodes| && WellFormed(nodes, replica, seqNo)
    requires x.insertionId.replicaId == replica && x.insertionId.value as int == seqNo + 1
    requires x.relativeToId.Some? ==> x.relativeToId.value.value as int <= seqNo
    ensures WellFormed(nodes[..k] + [x] + nodes[k..], replica, seqNo + 1)
  {
    var r := nodes[..k] + [x] + nodes[k..];
    forall i | 0 <= i < |r|
      ensures r[i] == if i < k then nodes[i] else if i == k then x else nodes[i - 1]
    {
    }
  }

  /** A local insert keeps the list well formed. */
  lemma LocalInsertWellFormed(nodes: seq<Node>, replica: u16, seqNo: nat, pos: nat, c: char)
    requires seqNo < U32_MAX && WellFormed(nodes, replica, seqNo)
    ensures WellFormed(Placed(nodes, LocalNode(nodes, replica, seqNo, pos, c)), replica, seqNo + 1)
  {
    var x := LocalNode(nodes, replica, seqNo, pos, c);
    if x.relativeToId.Some? {
      assert nodes[NthVisible(nodes, pos - 1)].insertionId == x.relativeToId.value;
    }
    InsertWellFormed(nodes, replica, seqNo, x, PlacementIndex(nodes, x));
  }

  /** On a splice-safe position the new node has exactly `pos` visible nodes before it. */
  lemma SpliceSafePlacement(nodes: seq<Node>, replica: u16, seqNo: nat, pos: nat, c: char)
    requires seqNo < U32_MAX && WellFormed(nodes, replica, seqNo) && SpliceSafe(nodes, pos)
    ensures VisibleCount(nodes[..PlacementIndex(nodes, LocalNode(nodes, replica, seqNo, pos, c))]) == pos
  {
    var x := LocalNode(nodes, replica, seqNo, pos, c);
    var k := PlacementIndex(nodes, x);
    if pos == 0 {
      PrefixCountMono(nodes, k, |nodes|);
      assert nodes[..|nodes|] == nodes;
    } else {
      var a := NthVisible(nodes, pos - 1);
      FindIndexOfHeld(nodes, replica, seqNo, a);
      assert AnchorStart(nodes, x.relativeToId) == a + 1;
      assert k == a + 1;
      PrefixCountStep(nodes, a);
    }
  }

  /**
   * A local insert splices its character into the rendering at some visible
   * position `v`, the new node becomes the `v`-th visible node and has no
   * children, and `v` is the requested position whenever that is splice-safe.
   */
  lemma LocalInsertRender(nodes: seq<Node>, replica: u16, seqNo: nat, pos: nat, c: char)
    requires seqNo < U32_MAX && WellFormed(nodes, replica, seqNo)
    ensures var x := LocalNode(nodes, replica, seqNo, pos, c);
            var v := VisibleCount(nodes[..PlacementIndex(nodes, x)]);
            v <= |Render(nodes)| &&
            Render(Placed(nodes, x)) == Render(nodes)[..v] + [c] + Render(nodes)[v..] &&
            v < VisibleCount(Placed(nodes, x)) &&
            NthVisible(Placed(nodes, x), v) == PlacementIndex(nodes, x) &&
            Placed(nodes, x)[PlacementIndex(nodes, x)] == x &&
            Childless(Placed(nodes, x), x.insertionId) &&
            (SpliceSafe(nodes, pos) ==> v == pos)
  {
    var x := LocalNode(nodes, replica, seqNo, pos, c);
    var k := PlacementIndex(nodes, x);
    var r := Placed(nodes, x);
    RenderInsert(nodes, x, k);
    assert r[..k] == nodes[..k];
    assert r[k] == x;
    NthVisibleUnique(r, k, VisibleCount(nodes[..k]));
    LocalInsertWellFormed(nodes, replica, seqNo, pos, c);
    NewestChildless(r, replica, seqNo + 1, x.insertionId);
    if SpliceSafe(nodes, pos) {
      SpliceSafePlacement(nodes, replica, seqNo, pos, c);
    }
  }

  /**
   * The sibling skip in action: on an empty list, a character typed at
   * position 0 and then another typed at position 0 render in typing order,
   * because the second one's larger `Id` sorts it after the first.
   */
  lemma SecondInsertAtStartLandsAfterFirst(replica: u16, c1: char, c2: char)
    ensures var x1 := LocalNode([], replica, 0, 0, c1);
            var x2 := LocalNode(Placed([], x1), replica, 1, 0, c2);
            Render(Placed(Placed([], x1), x2)) == [c1, c2]
  {
    var x1 := LocalNode([], replica, 0, 0, c1);
    var n1 := Placed([], x1);
    assert n1 == [x1];
    var x2 := LocalNode(n1, replica, 1, 0, c2);
    assert SkippedFor(n1[0], x2);
    var n2 := Placed(n1, x2);
    assert n2 == [x1, x2];
    assert n2[..1] == [x1];
    assert [x1][..0] == [];
  }

  /** The list after typing `a` at position 0 and then `b` at position 1 on an empty buffer. */
  lemma TypedAb(r: u16) returns (n: seq<Node>)
    ensures n == Placed(Placed([], LocalNode([], r, 0, 0, 'a')), LocalNode(Placed([], LocalNode([], r, 0, 0, 'a')), r, 1, 1, 'b'))
    ensures n == [Node(Id(r, 1), None, 'a', true), Node(Id(r, 2), Some(Id(r, 1)), 'b', true)]
  {
    var a := LocalNode([], r, 0, 0, 'a');
    var n1 := Placed([], a);
    assert n1 == [a];
    assert VisibleCount([a]) == 1 by { assert [a][..0] == []; }
    assert NthVisible([a], 0) == 0;
    var b := LocalNode(n1, r, 1, 1, 'b');
    assert FindIndex([a], Id(r, 1)) == Some(0);
    assert PlacementIndex([a], b) == 1;
    n := Placed(n1, b);
    assert n == [a, b];
  }

  /** Then `x` typed at position 0: it is a root sibling of `a` with a larger `Id`, so it lands after `a`. */
  lemma TypedAbThenX(r: u16, n: seq<Node>) returns (m: seq<Node>)
    requires n == [Node(Id(r, 1), None, 'a', true), Node(Id(r, 2), Some(Id(r, 1)), 'b', true)]
    ensures m == Placed(n, LocalNode(n, r, 2, 0, 'x'))
    ensures m == [n[0], Node(Id(r, 3), None, 'x', true), n[1]]
  {
    var a, b := n[0], n[1];
    var x := LocalNode(n, r, 2, 0, 'x');
    assert x == Node(Id(r, 3), None, 'x', true);
    assert SkippedFor(a, x) && !SkippedFor(b, x);
    assert PlacementIndex(n, x) == 1;
    m := Placed(n, x);
    assert m == [a, x, b];
  }

  /**
   * `InsertAt(0, "xy")` on a buffer where `ab` was typed does not render
   * `xyab`: `x` (position 0) is a root sibling sorted after `a`, and `y`
   * (position 1) is anchored to `a`, so the document reads `ayxb`.
   */
  lemma InsertAtStartOfTypedText(r: u16)
    ensures var n := Placed(Placed([], LocalNode([], r, 0, 0, 'a')), LocalNode(Placed([], LocalNode([], r, 0, 0, 'a')), r, 1, 1, 'b'));
            var m := Placed(n, LocalNode(n, r, 2, 0, 'x'));
            Render(Placed(m, LocalNode(m, r, 3, 1, 'y'))) == "ayxb"
  {
    var n := TypedAb(r);
    var m := TypedAbThenX(r, n);
    var a, x, b := m[0], m[1], m[2];
    assert m[..1] == [a];
    assert VisibleCount([a]) == 1 by { assert [a][..0] == []; }
    assert NthVisible(m, 0) == 0;
    var y := LocalNode(m, r, 3, 1, 'y');
    assert y == Node(Id(r, 4), Some(Id(r, 1)), 'y', true);
    assert FindIndex(m, Id(r, 1)) == Some(0);
    assert !SkippedFor(x, y);
    assert PlacementIndex(m, y) == 1;
    var p := Placed(m, y);
    assert p == [a, y, x, b];
    assert Render([a]) == "a" by { assert [a][..0] == []; }
    assert Render([a, y]) == "ay" by { assert [a, y][..1] == [a]; }
    assert Render([a, y, x]) == "ayx" by { assert [a, y, x][..2] == [a, y]; }
    assert p[..3] == [a, y, x];
  }

  /** A node whose anchor the list does not hold is appended. */
  lemma MissingAnchorAppends(nodes: seq<Node>, x: Node)
    requires x.relativeToId.Some? && FindIndex(nodes, x.relativeToId.value).None?
    ensures Placed(nodes, x) == nodes + [x]
  {
  }

  /** Appending a node with another `Id` does not make a missing anchor appear. */
  lemma StillMissing(nodes: seq<Node>, x: Node, a: Id)
    requires FindIndex(nodes, a).None? && x.insertionId != a
    ensures FindIndex(nodes + [x], a).None?
  {
    var n1 := nodes + [x];
    forall j | 0 <= j < |n1|
      ensures n1[j].insertionId != a
    {
      if j < |nodes| {
        assert n1[j] == nodes[j];
      }
    }
  }

  /**
   * With an anchor the list does not hold, two nodes are appended in arrival
   * order, so the result depends on which came first.
   */
  lemma MissingAnchorAppendsInArrivalOrder(nodes: seq<Node>, x: Node, y: Node)
    requires x.relativeToId == y.relativeToId && x.relativeToId.Some?
    requires FindIndex(nodes, x.relativeToId.value).None?
    requires x.relativeToId.value != x.insertionId
    ensures Placed(Placed(nodes, x), y) == nodes + [x, y]
  {
    var n1 := nodes + [x];
    MissingAnchorAppends(nodes, x);
    assert Placed(nodes, x) == n1;
    StillMissing(nodes, x, y.relativeToId.value);
    MissingAnchorAppends(n1, y);
    assert n1 + [y] == nodes + [x, y];
  }
}
