# Collaborative editor core, modelled in Dafny

This project models the core of a collaborative text and whiteboard editor written in
Rust. It covers the following parts:

- **The RGA-style text buffer** (`editor/src/crdt.rs`). Each character is a node. A node
  has an identifier `(replica, sequence number)`, is anchored to the node it was typed
  after, and becomes a tombstone when it is deleted. The model includes:
  - the order on identifiers and the version vector;
  - the `Buffer` object, whose node list, counter and version vector change in place;
  - the rule that places a new node;
  - the `CrdtBackend`, which breaks each edit intent into single-character local
    operations.
- **The backend boundary** (`editor/src/backend_api.rs`). This covers the edit intents, the
  update handed back to the editor, the default methods every backend inherits, and the
  `MockBackend`. The mock keeps the document as one `String` and edits it at UTF-8 byte
  offsets.
- **Pieces of the user interface** (`editor/src/ui.rs`, `editor/src/ui/ui_panels.rs`):
  - normalising the server URL to a WebSocket URL;
  - splitting outgoing messages into chunks of 14000 bytes;
  - the receiver's table of incomplete transfers and its reassembly;
  - the circular whiteboard brush;
  - the two helpers that move a byte index to the previous or next character boundary.

Modules:

- `Ints`: fixed-width integers.
- `Wrappers`: `Option`.
- `Utf8`: UTF-8 encoding and character boundaries.
- `CharNav`, `WsUrl`, `Chunking`, `Brush`: the interface pieces.
- `BackendApi`: the backend boundary.
- `CrdtNodes`: the buffer as values.
- `Crdt`: the `Global`, `Buffer` and `CrdtBackend` objects.

Where the source changes state in place, the model does too:
- `Global`, `Buffer`, `CrdtBackend`, `MockBackend` and the transfer table are classes
  whose methods modify their fields.
- The brush paints into an `array`.
- Every loop of the source is a `while` loop with invariants.

Each state-changing method states its whole new state. Where that state is the node list,
the method ties it to a function of the old state:
- a local insert gives `Placed(old, LocalNode(old, ..))` and a local delete gives
  `LocalDeleted(old, pos)`;
- the `InsertAt` arm gives `InsertRun`, the `DeleteRange` arm gives `RangeRun` (built on
  `DeleteRun`), the clearing loop of `ReplaceAll` gives `DeleteRun`, and the whole
  `ReplaceAll` arm gives `ReplaceRun`.

The rendering, the kept nodes and the counters are then proved about these lists, as
lemmas and as loop invariants.

`insert_node` appends a node whose anchor the list does not hold at the end of the list
(`editor/src/crdt.rs:160-163`). The buffer's `holdback_queue` is created empty and no code
reads it or adds to it (`editor/src/crdt.rs:65`, `editor/src/crdt.rs:75`).
- `CrdtNodes.MissingAnchorAppends` proves the append.
- `CrdtNodes.MissingAnchorAppendsInArrivalOrder` proves that two such inserts then keep
  their arrival order, not their identifier order.

## Model

| member | source | states |
|---|---|---|
| CrdtNodes.Cmp | editor/src/crdt.rs:18-23 | `Equal` exactly when both fields are equal; `Less` exactly when the sequence number is smaller, or equal with a smaller replica; `Greater` exactly in the mirrored case |
| CrdtNodes.CmpAntisymmetric | editor/src/crdt.rs:18-23 | `a < b` exactly when `b > a` |
| CrdtNodes.CmpTransitive | editor/src/crdt.rs:18-23 | the order on identifiers is transitive |
| CrdtNodes.CmpTotal | editor/src/crdt.rs:18-23 | any two identifiers are ordered one way or the other, or are equal |
| CrdtNodes.Bump | editor/src/crdt.rs:35-40 | after `update`: the replica's entry exists and is the larger of its old value (0 when absent) and the identifier's value; no entry decreases; other replicas' entries are unchanged |
| CrdtNodes.BumpIdempotent | editor/src/crdt.rs:35-40 | recording the same identifier twice is the same as recording it once |
| Crdt.Global.constructor | editor/src/crdt.rs:31-33 | a new vector is empty |
| Crdt.Global.Update | editor/src/crdt.rs:35-40 | the new map is `Bump` of the old one |
| CrdtNodes.Render | editor/src/crdt.rs:79-81 | the rendering has one character per visible node |
| CrdtNodes.VisibleCount | editor/src/crdt.rs:211 | the number of visible nodes is at most the number of nodes |
| CrdtNodes.RenderAppend | editor/src/crdt.rs:79-81 | rendering and the visible count distribute over concatenation of node lists |
| CrdtNodes.NthVisible | editor/src/crdt.rs:91-98 | the k-th visible node is visible and has exactly k visible nodes before it |
| CrdtNodes.NthVisibleUnique | editor/src/crdt.rs:91-98 | a visible node with k visible nodes before it is the k-th visible node |
| CrdtNodes.RenderAt | editor/src/crdt.rs:79-81 | the character at a visible node's visible index is that node's character |
| CrdtNodes.FindIndex | editor/src/crdt.rs:83-85 | returns the first index holding the identifier, or `None` exactly when no node holds it |
| CrdtNodes.AnchorFor | editor/src/crdt.rs:87-101 | an anchor exists exactly for positions 1 to the visible count |
| Crdt.Buffer.FindVisibleInsertionPoint | editor/src/crdt.rs:87-101 | the counting loop returns `AnchorFor(nodes, pos)`: the identifier of the pos-th visible node counting from 1, or `None` for 0 or a position past the end |
| CrdtNodes.AnchorStart | editor/src/crdt.rs:156-164 | the search starts at 0 without an anchor, right after the anchor when it is found, and at the end when it is not found |
| CrdtNodes.SkipSiblings | editor/src/crdt.rs:166-176 | steps over exactly the contiguous run of nodes with the same anchor and a smaller identifier, and stops at the first node that is not one |
| CrdtNodes.PlacementIndex | editor/src/crdt.rs:155-178 | the insertion index lies between the search start and the end, follows only smaller same-anchor siblings, precedes a node that is not one, and is the end when the anchor is missing |
| CrdtNodes.Placed | editor/src/crdt.rs:178 | the list grows by one node, and the new node sits at `PlacementIndex` |
| Crdt.Buffer.InsertNode | editor/src/crdt.rs:155-179 | the new node list is the old one with the node inserted at `PlacementIndex`; the counter and queue are unchanged |
| CrdtNodes.PlacedKeeps | editor/src/crdt.rs:178 | the nodes after the insert are exactly the old nodes plus the new one, as a multiset |
| CrdtNodes.RenderInsert | editor/src/crdt.rs:178 | inserting a visible node at index k puts its character into the rendering at the visible count of the first k nodes |
| CrdtNodes.MissingAnchorAppends | editor/src/crdt.rs:160-163 | a node whose anchor is not in the list is appended at the end |
| CrdtNodes.MissingAnchorAppendsInArrivalOrder | editor/src/crdt.rs:155-179 | two nodes sharing a missing anchor end up in arrival order, whatever their identifiers |
| CrdtNodes.SecondInsertAtStartLandsAfterFirst | editor/src/crdt.rs:166-176 | on an empty buffer, two characters typed at position 0 render in typing order, because the second has the larger identifier |
| CrdtNodes.InsertAtStartOfTypedText | editor/src/crdt.rs:197-201 | after typing `ab`, `InsertAt(0, "xy")` renders `ayxb`, not `xyab`: `x` is a root sibling sorted after `a`, and `y` is anchored to `a` |
| CrdtNodes.LocalNode | editor/src/crdt.rs:103-113 | the new node has identifier (replica, sequence + 1), is visible, carries the character and is anchored at `AnchorFor(nodes, pos)` |
| CrdtNodes.NewestChildless | editor/src/crdt.rs:103-116 | in a list built by local edits no node is anchored to the newest identifier |
| CrdtNodes.LocalInsertWellFormed | editor/src/crdt.rs:103-116 | a local insert keeps the identifiers distinct, of this replica, within the sequence range, and newer than their anchors |
| CrdtNodes.SpliceSafePlacement | editor/src/crdt.rs:155-176 | when the anchor has no children yet, or the list shows nothing and the position is 0, the new node has exactly `pos` visible nodes before it |
| CrdtNodes.LocalInsertRender | editor/src/crdt.rs:103-116 | a local insert splices its character into the rendering at some visible index v; the new node becomes the v-th visible node and has no children; v is the requested position whenever that position is splice-safe |
| Crdt.BumpNext | editor/src/crdt.rs:104-116 | recording the next local identifier moves the vector to exactly the next sequence number |
| Crdt.Buffer.constructor | editor/src/crdt.rs:69-77 | a new buffer has no nodes, sequence 0, an empty version vector and an empty holdback queue |
| Crdt.Buffer.ApplyLocalInsert | editor/src/crdt.rs:103-125 | the counter grows by one; the list becomes `Placed(old, LocalNode(..))`; the vector records the new sequence number; the returned `Op` carries the new identifier, the anchor, the character and the new vector; the buffer stays well formed |
| CrdtNodes.RenderHide | editor/src/crdt.rs:131-137 | tombstoning the k-th visible node removes exactly the k-th character of the rendering |
| CrdtNodes.Hide | editor/src/crdt.rs:134 | the list keeps its length and the chosen node becomes a tombstone |
| CrdtNodes.HideCount | editor/src/crdt.rs:131-135 | tombstoning a node lowers the visible count by one exactly when the node was visible |
| Crdt.LocalDeleted | editor/src/crdt.rs:127-140 | the list after the delete differs from the old one only in cleared `visible` flags |
| Crdt.LocalDeletedCount | editor/src/crdt.rs:127-140 | the delete lowers the visible count by one exactly when the position is below it, and otherwise keeps it |
| Crdt.DeleteTarget | editor/src/crdt.rs:129-135 | there is a target identifier exactly when the position is in range |
| Crdt.Buffer.TombstoneVisible | editor/src/crdt.rs:128-140 | the search loop tombstones the node at visible position `pos` if there is one, and returns its identifier |
| Crdt.Buffer.ApplyLocalDelete | editor/src/crdt.rs:127-153 | the list becomes `LocalDeleted(old, pos)`; the counter grows by one and the vector records it even when nothing was deleted; the `Op` targets `DeleteTarget(old, pos)` |
| Crdt.HideOnlyHides | editor/src/crdt.rs:131-135 | tombstoning keeps "only flags cleared" with respect to an earlier list |
| Crdt.CrdtBackend.constructor | editor/src/crdt.rs:187-191 | a new backend holds a fresh buffer for the replica, with no nodes, sequence 0 and an empty holdback queue |
| Crdt.InsertProgressStep | editor/src/crdt.rs:198-200 | each local insert of character i at `pos + i` keeps the insert loop's invariant |
| Crdt.CrdtBackend.InsertNext | editor/src/crdt.rs:198-200 | one iteration of the insert loop advances the counter by one, places exactly the node `LocalNode` builds for character i at `pos + i`, keeps the holdback queue and keeps the invariant |
| Crdt.InsertRunStep | editor/src/crdt.rs:198-200 | one more local insert with the next sequence number, position and character extends `InsertRun` by one character |
| Crdt.CrdtBackend.ApplyInsertAt | editor/src/crdt.rs:197-201 | the list becomes `InsertRun` of the old list; it gains one node per character and keeps all old nodes; the rendering gains exactly the characters of the text; the text is spliced in at `pos` when that position is splice-safe; the counter grows by the text length and the holdback queue is unchanged |
| Crdt.DeleteStep | editor/src/crdt.rs:203-207 | deleting at `start` once more removes one more character of the range |
| Crdt.DeleteProgressStep | editor/src/crdt.rs:205-207 | each delete at `start` keeps the delete loop's invariant |
| Crdt.CrdtBackend.DeleteNext | editor/src/crdt.rs:205-207 | one iteration of the delete loop advances the counter by one, extends `DeleteRun` by one delete at `start`, keeps the holdback queue and keeps the invariant |
| Crdt.CrdtBackend.ApplyDeleteRange | editor/src/crdt.rs:202-208 | the list becomes `RangeRun` of the old list; the rendering loses exactly the characters in `[start, end)`, clipped to its length; nodes only become tombstones; the counter grows by `end - start`; the holdback queue is unchanged |
| Crdt.ReplaceDone | editor/src/crdt.rs:209-219 | clearing every visible node and then inserting the text at 0 renders exactly the text and keeps every old node as a tombstone |
| Crdt.CrdtBackend.ClearAll | editor/src/crdt.rs:211-214 | the clearing loop leaves `DeleteRun(old, 0, visible count)`: nothing visible, nodes only tombstoned, the counter grown by the old visible length |
| Crdt.CrdtBackend.ApplyReplaceAll | editor/src/crdt.rs:209-219 | the list becomes `ReplaceRun` of the old list from the sequence number the clearing deletes reached; the rendering becomes exactly the new text; every earlier node stays as a tombstone; the counter grows by the old visible length plus the text length |
| Crdt.CrdtBackend.ApplyIntent | editor/src/crdt.rs:195-227 | per intent: the node list is `InsertRun`, `RangeRun` or `ReplaceRun` of the old list with the insert, delete and replace outcomes above; a cursor move changes nothing; the holdback queue never changes; the update always carries the full new rendering and no remote cursors |
| Crdt.CrdtBackend.RenderText | editor/src/crdt.rs:229-231 | the text is the buffer's rendering and nothing changes |
| Crdt.DeleteAgreesWithMock | editor/src/crdt.rs:202-208 | on ASCII text, deleting an in-bounds range gives the same text in the CRDT backend and in the mock backend |
| Crdt.InsertAgreesWithMock | editor/src/crdt.rs:197-201 | on ASCII text, an insert at a splice-safe position gives the same text in the CRDT backend and in the mock backend |
| BackendApi.Empty | editor/src/backend_api.rs:34-39 | the empty update asks for no text repaint and has no remote cursors |
| BackendApi.DefaultApplyRemote | editor/src/backend_api.rs:52-54 | the inherited `apply_remote` returns the empty update whatever the bytes |
| BackendApi.DefaultRemoteCursors | editor/src/backend_api.rs:60-62 | the inherited `remote_cursors` is empty |
| Utf8.BoundaryIffCharStart | editor/src/backend_api.rs:93-98 | a byte offset is a character boundary of the UTF-8 text exactly when it is the byte length of some prefix of the characters |
| BackendApi.MockEdit | editor/src/backend_api.rs:86-100 | replace-all gives the new text; a cursor move keeps the text; an insert succeeds exactly when the offset is a character boundary; a delete succeeds exactly when both offsets are boundaries and `start <= end` |
| BackendApi.MockInsertBytes | editor/src/backend_api.rs:93-95 | `insert_str` puts the inserted text's bytes in at the byte offset |
| BackendApi.MockDeleteBytes | editor/src/backend_api.rs:96-98 | `replace_range(start..end, "")` removes exactly the bytes in `[start, end)` |
| BackendApi.MockEditAscii | editor/src/backend_api.rs:86-100 | on ASCII text the mock's insert and delete are the plain character splices, defined exactly for in-bounds offsets |
| BackendApi.MockBackend.Default | editor/src/backend_api.rs:70-76 | the mock starts with the empty text |
| BackendApi.MockBackend.ApplyIntent | editor/src/backend_api.rs:84-105 | the text becomes `MockEdit(old text, intent)` and the update carries it with no remote cursors; where `MockEdit` panics, the text is unchanged and there is no update |
| BackendApi.MockBackend.RenderText | editor/src/backend_api.rs:107-109 | returns the current text |
| WsUrl.WebSocketUrl | editor/src/ui.rs:187-195 | the result always starts with `ws://` or `wss://` |
| WsUrl.WebSocketUrlCases | editor/src/ui.rs:187-195 | `ws://` and `wss://` hosts are kept, `http://` becomes `ws://`, `https://` becomes `wss://`, anything else gets `ws://` prefixed |
| WsUrl.WebSocketUrlKeepsAuthority | editor/src/ui.rs:187-195 | the part after the scheme is never altered, and the result is secure exactly when the input was `wss://` or `https://` |
| WsUrl.WebSocketUrlIdempotent | editor/src/ui.rs:187-195 | normalising an already normalised URL changes nothing |
| Chunking.ChunksCount | editor/src/ui.rs:567 | the count is the ceiling of the length over 14000: 0 for no data, otherwise the least count whose chunks cover the data |
| Chunking.ChunkAt | editor/src/ui.rs:581 | every chunk carries between 1 and 14000 bytes |
| Chunking.SplitForSend | editor/src/ui.rs:566-598 | one `Message` when the data fits one chunk; otherwise exactly `count` packets, the k-th being `Chunk(id, k, count, ChunkAt(data, k))` |
| Chunking.Filled | editor/src/ui.rs:516-522 | the number of filled slots is at most the slot count, and equals it exactly when every slot is filled |
| Chunking.Store | editor/src/ui.rs:516-520 | the slot count is unchanged; an empty slot takes the chunk and the counter grows by one; a filled slot and the counter are left alone; every other slot is unchanged |
| Chunking.StoreKeepsCounter | editor/src/ui.rs:517-519 | storing a chunk keeps the counter equal to the number of filled slots |
| Chunking.Receive | editor/src/ui.rs:512-533 | the sender always has an entry afterwards; the chunk is dropped exactly when its index is not below the slot count, and the transfer is then kept, or created with `total` empty slots; otherwise the stored transfer is `Store` of it; the transfer is removed exactly when the outcome is `Delivered`; delivery or a panic happens exactly when the counter after storing equals `total` |
| Chunking.ReceiveKeepsCounters | editor/src/ui.rs:512-533 | receiving a chunk keeps every stored counter equal to its number of filled slots |
| Chunking.ReceiveDuplicateIsIgnored | editor/src/ui.rs:516-522 | a chunk whose slot is already filled changes neither that slot nor the counter, and delivers exactly when the transfer was already complete |
| Chunking.ReceiveTouchesOneTransfer | editor/src/ui.rs:513-514 | the transfers of other senders, and the other transfers of the same sender, are untouched |
| Chunking.SplitThenJoin | editor/src/ui.rs:524 | joining every chunk of a message in index order gives the message back |
| Chunking.DeliverInAnyOrder | editor/src/ui.rs:512-533 | receiving every chunk of a split message, in any order, stores all but the last; the last one delivers exactly the original bytes and removes the transfer |
| Chunking.JoinSlots | editor/src/ui.rs:524 | succeeds exactly when every slot is filled, and then returns the payloads joined in index order |
| Chunking.JoinedAppend | editor/src/ui.rs:524 | joining two filled slot lists one after the other gives the two joined payloads one after the other |
| Chunking.TransferTable.constructor | editor/src/ui.rs:472 | the table starts empty |
| Chunking.TransferTable.ReceiveChunk | editor/src/ui.rs:512-533 | the new table and the outcome are `Receive` of the old table; consistent counters stay consistent |
| Chunking.TransferTable.ForgetSender | editor/src/ui.rs:546-548 | a disconnecting participant's transfers are dropped and nothing else changes |
| Brush.PixelIndex | editor/src/ui.rs:379 | the row-major index of an in-image pixel is in range and decodes back to its coordinates |
| Brush.PaintRow | editor/src/ui.rs:373-383 | one row of a point's brush square paints exactly the in-image, in-circle pixels of that row |
| Brush.DrawStroke | editor/src/ui.rs:361-385 | afterwards every pixel within the brush radius of some stroke point holds the stroke colour, and every other pixel keeps its old value |
| CharNav.PrevCharIdx | editor/src/ui/ui_panels.rs:189-209 | index 0 stays 0; otherwise the result is a character boundary below the index; it is the boundary before the character containing the index, and the greatest boundary below the index when the index is itself a boundary |
| CharNav.NextCharIdx | editor/src/ui/ui_panels.rs:210-221 | an index at or past the end gives the length; otherwise the result is the least character boundary above the index |

## Left out

- Networking and async code are not modelled, and neither is serialisation. This covers:
  - LiveKit rooms and the `tokio` task loop;
  - JSON encoding of packets and messages;
  - the `Message` variant's delivery;
  - the random transfer id, which `SplitForSend` takes as a parameter.
- The second broadcast path (`AppCommand::Send`, `editor/src/ui.rs:601-637`) is left out.
  It splits a message exactly like the broadcast one and differs only in its recipients.
- Access tokens, user colours, image decoding, the panels' drawing code and the automerge
  backend are not part of this model.
- `LIVEKIT_URL` is read from the environment. `WsUrl.WebSocketUrl` takes the host as an
  argument.
- Remote merge is not modelled:
  - no code path of the source integrates a remote `Op`;
  - the holdback queue is initialised and never read, so it is only carried as a field.
- `Crdt.Buffer.ApplyLocalInsert`, `Crdt.Buffer.ApplyLocalDelete` and
  `Crdt.CrdtBackend.ApplyIntent`: the 32-bit `sequence += 1` would overflow (a panic in
  debug builds, wrap-around in release builds). These members require that the counter
  stays below `u32::MAX` instead.
- `Crdt.CrdtBackend.ApplyInsertAt`: the node list is fixed exactly as `InsertRun`, but the
  position of the inserted text in the rendering is proved only when the first position is
  splice-safe. At other positions the source's placement rule can put characters elsewhere
  (`CrdtNodes.InsertAtStartOfTypedText`: `"xy"` inserted at 0 into typed `ab` renders `ayxb`), and
  the rendering clause then states only which characters are added.
- `Brush.DrawStroke`:
  - the stroke width is taken as an integer, without the `f32` to `i32` conversion;
  - coordinate arithmetic is unbounded, without `i32` overflow;
  - the colour is the four bytes given, without egui's premultiplication.
  - The `Stroke` type is not part of this model: the method takes the points, width and
    colour directly.
- `BackendApi.RemoteCursor` omits the cursor's RGBA colour (four `f32`), which no modelled
  operation reads.
- Panics of `insert_str`, `replace_range` and `unwrap` are modelled as values. These are
  `None` from `MockEdit`, `ok == false` from `JoinSlots`, and the `Panicked` outcome of
  `Receive`. In the source a panic ends the task that runs the code. For the `unwrap` at
  `editor/src/ui.rs:524` that is the networking task, so its receive loop stops. The model
  returns the value instead, keeps the transfer in the table, and goes on receiving.
- `Chunking.SplitForSend`: requires the chunk count to fit in 32 bits. The source casts the
  index and the count with `as u32` (`editor/src/ui.rs:583-584`), which truncates for a
  payload of more than `u32::MAX` chunks; that truncation is not modelled.
