/**
 * The boundary between the editor and a document backend: the user's edit
 * intents, the update handed back to the editor, the defaults every backend
 * inherits, and the string-only mock backend.
 */
module BackendApi {

  import opened Wrappers
  import opened Ints
  import opened Utf8

  /** What the user wants to do to the document. Positions are left to each backend to interpret. */
  datatype Intent =
    | InsertAt(pos: nat, text: string)
    | DeleteRange(start: nat, end: nat)
    | MoveCursor(pos: nat)
    | ReplaceAll(text: string)

  /** Another user's caret. Its RGBA colour (four `f32`) is not modelled. */
  datatype RemoteCursor = RemoteCursor(siteId: string, pos: nat)

  /** What the editor should repaint: the whole text, when it changed, and the remote carets. */
  datatype FrontendUpdate = FrontendUpdate(fullText: Option<string>, remoteCursors: seq<RemoteCursor>)

  /** `FrontendUpdate::empty`: nothing to repaint. */
  function Empty(): (u: FrontendUpdate)
    ensures u.fullText.None? && u.remoteCursors == []
  {
    FrontendUpdate(None, [])
  }

  /** The inherited `apply_remote`: ignores the bytes and asks for no repaint. */
  function DefaultApplyRemote(bytes: seq<u8>): (u: FrontendUpdate)
    ensures u.fullText.None? && u.remoteCursors == []
  {
    Empty()
  }

  /** The inherited `remote_cursors`: nobody else is shown. */
  function DefaultRemoteCursors(): (cs: seq<RemoteCursor>)
    ensures |cs| == 0
  {
    []
  }

  /**
   * The mock backend's edit of its `String`. Positions are byte offsets into
   * the UTF-8 text; `None` is the panic of `insert_str` or `replace_range` when
   * an offset is not a character boundary or the range runs backwards.
   */
  function MockEdit(text: string, intent: Intent): (r: Option<string>)
    ensures intent.ReplaceAll? ==> r == Some(intent.text)
    ensures intent.MoveCursor? ==> r == Some(text)
    ensures intent.InsertAt? ==> (r.Some? <==> IsCharBoundary(Encode(text), intent.pos))
    ensures intent.DeleteRange? ==>
              (r.Some? <==> IsCharBoundary(Encode(text), intent.start) &&
                            IsCharBoundary(Encode(text), intent.end) && intent.start <= intent.end)
  {
    match intent
    case ReplaceAll(t) => Some(t)
    case MoveCursor(_) => Some(text)
    case InsertAt(pos, t) =>
      BoundaryIffCharStart(text, pos);
      (match CharIndexAt(text, pos)
       case None => None
       case Some(k) => Some(text[..k] + t + text[k..]))
    case DeleteRange(start, end) =>
      BoundaryIffCharStart(text, start);
      BoundaryIffCharStart(text, end);
      match (CharIndexAt(text, start), CharIndexAt(text, end))
      case (Some(i), Some(j)) => if start <= end then Some(text[..i] + text[j..]) else None
      case _ => None
  }

  /** `insert_str` splices the bytes of the inserted text in at the byte offset. */
  lemma MockInsertBytes(text: string, pos: nat, t: string)
    requires MockEdit(text, InsertAt(pos, t)).Some?
    ensures pos <= |Encode(text)|
    ensures Encode(MockEdit(text, InsertAt(pos, t)).value) ==
              Encode(text)[..pos] + Encode(t) + Encode(text)[pos..]
  {
    var k := CharIndexAt(text, pos).value;
    CharIndexAtSpec(text, pos);
    EncodeSplit(text, k);
    EncodeAppend(text[..k] + t, text[k..]);
    EncodeAppend(text[..k], t);
  }

  /** `replace_range(start..end, "")` removes exactly the bytes in `[start, end)`. */
  lemma MockDeleteBytes(text: string, start: nat, end: nat)
    requires MockEdit(text, DeleteRange(start, end)).Some?
    ensures start <= end <= |Encode(text)|
    ensures Encode(MockEdit(text, DeleteRange(start, end)).value) ==
              Encode(text)[..start] + Encode(text)[end..]
  {
    var i, j := CharIndexAt(text, start).value, CharIndexAt(text, end).value;
    CharIndexAtSpec(text, start);
    CharIndexAtSpec(text, end);
    EncodeSplit(text, i);
    EncodeSplit(text, j);
    EncodeAppend(text[..i], text[j..]);
  }

  /** Every character of `s` is ASCII, so bytes and characters coincide. */
  predicate IsAscii(s: string) {
    forall i :: 0 <= i < |s| ==> (s[i] as int) < 0x80
  }

  lemma {:induction false} AsciiByteLen(s: string)
    requires IsAscii(s)
    ensures ByteLen(s) == |s|
  {
    if s != [] {
      AsciiByteLen(s[1..]);
    }
  }

  /** On ASCII text a byte offset is a character offset and every offset up to the length is a boundary. */
  lemma AsciiCharIndex(s: string, pos: nat)
    requires IsAscii(s)
    ensures CharIndexAt(s, pos) == if pos <= |s| then Some(pos) else None
  {
    CharIndexAtSpec(s, pos);
    if pos <= |s| {
      AsciiByteLen(s[..pos]);
    } else if CharIndexAt(s, pos).Some? {
      AsciiByteLen(s[..CharIndexAt(s, pos).value]);
    }
  }

  /** On ASCII text the mock backend's edits are the plain string splices. */
  lemma MockEditAscii(text: string, intent: Intent)
    requires IsAscii(text)
    ensures intent.InsertAt? ==>
              MockEdit(text, intent) ==
                if intent.pos <= |text|
                then Some(text[..intent.pos] + intent.text + text[intent.pos..]) else None
    ensures intent.DeleteRange? ==>
              MockEdit(text, intent) ==
                if intent.start <= intent.end <= |text|
                then Some(text[..intent.start] + text[intent.end..]) else None
  {
    match intent
    case InsertAt(pos, _) => AsciiCharIndex(text, pos);
    case DeleteRange(start, end) =>
      AsciiCharIndex(text, start);
      AsciiCharIndex(text, end);
    case _ =>
  }

  /** `MockBackend`: the whole document is one `String`. */
  class MockBackend {

    var text: string

    /** `MockBackend::default`: the empty document. */
    constructor Default()
      ensures text == ""
    {
      text := "";
    }

    /**
     * `apply_intent`: edits the text in place and hands the editor the whole new
     * text. `None` is the panic of `insert_str` or `replace_range`, which leaves
     * the text as it was.
     */
    method ApplyIntent(intent: Intent) returns (u: Option<FrontendUpdate>)
      modifies this
      ensures MockEdit(old(text), intent).Some? ==>
                text == MockEdit(old(text), intent).value && u == Some(FrontendUpdate(Some(text), []))
      ensures MockEdit(old(text), intent).None? ==> text == old(text) && u.None?
    {
      match intent {
        case ReplaceAll(t) =>
          text := t;
        case MoveCursor(_) =>
        case InsertAt(pos, t) =>
          var k := CharIndexAt(text, pos);
          if k.None? {
            return None;
          }
          text := text[..k.value] + t + text[k.value..];
        case DeleteRange(start, end) =>
          var i, j := CharIndexAt(text, start), CharIndexAt(text, end);
          if i.None? || j.None? || start > end {
            return None;
          }
          text := text[..i.value] + text[j.value..];
      }
      u := Some(FrontendUpdate(Some(text), []));
    }

    /** `render_text`: the current text, unchanged. */
    method RenderText() returns (s: string)
      ensures s == text
    {
      s := text;
    }
  }
}
