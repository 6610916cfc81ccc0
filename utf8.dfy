/**
 * Byte-level facts about UTF-8 text, as Rust's `str` sees them: a position is a
 * character boundary when it is 0, the length, or points at a byte that is not a
 * continuation byte.
 */
module Utf8 {

  import opened Ints
  import opened Wrappers

  /** A continuation byte `10xxxxxx`: 0x80 to 0xBF. */
  predicate IsContinuation(b: u8) {
    0x80 <= b < 0xC0
  }

  /** `str::is_char_boundary`: true at 0 and at the length, false past the end. */
  predicate IsCharBoundary(s: seq<u8>, i: nat) {
    i == 0 || i == |s| || (i < |s| && !IsContinuation(s[i]))
  }

  /** Number of bytes UTF-8 uses for one scalar value. */
  function EncodedLen(c: char): (n: nat)
    ensures 1 <= n <= 4
    ensures n == 1 <==> (c as int) < 0x80
  {
    if (c as int) < 0x80 then 1
    else if (c as int) < 0x800 then 2
    else if (c as int) < 0x1_0000 then 3
    else 4
  }

  /** Length in bytes of the UTF-8 encoding of a string. */
  function ByteLen(s: string): nat {
    if s == [] then 0 else EncodedLen(s[0]) + ByteLen(s[1..])
  }

  /**
   * The UTF-8 encoding of one scalar value (RFC 3629, section 3): a lead byte
   * that is never a continuation byte, followed by `EncodedLen(c) - 1`
   * continuation bytes carrying six bits each.
   */
  function EncodeChar(c: char): (bs: seq<u8>)
    ensures |bs| == EncodedLen(c)
    ensures !IsContinuation(bs[0])
    ensures forall j :: 1 <= j < |bs| ==> IsContinuation(bs[j])
  {
    var v := c as int;
    if v < 0x80 then [v as u8]
    else if v < 0x800 then [(0xC0 + v / 0x40) as u8, (0x80 + v % 0x40) as u8]
    else if v < 0x1_0000 then
      [(0xE0 + v / 0x1000) as u8, (0x80 + v / 0x40 % 0x40) as u8, (0x80 + v % 0x40) as u8]
    else
      [(0xF0 + v / 0x4_0000) as u8, (0x80 + v / 0x1000 % 0x40) as u8,
       (0x80 + v / 0x40 % 0x40) as u8, (0x80 + v % 0x40) as u8]
  }

  /** The bytes of a Rust `String` holding `s`. */
  function Encode(s: string): (bs: seq<u8>)
    ensures |bs| == ByteLen(s)
  {
    if s == [] then [] else EncodeChar(s[0]) + Encode(s[1..])
  }

  /** Encoding distributes over concatenation. */
  lemma {:induction false} EncodeAppend(a: string, b: string)
    ensures Encode(a + b) == Encode(a) + Encode(b)
  {
    if a != [] {
      assert (a + b)[0] == a[0];
      assert (a + b)[1..] == a[1..] + b;
      EncodeAppend(a[1..], b);
    } else {
      assert a + b == b;
    }
  }

  /** The bytes before and after the `k`-th character are the encodings of the two halves. */
  lemma EncodeSplit(s: string, k: nat)
    requires k <= |s|
    ensures ByteLen(s[..k]) <= |Encode(s)|
    ensures Encode(s)[..ByteLen(s[..k])] == Encode(s[..k])
    ensures Encode(s)[ByteLen(s[..k])..] == Encode(s[k..])
  {
    assert s == s[..k] + s[k..];
    EncodeAppend(s[..k], s[k..]);
  }

  /**
   * The character index whose byte offset in the encoding of `s` is `pos`, or
   * `None` when `pos` falls inside a character or past the end.
   */
  function CharIndexAt(s: string, pos: nat): (k: Option<nat>)
    ensures k.Some? ==> k.value <= |s|
  {
    if pos == 0 then Some(0)
    else if s == [] then None
    else if pos < EncodedLen(s[0]) then None
    else match CharIndexAt(s[1..], pos - EncodedLen(s[0])) {
      case None => None
      case Some(k) => Some(k + 1)
    }
  }

  /** `CharIndexAt` finds exactly the character index whose prefix is `pos` bytes long. */
  lemma {:induction false} CharIndexAtSpec(s: string, pos: nat)
    ensures CharIndexAt(s, pos).Some? ==> ByteLen(s[..CharIndexAt(s, pos).value]) == pos
    ensures forall k :: 0 <= k <= |s| && ByteLen(s[..k]) == pos ==> CharIndexAt(s, pos) == Some(k)
  {
    if pos != 0 && s != [] {
      var n := EncodedLen(s[0]);
      if pos >= n {
        CharIndexAtSpec(s[1..], pos - n);
        match CharIndexAt(s[1..], pos - n) {
          case None =>
          case Some(k) => PrefixByteLen(s, k);
        }
      }
      forall k | 0 <= k <= |s| && ByteLen(s[..k]) == pos
        ensures CharIndexAt(s, pos) == Some(k)
      {
        assert k != 0;
        PrefixByteLen(s, k - 1);
      }
    }
  }

  /** The first `k + 1` characters of `s` are its first character and `k` more. */
  lemma PrefixByteLen(s: string, k: nat)
    requires k < |s|
    ensures ByteLen(s[..k + 1]) == EncodedLen(s[0]) + ByteLen(s[1..][..k])
  {
    assert s[..k + 1][0] == s[0];
    assert s[..k + 1][1..] == s[1..][..k];
  }

  /**
   * `str::is_char_boundary` on the bytes of a `String` holds exactly at the byte
   * offsets where a character starts, or at the end.
   */
  lemma {:induction false} BoundaryIffCharStart(s: string, pos: nat)
    ensures IsCharBoundary(Encode(s), pos) <==> CharIndexAt(s, pos).Some?
  {
    if pos != 0 && s != [] {
      var n := EncodedLen(s[0]);
      var head, tail := EncodeChar(s[0]), Encode(s[1..]);
      assert Encode(s) == head + tail;
      if pos < n {
        assert Encode(s)[pos] == head[pos];
      } else {
        BoundaryIffCharStart(s[1..], pos - n);
        if pos - n < |tail| {
          assert Encode(s)[pos] == tail[pos - n];
        }
      }
    }
  }
}