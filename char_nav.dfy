/**
 * The two nested helpers of the text panel that move a byte index to the
 * previous or next character boundary of a UTF-8 string.
 */
module CharNav {

  import opened Ints
  import opened Utf8

  /** `b` is the greatest character boundary that is at most `i`. */
  predicate IsFloorBoundary(s: seq<u8>, i: nat, b: nat) {
    b <= i && IsCharBoundary(s, b) && forall j :: b < j <= i ==> !IsCharBoundary(s, j)
  }

  /** `b` is the greatest character boundary strictly below `i`. */
  predicate IsPrevBoundary(s: seq<u8>, i: nat, b: nat) {
    b < i && IsCharBoundary(s, b) && forall j :: b < j < i ==> !IsCharBoundary(s, j)
  }

  /** `b` is the least character boundary strictly above `i`. */
  predicate IsNextBoundary(s: seq<u8>, i: nat, b: nat) {
    i < b && IsCharBoundary(s, b) && forall j :: i < j < b ==> !IsCharBoundary(s, j)
  }

  /**
   * `prev_char_idx`: 0 stays 0; otherwise step back to the boundary `f` at or
   * below `idx`, then return the boundary before `f` (0 when `f` is 0). When
   * `idx` is itself a boundary this is the greatest boundary below `idx`; when
   * it is inside a character the result is the start of the character before it.
   */
  method PrevCharIdx(s: seq<u8>, idx: nat) returns (r: nat)
    ensures idx == 0 ==> r == 0
    ensures idx > 0 ==> r < idx && IsCharBoundary(s, r)
    ensures idx > 0 ==> exists f :: IsFloorBoundary(s, idx, f) &&
                                   (if f == 0 then r == 0 else IsPrevBoundary(s, f, r))
    ensures IsCharBoundary(s, idx) && idx > 0 ==> IsPrevBoundary(s, idx, r)
  {
    if idx == 0 {
      return 0;
    }
    var i: nat := idx;
    while !IsCharBoundary(s, i)
      invariant 0 <= i <= idx
      invariant forall j :: i < j <= idx ==> !IsCharBoundary(s, j)
      decreases i
    {
      i := i - 1;
    }
    assert IsFloorBoundary(s, idx, i);
    var j: nat := i;
    while true
      invariant j <= i
      invariant forall k :: j <= k < i ==> !IsCharBoundary(s, k)
      decreases j
    {
      if j == 0 {
        return 0;
      }
      j := j - 1;
      if IsCharBoundary(s, j) {
        return j;
      }
    }
  }

  /**
   * `next_char_idx`: an index at or past the end gives the length; otherwise
   * the least character boundary strictly after `idx`.
   */
  method NextCharIdx(s: seq<u8>, idx: nat) returns (r: nat)
    ensures idx >= |s| ==> r == |s|
    ensures idx < |s| ==> IsNextBoundary(s, idx, r) && r <= |s|
  {
    if idx >= |s| {
      return |s|;
    }
    var i := idx;
    i := i + 1;
    while i < |s| && !IsCharBoundary(s, i)
      invariant idx < i <= |s|
      invariant forall j :: idx < j < i ==> !IsCharBoundary(s, j)
    {
      i := i + 1;
    }
    r := if i < |s| then i else |s|;
  }
}
