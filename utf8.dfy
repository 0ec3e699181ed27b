/** Bytes, UTF-8 well-formedness and the byte-indexed slicing of a `str`.

    A string of the modelled program is a sequence of bytes that must be
    well-formed UTF-8 (RFC 3629, section 4).  Slicing a string by byte
    positions succeeds only when both positions are character boundaries;
    otherwise the program panics, which is modelled as `None`.
 */
module Utf8 {

  newtype byte = b: int | 0 <= b < 256

  datatype Option<T> = None | Some(value: T)

  /** A continuation ("tail") byte 10xxxxxx, which never starts a character. */
  predicate IsContinuation(b: byte) {
    0x80 <= b <= 0xBF
  }

  /** The number of bytes of the character that starts with lead byte `b`,
      or 0 when `b` cannot start a character (a tail byte, C0, C1, F5..FF). */
  function CharWidth(b: byte): (n: nat)
    ensures n == 1 <==> b < 0x80
    ensures IsContinuation(b) ==> n == 0
  {
    if b < 0x80 then 1
    else if 0xC2 <= b <= 0xDF then 2
    else if 0xE0 <= b <= 0xEF then 3
    else if 0xF0 <= b <= 0xF4 then 4
    else 0
  }

  /** The byte after a lead byte, whose range depends on the lead byte:
      this rules out overlong forms, surrogates and code points above
      U+10FFFF (the UTF8-3 and UTF8-4 rules of RFC 3629, section 4). */
  predicate SecondByteOk(lead: byte, b: byte) {
    if lead == 0xE0 then 0xA0 <= b <= 0xBF
    else if lead == 0xED then 0x80 <= b <= 0x9F
    else if lead == 0xF0 then 0x90 <= b <= 0xBF
    else if lead == 0xF4 then 0x80 <= b <= 0x8F
    else IsContinuation(b)
  }

  /** `c` is the encoding of exactly one character. */
  predicate WellFormedChar(c: seq<byte>) {
    |c| > 0 && |c| == CharWidth(c[0]) &&
    (|c| > 1 ==> SecondByteOk(c[0], c[1])) &&
    (forall k | 1 <= k < |c| :: IsContinuation(c[k]))
  }

  /** `s` is a concatenation of well-formed characters. */
  predicate ValidUtf8(s: seq<byte>)
    decreases |s|
  {
    s == [] ||
    (var n := CharWidth(s[0]);
     0 < n <= |s| && WellFormedChar(s[..n]) && ValidUtf8(s[n..]))
  }

  /** Position `i` of `s` may be used as an end of a slice: it is the start,
      the end, or a byte that is not a continuation byte (the test
      `(b as i8) >= -0x40` of the standard library). */
  predicate IsCharBoundary(s: seq<byte>, i: nat) {
    if i == 0 then true
    else if i < |s| then !IsContinuation(s[i])
    else i == |s|
  }

  /** `&s[lo..hi]`: the bytes between the two positions, or a panic (`None`)
      when the range is reversed, out of bounds or not on character
      boundaries. */
  function StrSlice(s: seq<byte>, lo: nat, hi: nat): Option<seq<byte>>
  {
    if lo <= hi <= |s| && IsCharBoundary(s, lo) && IsCharBoundary(s, hi) then Some(s[lo..hi])
    else None
  }

  /** Inside a character no position is a boundary: every byte after the lead
      byte of a well-formed character is a continuation byte. */
  lemma InsideCharIsContinuation(s: seq<byte>, i: nat)
    requires ValidUtf8(s) && s != []
    requires 0 < i < CharWidth(s[0])
    ensures i < |s| && IsContinuation(s[i])
  {
    var n := CharWidth(s[0]);
    assert WellFormedChar(s[..n]);
    assert s[..n][i] == s[i];
  }

  /** Cutting valid UTF-8 at a character boundary leaves a valid UTF-8
      prefix: a slice `&s[..i]` that does not panic is itself a `str`. */
  lemma {:induction false} BoundaryPrefixValid(s: seq<byte>, i: nat)
    requires ValidUtf8(s)
    requires i <= |s| && IsCharBoundary(s, i)
    ensures ValidUtf8(s[..i])
    decreases |s|
  {
    if i == 0 {
      assert s[..i] == [];
    } else {
      var n := CharWidth(s[0]);
      if i < n {
        InsideCharIsContinuation(s, i);
        assert false;
      }
      var rest := s[n..];
      assert IsCharBoundary(rest, i - n);
      BoundaryPrefixValid(rest, i - n);
      var p := s[..i];
      assert p[0] == s[0];
      assert p[..n] == s[..n];
      assert p[n..] == rest[..i - n];
    }
  }

  /** Cutting valid UTF-8 at a character boundary leaves a valid UTF-8
      suffix. */
  lemma {:induction false} BoundarySuffixValid(s: seq<byte>, i: nat)
    requires ValidUtf8(s)
    requires i <= |s| && IsCharBoundary(s, i)
    ensures ValidUtf8(s[i..])
    decreases |s|
  {
    if i > 0 {
      var n := CharWidth(s[0]);
      if i < n {
        InsideCharIsContinuation(s, i);
        assert false;
      }
      var rest := s[n..];
      assert IsCharBoundary(rest, i - n);
      BoundarySuffixValid(rest, i - n);
      assert s[i..] == rest[i - n..];
    }
  }

  /** A slice `&s[lo..hi]` of a `str` that does not panic is itself a `str`. */
  lemma SliceIsStr(s: seq<byte>, lo: nat, hi: nat)
    requires ValidUtf8(s) && StrSlice(s, lo, hi).Some?
    ensures ValidUtf8(StrSlice(s, lo, hi).value)
  {
    BoundarySuffixValid(s, lo);
    var tail := s[lo..];
    assert IsCharBoundary(tail, hi - lo);
    BoundaryPrefixValid(tail, hi - lo);
    assert tail[..hi - lo] == s[lo..hi];
  }
}
