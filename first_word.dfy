/** `first_word`: the prefix of a string up to (not including) its first
    ASCII space.

    The string is its UTF-8 bytes; only the byte 0x20 separates words, so a
    tab or a newline is part of the word.  The result is a slice of the
    argument, so it is stated as a prefix `s[..|word|]` of `s`.
 */
module FirstWord {
  import opened Utf8

  /** The byte `b' '`. */
  const Space: byte := 0x20

  /** `e` is where the first word of `s` ends: no space comes before `e`,
      and `e` is either a space or the end of `s`. */
  predicate IsWordEnd(s: seq<byte>, e: nat) {
    e <= |s| &&
    (forall j | 0 <= j < e :: s[j] != Space) &&
    (e < |s| ==> s[e] == Space)
  }

  /** The first word of `s`, one byte at a time. */
  function FirstWord(s: seq<byte>): (r: seq<byte>)
    ensures r <= s
    ensures IsWordEnd(s, |r|)
  {
    if s == [] || s[0] == Space then []
    else [s[0]] + FirstWord(s[1..])
  }

  /** There is only one place where the first word can end. */
  lemma WordEndUnique(s: seq<byte>, e1: nat, e2: nat)
    requires IsWordEnd(s, e1) && IsWordEnd(s, e2)
    ensures e1 == e2
  {
  }

  /** Any prefix ending at the first space (or at the end) is the first word,
      and the first word is such a prefix. */
  lemma FirstWordCharacterized(s: seq<byte>, e: nat)
    requires e <= |s|
    ensures IsWordEnd(s, e) <==> FirstWord(s) == s[..e]
  {
    var w := FirstWord(s);
    if IsWordEnd(s, e) {
      WordEndUnique(s, e, |w|);
    }
    if w == s[..e] {
      assert |w| == e;
    }
  }

  /** The word is the whole string exactly when the string has no space. */
  lemma WholeStringWhenNoSpace(s: seq<byte>)
    ensures FirstWord(s) == s <==> Space !in s
  {
    var w := FirstWord(s);
    if Space in s {
      var k :| 0 <= k < |s| && s[k] == Space;
      assert |w| <= k;
    }
  }

  /** When there is a space, the word is as long as the index of the first
      space. */
  lemma EndsAtFirstSpace(s: seq<byte>, i: nat)
    requires i < |s| && s[i] == Space
    requires forall j | 0 <= j < i :: s[j] != Space
    ensures |FirstWord(s)| == i && s[|FirstWord(s)|] == Space
  {
    WordEndUnique(s, i, |FirstWord(s)|);
  }

  /** The word never contains a space. */
  lemma NoSpaceInWord(s: seq<byte>)
    ensures Space !in FirstWord(s)
  {
  }

  /** The first word of the first word is the first word itself. */
  lemma Idempotent(s: seq<byte>)
    ensures FirstWord(FirstWord(s)) == FirstWord(s)
  {
    NoSpaceInWord(s);
    WholeStringWhenNoSpace(FirstWord(s));
  }

  /** The word is empty exactly for the empty string and for a string that
      starts with a space. */
  lemma EmptyWord(s: seq<byte>)
    ensures FirstWord(s) == [] <==> (s == [] || s[0] == Space)
  {
  }

  /** The end of the word is a character boundary of a valid string, so the
      slice `&s[0..i]` does not panic and the word is itself valid UTF-8. */
  lemma WordIsStr(s: seq<byte>)
    requires ValidUtf8(s)
    ensures IsCharBoundary(s, |FirstWord(s)|)
    ensures StrSlice(s, 0, |FirstWord(s)|) == Some(FirstWord(s))
    ensures ValidUtf8(FirstWord(s))
  {
    var w := FirstWord(s);
    assert w == s[..|w|];
    BoundaryPrefixValid(s, |w|);
  }

  /** `first_word`: scan the bytes, return the slice before the first space,
      or the whole string when there is none. */
  method FirstWordOf(s: seq<byte>) returns (word: seq<byte>)
    ensures word <= s
    ensures IsWordEnd(s, |word|)
    ensures word == FirstWord(s)
    ensures StrSlice(s, 0, |word|) == Some(word)
  {
    var i := 0;
    while i < |s|
      invariant 0 <= i <= |s|
      invariant forall j | 0 <= j < i :: s[j] != Space
    {
      if s[i] == Space {
        var slice := StrSlice(s, 0, i);
        word := slice.value;
        assert word == s[..i];
        FirstWordCharacterized(s, i);
        return;
      }
      i := i + 1;
    }
    word := s;
    FirstWordCharacterized(s, |s|);
  }

  /** The bytes of `String::from("hello world")`. */
  const HelloWorldBytes: seq<byte> :=
    [0x68, 0x65, 0x6c, 0x6c, 0x6f, 0x20, 0x77, 0x6f, 0x72, 0x6c, 0x64]

  /** The bytes of "hello". */
  const HelloBytes: seq<byte> := [0x68, 0x65, 0x6c, 0x6c, 0x6f]

  /** The first word of "hello world" is "hello". */
  lemma HelloWorld()
    ensures FirstWord(HelloWorldBytes) == HelloBytes
  {
    var s := HelloWorldBytes;
    EndsAtFirstSpace(s, 5);
    FirstWordCharacterized(s, 5);
    assert s[..5] == HelloBytes;
  }

  /** The call in `main`: the first word of "hello world". */
  method HelloWorldWord() returns (word: seq<byte>)
    ensures word == HelloBytes
  {
    var s := HelloWorldBytes;
    word := FirstWordOf(s);
    assert word == FirstWord(s);
    HelloWorld();
  }
}
