/** A line of text held by the editor (src/row.rs).

    The text is kept as the UTF-8 bytes of a Rust `String`; the row also caches
    its byte length. Display goes through `Render`, which clips a byte range to
    the text and, rather than failing, yields nothing when the range would split
    a multi-byte character.

    Character boundaries and well-formed UTF-8 follow sections 3 and 4 of
    RFC 3629. */
module Row {

  type Byte = b: int | 0 <= b < 0x100

  /** `10xxxxxx`: a byte that continues a multi-byte character (RFC 3629, section 3). */
  predicate IsContinuation(b: Byte) {
    0x80 <= b < 0xC0
  }

  /** Byte offset `i` of `s` starts a character, or is one of the two ends.
      An offset past the end is not a boundary. */
  predicate IsCharBoundary(s: seq<Byte>, i: nat) {
    i == 0 || i == |s| || (i < |s| && !IsContinuation(s[i]))
  }

  /** Number of bytes in the character whose first byte is `lead`,
      or 0 when no well-formed character starts with `lead`. */
  function EncodedLength(lead: Byte): (n: nat)
    ensures n <= 4
    ensures n == 0 <==> IsContinuation(lead) || lead in {0xC0, 0xC1} || lead >= 0xF5
  {
    if lead < 0x80 then 1
    else if lead < 0xC2 then 0
    else if lead < 0xE0 then 2
    else if lead < 0xF0 then 3
    else if lead < 0xF5 then 4
    else 0
  }

  predicate InRange(b: Byte, lo: int, hi: int) {
    lo <= b <= hi
  }

  /** `c` is exactly one character in the UTF8-char syntax of RFC 3629, section 4
      (no overlong forms, no surrogates, nothing above U+10FFFF). */
  predicate IsEncodedChar(c: seq<Byte>) {
    |c| >= 1 && |c| == EncodedLength(c[0]) &&
    (forall k :: 1 <= k < |c| ==> IsContinuation(c[k])) &&
    (c[0] == 0xE0 ==> InRange(c[1], 0xA0, 0xBF)) &&
    (c[0] == 0xED ==> InRange(c[1], 0x80, 0x9F)) &&
    (c[0] == 0xF0 ==> InRange(c[1], 0x90, 0xBF)) &&
    (c[0] == 0xF4 ==> InRange(c[1], 0x80, 0x8F))
  }

  /** `s` is a concatenation of well-formed characters: what a Rust `str` holds. */
  predicate IsUtf8(s: seq<Byte>)
    decreases |s|
  {
    s == [] ||
    (var n := EncodedLength(s[0]);
     1 <= n <= |s| && IsEncodedChar(s[..n]) && IsUtf8(s[n..]))
  }

  /** The number of characters in `s`: its bytes that are not continuation bytes. */
  function CharCount(s: seq<Byte>): (n: nat)
    ensures n <= |s|
  {
    if s == [] then 0
    else (if IsContinuation(s[0]) then 0 else 1) + CharCount(s[1..])
  }

  predicate IsAscii(s: seq<Byte>) {
    forall i :: 0 <= i < |s| ==> s[i] < 0x80
  }

  /** `cmp::min` on byte offsets, as `render` uses it to clip them. The
      editor module has its own copy, since the two source files share none. */
  function Min(a: nat, b: nat): (m: nat)
    ensures m <= a && m <= b && (m == a || m == b)
  {
    if a <= b then a else b
  }

  datatype Option<T> = None | Some(value: T)

  /** `str::get(start..end)`: the sub-slice, or nothing when the range is reversed,
      runs past the end or does not fall on character boundaries. */
  function Get(s: seq<Byte>, start: nat, end: nat): Option<seq<Byte>> {
    if start <= end && IsCharBoundary(s, start) && IsCharBoundary(s, end)
    then Some(s[start..end])
    else None
  }

  class Row {
    /** The row's text (the `string` field of the Rust struct). */
    var text: seq<Byte>
    /** Cached byte length of `text`. */
    var len: nat

    /** The cache agrees with the text, and the text is a Rust string. */
    ghost predicate Valid()
      reads this
    {
      len == |text| && IsUtf8(text)
    }

    /** `Row::from(&str)`: copy the slice, then fill in the cached length. */
    constructor From(slice: seq<Byte>)
      requires IsUtf8(slice)
      ensures Valid()
      ensures text == slice && len == |slice|
    {
      text := slice;
      len := 0;
      new;
      UpdateLen();
    }

    /** Recompute the cached length from the text; the text is untouched. */
    method UpdateLen()
      modifies this`len
      ensures len == |text|
      ensures text == old(text)
    {
      len := |text|;
    }

    /** The bytes between offsets `start` and `end`, with `end` clipped to the
        text and `start` clipped to `end`; empty when either clipped offset is
        inside a character. Defined for every pair of offsets. */
    function Render(start: nat, end: nat): (r: seq<Byte>)
      reads this
      ensures var e := Min(end, |text|); var s := Min(start, e);
              r == if IsCharBoundary(text, s) && IsCharBoundary(text, e) then text[s..e] else []
      ensures |r| <= Min(end, |text|) - Min(start, Min(end, |text|)) <= |text|
      ensures start >= Min(end, |text|) ==> r == []
      ensures start == 0 && end >= |text| ==> r == text
      ensures IsUtf8(text) ==> IsUtf8(r)
    {
      var end := Min(end, |text|);
      var start := Min(start, end);
      match Get(text, start, end)
      case Some(sub) =>
        if IsUtf8(text) then SliceAtBoundaries(text, start, end); sub else sub
      case None => []
    }

    /** Byte length of the text (not its character count). */
    function Len(): (n: nat)
      reads this
      ensures Valid() ==> n == len
      ensures IsUtf8(text) ==> CharCount(text) <= n
      ensures IsUtf8(text) ==> (CharCount(text) == n <==> IsAscii(text))
    {
      if IsUtf8(text) then LenCountsBytes(text); |text| else |text|
    }

    function IsEmpty(): (b: bool)
      reads this
      ensures b <==> Len() == 0
      ensures b <==> Render(0, Len()) == []
    {
      |text| == 0
    }
  }

  /** A well-formed character has no continuation byte first and only
      continuation bytes after. */
  lemma EncodedCharShape(c: seq<Byte>)
    requires IsEncodedChar(c)
    ensures !IsContinuation(c[0])
    ensures forall k :: 1 <= k < |c| ==> IsContinuation(c[k])
  {
  }

  /** A well-formed character followed by well-formed UTF-8 is well-formed UTF-8. */
  lemma PrependChar(c: seq<Byte>, rest: seq<Byte>)
    requires IsEncodedChar(c) && IsUtf8(rest)
    ensures IsUtf8(c + rest)
  {
    var s := c + rest;
    assert s[0] == c[0];
    assert s[..|c|] == c;
    assert s[|c|..] == rest;
  }

  /** Cutting well-formed UTF-8 at a character boundary leaves well-formed UTF-8
      on both sides. */
  lemma {:induction false} SplitAtBoundary(s: seq<Byte>, i: nat)
    requires IsUtf8(s) && i <= |s| && IsCharBoundary(s, i)
    ensures IsUtf8(s[..i]) && IsUtf8(s[i..])
    decreases |s|
  {
    if i == 0 {
      assert s[..i] == [] && s[i..] == s;
    } else if i == |s| {
      assert s[..i] == s && s[i..] == [];
    } else {
      var n := EncodedLength(s[0]);
      var c, rest := s[..n], s[n..];
      assert IsEncodedChar(c) && IsUtf8(rest);
      assert n <= i by {
        EncodedCharShape(c);
        forall j | 1 <= j < n ensures IsContinuation(s[j]) { assert c[j] == s[j]; }
      }
      var k := i - n;
      assert IsCharBoundary(rest, k) by {
        if k != 0 && k != |rest| { assert rest[k] == s[i]; }
      }
      SplitAtBoundary(rest, k);
      assert s[..i] == c + rest[..k];
      PrependChar(c, rest[..k]);
      assert s[i..] == rest[k..];
    }
  }

  /** The bytes between two character boundaries are well-formed UTF-8. */
  lemma SliceAtBoundaries(s: seq<Byte>, i: nat, j: nat)
    requires IsUtf8(s) && i <= j <= |s|
    requires IsCharBoundary(s, i) && IsCharBoundary(s, j)
    ensures IsUtf8(s[i..j])
  {
    SplitAtBoundary(s, i);
    var tail := s[i..];
    var k := j - i;
    assert IsCharBoundary(tail, k) by {
      if k != 0 && k != |tail| { assert tail[k] == s[j]; }
    }
    SplitAtBoundary(tail, k);
    assert tail[..k] == s[i..j];
  }

  lemma {:induction false} CharCountAppend(a: seq<Byte>, b: seq<Byte>)
    ensures CharCount(a + b) == CharCount(a) + CharCount(b)
    decreases |a|
  {
    if a == [] {
      assert a + b == b;
    } else {
      assert (a + b)[1..] == a[1..] + b;
      CharCountAppend(a[1..], b);
    }
  }

  /** A character of `n` bytes counts as one character; it is one byte long
      exactly when it is ASCII. */
  lemma {:induction false} EncodedCharCount(c: seq<Byte>)
    requires IsEncodedChar(c)
    ensures CharCount(c) == 1
    ensures IsAscii(c) <==> |c| == 1
  {
    EncodedCharShape(c);
    assert CharCount(c) == 1 + CharCount(c[1..]);
    NoLeadsCount(c[1..]);
    if |c| > 1 {
      assert c[1] >= 0x80;
    }
  }

  lemma {:induction false} NoLeadsCount(s: seq<Byte>)
    requires forall k :: 0 <= k < |s| ==> IsContinuation(s[k])
    ensures CharCount(s) == 0
    decreases |s|
  {
    if s != [] {
      NoLeadsCount(s[1..]);
    }
  }

  /** `len()` counts bytes: well-formed UTF-8 has at most as many characters as
      bytes, and exactly as many only when all of it is ASCII. */
  lemma {:induction false} LenCountsBytes(s: seq<Byte>)
    requires IsUtf8(s)
    ensures CharCount(s) <= |s|
    ensures CharCount(s) == |s| <==> IsAscii(s)
    decreases |s|
  {
    if s != [] {
      var n := EncodedLength(s[0]);
      var c, rest := s[..n], s[n..];
      assert s == c + rest;
      CharCountAppend(c, rest);
      EncodedCharCount(c);
      LenCountsBytes(rest);
      if IsAscii(s) {
        assert IsAscii(c) by { forall k | 0 <= k < |c| ensures c[k] < 0x80 { assert c[k] == s[k]; } }
        assert IsAscii(rest) by { forall k | 0 <= k < |rest| ensures rest[k] < 0x80 { assert rest[k] == s[n + k]; } }
      }
      if CharCount(s) == |s| {
        assert IsAscii(c) && IsAscii(rest);
        forall k | 0 <= k < |s| ensures s[k] < 0x80 {
          if k < n { assert s[k] == c[k]; } else { assert s[k] == rest[k - n]; }
        }
      }
    }
  }
}
