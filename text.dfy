/** Text vocabulary: bytes, UTF-8 well-formedness, grapheme segmentation as an
    abstract parameter, Unicode white space and `str::trim`, and the UTF-8 length of
    a string of scalar values. */
module Text {
  import opened Seqs

  type byte = b: int | 0 <= b < 256
  type Bytes = seq<byte>

  /** The byte of `'\n'`. In UTF-8 it never occurs inside a multi-byte scalar, so
      splitting the bytes of a `str` on it is splitting the `str` on `'\n'`. */
  const NEWLINE: byte := 10

  // ---------------------------------------------------------------------------
  // UTF-8 (the well-formed byte sequences of section 3.9 of the Unicode Standard,
  // Table 3-7), as checked by `std::str::from_utf8`.

  predicate InRange(b: byte, lo: int, hi: int) { lo <= b <= hi }

  /** Length of the well-formed scalar encoding at the front of `s`, or 0 if the
      front of `s` is not one. */
  function ScalarWidth(s: Bytes): (n: nat)
    ensures n <= 4 && n <= |s|
    ensures s != [] && s[0] < 0x80 ==> n == 1
  {
    if s == [] then 0
    else if s[0] < 0x80 then 1
    else if InRange(s[0], 0xC2, 0xDF) then
      if |s| >= 2 && InRange(s[1], 0x80, 0xBF) then 2 else 0
    else if InRange(s[0], 0xE0, 0xEF) then
      var lo := if s[0] == 0xE0 then 0xA0 else 0x80;
      var hi := if s[0] == 0xED then 0x9F else 0xBF;
      if |s| >= 3 && InRange(s[1], lo, hi) && InRange(s[2], 0x80, 0xBF) then 3 else 0
    else if InRange(s[0], 0xF0, 0xF4) then
      var lo := if s[0] == 0xF0 then 0x90 else 0x80;
      var hi := if s[0] == 0xF4 then 0x8F else 0xBF;
      if |s| >= 4 && InRange(s[1], lo, hi) && InRange(s[2], 0x80, 0xBF) && InRange(s[3], 0x80, 0xBF)
      then 4 else 0
    else 0
  }

  /** `s` is a concatenation of well-formed UTF-8 scalar encodings. */
  predicate ValidUtf8(s: Bytes)
    decreases |s|
  {
    s == [] || (ScalarWidth(s) > 0 && ValidUtf8(s[ScalarWidth(s)..]))
  }

  lemma {:induction false} ValidUtf8Concat(a: Bytes, b: Bytes)
    requires ValidUtf8(a) && ValidUtf8(b)
    ensures ValidUtf8(a + b)
    decreases |a|
  {
    if a == [] {
      assert a + b == b;
    } else {
      var n := ScalarWidth(a);
      assert (a + b)[..n] == a[..n];
      assert ScalarWidth(a + b) == n by {
        assert forall i :: 0 <= i < n ==> (a + b)[i] == a[i];
      }
      assert (a + b)[n..] == a[n..] + b;
      ValidUtf8Concat(a[n..], b);
    }
  }

  /** Every byte below 0x80 is a whole scalar, so ASCII bytes are valid UTF-8. */
  lemma {:induction false} AsciiIsValidUtf8(s: Bytes)
    requires forall i :: 0 <= i < |s| ==> s[i] < 0x80
    ensures ValidUtf8(s)
    decreases |s|
  {
    if s != [] {
      AsciiIsValidUtf8(s[1..]);
    }
  }

  // ---------------------------------------------------------------------------
  // Grapheme segmentation (`UnicodeSegmentation::graphemes(s, true)`) is a foreign
  // algorithm. The model knows only what every segmentation of a string satisfies:
  // the segments are non-empty and concatenate to the string.

  ghost predicate IsSegmentation(s: Bytes, segs: seq<Bytes>)
  {
    Flatten(segs) == s && forall i :: 0 <= i < |segs| ==> segs[i] != []
  }

  ghost predicate Segments(g: Bytes -> seq<Bytes>)
  {
    forall s :: IsSegmentation(s, g(s))
  }

  /** The whole string as one segment: a segmentation, only used as the witness
      that the type `Segmenter` is inhabited. */
  function WholeSegment(s: Bytes): (r: seq<Bytes>)
    ensures IsSegmentation(s, r)
  {
    if s == [] then [] else [s]
  }

  /** A grapheme segmentation of byte strings. */
  type Segmenter = g: Bytes -> seq<Bytes> | Segments(g) witness WholeSegment

  /** The segmentation of a non-empty string has a first segment, and that segment
      is a non-empty prefix of the string. */
  lemma FirstSegment(seg: Segmenter, s: Bytes)
    requires s != []
    ensures seg(s) != []
    ensures 0 < |seg(s)[0]| <= |s| && seg(s)[0] == s[..|seg(s)[0]|]
  {
    assert IsSegmentation(s, seg(s));
    FlattenPrefix(seg(s), 1);
    assert Flatten(seg(s)[..1]) == seg(s)[0] + Flatten(seg(s)[..1][1..]);
  }

  /** The first `n` segments of `s` concatenate to a prefix of `s`. */
  lemma TakenSegmentsArePrefix(seg: Segmenter, s: Bytes, n: nat)
    ensures var p := Flatten(Take(seg(s), n)); |p| <= |s| && p == s[..|p|]
  {
    assert IsSegmentation(s, seg(s));
    var t := Take(seg(s), n);
    FlattenPrefix(seg(s), |t|);
  }

  // ---------------------------------------------------------------------------
  // Strings of Unicode scalar values (Rust `char`).

  /** Bytes of the UTF-8 encoding of one scalar value. */
  function CharWidth(c: char): nat
  {
    if c as int < 0x80 then 1
    else if c as int < 0x800 then 2
    else if c as int < 0x10000 then 3
    else 4
  }

  /** `str::len`: the byte length of the UTF-8 encoding of `s`. */
  function Utf8Length(s: string): nat
  {
    if s == [] then 0 else CharWidth(s[0]) + Utf8Length(s[1..])
  }

  predicate IsAscii(s: string)
  {
    forall i :: 0 <= i < |s| ==> s[i] as int < 0x80
  }

  /** The byte length equals the number of scalars exactly for ASCII strings and
      exceeds it otherwise. */
  lemma {:induction false} Utf8LengthCountsChars(s: string)
    ensures Utf8Length(s) >= |s|
    ensures Utf8Length(s) == |s| <==> IsAscii(s)
    decreases |s|
  {
    if s != [] {
      Utf8LengthCountsChars(s[1..]);
      if IsAscii(s) {
        assert IsAscii(s[1..]) by {
          forall i | 0 <= i < |s[1..]| ensures s[1..][i] as int < 0x80 {
            assert s[1..][i] == s[i + 1];
          }
        }
      } else if s[0] as int < 0x80 {
        assert !IsAscii(s[1..]) by {
          var i :| 0 <= i < |s| && s[i] as int >= 0x80;
          assert s[1..][i - 1] == s[i];
        }
      }
    }
  }

  /** Rust's `char::is_whitespace`: the Unicode White_Space property. */
  predicate IsWhitespace(c: char)
  {
    || ('\U{9}' <= c <= '\U{D}') || c == '\U{20}' || c == '\U{85}' || c == '\U{A0}'
    || c == '\U{1680}' || ('\U{2000}' <= c <= '\U{200A}') || c == '\U{2028}' || c == '\U{2029}'
    || c == '\U{202F}' || c == '\U{205F}' || c == '\U{3000}'
  }

  predicate AllWhitespace(s: string)
  {
    forall i :: 0 <= i < |s| ==> IsWhitespace(s[i])
  }

  /** `str::trim_start`. */
  function TrimStart(s: string): (r: string)
    ensures |r| <= |s| && r == s[|s| - |r|..]
    ensures AllWhitespace(s[..|s| - |r|])
    ensures r != [] ==> !IsWhitespace(r[0])
    decreases |s|
  {
    if s != [] && IsWhitespace(s[0]) then
      var r := TrimStart(s[1..]);
      assert s[..|s| - |r|] == [s[0]] + s[1..][..|s[1..]| - |r|];
      r
    else s
  }

  /** `str::trim_end`. */
  function TrimEnd(s: string): (r: string)
    ensures |r| <= |s| && r == s[..|r|]
    ensures AllWhitespace(s[|r|..])
    ensures r != [] ==> !IsWhitespace(r[|r| - 1])
    decreases |s|
  {
    if s != [] && IsWhitespace(s[|s| - 1]) then
      var r := TrimEnd(s[..|s| - 1]);
      assert s[|r|..] == s[..|s| - 1][|r|..] + [s[|s| - 1]];
      r
    else s
  }

  /** `str::trim`: `s` without its leading and trailing white space, the
      leading white space dropped first. */
  function Trim(s: string): (r: string)
    ensures |r| <= |s|
    ensures r != [] ==> !IsWhitespace(r[0]) && !IsWhitespace(r[|r| - 1])
    decreases |s|
  {
    if s != [] && IsWhitespace(s[0]) then Trim(s[1..]) else TrimEnd(s)
  }

  /** `trim` is `trim_end` after `trim_start`. */
  lemma {:induction false} TrimBothEnds(s: string)
    ensures Trim(s) == TrimEnd(TrimStart(s))
    decreases |s|
  {
    if s != [] && IsWhitespace(s[0]) {
      TrimBothEnds(s[1..]);
    }
  }

  lemma {:induction false} TrimStartPadded(w: string, c: string)
    requires AllWhitespace(w)
    ensures TrimStart(w + c) == TrimStart(c)
    decreases |w|
  {
    if w != [] {
      assert (w + c)[0] == w[0];
      assert (w + c)[1..] == w[1..] + c;
      TrimStartPadded(w[1..], c);
    } else {
      assert w + c == c;
    }
  }

  lemma {:induction false} TrimEndPadded(c: string, w: string)
    requires AllWhitespace(w)
    ensures TrimEnd(c + w) == TrimEnd(c)
    decreases |w|
  {
    if w != [] {
      assert (c + w)[|c + w| - 1] == w[|w| - 1];
      assert (c + w)[..|c + w| - 1] == c + w[..|w| - 1];
      TrimEndPadded(c, w[..|w| - 1]);
    } else {
      assert c + w == c;
    }
  }

  /** Trimming only removes white space: the core that is left by `TrimStart`
      ends with the same white space as the input. */
  lemma {:induction false} TrimStartKeepsTail(c: string, w: string)
    requires TrimStart(c) != [] || !AllWhitespace(c) || c == []
    ensures c == [] || AllWhitespace(c) || TrimStart(c + w) == TrimStart(c) + w
    decreases |c|
  {
    if c != [] && !AllWhitespace(c) {
      assert (c + w)[0] == c[0];
      if IsWhitespace(c[0]) {
        assert (c + w)[1..] == c[1..] + w;
        assert !AllWhitespace(c[1..]) by {
          var i :| 0 <= i < |c| && !IsWhitespace(c[i]);
          assert i > 0 && c[1..][i - 1] == c[i];
        }
        TrimStartKeepsTail(c[1..], w);
      }
    }
  }

  /** White space around a string does not change its trimmed form. */
  lemma TrimPadded(w1: string, c: string, w2: string)
    requires AllWhitespace(w1) && AllWhitespace(w2)
    ensures Trim(w1 + c + w2) == Trim(c)
  {
    if AllWhitespace(c) {
      TrimPaddedBlank(w1, c, w2);
    } else {
      TrimPaddedCore(w1, c, w2);
    }
  }

  lemma TrimPaddedBlank(w1: string, c: string, w2: string)
    requires AllWhitespace(w1) && AllWhitespace(c) && AllWhitespace(w2)
    ensures Trim(w1 + c + w2) == Trim(c) == []
  {
    var t := w1 + c + w2;
    forall i | 0 <= i < |t| ensures IsWhitespace(t[i]) {
      if i < |w1| { assert t[i] == w1[i]; }
      else if i < |w1| + |c| { assert t[i] == c[i - |w1|]; }
      else { assert t[i] == w2[i - |w1| - |c|]; }
    }
    AllWhitespaceTrimsToEmpty(t);
    AllWhitespaceTrimsToEmpty(c);
    TrimBothEnds(t);
    TrimBothEnds(c);
  }

  lemma TrimPaddedCore(w1: string, c: string, w2: string)
    requires AllWhitespace(w1) && !AllWhitespace(c) && AllWhitespace(w2)
    ensures Trim(w1 + c + w2) == Trim(c)
  {
    assert w1 + c + w2 == w1 + (c + w2);
    TrimStartPadded(w1, c + w2);
    assert TrimStart(w1 + c + w2) == TrimStart(c + w2);
    TrimStartKeepsTail(c, w2);
    assert TrimStart(c + w2) == TrimStart(c) + w2;
    TrimEndPadded(TrimStart(c), w2);
    TrimBothEnds(w1 + c + w2);
    TrimBothEnds(c);
  }

  lemma {:induction false} AllWhitespaceTrimsToEmpty(s: string)
    requires AllWhitespace(s)
    ensures TrimStart(s) == []
    decreases |s|
  {
    if s != [] {
      assert AllWhitespace(s[1..]) by {
        forall i | 0 <= i < |s[1..]| ensures IsWhitespace(s[1..][i]) { assert s[1..][i] == s[i + 1]; }
      }
      AllWhitespaceTrimsToEmpty(s[1..]);
    }
  }
}
