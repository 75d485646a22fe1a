/** The byte piece table of src/buffer/mod.rs: an immutable `original` byte store,
    a growing `append` store, the arena of pieces over them, and a caret kept as
    (grapheme column, line, sticky column).

    Text is modelled as bytes that are valid UTF-8. Splitting a `str` on `'\n'` is
    splitting its bytes on the byte 10, which never occurs inside a multi-byte
    scalar. Grapheme segmentation is a `Segmenter` parameter. */
module PieceTable {
  import opened Seqs
  import opened Text
  import opened Arena

  /** `usize` values are below `USIZE_LIMIT`. */
  const USIZE_LIMIT: nat := 0x1_0000_0000_0000_0000

  predicate IsI64(v: int)
  {
    -0x8000_0000_0000_0000 <= v < 0x8000_0000_0000_0000
  }

  type usize = n: nat | n < USIZE_LIMIT

  /** `((u as i64) + d) as usize` without overflow checks: the two's-complement
      sum wraps around once at most. */
  function WrappingAdd(u: usize, d: int): usize
    requires IsI64(d)
  {
    var v := u + d;
    if v < 0 then v + USIZE_LIMIT else if v >= USIZE_LIMIT then v - USIZE_LIMIT else v
  }

  /** The wrapped sum is the sum modulo 2^64, and the sum itself when that is a
      `usize`. */
  lemma WrappingAddIsModular(u: usize, d: int)
    requires IsI64(d)
    ensures WrappingAdd(u, d) == (u + d) % USIZE_LIMIT
    ensures 0 <= u + d < USIZE_LIMIT ==> WrappingAdd(u, d) == u + d
  {
  }

  // ---------------------------------------------------------------------------
  // Pieces over the two stores.

  /** The store a piece reads from. */
  function Store(original: Bytes, append: Bytes, source: PieceSource): Bytes
  {
    match source
    case Original => original
    case Append => append
  }

  predicate InStore(original: Bytes, append: Bytes, p: Piece)
  {
    p.start + p.length <= |Store(original, append, p.source)|
  }

  predicate AllInStore(original: Bytes, append: Bytes, ps: seq<Piece>)
  {
    forall k :: 0 <= k < |ps| ==> InStore(original, append, ps[k])
  }

  /** `&from[piece.start..piece.start + piece.length]`. */
  function Slice(original: Bytes, append: Bytes, p: Piece): (r: Bytes)
    requires InStore(original, append, p)
    ensures |r| == p.length
  {
    Store(original, append, p.source)[p.start..p.start + p.length]
  }

  /** The text the pieces spell, in order: what `to_string` builds. */
  function Render(original: Bytes, append: Bytes, ps: seq<Piece>): Bytes
    requires AllInStore(original, append, ps)
    decreases |ps|
  {
    if ps == [] then [] else Slice(original, append, ps[0]) + Render(original, append, ps[1..])
  }

  /** Total length of the pieces. */
  function TotalLength(ps: seq<Piece>): nat
    decreases |ps|
  {
    if ps == [] then 0 else ps[0].length + TotalLength(ps[1..])
  }

  /** Rendering distributes over concatenation of piece lists. */
  lemma {:induction false} RenderConcat(original: Bytes, append: Bytes, a: seq<Piece>, b: seq<Piece>)
    requires AllInStore(original, append, a) && AllInStore(original, append, b)
    ensures AllInStore(original, append, a + b)
    ensures Render(original, append, a + b) == Render(original, append, a) + Render(original, append, b)
    decreases |a|
  {
    assert AllInStore(original, append, a + b) by {
      forall k | 0 <= k < |a + b| ensures InStore(original, append, (a + b)[k]) {
        if k < |a| { assert (a + b)[k] == a[k]; } else { assert (a + b)[k] == b[k - |a|]; }
      }
    }
    if a != [] {
      assert (a + b)[1..] == a[1..] + b;
      assert AllInStore(original, append, a[1..]) by {
        forall k | 0 <= k < |a[1..]| ensures InStore(original, append, a[1..][k]) { assert a[1..][k] == a[k + 1]; }
      }
      RenderConcat(original, append, a[1..], b);
    } else {
      assert a + b == b;
    }
  }

  lemma RenderSnoc(original: Bytes, append: Bytes, ps: seq<Piece>, p: Piece)
    requires AllInStore(original, append, ps) && InStore(original, append, p)
    ensures AllInStore(original, append, ps + [p])
    ensures Render(original, append, ps + [p]) == Render(original, append, ps) + Slice(original, append, p)
  {
    RenderConcat(original, append, ps, [p]);
    assert Render(original, append, [p]) == Slice(original, append, p) + Render(original, append, [p][1..]);
  }

  /** The text of one more piece of a list. */
  lemma RenderStep(original: Bytes, append: Bytes, ps: seq<Piece>, j: nat)
    requires AllInStore(original, append, ps) && j < |ps|
    ensures AllInStore(original, append, ps[..j]) && AllInStore(original, append, ps[..j + 1])
    ensures Render(original, append, ps[..j + 1]) == Render(original, append, ps[..j]) + Slice(original, append, ps[j])
  {
    AllInStoreRange(original, append, ps, 0, j);
    assert ps[..j + 1] == ps[..j] + [ps[j]];
    RenderSnoc(original, append, ps[..j], ps[j]);
  }

  /** The byte length of the text is the sum of the piece lengths. */
  lemma {:induction false} RenderLength(original: Bytes, append: Bytes, ps: seq<Piece>)
    requires AllInStore(original, append, ps)
    ensures |Render(original, append, ps)| == TotalLength(ps)
    decreases |ps|
  {
    if ps != [] {
      assert AllInStore(original, append, ps[1..]) by {
        forall k | 0 <= k < |ps[1..]| ensures InStore(original, append, ps[1..][k]) { assert ps[1..][k] == ps[k + 1]; }
      }
      RenderLength(original, append, ps[1..]);
    }
  }

  lemma TotalLengthConcat(a: seq<Piece>, b: seq<Piece>)
    ensures TotalLength(a + b) == TotalLength(a) + TotalLength(b)
    decreases |a|
  {
    if a == [] {
      assert a + b == b;
    } else {
      assert (a + b)[1..] == a[1..] + b;
      TotalLengthConcat(a[1..], b);
    }
  }

  predicate SlicesAreUtf8(original: Bytes, append: Bytes, ps: seq<Piece>)
    requires AllInStore(original, append, ps)
  {
    forall k :: 0 <= k < |ps| ==> ValidUtf8(Slice(original, append, ps[k]))
  }

  /** When every slice is a `str`, so is the text. */
  lemma {:induction false} RenderIsUtf8(original: Bytes, append: Bytes, ps: seq<Piece>)
    requires AllInStore(original, append, ps) && SlicesAreUtf8(original, append, ps)
    ensures ValidUtf8(Render(original, append, ps))
    decreases |ps|
  {
    if ps != [] {
      assert AllInStore(original, append, ps[1..]) && SlicesAreUtf8(original, append, ps[1..]) by {
        forall k | 0 <= k < |ps[1..]|
          ensures InStore(original, append, ps[1..][k]) && ValidUtf8(Slice(original, append, ps[1..][k]))
        {
          assert ps[1..][k] == ps[k + 1];
        }
      }
      RenderIsUtf8(original, append, ps[1..]);
      assert ValidUtf8(Slice(original, append, ps[0]));
      ValidUtf8Concat(Slice(original, append, ps[0]), Render(original, append, ps[1..]));
    }
  }

  // ---------------------------------------------------------------------------
  // Lines and the caret.

  /** `split('\n')`: the lines of a text; a text always has at least one line. */
  function Lines(text: Bytes): (r: seq<Bytes>)
    ensures |r| >= 1
  {
    Split(text, NEWLINE)
  }

  /** `.split('\n').nth(y).map(graphemes count).unwrap_or(0)`. */
  function LineGraphemes(seg: Segmenter, text: Bytes, y: nat): nat
  {
    var lines := Lines(text);
    if y < |lines| then |seg(lines[y])| else 0
  }

  /** The caret: grapheme column `x`, line `y` and the remembered column `sticky`
      (`reminder_cursor_x`). */
  datatype Caret = Caret(x: usize, y: usize, sticky: usize)

  /** The column update of `move_cursor_horizontal` on a line of `lineLength`
      graphemes. */
  function HorizontalMove(c: Caret, dx: int, lineLength: nat): (r: Caret)
    requires IsI64(dx)
    ensures r.y == c.y
    ensures r != c ==> r.sticky == r.x
    ensures r.x != c.x ==> (dx < 0 ==> 0 < c.x) && (dx > 0 ==> c.x + 1 < lineLength)
    ensures dx == 0 ==> r.x == c.x
  {
    var beyondFirst := dx < 0 && c.x == 0;
    var beyondLast := dx > 0 && c.x + 1 >= lineLength;
    if !beyondFirst && !beyondLast then
      var x := WrappingAdd(c.x, dx);
      c.(x := x, sticky := x)
    else c
  }

  /** A one-step horizontal move goes exactly one column left or right unless it
      would leave the line, in which case nothing changes; a move right never
      reaches the grapheme count of the line; a move updates the sticky column. */
  lemma HorizontalMoveStep(c: Caret, dx: int, lineLength: nat)
    requires dx == 1 || dx == -1
    requires lineLength < USIZE_LIMIT
    ensures var r := HorizontalMove(c, dx, lineLength);
      var blocked := (dx < 0 && c.x == 0) || (dx > 0 && c.x + 1 >= lineLength);
      && r.y == c.y
      && (blocked <==> r == c)
      && (!blocked ==> r.x == c.x + dx && r.sticky == r.x)
      && (dx > 0 && !blocked ==> r.x < lineLength)
      && (c.x < lineLength ==> r.x < lineLength)
  {
  }

  /** The line reached by `move_cursor_vertical`: one step up or down unless that
      would leave the text. */
  function VerticalTarget(y: usize, dy: int, lineCount: nat): (r: usize)
    requires IsI64(dy)
    ensures r != y ==> (dy < 0 ==> 0 < y) && (dy > 0 ==> y + 1 < lineCount)
    ensures dy == 0 ==> r == y
  {
    var beyondFirst := dy < 0 && y == 0;
    var beyondLast := dy > 0 && y + 1 >= lineCount;
    if !beyondFirst && !beyondLast then WrappingAdd(y, dy) else y
  }

  /** The column on a line of `lineLength` graphemes for the sticky column. */
  function Column(sticky: usize, lineLength: nat): (r: usize)
    ensures r <= sticky
    ensures lineLength > 0 ==> r < lineLength
  {
    if lineLength == 0 then 0 else if sticky < lineLength - 1 then sticky else lineLength - 1
  }

  /** The column is the sticky column clamped to the last grapheme, or 0 on an
      empty line. */
  lemma ColumnClamps(sticky: usize, lineLength: nat)
    ensures var x := Column(sticky, lineLength);
      && (lineLength == 0 ==> x == 0)
      && (lineLength > 0 ==> x < lineLength)
      && x <= sticky
      && (sticky < lineLength ==> x == sticky)
      && (lineLength > 0 && sticky >= lineLength ==> x == lineLength - 1)
  {
  }

  /** `move_cursor_vertical`: the new line, the clamped column, the same sticky
      column. `buffer_lines[self.cursor_y]` panics unless the target is a line. */
  function VerticalMove(c: Caret, dy: int, lines: seq<Bytes>, seg: Segmenter): (r: Caret)
    requires IsI64(dy) && VerticalTarget(c.y, dy, |lines|) < |lines|
    ensures r.y < |lines| && r.sticky == c.sticky && r.x <= c.sticky
    ensures |seg(lines[r.y])| > 0 ==> r.x < |seg(lines[r.y])|
  {
    var y := VerticalTarget(c.y, dy, |lines|);
    Caret(Column(c.sticky, |seg(lines[y])|), y, c.sticky)
  }

  /** A one-step vertical move from a line of the text stays on a line of the
      text, goes exactly one line unless blocked, and keeps the sticky column. */
  lemma VerticalMoveStep(c: Caret, dy: int, lines: seq<Bytes>, seg: Segmenter)
    requires dy == 1 || dy == -1
    requires c.y < |lines| <= USIZE_LIMIT
    ensures VerticalTarget(c.y, dy, |lines|) < |lines|
    ensures var r := VerticalMove(c, dy, lines, seg);
      var blocked := (dy < 0 && c.y == 0) || (dy > 0 && c.y + 1 >= |lines|);
      && (blocked <==> r.y == c.y)
      && (!blocked ==> r.y == c.y + dy)
      && r.sticky == c.sticky
      && r.x == Column(c.sticky, |seg(lines[r.y])|)
  {
  }

  // ---------------------------------------------------------------------------
  // `cursor_position_in_buffer`.

  /** Each of the first `n` lines with its newline. */
  function LinesWithBreaks(lines: seq<Bytes>, n: nat): (r: seq<Bytes>)
    requires n <= |lines|
    ensures |r| == n && forall i :: 0 <= i < n ==> r[i] == lines[i] + [NEWLINE]
  {
    seq(n, i requires 0 <= i < n => lines[i] + [NEWLINE])
  }

  /** The byte offset of grapheme column `cx` of line `cy`: the lines before it
      with one byte each for their newlines, then the bytes of the first `cx`
      graphemes of the line. The line must exist (`buffer_lines[self.cursor_y]`). */
  function CursorOffset(text: Bytes, seg: Segmenter, cx: nat, cy: nat): (r: nat)
    requires cy < |Lines(text)|
    ensures cx == 0 && cy == 0 ==> r == 0
  {
    var lines := Take(Lines(text), cy + 1);
    Sum(Lengths(LinesWithBreaks(lines, cy))) + Sum(Lengths(Take(seg(lines[cy]), cx)))
  }

  /** Splitting and joining: the text starts with the first `n` lines, each
      followed by its newline, and then line `n`. */
  lemma {:induction false} LinesPrefix(parts: seq<Bytes>, n: nat)
    requires n < |parts|
    ensures var before := Flatten(LinesWithBreaks(parts, n));
      var j := Join(parts, NEWLINE);
      |before| + |parts[n]| <= |j| && j[..|before| + |parts[n]|] == before + parts[n]
    decreases n
  {
    var j := Join(parts, NEWLINE);
    if n == 0 {
      assert Flatten(LinesWithBreaks(parts, 0)) == [];
      if |parts| == 1 { assert j == parts[0]; }
      else { assert j == parts[0] + [NEWLINE] + Join(parts[1..], NEWLINE); }
    } else {
      var rest := parts[1..];
      LinesPrefix(rest, n - 1);
      assert j == parts[0] + [NEWLINE] + Join(rest, NEWLINE);
      var lw := LinesWithBreaks(parts, n);
      assert lw == [parts[0] + [NEWLINE]] + LinesWithBreaks(rest, n - 1);
      assert lw[1..] == LinesWithBreaks(rest, n - 1);
      assert Flatten(lw) == parts[0] + [NEWLINE] + Flatten(LinesWithBreaks(rest, n - 1));
      assert rest[n - 1] == parts[n];
    }
  }

  /** The offset lands where the text spells the lines before the caret's line,
      each with its newline, followed by the caret's first `cx` graphemes; so it
      never exceeds the length of the text. */
  lemma CursorOffsetSpellsPrefix(text: Bytes, seg: Segmenter, cx: nat, cy: nat)
    requires cy < |Lines(text)|
    ensures var r := CursorOffset(text, seg, cx, cy);
      var lines := Lines(text);
      && r <= |text|
      && text[..r] == Flatten(LinesWithBreaks(lines, cy)) + Flatten(Take(seg(lines[cy]), cx))
  {
    var lines := Lines(text);
    var taken := Take(lines, cy + 1);
    assert taken[cy] == lines[cy];
    assert LinesWithBreaks(taken, cy) == LinesWithBreaks(lines, cy);
    var before := Flatten(LinesWithBreaks(lines, cy));
    var inLine := Flatten(Take(seg(lines[cy]), cx));
    FlattenLength(LinesWithBreaks(lines, cy));
    FlattenLength(Take(seg(lines[cy]), cx));
    JoinSplit(text, NEWLINE);
    LinesPrefix(lines, cy);
    TakenSegmentsArePrefix(seg, lines[cy], cx);
    var n := |before| + |lines[cy]|;
    assert text[..n] == before + lines[cy];
    assert text[..|before| + |inLine|] == (before + lines[cy])[..|before| + |inLine|];
  }

  // ---------------------------------------------------------------------------
  // The fragment arithmetic of the commented `remove`.

  /** What is left of a piece when the grapheme of `len` bytes at render position
      `position` is cut out of it: the piece starts at render position
      `startInRender`, and `remove_offset` is `position - startInRender`. */
  datatype Fragments = Fragments(before: Option<Piece>, after: Option<Piece>)

  /** `f` is a non-empty part of `piece`, over the same store. */
  predicate PartOf(f: Piece, piece: Piece)
  {
    && f.source == piece.source && 0 < f.length
    && piece.start <= f.start && f.start + f.length <= piece.start + piece.length
  }

  /** The two `cursor.insert_before` calls of `remove`. The loop only stops at a
      piece with `startInRender <= position < startInRender + length`, and the
      length subtraction underflows unless the grapheme ends inside the piece. */
  function RemoveFragments(piece: Piece, startInRender: nat, position: nat, len: nat): (r: Fragments)
    requires startInRender <= position < startInRender + piece.length
    requires position + len <= startInRender + piece.length
    ensures r.before.Some? ==> PartOf(r.before.value, piece)
    ensures r.after.Some? ==> PartOf(r.after.value, piece)
  {
    var removeOffset := position - startInRender;
    var endInRender := startInRender + piece.length;
    Fragments(
      if position != startInRender then Some(Piece(piece.start, removeOffset, piece.source)) else None,
      if position != endInRender - len
      then Some(Piece(piece.start + removeOffset + len, piece.length - removeOffset - len, piece.source))
      else None)
  }

  function OptionList(p: Option<Piece>): seq<Piece>
  {
    if p.Some? then [p.value] else []
  }

  /** The pieces that replace the one cut. */
  function FragmentList(f: Fragments): seq<Piece>
  {
    OptionList(f.before) + OptionList(f.after)
  }

  /** The last fragment made: the after fragment when there is one. */
  lemma LastFragment(f: Fragments)
    ensures var fl := FragmentList(f);
      && (fl != [] <==> f.before.Some? || f.after.Some?)
      && (f.after.Some? ==> fl[|fl| - 1] == f.after.value)
      && (f.after.None? && f.before.Some? ==> fl == [f.before.value])
  {
  }

  /** The fragments and the grapheme partition the piece: the before fragment is
      the bytes up to the grapheme, the after fragment the bytes after it, both
      from the piece's store; each is emitted exactly when it is not empty. */
  lemma FragmentsPartition(piece: Piece, startInRender: nat, position: nat, len: nat)
    requires startInRender <= position < startInRender + piece.length
    requires position + len <= startInRender + piece.length
    ensures var f := RemoveFragments(piece, startInRender, position, len);
      var off := position - startInRender;
      && (f.before.Some? <==> off > 0)
      && (f.before.Some? ==> f.before.value == Piece(piece.start, off, piece.source))
      && (f.after.Some? <==> off + len < piece.length)
      && (f.after.Some? ==> f.after.value == Piece(piece.start + off + len, piece.length - off - len, piece.source))
      && TotalLength(FragmentList(f)) + len == piece.length
  {
    var f := RemoveFragments(piece, startInRender, position, len);
    var fl := FragmentList(f);
    if f.before.Some? && f.after.Some? {
      assert fl == [f.before.value, f.after.value];
      assert TotalLength(fl) == f.before.value.length + TotalLength([f.after.value]);
      assert TotalLength([f.after.value]) == f.after.value.length + TotalLength([]);
    } else if f.before.Some? {
      assert fl == [f.before.value];
      assert TotalLength(fl) == f.before.value.length + TotalLength([]);
    } else if f.after.Some? {
      assert fl == [f.after.value];
      assert TotalLength(fl) == f.after.value.length + TotalLength([]);
    } else {
      assert fl == [];
    }
  }

  /** Over the piece's store the fragments spell the piece's bytes with the
      grapheme's bytes cut out. */
  lemma FragmentsSpellCut(original: Bytes, append: Bytes, piece: Piece, startInRender: nat, position: nat, len: nat)
    requires InStore(original, append, piece)
    requires startInRender <= position < startInRender + piece.length
    requires position + len <= startInRender + piece.length
    ensures var fl := FragmentList(RemoveFragments(piece, startInRender, position, len));
      var off := position - startInRender;
      var s := Slice(original, append, piece);
      && AllInStore(original, append, fl)
      && Render(original, append, fl) == s[..off] + s[off + len..]
  {
    var f := RemoveFragments(piece, startInRender, position, len);
    var fl := FragmentList(f);
    var off := position - startInRender;
    var st := Store(original, append, piece.source);
    var s := Slice(original, append, piece);
    FragmentsPartition(piece, startInRender, position, len);
    assert s[..off] == st[piece.start..piece.start + off];
    assert s[off + len..] == st[piece.start + off + len..piece.start + piece.length];
    var b, a := s[..off], s[off + len..];
    if f.before.Some? {
      assert Slice(original, append, f.before.value) == b;
    } else {
      assert b == [];
    }
    if f.after.Some? {
      assert Slice(original, append, f.after.value) == a;
    } else {
      assert a == [];
    }
    if f.before.Some? && f.after.Some? {
      RenderPair(original, append, f.before.value, f.after.value);
      assert Render(original, append, fl) == b + a;
    } else if f.before.Some? {
      assert fl == [f.before.value];
      RenderOne(original, append, f.before.value);
      assert b + a == b;
    } else if f.after.Some? {
      assert fl == [f.after.value];
      RenderOne(original, append, f.after.value);
      assert b + a == a;
    } else {
      assert fl == [] && b + a == [];
    }
  }

  lemma RenderOne(original: Bytes, append: Bytes, p: Piece)
    requires InStore(original, append, p)
    ensures AllInStore(original, append, [p])
    ensures Render(original, append, [p]) == Slice(original, append, p)
  {
    assert Render(original, append, [p]) == Slice(original, append, p) + Render(original, append, [p][1..]);
  }

  lemma RenderPair(original: Bytes, append: Bytes, p: Piece, q: Piece)
    requires InStore(original, append, p) && InStore(original, append, q)
    ensures AllInStore(original, append, [p, q])
    ensures Render(original, append, [p, q]) == Slice(original, append, p) + Slice(original, append, q)
  {
    assert [p, q][1..] == [q];
    RenderOne(original, append, q);
    assert Render(original, append, [p, q]) == Slice(original, append, p) + Render(original, append, [q]);
  }

  // ---------------------------------------------------------------------------
  // Finding the piece under a render position.

  /** The scan of `remove`: from piece `j`, which starts at render position
      `startInRender`, skip the pieces that end at or before `position`; the result
      is the index of the piece holding `position` (or the number of pieces) and
      the render position where it starts. */
  function Locate(ps: seq<Piece>, position: nat, j: nat, startInRender: nat): (r: (nat, nat))
    requires j <= |ps| && startInRender <= position
    ensures j <= r.0 <= |ps| && startInRender <= r.1 <= position
    ensures r.0 < |ps| ==> position < r.1 + ps[r.0].length
    decreases |ps| - j
  {
    if j == |ps| then (j, startInRender)
    else if position >= startInRender + ps[j].length then Locate(ps, position, j + 1, startInRender + ps[j].length)
    else (j, startInRender)
  }

  /** The scan steps over a piece that ends at or before `position`. */
  lemma LocateSkip(ps: seq<Piece>, position: nat, j: nat, startInRender: nat, endInRender: nat)
    requires j < |ps| && endInRender == startInRender + ps[j].length <= position
    ensures Locate(ps, position, j, startInRender) == Locate(ps, position, j + 1, endInRender)
  {
  }

  lemma TotalLengthPrefix(ps: seq<Piece>, j: nat)
    requires j < |ps|
    ensures TotalLength(ps[..j + 1]) == TotalLength(ps[..j]) + ps[j].length
  {
    assert ps[..j + 1] == ps[..j] + [ps[j]];
    TotalLengthConcat(ps[..j], [ps[j]]);
    assert TotalLength([ps[j]]) == ps[j].length + TotalLength([]);
  }

  /** The piece found starts after exactly the pieces before it, and a piece is
      found exactly when the position lies inside the text. */
  lemma {:induction false} LocateFinds(ps: seq<Piece>, position: nat, j: nat, startInRender: nat)
    requires j <= |ps| && startInRender <= position
    requires startInRender == TotalLength(ps[..j])
    ensures var r := Locate(ps, position, j, startInRender);
      && r.1 == TotalLength(ps[..r.0])
      && (r.0 < |ps| <==> position < TotalLength(ps))
    decreases |ps| - j
  {
    var r := Locate(ps, position, j, startInRender);
    if j == |ps| {
      assert ps[..j] == ps;
    } else {
      TotalLengthPrefix(ps, j);
      if position >= startInRender + ps[j].length {
        LocateFinds(ps, position, j + 1, startInRender + ps[j].length);
      } else {
        assert ps == ps[..j + 1] + ps[j + 1..];
        TotalLengthConcat(ps[..j + 1], ps[j + 1..]);
      }
    }
  }

  lemma AllInStoreRange(original: Bytes, append: Bytes, ps: seq<Piece>, i: nat, j: nat)
    requires AllInStore(original, append, ps) && i <= j <= |ps|
    ensures AllInStore(original, append, ps[i..j])
  {
    forall n | 0 <= n < j - i ensures InStore(original, append, ps[i..j][n]) { assert ps[i..j][n] == ps[i + n]; }
  }

  /** The text is the text before piece `k`, its slice and the text after it. */
  lemma RenderAround(original: Bytes, append: Bytes, ps: seq<Piece>, k: nat)
    requires AllInStore(original, append, ps) && k < |ps|
    ensures AllInStore(original, append, ps[..k]) && AllInStore(original, append, ps[k + 1..])
    ensures Render(original, append, ps)
      == Render(original, append, ps[..k]) + Slice(original, append, ps[k]) + Render(original, append, ps[k + 1..])
  {
    AllInStoreRange(original, append, ps, 0, k);
    AllInStoreRange(original, append, ps, k + 1, |ps|);
    assert ps[k + 1..|ps|] == ps[k + 1..];
    RenderOne(original, append, ps[k]);
    RenderConcat(original, append, ps[..k], [ps[k]]);
    RenderConcat(original, append, ps[..k] + [ps[k]], ps[k + 1..]);
    SplitAt(ps, k);
  }

  /** Replacing piece `k` by `fl` replaces its slice by the text of `fl`. */
  lemma RenderReplace(original: Bytes, append: Bytes, ps: seq<Piece>, k: nat, fl: seq<Piece>)
    requires AllInStore(original, append, ps) && AllInStore(original, append, fl) && k < |ps|
    ensures AllInStore(original, append, ps[..k] + fl + ps[k + 1..])
    ensures Render(original, append, ps[..k] + fl + ps[k + 1..])
      == Render(original, append, ps[..k]) + Render(original, append, fl) + Render(original, append, ps[k + 1..])
  {
    AllInStoreRange(original, append, ps, 0, k);
    AllInStoreRange(original, append, ps, k + 1, |ps|);
    assert ps[k + 1..|ps|] == ps[k + 1..];
    RenderConcat(original, append, ps[..k], fl);
    RenderConcat(original, append, ps[..k] + fl, ps[k + 1..]);
  }

  /** On bytes: replacing `piece` between `rb` and `ra` by `piece` with `len` bytes
      cut at `off` cuts those bytes out of the whole. */
  lemma CutBytes(rb: Bytes, piece: Bytes, ra: Bytes, text: Bytes, mid: Bytes, after: Bytes, off: nat, len: nat, at: nat)
    requires off + len <= |piece| && at == |rb| + off
    requires text == rb + piece + ra && mid == piece[..off] + piece[off + len..] && after == rb + mid + ra
    ensures at + len <= |text|
    ensures after == text[..at] + text[at + len..]
  {
    assert text[..|rb| + off] == rb + piece[..off];
    assert text[|rb| + off + len..] == piece[off + len..] + ra;
  }

  /** Cutting `len` bytes at render offset `position` out of piece `k`, which starts
      at render offset `s`, cuts them out of the text. */
  lemma CutText(original: Bytes, append: Bytes, ps: seq<Piece>, k: nat, s: nat, position: nat, len: nat)
    requires AllInStore(original, append, ps)
    requires k < |ps| && s == TotalLength(ps[..k])
    requires s <= position && 0 < len && position + len <= s + ps[k].length
    ensures var fl := FragmentList(RemoveFragments(ps[k], s, position, len));
      var text := Render(original, append, ps);
      && AllInStore(original, append, ps[..k] + fl + ps[k + 1..])
      && position + len <= |text|
      && Render(original, append, ps[..k] + fl + ps[k + 1..]) == text[..position] + text[position + len..]
  {
    var fl := FragmentList(RemoveFragments(ps[k], s, position, len));
    FragmentsSpellCut(original, append, ps[k], s, position, len);
    RenderAround(original, append, ps, k);
    RenderReplace(original, append, ps, k, fl);
    RenderLength(original, append, ps[..k]);
    CutBytes(Render(original, append, ps[..k]), Slice(original, append, ps[k]), Render(original, append, ps[k + 1..]),
             Render(original, append, ps), Render(original, append, fl), Render(original, append, ps[..k] + fl + ps[k + 1..]),
             position - s, len, position);
  }

  /** The byte length of the first grapheme of `from[a..]`. */
  function GraphemeLength(seg: Segmenter, from: Bytes, a: nat): (n: nat)
    requires a < |from|
    ensures 0 < n <= |from| - a
  {
    FirstSegment(seg, from[a..]);
    |seg(from[a..])[0]|
  }

  /** Inserting `left` and then `right` at position `k` inserts `left + right`. */
  lemma InsertTwice<T>(ps: seq<T>, k: nat, left: seq<T>, right: seq<T>, middle: seq<T>, final: seq<T>)
    requires k <= |ps|
    requires middle == ps[..k] + left + ps[k..]
    requires final == middle[..k + |left|] + right + middle[k + |left|..]
    ensures final == ps[..k] + (left + right) + ps[k..]
  {
    assert middle[..k + |left|] == ps[..k] + left && middle[k + |left|..] == ps[k..];
  }

  /** Removing element `k` and inserting `fl` where it was replaces it by `fl`. */
  lemma SpliceAt<T>(ps: seq<T>, k: nat, fl: seq<T>, rest: seq<T>, final: seq<T>)
    requires k < |ps|
    requires rest == ps[..k] + ps[k + 1..]
    requires final == rest[..k] + fl + rest[k..]
    ensures final == ps[..k] + fl + ps[k + 1..]
  {
    assert rest[..k] == ps[..k] && rest[k..] == ps[k + 1..];
  }

  /** The number of bytes `remove` cuts at `position`: the first grapheme of the
      store of the piece holding `position`, from that byte on; nothing when no
      piece holds it. */
  function RemovedLength(seg: Segmenter, original: Bytes, append: Bytes, ps: seq<Piece>, position: nat): nat
    requires AllInStore(original, append, ps)
  {
    var (k, s) := Locate(ps, position, 0, 0);
    if k < |ps| then
      GraphemeLength(seg, Store(original, append, ps[k].source), ps[k].start + position - s)
    else 0
  }

  /** A cut of `len` bytes at `position` ends inside the piece holding `position`
      (trivially so when no piece holds it). */
  predicate CutFits(ps: seq<Piece>, position: nat, len: nat)
  {
    var (k, s) := Locate(ps, position, 0, 0);
    k < |ps| ==> position + len <= s + ps[k].length
  }

  /** `remove` is defined only when the grapheme it cuts ends inside its piece. */
  predicate RemovableAt(seg: Segmenter, original: Bytes, append: Bytes, ps: seq<Piece>, position: nat)
    requires AllInStore(original, append, ps)
  {
    CutFits(ps, position, RemovedLength(seg, original, append, ps, position))
  }

  /** The pieces after cutting `len` bytes at `position`: the piece holding
      `position` replaced by its fragments around the cut; all pieces when no piece
      holds it. `remove` cuts `RemovedLength` bytes. */
  function CutPieces(ps: seq<Piece>, position: nat, len: nat): (r: seq<Piece>)
    requires CutFits(ps, position, len)
    ensures |ps| <= |r| + 1 && |r| <= |ps| + 1
  {
    var (k, s) := Locate(ps, position, 0, 0);
    if k < |ps| then ps[..k] + FragmentList(RemoveFragments(ps[k], s, position, len)) + ps[k + 1..]
    else ps
  }

  /** The scan from the first piece finds a piece exactly for positions inside the
      text. */
  lemma LocateInText(original: Bytes, append: Bytes, ps: seq<Piece>, position: nat)
    requires AllInStore(original, append, ps)
    ensures Locate(ps, position, 0, 0).0 < |ps| <==> position < |Render(original, append, ps)|
  {
    assert ps[..0] == [];
    LocateFinds(ps, position, 0, 0);
    RenderLength(original, append, ps);
  }

  /** `remove` cuts a non-empty grapheme exactly at positions inside the text. */
  lemma RemovedLengthPositive(seg: Segmenter, original: Bytes, append: Bytes, ps: seq<Piece>, position: nat)
    requires AllInStore(original, append, ps)
    ensures RemovedLength(seg, original, append, ps, position) > 0 <==> position < |Render(original, append, ps)|
  {
    LocateInText(original, append, ps, position);
  }

  /** A non-empty cut that fits at a position inside the text cuts exactly those
      bytes out of the text. */
  lemma CutPiecesCutText(original: Bytes, append: Bytes, ps: seq<Piece>, position: nat, len: nat)
    requires AllInStore(original, append, ps) && CutFits(ps, position, len) && 0 < len
    requires position < |Render(original, append, ps)|
    ensures var text, after := Render(original, append, ps), CutPieces(ps, position, len);
      && position + len <= |text|
      && AllInStore(original, append, after)
      && Render(original, append, after) == text[..position] + text[position + len..]
  {
    var (k, s) := Locate(ps, position, 0, 0);
    LocateInText(original, append, ps, position);
    assert ps[..0] == [];
    LocateFinds(ps, position, 0, 0);
    CutText(original, append, ps, k, s, position, len);
  }

  /** At a position past the end of the text, a cut leaves the pieces alone. */
  lemma CutPiecesPastEnd(original: Bytes, append: Bytes, ps: seq<Piece>, position: nat, len: nat)
    requires AllInStore(original, append, ps) && CutFits(ps, position, len)
    requires position >= |Render(original, append, ps)|
    ensures CutPieces(ps, position, len) == ps
  {
    LocateInText(original, append, ps, position);
  }

  /** `after` is `text` with the `len` bytes at `position` cut out, when
      `position` lies inside `text` (and then `len` is positive); `text` itself
      otherwise. */
  predicate Cuts(text: Bytes, after: Bytes, position: nat, len: nat)
  {
    && (position < |text| ==> 0 < len && position + len <= |text| && after == text[..position] + text[position + len..])
    && (position >= |text| ==> after == text)
  }

  /** What the intended `remove` does to the text: at a position inside it, the
      grapheme there is non-empty and exactly its bytes leave the text; past the
      end, the text stays. */
  lemma RemoveCutsText(seg: Segmenter, original: Bytes, append: Bytes, ps: seq<Piece>, position: nat)
    requires AllInStore(original, append, ps) && RemovableAt(seg, original, append, ps, position)
    ensures var len := RemovedLength(seg, original, append, ps, position);
      && AllInStore(original, append, CutPieces(ps, position, len))
      && Cuts(Render(original, append, ps), Render(original, append, CutPieces(ps, position, len)), position, len)
  {
    var len := RemovedLength(seg, original, append, ps, position);
    var text := Render(original, append, ps);
    assert CutFits(ps, position, len);
    RemovedLengthPositive(seg, original, append, ps, position);
    if position < |text| {
      CutPiecesCutText(original, append, ps, position, len);
    } else {
      CutPiecesPastEnd(original, append, ps, position, len);
    }
  }

  /** `CutPieces` once the scan has found piece `k`, starting at `s`. */
  lemma CutPiecesAt(ps: seq<Piece>, position: nat, k: nat, s: nat, len: nat)
    requires Locate(ps, position, 0, 0) == (k, s) && k < |ps| && CutFits(ps, position, len)
    ensures CutPieces(ps, position, len) == ps[..k] + FragmentList(RemoveFragments(ps[k], s, position, len)) + ps[k + 1..]
  {
  }

  /** What `remove` does once the scan has found piece `k`, starting at `s`: it
      cuts the grapheme there, and the pieces after the cut still lie in the
      stores. */
  lemma RemovePlan(seg: Segmenter, original: Bytes, append: Bytes, ps: seq<Piece>, position: nat, k: nat, s: nat,
                    len: nat, fragments: Fragments)
    requires AllInStore(original, append, ps) && RemovableAt(seg, original, append, ps, position)
    requires Locate(ps, position, 0, 0) == (k, s) && k < |ps|
    requires s <= position < s + ps[k].length
    requires len == GraphemeLength(seg, Store(original, append, ps[k].source), ps[k].start + (position - s))
    requires fragments == RemoveFragments(ps[k], s, position, len)
    ensures len == RemovedLength(seg, original, append, ps, position)
    ensures position + len <= s + ps[k].length
    ensures CutPieces(ps, position, len) == ps[..k] + FragmentList(fragments) + ps[k + 1..]
    ensures AllInStore(original, append, CutPieces(ps, position, len))
  {
    CutPiecesAt(ps, position, k, s, len);
    LocateInText(original, append, ps, position);
    CutPiecesCutText(original, append, ps, position, len);
  }

  // ---------------------------------------------------------------------------
  // `remove` as written. Its fragments go in through the cursor's
  // `insert_before`, which replaces the piece after the cursor instead of going
  // before it (see `Arena.PieceCursor.InsertBefore`).

  /** The pieces after the fragments `fl` go in, one after the other, through the
      cursor's `insert_before` as written, at a cursor with `k` pieces before it:
      each fragment replaces piece `k`, so the last one is left there. With a
      fragment and no piece `k`, `insert_before` panics. */
  function ReplaceWithLast(ps: seq<Piece>, k: nat, fl: seq<Piece>): seq<Piece>
    requires k <= |ps| && (fl != [] ==> k < |ps|)
  {
    if fl == [] then ps else ps[..k] + [fl[|fl| - 1]] + ps[k + 1..]
  }

  /** `remove` as written does not panic: the grapheme ends inside its piece, and
      when a fragment is left the cut piece is not the last one. */
  predicate CutFitsAsWritten(ps: seq<Piece>, position: nat, len: nat)
  {
    var (k, s) := Locate(ps, position, 0, 0);
    k < |ps| ==>
      && position + len <= s + ps[k].length
      && (FragmentList(RemoveFragments(ps[k], s, position, len)) != [] ==> k + 1 < |ps|)
  }

  /** The pieces after `remove` as written cuts `len` bytes at `position`:
      `remove_prev` drops the piece holding `position`, and its fragments are then
      written over the piece that followed it; all pieces when no piece holds
      `position`. */
  function CutPiecesAsWritten(ps: seq<Piece>, position: nat, len: nat): seq<Piece>
    requires CutFitsAsWritten(ps, position, len)
  {
    var (k, s) := Locate(ps, position, 0, 0);
    if k < |ps| then ReplaceWithLast(ps[..k] + ps[k + 1..], k, FragmentList(RemoveFragments(ps[k], s, position, len)))
    else ps
  }

  /** As written, `remove` is defined when its cut fits and leaves no fragment
      after the last piece. */
  predicate RemovableAsWritten(seg: Segmenter, original: Bytes, append: Bytes, ps: seq<Piece>, position: nat)
    requires AllInStore(original, append, ps)
  {
    CutFitsAsWritten(ps, position, RemovedLength(seg, original, append, ps, position))
  }

  /** As written, a cut that finds a piece always leaves one piece fewer. When the
      grapheme is the whole piece, the result is the intended one; otherwise the
      last fragment stands where the cut piece was and the piece that followed it
      is lost. */
  lemma CutAsWrittenLosesNext(ps: seq<Piece>, position: nat, len: nat)
    requires CutFitsAsWritten(ps, position, len)
    requires Locate(ps, position, 0, 0).0 < |ps|
    ensures CutFits(ps, position, len)
    ensures var (k, s) := Locate(ps, position, 0, 0);
      var fl := FragmentList(RemoveFragments(ps[k], s, position, len));
      var r := CutPiecesAsWritten(ps, position, len);
      && |r| + 1 == |ps|
      && r[..k] == ps[..k]
      && (fl == [] ==> r == CutPieces(ps, position, len))
      && (fl != [] ==> r[k] == fl[|fl| - 1] && r[k + 1..] == ps[k + 2..])
  {
    var (k, s) := Locate(ps, position, 0, 0);
    var fl := FragmentList(RemoveFragments(ps[k], s, position, len));
    var rest := ps[..k] + ps[k + 1..];
    assert rest[..k] == ps[..k];
    if fl != [] {
      assert rest[k + 1..] == ps[k + 2..];
    } else {
      assert ps[..k] + fl + ps[k + 1..] == rest;
    }
  }

  /** The pieces left by `remove` as written lie in the stores. */
  lemma CutAsWrittenInStore(original: Bytes, append: Bytes, ps: seq<Piece>, position: nat, len: nat)
    requires AllInStore(original, append, ps) && CutFitsAsWritten(ps, position, len)
    requires CutFits(ps, position, len) && AllInStore(original, append, CutPieces(ps, position, len))
    ensures AllInStore(original, append, CutPiecesAsWritten(ps, position, len))
  {
    var (k, s) := Locate(ps, position, 0, 0);
    if k < |ps| {
      var fl := FragmentList(RemoveFragments(ps[k], s, position, len));
      var cut := ps[..k] + fl + ps[k + 1..];
      var r := CutPiecesAsWritten(ps, position, len);
      CutAsWrittenLosesNext(ps, position, len);
      forall n | 0 <= n < |r| ensures InStore(original, append, r[n]) {
        if n < k {
          assert r[n] == ps[n];
        } else if n == k && fl != [] {
          assert r[n] == cut[k + |fl| - 1];
        } else if fl != [] {
          assert r[n] == ps[n + 1];
        } else {
          assert r[n] == ps[n + 1];
        }
      }
    }
  }

  /** What `remove` as written does once the scan has found piece `k`, starting at
      `s`: it cuts the grapheme there, a fragment left means a piece follows, and
      the pieces after the overwrite still lie in the stores. */
  lemma RemoveAsWrittenPlan(seg: Segmenter, original: Bytes, append: Bytes, ps: seq<Piece>, position: nat, k: nat, s: nat,
                             len: nat, fragments: Fragments)
    requires AllInStore(original, append, ps) && RemovableAsWritten(seg, original, append, ps, position)
    requires Locate(ps, position, 0, 0) == (k, s) && k < |ps|
    requires s <= position < s + ps[k].length
    requires len == GraphemeLength(seg, Store(original, append, ps[k].source), ps[k].start + (position - s))
    requires fragments == RemoveFragments(ps[k], s, position, len)
    ensures len == RemovedLength(seg, original, append, ps, position)
    ensures position + len <= s + ps[k].length
    ensures FragmentList(fragments) != [] ==> k + 1 < |ps|
    ensures CutPiecesAsWritten(ps, position, len) == ReplaceWithLast(ps[..k] + ps[k + 1..], k, FragmentList(fragments))
    ensures AllInStore(original, append, CutPiecesAsWritten(ps, position, len))
  {
    assert len == RemovedLength(seg, original, append, ps, position);
    assert CutFitsAsWritten(ps, position, len);
    CutAsWrittenLosesNext(ps, position, len);
    RemovePlan(seg, original, append, ps, position, k, s, len, fragments);
    CutAsWrittenInStore(original, append, ps, position, len);
  }

  /** When the scan finds no piece, neither cut changes the pieces. */
  lemma CutNothing(ps: seq<Piece>, position: nat, len: nat)
    requires Locate(ps, position, 0, 0).0 == |ps|
    ensures CutFits(ps, position, len) && CutPieces(ps, position, len) == ps
    ensures CutFitsAsWritten(ps, position, len) && CutPiecesAsWritten(ps, position, len) == ps
  {
  }

  /** The store "abcde" as bytes. */
  const ABCDE: Bytes := [97, 98, 99, 100, 101]

  /** As written, removing the one-byte grapheme at offset 1 of the pieces "abc"
      and "de" leaves "c": the before fragment "a" replaces "de", and the after
      fragment "c" then replaces "a". The intended cut gives "acde". */
  lemma RemoveAsWrittenOverwritesNext()
    ensures var ps := [Piece(0, 3, Original), Piece(3, 2, Original)];
      && AllInStore(ABCDE, [], ps) && Render(ABCDE, [], ps) == ABCDE
      && CutFitsAsWritten(ps, 1, 1) && CutFits(ps, 1, 1)
      && CutPiecesAsWritten(ps, 1, 1) == [Piece(2, 1, Original)]
      && Render(ABCDE, [], CutPiecesAsWritten(ps, 1, 1)) == [99]
      && CutPieces(ps, 1, 1) == [Piece(0, 1, Original), Piece(2, 1, Original), Piece(3, 2, Original)]
      && Render(ABCDE, [], CutPieces(ps, 1, 1)) == [97, 99, 100, 101]
  {
    var ps := [Piece(0, 3, Original), Piece(3, 2, Original)];
    assert Locate(ps, 1, 0, 0) == (0, 0);
    var a, c, de := Piece(0, 1, Original), Piece(2, 1, Original), Piece(3, 2, Original);
    assert FragmentList(RemoveFragments(ps[0], 0, 1, 1)) == [a, c];
    assert CutPiecesAsWritten(ps, 1, 1) == [c];
    assert CutPieces(ps, 1, 1) == [a, c, de];
    RenderPair(ABCDE, [], ps[0], ps[1]);
    assert ABCDE[0..3] + ABCDE[3..5] == ABCDE;
    RenderOne(ABCDE, [], c);
    RenderPair(ABCDE, [], c, de);
    RenderConcat(ABCDE, [], [a], [c, de]);
    RenderOne(ABCDE, [], a);
    assert [a] + [c, de] == [a, c, de];
  }

  /** As written, cutting inside the last piece panics: after `remove_prev` there
      is no piece after the cursor for the fragments' `insert_before`. With the
      single piece "abc", the cut at offset 1 fits its piece but not the code. */
  lemma RemoveAsWrittenPanicsAtEnd()
    ensures var ps := [Piece(0, 3, Original)];
      CutFits(ps, 1, 1) && !CutFitsAsWritten(ps, 1, 1)
  {
    var ps := [Piece(0, 3, Original)];
    assert Locate(ps, 1, 0, 0) == (0, 0);
    assert FragmentList(RemoveFragments(ps[0], 0, 1, 1)) != [];
  }

  // ---------------------------------------------------------------------------
  // The buffer.

  class Buffer {
    const original: Bytes
    var append: Bytes
    const pieces: PieceList

    var reminderCursorX: usize
    var cursorX: usize
    var cursorY: usize

    var pieceUnderCursor: usize

    /** The list is well formed and every piece lies inside its store. */
    ghost predicate Valid()
      reads this`append, pieces
    {
      pieces.Valid() && AllInStore(original, append, pieces.Contents())
    }

    /** Every piece covers valid UTF-8, as `to_string` demands. */
    ghost predicate Utf8Pieces()
      reads this`append, pieces
      requires Valid()
    {
      SlicesAreUtf8(original, append, pieces.Contents())
    }

    /** The text the buffer holds. */
    ghost function Text(): Bytes
      reads this`append, pieces
      requires Valid()
    {
      Render(original, append, pieces.Contents())
    }

    function CaretState(): Caret
      reads this
    {
      Caret(cursorX, cursorY, reminderCursorX)
    }

    /** `Buffer::from` as written: the source is copied into the original store and
        one piece covering it is handed to the live `PieceList::new`, whose `head`
        and `tail` are the empty index `with(0)`. The list reaches no piece, so the
        text is empty whatever the source. */
    constructor From(source: Bytes)
      requires ValidUtf8(source)
      ensures Valid() && Utf8Pieces() && fresh(pieces)
      ensures original == source && append == []
      ensures pieces.memory == [Node(Piece(0, |source|, Original), Empty(), Empty())]
      ensures pieces.Contents() == [] && Text() == []
      ensures CaretState() == Caret(0, 0, 0) && pieceUnderCursor == 0
    {
      original := source;
      append := [];
      pieces := new PieceList(Piece(0, |source|, Original));
      reminderCursorX, cursorX, cursorY := 0, 0, 0;
      pieceUnderCursor := 0;
    }

    /** `Buffer::from` over the corrected `PieceList::new` (`PieceList.Single`): one
        piece covering the whole source in the original store, an empty append
        store, the caret at the origin, and the source as the text. */
    constructor FromSingle(source: Bytes)
      requires ValidUtf8(source)
      ensures Valid() && Utf8Pieces() && fresh(pieces)
      ensures original == source && append == []
      ensures pieces.Contents() == [Piece(0, |source|, Original)]
      ensures Text() == source
      ensures CaretState() == Caret(0, 0, 0) && pieceUnderCursor == 0
    {
      original := source;
      append := [];
      pieces := new PieceList.Single(Piece(0, |source|, Original));
      reminderCursorX, cursorX, cursorY := 0, 0, 0;
      pieceUnderCursor := 0;
      new;
      RenderOne(source, [], Piece(0, |source|, Original));
      assert source[0..|source|] == source;
    }

    /** `Buffer::to_string`: the slices of the pieces, in list order. */
    method ToString() returns (s: Bytes)
      requires Valid() && Utf8Pieces()
      ensures s == Text()
    {
      s := [];
      ghost var ps := pieces.Contents();
      var it := pieces.Iter();
      while true
        invariant fresh(it) && it.list == pieces && it.Valid()
        invariant it.Visited <= |ps|
        invariant AllInStore(original, append, ps[..it.Visited])
        invariant s == Render(original, append, ps[..it.Visited])
        decreases |ps| - it.Visited
      {
        var r := it.Next();
        match r {
          case None =>
            break;
          case Some(piece) =>
            assert piece == ps[it.Visited - 1];
            RenderStep(original, append, ps, it.Visited - 1);
            s := s + Slice(original, append, piece);
        }
      }
      assert ps[..|ps|] == ps;
    }

    /** `Buffer::move_cursor_horizontal` up to its `todo!`: the caret column moves
        by `x` on the current line unless that would leave the line. */
    method MoveCursorHorizontal(x: int, seg: Segmenter)
      requires Valid() && Utf8Pieces() && IsI64(x)
      modifies this
      ensures append == old(append) && pieceUnderCursor == old(pieceUnderCursor)
      ensures Valid() && Text() == old(Text())
      ensures CaretState() == HorizontalMove(old(CaretState()), x, LineGraphemes(seg, Text(), cursorY))
    {
      var text := ToString();
      var lines := Split(text, NEWLINE);
      var lengthOfLine := if cursorY < |lines| then |seg(lines[cursorY])| else 0;
      var movingBeyondFirst := x < 0 && cursorX == 0;
      var movingBeyondLast := x > 0 && cursorX + 1 >= lengthOfLine;
      if !movingBeyondFirst && !movingBeyondLast {
        cursorX := WrappingAdd(cursorX, x);
        reminderCursorX := cursorX;
      }
    }

    /** `Buffer::move_cursor_vertical` up to its `todo!`: the caret line moves by
        `y` unless that would leave the text, and the column is the remembered one
        clamped to the new line. The target must be a line of the text, or the
        indexing panics. */
    method MoveCursorVertical(y: int, seg: Segmenter)
      requires Valid() && Utf8Pieces() && IsI64(y)
      requires VerticalTarget(cursorY, y, |Lines(Text())|) < |Lines(Text())|
      modifies this
      ensures append == old(append) && pieceUnderCursor == old(pieceUnderCursor)
      ensures Valid() && Text() == old(Text())
      ensures CaretState() == VerticalMove(old(CaretState()), y, Lines(Text()), seg)
    {
      var text := ToString();
      var lines := Split(text, NEWLINE);
      var movingBeyondFirst := y < 0 && cursorY == 0;
      var movingBeyondLast := y > 0 && cursorY + 1 >= |lines|;
      if !movingBeyondFirst && !movingBeyondLast {
        cursorY := WrappingAdd(cursorY, y);
      }
      var lengthOfLine := |seg(lines[cursorY])|;
      if lengthOfLine == 0 {
        cursorX := 0;
      } else {
        cursorX := if reminderCursorX < lengthOfLine - 1 then reminderCursorX else lengthOfLine - 1;
      }
    }

    /** `Buffer::cursor`. */
    function Cursor(): (r: (nat, nat))
      reads this
      ensures r.0 == cursorX && r.1 == cursorY
    {
      (cursorX, cursorY)
    }

    /** `Buffer::cursor_position_in_buffer`: the byte offset of the caret, which
        spells the lines above it and the graphemes to its left. The caret line
        must exist, or the indexing panics. */
    method CursorPositionInBuffer(seg: Segmenter) returns (r: nat)
      requires Valid() && Utf8Pieces() && cursorY < |Lines(Text())|
      ensures r == CursorOffset(Text(), seg, cursorX, cursorY)
      ensures r <= |Text()|
      ensures Text()[..r] == Flatten(LinesWithBreaks(Lines(Text()), cursorY)) + Flatten(Take(seg(Lines(Text())[cursorY]), cursorX))
    {
      var text := ToString();
      r := CursorOffset(text, seg, cursorX, cursorY);
      CursorOffsetSpellsPrefix(text, seg, cursorX, cursorY);
    }

    /** The scan of the commented `remove`: the cursor steps over the pieces up to
        and including the one holding `position`, which is returned with the
        render position where it starts; `None` when no piece holds `position`. */
    method Seek(position: nat) returns (cursor: PieceCursor, found: Option<(Piece, nat)>)
      requires Valid()
      ensures fresh(cursor) && cursor.list == pieces && cursor.Valid()
      ensures found.Some? ==>
        && 0 < cursor.Position
        && Locate(pieces.Contents(), position, 0, 0) == (cursor.Position - 1, found.value.1)
        && found.value.0 == pieces.Contents()[cursor.Position - 1]
      ensures found.None? ==> Locate(pieces.Contents(), position, 0, 0).0 == |pieces.Contents()|
    {
      ghost var ps := pieces.Contents();
      ghost var target := Locate(ps, position, 0, 0);
      var startInRender: nat := 0;
      cursor := pieces.Cursor();
      found := None;
      ghost var j := 0;
      while true
        invariant fresh(cursor) && cursor.list == pieces && cursor.Valid()
        invariant j == cursor.Position && j <= |ps| && startInRender <= position
        invariant Locate(ps, position, j, startInRender) == target
        decreases |ps| - j
      {
        var node := cursor.Next();
        if node.None? {
          assert target.0 == |ps|;
          return;
        }
        var piece := node.value.val;
        var endInRender := startInRender + piece.length;
        if position >= endInRender {
          LocateSkip(ps, position, j, startInRender, endInRender);
          startInRender, j := endInRender, j + 1;
          continue;
        }
        found := Some((piece, startInRender));
        return;
      }
    }

    /** The commented `Buffer::remove` as written: the piece holding `position` is
        dropped by `remove_prev`, and the fragments before and after the grapheme
        there are then written over the piece that followed it
        (`CutPiecesAsWritten`); a position past the end changes nothing. The
        grapheme must end inside its piece, or `piece_length - remove_offset - len`
        underflows, and a fragment left from the last piece panics in
        `insert_before`. */
    method Remove(position: nat, seg: Segmenter)
      requires Valid() && RemovableAsWritten(seg, original, append, pieces.Contents(), position)
      modifies pieces
      ensures Valid()
      ensures pieces.Contents() == CutPiecesAsWritten(old(pieces.Contents()), position, RemovedLength(seg, original, append, old(pieces.Contents()), position))
    {
      ghost var ps := pieces.Contents();
      var cursor, found := Seek(position);
      if found.Some? {
        CutFound(cursor, found.value.0, found.value.1, position, seg, ps);
      } else {
        CutNothing(ps, position, RemovedLength(seg, original, append, ps, position));
      }
    }

    /** The body of `remove` as written once the scan has stepped over the piece
        holding `position`: `remove_prev` drops it, and its fragments are written
        over the piece after the cursor. */
    method CutFound(cursor: PieceCursor, piece: Piece, startInRender: nat, position: nat, seg: Segmenter, ghost ps: seq<Piece>)
      requires Valid() && cursor.list == pieces && cursor.Valid() && 0 < cursor.Position
      requires ps == pieces.Contents() && RemovableAsWritten(seg, original, append, ps, position)
      requires Locate(ps, position, 0, 0) == (cursor.Position - 1, startInRender) && piece == ps[cursor.Position - 1]
      modifies pieces, cursor
      ensures Valid()
      ensures pieces.Contents() == CutPiecesAsWritten(ps, position, RemovedLength(seg, original, append, ps, position))
    {
      ghost var k := cursor.Position - 1;
      var removeOffset := position - startInRender;
      var from := Store(original, append, piece.source);
      var len := GraphemeLength(seg, from, piece.start + removeOffset);
      var fragments := RemoveFragments(piece, startInRender, position, len);
      RemoveAsWrittenPlan(seg, original, append, ps, position, k, startInRender, len, fragments);
      ghost var target := ReplaceWithLast(ps[..k] + ps[k + 1..], k, FragmentList(fragments));
      cursor.RemovePrev();
      assert pieces.Contents() == ps[..k] + ps[k + 1..];
      InsertFragments(cursor, fragments);
      assert pieces.Contents() == target;
    }

    /** The two `cursor.insert_before` calls of `remove` as written, each made when
        its fragment is there: each replaces the piece after the cursor, so the
        last fragment made is left in its place. */
    method InsertFragments(cursor: PieceCursor, fragments: Fragments)
      requires cursor.list == pieces && cursor.Valid()
      requires FragmentList(fragments) != [] ==> cursor.Position < |pieces.Contents()|
      modifies pieces, cursor
      ensures pieces.Valid()
      ensures pieces.Contents() == ReplaceWithLast(old(pieces.Contents()), old(cursor.Position), FragmentList(fragments))
    {
      ghost var ps, k := pieces.Contents(), cursor.Position;
      if fragments.before.Some? || fragments.after.Some? {
        cursor.ValidPivots();
      }
      match fragments.before {
        case None =>
        case Some(b) =>
          cursor.InsertBefore(b.start, b.length, b.source);
      }
      ghost var middle := pieces.Contents();
      match fragments.after {
        case None =>
        case Some(a) =>
          cursor.InsertBefore(a.start, a.length, a.source);
          assert middle[..k] == ps[..k] && middle[k + 1..] == ps[k + 1..];
      }
      LastFragment(fragments);
    }

    /** `remove` with its fragments put where the cut piece was, through the
        cursor's `SpliceBefore`: the piece holding `position` is replaced by the
        fragments around the grapheme there, so exactly that grapheme's bytes
        leave the text; a position past the end changes nothing. */
    method RemoveSpliced(position: nat, seg: Segmenter)
      requires Valid() && RemovableAt(seg, original, append, pieces.Contents(), position)
      modifies pieces
      ensures Valid()
      ensures pieces.Contents() == CutPieces(old(pieces.Contents()), position, RemovedLength(seg, original, append, old(pieces.Contents()), position))
      ensures Cuts(old(Text()), Text(), position, RemovedLength(seg, original, append, old(pieces.Contents()), position))
    {
      ghost var ps := pieces.Contents();
      RemoveCutsText(seg, original, append, ps, position);
      var cursor, found := Seek(position);
      if found.Some? {
        SpliceFound(cursor, found.value.0, found.value.1, position, seg, ps);
      } else {
        CutNothing(ps, position, RemovedLength(seg, original, append, ps, position));
      }
    }

    /** The body of the intended `remove` once the scan has stepped over the piece
        holding `position`: the piece is replaced by its fragments around the
        grapheme there. */
    method SpliceFound(cursor: PieceCursor, piece: Piece, startInRender: nat, position: nat, seg: Segmenter, ghost ps: seq<Piece>)
      requires Valid() && cursor.list == pieces && cursor.Valid() && 0 < cursor.Position
      requires ps == pieces.Contents() && RemovableAt(seg, original, append, ps, position)
      requires Locate(ps, position, 0, 0) == (cursor.Position - 1, startInRender) && piece == ps[cursor.Position - 1]
      modifies pieces, cursor
      ensures Valid()
      ensures pieces.Contents() == CutPieces(ps, position, RemovedLength(seg, original, append, ps, position))
    {
      ghost var k := cursor.Position - 1;
      var removeOffset := position - startInRender;
      var from := Store(original, append, piece.source);
      var len := GraphemeLength(seg, from, piece.start + removeOffset);
      var fragments := RemoveFragments(piece, startInRender, position, len);
      RemovePlan(seg, original, append, ps, position, k, startInRender, len, fragments);
      ghost var target := ps[..k] + FragmentList(fragments) + ps[k + 1..];
      SplicePrev(cursor, fragments, ps);
      assert pieces.Contents() == target;
    }

    /** `cursor.remove_prev()` followed by the fragments' splices: the piece
        before the cursor is replaced by the fragments. */
    method SplicePrev(cursor: PieceCursor, fragments: Fragments, ghost ps: seq<Piece>)
      requires cursor.list == pieces && cursor.Valid() && 0 < cursor.Position
      requires ps == pieces.Contents()
      modifies pieces, cursor
      ensures cursor.Valid()
      ensures var k := old(cursor.Position) - 1;
        pieces.Contents() == ps[..k] + FragmentList(fragments) + ps[k + 1..]
    {
      ghost var k := cursor.Position - 1;
      cursor.RemovePrev();
      ghost var rest := pieces.Contents();
      assert cursor.Position == k && rest == ps[..k] + ps[k + 1..];
      SpliceFragments(cursor, fragments);
      ghost var final := pieces.Contents();
      assert final == rest[..k] + FragmentList(fragments) + rest[k..];
      SpliceAt(ps, k, FragmentList(fragments), rest, final);
    }

    /** The two fragments spliced in at the cursor, each when it is there; the
        cursor ends after both. */
    method SpliceFragments(cursor: PieceCursor, fragments: Fragments)
      requires cursor.list == pieces && cursor.Valid()
      modifies pieces, cursor
      ensures cursor.Valid()
      ensures var ps, k := old(pieces.Contents()), old(cursor.Position);
        pieces.Contents() == ps[..k] + FragmentList(fragments) + ps[k..]
    {
      ghost var ps, k := pieces.Contents(), cursor.Position;
      SpliceFragment(cursor, fragments.before);
      ghost var middle := pieces.Contents();
      SpliceFragment(cursor, fragments.after);
      InsertTwice(ps, k, OptionList(fragments.before), OptionList(fragments.after), middle, pieces.Contents());
    }

    /** One fragment spliced in at the cursor, when it is there. */
    method SpliceFragment(cursor: PieceCursor, fragment: Option<Piece>)
      requires cursor.list == pieces && cursor.Valid()
      modifies pieces, cursor
      ensures cursor.Valid() && cursor.Position == old(cursor.Position) + |OptionList(fragment)|
      ensures var ps := old(pieces.Contents());
        pieces.Contents() == ps[..old(cursor.Position)] + OptionList(fragment) + ps[old(cursor.Position)..]
    {
      match fragment {
        case None =>
          assert pieces.Contents() == pieces.Contents()[..cursor.Position] + [] + pieces.Contents()[cursor.Position..];
        case Some(p) =>
          cursor.SpliceBefore(p.start, p.length, p.source);
      }
    }
  }
}
