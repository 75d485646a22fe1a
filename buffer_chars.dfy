/** The earlier piece table over `char` stores (src/buffer.rs): pieces live in a
    vector and are linked by optional indices; `insert` only ever pushes new
    pieces and re-points `first`, and `to_string` follows `next` from `first`. */
module CharTable {
  import opened Seqs
  import opened Text

  datatype PieceSource = Original | Append

  /** A piece with its optional `next`/`prev` indices into the piece vector. */
  datatype Piece = Piece(start: nat, length: nat, source: PieceSource, next: Option<nat>, prev: Option<nat>)

  /** An optional index that is absent or names an element of the vector. */
  predicate PointsIn(pieces: seq<Piece>, p: Option<nat>)
  {
    p.Some? ==> p.value < |pieces|
  }

  /** Every `next` index is in the vector and leads to a lower rank, so
      following `next` always ends. */
  ghost predicate Ranked(pieces: seq<Piece>, rank: seq<nat>)
  {
    && |rank| == |pieces|
    && forall i :: 0 <= i < |pieces| && pieces[i].next.Some? ==>
      && pieces[i].next.value < |pieces|
      && rank[pieces[i].next.value] < rank[i]
  }

  /** The indices visited by following `next` from `p`. */
  ghost function Chain(pieces: seq<Piece>, rank: seq<nat>, p: Option<nat>): (c: seq<nat>)
    requires Ranked(pieces, rank) && PointsIn(pieces, p)
    ensures forall k :: 0 <= k < |c| ==> c[k] < |pieces|
    decreases if p.Some? then rank[p.value] + 1 else 0
  {
    if p.None? then [] else [p.value] + Chain(pieces, rank, pieces[p.value].next)
  }

  /** The chain depends on the links only, not on the ranks that bound it. */
  lemma {:induction false} ChainRankFree(pieces: seq<Piece>, r1: seq<nat>, r2: seq<nat>, p: Option<nat>)
    requires Ranked(pieces, r1) && Ranked(pieces, r2) && PointsIn(pieces, p)
    ensures Chain(pieces, r1, p) == Chain(pieces, r2, p)
    decreases if p.Some? then r1[p.value] + 1 else 0
  {
    if p.Some? {
      ChainRankFree(pieces, r1, r2, pieces[p.value].next);
    }
  }

  /** Pushing pieces leaves the chain from an old index as it was. */
  lemma {:induction false} ChainGrows(pieces: seq<Piece>, rank: seq<nat>, more: seq<Piece>, moreRank: seq<nat>, p: Option<nat>)
    requires Ranked(pieces, rank) && Ranked(pieces + more, rank + moreRank) && PointsIn(pieces, p)
    ensures Chain(pieces + more, rank + moreRank, p) == Chain(pieces, rank, p)
    decreases if p.Some? then rank[p.value] + 1 else 0
  {
    if p.Some? {
      assert (pieces + more)[p.value] == pieces[p.value];
      assert (rank + moreRank)[p.value] == rank[p.value];
      ChainGrows(pieces, rank, more, moreRank, pieces[p.value].next);
    }
  }

  function Store(original: seq<char>, append: seq<char>, source: PieceSource): seq<char>
  {
    match source
    case Original => original
    case Append => append
  }

  /** Every piece on the chain lies inside its store, as the slice in
      `to_string` demands. */
  predicate InStore(original: seq<char>, append: seq<char>, pieces: seq<Piece>, c: seq<nat>)
    decreases |c|
  {
    c == [] ||
    (&& c[0] < |pieces|
     && pieces[c[0]].start + pieces[c[0]].length <= |Store(original, append, pieces[c[0]].source)|
     && InStore(original, append, pieces, c[1..]))
  }

  /** The chars of the chain's pieces, in chain order. */
  function Render(original: seq<char>, append: seq<char>, pieces: seq<Piece>, c: seq<nat>): seq<char>
    requires InStore(original, append, pieces, c)
    decreases |c|
  {
    if c == [] then []
    else
      var piece := pieces[c[0]];
      Store(original, append, piece.source)[piece.start..piece.start + piece.length]
      + Render(original, append, pieces, c[1..])
  }

  /** One step along the chain: the piece at `p` lies inside its store, and its
      slice followed by the text from its `next` is the text from `p`. */
  lemma ChainStep(original: seq<char>, append: seq<char>, pieces: seq<Piece>, rank: seq<nat>, p: Option<nat>)
    requires Ranked(pieces, rank) && PointsIn(pieces, p) && p.Some?
    requires InStore(original, append, pieces, Chain(pieces, rank, p))
    ensures var piece := pieces[p.value];
      && piece.start + piece.length <= |Store(original, append, piece.source)|
      && InStore(original, append, pieces, Chain(pieces, rank, piece.next))
      && Render(original, append, pieces, Chain(pieces, rank, p))
         == Store(original, append, piece.source)[piece.start..piece.start + piece.length]
            + Render(original, append, pieces, Chain(pieces, rank, piece.next))
  {
    var rest := Chain(pieces, rank, pieces[p.value].next);
    assert ([p.value] + rest)[1..] == rest;
  }

  /** The sum of the lengths of the chain's pieces. */
  function Total(pieces: seq<Piece>, c: seq<nat>): nat
    requires forall k :: 0 <= k < |c| ==> c[k] < |pieces|
    decreases |c|
  {
    if c == [] then 0 else pieces[c[0]].length + Total(pieces, c[1..])
  }

  /** The rendered text has the total length of its pieces. */
  lemma {:induction false} RenderLength(original: seq<char>, append: seq<char>, pieces: seq<Piece>, c: seq<nat>)
    requires InStore(original, append, pieces, c)
    ensures forall k :: 0 <= k < |c| ==> c[k] < |pieces|
    ensures |Render(original, append, pieces, c)| == Total(pieces, c)
    decreases |c|
  {
    if c != [] {
      RenderLength(original, append, pieces, c[1..]);
      assert forall k :: 1 <= k < |c| ==> c[k] == c[1..][k - 1];
    }
  }

  /** Chars pushed onto the append store leave the text of old pieces alone. */
  lemma {:induction false} RenderAppendGrows(original: seq<char>, append: seq<char>, extra: seq<char>, pieces: seq<Piece>, c: seq<nat>)
    requires InStore(original, append, pieces, c)
    ensures InStore(original, append + extra, pieces, c)
    ensures Render(original, append + extra, pieces, c) == Render(original, append, pieces, c)
    decreases |c|
  {
    if c != [] {
      RenderAppendGrows(original, append, extra, pieces, c[1..]);
      var piece := pieces[c[0]];
      if piece.source == Append {
        assert (append + extra)[piece.start..piece.start + piece.length] == append[piece.start..piece.start + piece.length];
      }
    }
  }

  /** Pushed pieces leave the text of a chain of old indices alone. */
  lemma RenderPiecesGrow(original: seq<char>, append: seq<char>, pieces: seq<Piece>, more: seq<Piece>, c: seq<nat>)
    requires InStore(original, append, pieces, c)
    ensures InStore(original, append, pieces + more, c)
    ensures Render(original, append, pieces + more, c) == Render(original, append, pieces, c)
  {
    InStorePiecesGrow(original, append, pieces, more, c);
    RenderSamePieces(original, append, pieces, more, c);
  }

  lemma {:induction false} InStorePiecesGrow(original: seq<char>, append: seq<char>, pieces: seq<Piece>, more: seq<Piece>, c: seq<nat>)
    requires InStore(original, append, pieces, c)
    ensures InStore(original, append, pieces + more, c)
    decreases |c|
  {
    if c != [] {
      assert (pieces + more)[c[0]] == pieces[c[0]];
      InStorePiecesGrow(original, append, pieces, more, c[1..]);
    }
  }

  lemma {:induction false} RenderSamePieces(original: seq<char>, append: seq<char>, pieces: seq<Piece>, more: seq<Piece>, c: seq<nat>)
    requires InStore(original, append, pieces, c) && InStore(original, append, pieces + more, c)
    ensures Render(original, append, pieces + more, c) == Render(original, append, pieces, c)
    decreases |c|
  {
    if c != [] {
      assert (pieces + more)[c[0]] == pieces[c[0]];
      RenderSamePieces(original, append, pieces, more, c[1..]);
    }
  }

  // ---------------------------------------------------------------------------
  // `insert` as a function of the state.

  /** The scan of `insert`: the first piece of the chain, counting from
      `searchPos`, whose end reaches `pos`, with the position where it starts. */
  function Find(pieces: seq<Piece>, c: seq<nat>, searchPos: nat, pos: nat): (r: Option<(nat, nat)>)
    requires forall k :: 0 <= k < |c| ==> c[k] < |pieces|
    ensures r.Some? ==> r.value.0 < |pieces|
    ensures r.Some? && searchPos <= pos ==> searchPos <= r.value.1 <= pos <= r.value.1 + pieces[r.value.0].length
    decreases |c|
  {
    if c == [] then None
    else if searchPos + pieces[c[0]].length >= pos then Some((c[0], searchPos))
    else Find(pieces, c[1..], searchPos + pieces[c[0]].length, pos)
  }

  /** The total of a chain prefix is the first piece's length plus the total
      of the rest's prefix. */
  lemma TotalPrefixCons(pieces: seq<Piece>, c: seq<nat>, m: nat)
    requires forall k :: 0 <= k < |c| ==> c[k] < |pieces|
    requires 0 < m <= |c|
    ensures Total(pieces, c[..m]) == pieces[c[0]].length + Total(pieces, c[1..][..m - 1])
  {
    assert c[..m][1..] == c[1..][..m - 1];
  }

  /** The scan stopped at `c[k]`: `found` is that piece and its start, the
      running total of the pieces before it, and every earlier piece ends
      before `pos`. */
  predicate FoundAt(pieces: seq<Piece>, c: seq<nat>, searchPos: nat, pos: nat, k: nat, found: (nat, nat))
    requires forall i :: 0 <= i < |c| ==> c[i] < |pieces|
    requires k < |c|
  {
    && found.0 == c[k]
    && found.1 == searchPos + Total(pieces, c[..k])
    && forall j :: 0 < j <= k ==> searchPos + Total(pieces, c[..j]) < pos
  }

  /** The scan stops at the first piece on the chain whose end reaches `pos`,
      at the running total of the lengths before it. */
  lemma {:induction false} FindIsFirst(pieces: seq<Piece>, c: seq<nat>, searchPos: nat, pos: nat)
    requires forall i :: 0 <= i < |c| ==> c[i] < |pieces|
    ensures var r := Find(pieces, c, searchPos, pos);
      r.Some? ==> exists k :: 0 <= k < |c| && FoundAt(pieces, c, searchPos, pos, k, r.value)
    decreases |c|
  {
    var r := Find(pieces, c, searchPos, pos);
    if c != [] && r.Some? {
      var len0 := pieces[c[0]].length;
      if searchPos + len0 >= pos {
        assert c[..0] == [];
        assert FoundAt(pieces, c, searchPos, pos, 0, r.value);
      } else {
        var rest := c[1..];
        assert r == Find(pieces, rest, searchPos + len0, pos);
        FindIsFirst(pieces, rest, searchPos + len0, pos);
        var k' :| 0 <= k' < |rest| && FoundAt(pieces, rest, searchPos + len0, pos, k', r.value);
        TotalPrefixCons(pieces, c, k' + 1);
        assert c[k' + 1] == rest[k'];
        forall j | 0 < j <= k' + 1 ensures searchPos + Total(pieces, c[..j]) < pos {
          TotalPrefixCons(pieces, c, j);
        }
        assert FoundAt(pieces, c, searchPos, pos, k' + 1, r.value);
      }
    }
  }

  /** One step of the scan along the chain from `p`. */
  lemma FindStep(pieces: seq<Piece>, rank: seq<nat>, p: Option<nat>, searchPos: nat, pos: nat)
    requires Ranked(pieces, rank) && PointsIn(pieces, p) && p.Some?
    ensures var piece := pieces[p.value];
      Find(pieces, Chain(pieces, rank, p), searchPos, pos)
      == if searchPos + piece.length >= pos then Some((p.value, searchPos))
         else Find(pieces, Chain(pieces, rank, piece.next), searchPos + piece.length, pos)
  {
    var c := Chain(pieces, rank, p);
    assert c[1..] == Chain(pieces, rank, pieces[p.value].next);
  }

  /** The scan finds nothing exactly when the chain is empty or `pos` lies
      beyond the chain's text. */
  lemma {:induction false} FindNone(pieces: seq<Piece>, c: seq<nat>, searchPos: nat, pos: nat)
    requires forall k :: 0 <= k < |c| ==> c[k] < |pieces|
    ensures Find(pieces, c, searchPos, pos).None? <==> c == [] || searchPos + Total(pieces, c) < pos
    decreases |c|
  {
    if c != [] {
      FindNone(pieces, c[1..], searchPos + pieces[c[0]].length, pos);
    }
  }

  /** The pieces pushed once the scan has found the piece at `ptr`, which starts
      at `pieceStart`, and the new `first`, as written: at the start of a piece
      a full-length copy of it and the new piece; elsewhere two pieces cut from
      it, with the lengths and the second start the code computes, and the new
      piece between them. The neighbours' links are not touched. */
  function Pushed(pieces: seq<Piece>, first: Option<nat>, ptr: nat, pieceStart: nat, pos: nat, start: nat, n: nat): (r: (seq<Piece>, Option<nat>))
    requires ptr < |pieces| && pieceStart <= pos <= pieceStart + pieces[ptr].length
    ensures |pieces| + 2 <= |r.0| <= |pieces| + 3 && r.0[..|pieces|] == pieces
    ensures r.0[|r.0| - 1].start == start && r.0[|r.0| - 1].length == n && r.0[|r.0| - 1].source == Append
    ensures r.1 == first || r.1 == Some(|pieces|) || r.1 == Some(|pieces| + 1)
  {
    var piece := pieces[ptr];
    var L := |pieces|;
    var pieceEnd := pieceStart + piece.length;
    if pos == pieceStart then
      var copy := Piece(piece.start, pieceEnd - pos, piece.source, piece.next, Some(L + 1));
      var inserted := Piece(start, n, Append, Some(L), piece.prev);
      (pieces + [copy, inserted], if piece.prev == None then Some(L + 1) else first)
    else
      var before := Piece(piece.start, pieceEnd - pos, piece.source, Some(L + 2), piece.prev);
      var after := Piece(piece.start + piece.length, piece.length - before.length, piece.source, piece.next, Some(L + 2));
      var inserted := Piece(start, n, Append, Some(L + 1), Some(L));
      (pieces + [before, after, inserted], if first == Some(ptr) then Some(L) else first)
  }

  /** The pieces and `first` after `insert` of `n` bytes whose chars start at
      `start` in the append store: pieces are only pushed, never overwritten,
      two or three of them or none, and the last one pushed is the new APPEND
      piece over the inserted chars. */
  function InsertResult(pieces: seq<Piece>, first: Option<nat>, c: seq<nat>, start: nat, n: nat, pos: nat): (r: (seq<Piece>, Option<nat>))
    requires forall k :: 0 <= k < |c| ==> c[k] < |pieces|
    ensures |pieces| <= |r.0| && r.0[..|pieces|] == pieces
    ensures |r.0| == |pieces| || |r.0| == |pieces| + 2 || |r.0| == |pieces| + 3
    ensures |r.0| > |pieces| ==> r.0[|r.0| - 1].start == start && r.0[|r.0| - 1].length == n && r.0[|r.0| - 1].source == Append
    ensures |r.0| == |pieces| ==> r.1 == first
  {
    match Find(pieces, c, 0, pos)
    case None => (pieces, first)
    case Some((ptr, s)) => Pushed(pieces, first, ptr, s, pos, start, n)
  }

  /** `insert` pushes pieces exactly when the chain is not empty and `pos` is
      within its text; otherwise, in particular past the end, it leaves the
      pieces and `first` as they were. */
  lemma InsertPushesIffInText(pieces: seq<Piece>, first: Option<nat>, c: seq<nat>, start: nat, n: nat, pos: nat)
    requires forall k :: 0 <= k < |c| ==> c[k] < |pieces|
    ensures |InsertResult(pieces, first, c, start, n, pos).0| > |pieces| <==> c != [] && pos <= Total(pieces, c)
    ensures pos > Total(pieces, c) ==> InsertResult(pieces, first, c, start, n, pos) == (pieces, first)
  {
    FindNone(pieces, c, 0, pos);
  }

  /** Ranks for the pieces `insert` pushes: each one's `next` leads lower. */
  function PushedRanks(pieces: seq<Piece>, c: seq<nat>, rank: seq<nat>, pos: nat): seq<nat>
    requires |rank| == |pieces| && forall k :: 0 <= k < |c| ==> c[k] < |pieces|
  {
    match Find(pieces, c, 0, pos)
    case None => []
    case Some((ptr, s)) =>
      if pos == s then [rank[ptr], rank[ptr] + 1] else [rank[ptr] + 2, rank[ptr], rank[ptr] + 1]
  }

  /** `insert` keeps the links ranked and `first` inside the vector. */
  lemma InsertKeepsRanked(pieces: seq<Piece>, rank: seq<nat>, first: Option<nat>, start: nat, n: nat, pos: nat)
    requires Ranked(pieces, rank) && PointsIn(pieces, first)
    ensures var r := InsertResult(pieces, first, Chain(pieces, rank, first), start, n, pos);
      && Ranked(r.0, rank + PushedRanks(pieces, Chain(pieces, rank, first), rank, pos))
      && PointsIn(r.0, r.1)
  {
    var c := Chain(pieces, rank, first);
    var r := InsertResult(pieces, first, c, start, n, pos);
    var rank' := rank + PushedRanks(pieces, c, rank, pos);
    match Find(pieces, c, 0, pos)
    case None =>
    case Some((ptr, s)) =>
      var L := |pieces|;
      forall i | 0 <= i < |r.0| && r.0[i].next.Some?
        ensures r.0[i].next.value < |r.0| && rank'[r.0[i].next.value] < rank'[i]
      {
        if i < L {
          assert r.0[i] == pieces[i] && rank'[i] == rank[i];
          assert rank'[pieces[i].next.value] == rank[pieces[i].next.value];
        } else if pieces[ptr].next.Some? {
          assert rank'[pieces[ptr].next.value] == rank[pieces[ptr].next.value];
        }
      }
  }

  /** The chain `[i] + rest` lies in the stores when piece `i` does and `rest`
      does, and renders as the slice of `i` followed by `rest`. */
  lemma RenderCons(original: seq<char>, append: seq<char>, pieces: seq<Piece>, i: nat, rest: seq<nat>)
    requires i < |pieces| && pieces[i].start + pieces[i].length <= |Store(original, append, pieces[i].source)|
    requires InStore(original, append, pieces, rest)
    ensures InStore(original, append, pieces, [i] + rest)
    ensures Render(original, append, pieces, [i] + rest)
      == Store(original, append, pieces[i].source)[pieces[i].start..pieces[i].start + pieces[i].length]
         + Render(original, append, pieces, rest)
  {
    assert ([i] + rest)[1..] == rest;
  }

  /** What `insert` at position 0 pushes when the head has no `prev`: a copy
      of the head and the new piece, which becomes `first` and leads to it. */
  lemma PrependShape(pieces: seq<Piece>, rank: seq<nat>, first: Option<nat>, start: nat, n: nat)
    requires Ranked(pieces, rank) && PointsIn(pieces, first) && first.Some?
    requires pieces[first.value].prev == None
    ensures var c := Chain(pieces, rank, first);
      var r := InsertResult(pieces, first, c, start, n, 0);
      var rank' := rank + PushedRanks(pieces, c, rank, 0);
      var L := |pieces|;
      var h := pieces[first.value];
      && r.0 == pieces + [h.(prev := Some(L + 1)), Piece(start, n, Append, Some(L), None)]
      && r.1 == Some(L + 1)
      && Ranked(r.0, rank')
      && Chain(r.0, rank', r.1) == [L + 1] + ([L] + Chain(pieces, rank, h.next))
  {
    var c := Chain(pieces, rank, first);
    var h := first.value;
    var L := |pieces|;
    var r := InsertResult(pieces, first, c, start, n, 0);
    var moreRank := PushedRanks(pieces, c, rank, 0);
    InsertKeepsRanked(pieces, rank, first, start, n, 0);
    assert Find(pieces, c, 0, 0) == Some((h, 0));
    var more := [r.0[L], r.0[L + 1]];
    assert r.0 == pieces + more;
    ChainGrows(pieces, rank, more, moreRank, pieces[h].next);
  }

  /** Two pieces in front of a chain: their slices, then the chain's text. */
  lemma RenderTwo(original: seq<char>, append: seq<char>, pieces: seq<Piece>, i: nat, j: nat, rest: seq<nat>, si: seq<char>, sj: seq<char>)
    requires i < |pieces| && pieces[i].start + pieces[i].length <= |Store(original, append, pieces[i].source)|
    requires j < |pieces| && pieces[j].start + pieces[j].length <= |Store(original, append, pieces[j].source)|
    requires si == Store(original, append, pieces[i].source)[pieces[i].start..pieces[i].start + pieces[i].length]
    requires sj == Store(original, append, pieces[j].source)[pieces[j].start..pieces[j].start + pieces[j].length]
    requires InStore(original, append, pieces, rest)
    ensures InStore(original, append, pieces, [i] + ([j] + rest))
    ensures Render(original, append, pieces, [i] + ([j] + rest)) == si + (sj + Render(original, append, pieces, rest))
  {
    RenderCons(original, append, pieces, j, rest);
    RenderCons(original, append, pieces, i, [j] + rest);
  }

  /** The chain `c` lies in the stores and spells `s`. */
  ghost predicate Spells(original: seq<char>, append: seq<char>, pieces: seq<Piece>, c: seq<nat>, s: seq<char>)
  {
    InStore(original, append, pieces, c) && Render(original, append, pieces, c) == s
  }

  /** Pushing chars and pieces leaves the text of a chain of old pieces alone. */
  lemma RenderGrows(original: seq<char>, append: seq<char>, text: string, pieces: seq<Piece>, more: seq<Piece>, rest: seq<nat>)
    requires InStore(original, append, pieces, rest)
    ensures InStore(original, append + text, pieces + more, rest)
    ensures Render(original, append + text, pieces + more, rest) == Render(original, append, pieces, rest)
  {
    RenderAppendGrows(original, append, text, pieces, rest);
    RenderPiecesGrow(original, append + text, pieces, more, rest);
  }

  /** The text after the pushes of a prepend: the new piece over the chars
      pushed onto the append store, the copy of the head, then the rest. */
  lemma PrependText(original: seq<char>, append: seq<char>, pieces: seq<Piece>, h: nat, rest: seq<nat>, text: string, more: seq<Piece>, L: nat)
    requires h < |pieces| && InStore(original, append, pieces, [h] + rest)
    requires L == |pieces|
    requires more == [pieces[h].(prev := Some(L + 1)), Piece(|append|, |text|, Append, Some(L), None)]
    ensures Spells(original, append + text, pieces + more, [L + 1] + ([L] + rest), text + Render(original, append, pieces, [h] + rest))
  {
    var slice := Store(original, append, pieces[h].source)[pieces[h].start..pieces[h].start + pieces[h].length];
    assert ([h] + rest)[1..] == rest;
    RenderCons(original, append, pieces, h, rest);
    PrependedText(original, append, pieces, h, rest, text, more, L, slice);
  }

  lemma PrependedText(original: seq<char>, append: seq<char>, pieces: seq<Piece>, h: nat, rest: seq<nat>, text: string, more: seq<Piece>, L: nat, slice: seq<char>)
    requires h < |pieces| && pieces[h].start + pieces[h].length <= |Store(original, append, pieces[h].source)|
    requires InStore(original, append, pieces, rest)
    requires L == |pieces|
    requires more == [pieces[h].(prev := Some(L + 1)), Piece(|append|, |text|, Append, Some(L), None)]
    requires slice == Store(original, append, pieces[h].source)[pieces[h].start..pieces[h].start + pieces[h].length]
    ensures Spells(original, append + text, pieces + more, [L + 1] + ([L] + rest), text + (slice + Render(original, append, pieces, rest)))
  {
    RenderGrows(original, append, text, pieces, more, rest);
    PushedSlices(original, append, pieces, h, text, more, L, slice);
    RenderTwo(original, append + text, pieces + more, L + 1, L, rest, text, slice);
  }

  /** The two pieces a prepend pushes lie in the grown stores: the new piece
      over the pushed chars, the copy over the head's chars. */
  lemma PushedSlices(original: seq<char>, append: seq<char>, pieces: seq<Piece>, h: nat, text: string, more: seq<Piece>, L: nat, slice: seq<char>)
    requires h < |pieces| && pieces[h].start + pieces[h].length <= |Store(original, append, pieces[h].source)|
    requires L == |pieces|
    requires more == [pieces[h].(prev := Some(L + 1)), Piece(|append|, |text|, Append, Some(L), None)]
    requires slice == Store(original, append, pieces[h].source)[pieces[h].start..pieces[h].start + pieces[h].length]
    ensures var a := append + text; var pushed := pieces + more;
      && L + 1 < |pushed|
      && pushed[L + 1].start + pushed[L + 1].length <= |Store(original, a, pushed[L + 1].source)|
      && Store(original, a, pushed[L + 1].source)[pushed[L + 1].start..pushed[L + 1].start + pushed[L + 1].length] == text
      && pushed[L].start + pushed[L].length <= |Store(original, a, pushed[L].source)|
      && Store(original, a, pushed[L].source)[pushed[L].start..pushed[L].start + pushed[L].length] == slice
  {
    var a := append + text;
    var pushed := pieces + more;
    assert pushed[L] == more[0] && pushed[L + 1] == more[1];
    assert a[|append|..|append| + |text|] == text;
    assert Store(original, a, pieces[h].source)[pieces[h].start..pieces[h].start + pieces[h].length] == slice;
  }

  /** With ASCII text, inserting at position 0 of a chain whose head has no
      `prev` makes the new piece `first`, followed by a full-length copy of the
      old head: the text becomes the inserted text followed by the old text. */
  lemma PrependAtStart(original: seq<char>, append: seq<char>, pieces: seq<Piece>, rank: seq<nat>, first: Option<nat>, text: string)
    requires Ranked(pieces, rank) && PointsIn(pieces, first) && first.Some?
    requires pieces[first.value].prev == None
    requires InStore(original, append, pieces, Chain(pieces, rank, first))
    requires IsAscii(text)
    ensures var c := Chain(pieces, rank, first);
      var r := InsertResult(pieces, first, c, |append|, Utf8Length(text), 0);
      var rank' := rank + PushedRanks(pieces, c, rank, 0);
      && Ranked(r.0, rank') && PointsIn(r.0, r.1)
      && r.1 == Some(|pieces| + 1)
      && Spells(original, append + text, r.0, Chain(r.0, rank', r.1), text + Render(original, append, pieces, c))
  {
    var c := Chain(pieces, rank, first);
    var h := first.value;
    PrependShape(pieces, rank, first, |append|, Utf8Length(text));
    Utf8LengthCountsChars(text);
    var rest := Chain(pieces, rank, pieces[h].next);
    assert c == [h] + rest;
    var L := |pieces|;
    var more := [pieces[h].(prev := Some(L + 1)), Piece(|append|, |text|, Append, Some(L), None)];
    var r := InsertResult(pieces, first, c, |append|, Utf8Length(text), 0);
    var rank' := rank + PushedRanks(pieces, c, rank, 0);
    assert r.0 == pieces + more && Chain(r.0, rank', r.1) == [L + 1] + ([L] + rest);
    PrependText(original, append, pieces, h, rest, text, more, L);
    assert Render(original, append, pieces, c) == Render(original, append, pieces, [h] + rest);
  }

  /** As written, inserting inside a piece gives the first cut the length of
      the part after `pos` and starts the second cut at the end of the piece:
      after `from("abc")` and `insert("x", 1)` the chain keeps "ab" before the
      new piece and then reaches a piece past the end of the original store,
      which `to_string` cannot slice. */
  lemma InsertInsidePieceOverruns()
    ensures var pieces := [Piece(0, 3, Original, None, None)];
      var r := InsertResult(pieces, Some(0), [0], 0, 1, 1);
      && r.0 == pieces + [Piece(0, 2, Original, Some(3), None), Piece(3, 1, Original, None, Some(3)), Piece(0, 1, Append, Some(2), Some(1))]
      && r.1 == Some(1)
      && Ranked(r.0, [0, 2, 0, 1])
      && Chain(r.0, [0, 2, 0, 1], r.1) == [1, 3, 2]
      && !InStore("abc", "x", r.0, [1, 3, 2])
  {
    var pieces := [Piece(0, 3, Original, None, None)];
    assert Find(pieces, [0], 0, 1) == Some((0, 0));
    var r := InsertResult(pieces, Some(0), [0], 0, 1, 1);
    assert Chain(r.0, [0, 2, 0, 1], Some(2)) == [2];
    assert Chain(r.0, [0, 2, 0, 1], Some(3)) == [3, 2];
    assert !InStore("abc", "x", r.0, [2]);
    assert [1, 3, 2][1..] == [3, 2] && [3, 2][1..] == [2];
  }

  /** The pushes of `insert` inside a piece with the cuts evidently intended:
      the first cut holds the `pos - pieceStart` chars before `pos`, the second
      starts where the first ends and holds the rest, and the new piece is
      linked between them. The old pieces stay, the two cuts share the piece's
      length, and the three pushed pieces link first cut, new piece, second
      cut, between the old piece's neighbours. */
  function SplitPushed(pieces: seq<Piece>, first: Option<nat>, ptr: nat, pieceStart: nat, pos: nat, start: nat, n: nat): (r: (seq<Piece>, Option<nat>))
    requires ptr < |pieces| && pieceStart <= pos <= pieceStart + pieces[ptr].length
    ensures var L, piece := |pieces|, pieces[ptr];
      && |r.0| == L + 3 && r.0[..L] == pieces
      && r.0[L].prev == piece.prev && r.0[L].next == Some(L + 2)
      && r.0[L + 2].prev == Some(L) && r.0[L + 2].next == Some(L + 1)
      && r.0[L + 1].prev == Some(L + 2) && r.0[L + 1].next == piece.next
      && r.0[L].length + r.0[L + 1].length == piece.length
      && (first == Some(ptr) ==> r.1 == Some(L)) && (first != Some(ptr) ==> r.1 == first)
  {
    var piece := pieces[ptr];
    var L := |pieces|;
    var before := Piece(piece.start, pos - pieceStart, piece.source, Some(L + 2), piece.prev);
    var after := Piece(piece.start + before.length, piece.length - before.length, piece.source, piece.next, Some(L + 2));
    var inserted := Piece(start, n, Append, Some(L + 1), Some(L));
    (pieces + [before, after, inserted], if first == Some(ptr) then Some(L) else first)
  }

  /** With the corrected cuts, the three pushed pieces, followed in their link
      order, lie in the grown stores and spell the piece's chars before `pos`,
      then the inserted chars, then the piece's chars from `pos` on. */
  lemma SplitPushedSpellsInsert(original: seq<char>, append: seq<char>, pieces: seq<Piece>, first: Option<nat>,
                                ptr: nat, pieceStart: nat, pos: nat, text: string)
    requires ptr < |pieces| && pieceStart <= pos <= pieceStart + pieces[ptr].length
    requires pieces[ptr].start + pieces[ptr].length <= |Store(original, append, pieces[ptr].source)|
    ensures SpellsSplit(original, append, text, SplitPushed(pieces, first, ptr, pieceStart, pos, |append|, |text|).0, |pieces|, pieces[ptr], pos - pieceStart)
  {
    var L, piece := |pieces|, pieces[ptr];
    var r := SplitPushed(pieces, first, ptr, pieceStart, pos, |append|, |text|).0;
    SplitRender(original, append, text, r, L, piece, pos - pieceStart);
  }

  /** Following the pieces at `L`, `L + 2` and `L + 1` of `r` over the grown
      stores spells the chars of `piece` before offset `off`, then `text`,
      then the chars of `piece` from `off` on. */
  ghost predicate SpellsSplit(original: seq<char>, append: seq<char>, text: string, r: seq<Piece>, L: nat, piece: Piece, off: nat)
    requires off <= piece.length && piece.start + piece.length <= |Store(original, append, piece.source)|
  {
    && InStore(original, append + text, r, [L, L + 2, L + 1])
    && var slice := Store(original, append, piece.source)[piece.start..piece.start + piece.length];
       Render(original, append + text, r, [L, L + 2, L + 1]) == slice[..off] + text + slice[off..]
  }

  /** The three pieces of a corrected split, wherever they sit in the vector,
      spell the chars before the cut, the inserted chars, then the rest. */
  lemma SplitRender(original: seq<char>, append: seq<char>, text: string, r: seq<Piece>, L: nat, piece: Piece, off: nat)
    requires off <= piece.length && piece.start + piece.length <= |Store(original, append, piece.source)|
    requires L + 2 < |r|
    requires r[L].start == piece.start && r[L].length == off && r[L].source == piece.source
    requires r[L + 1].start == piece.start + off && r[L + 1].length == piece.length - off && r[L + 1].source == piece.source
    requires r[L + 2].start == |append| && r[L + 2].length == |text| && r[L + 2].source == Append
    ensures SpellsSplit(original, append, text, r, L, piece, off)
  {
    var a := append + text;
    var store, grown := Store(original, append, piece.source), Store(original, a, piece.source);
    StoreGrows(original, append, text, piece.source);
    CutSlices(grown, store, piece.start, piece.length, off);
    var slice := store[piece.start..piece.start + piece.length];
    AppendedSlice(append, text);
    RenderThree(original, a, r, L, L + 2, L + 1, slice[..off], text, slice[off..]);
  }

  /** The chars pushed onto a store are its last ones. */
  lemma AppendedSlice(append: seq<char>, text: string)
    ensures (append + text)[|append|..|append| + |text|] == text
  {
  }

  /** Pushing chars onto the append store only extends the stores. */
  lemma StoreGrows(original: seq<char>, append: seq<char>, text: string, source: PieceSource)
    ensures var store, grown := Store(original, append, source), Store(original, append + text, source);
      |store| <= |grown| && grown[..|store|] == store
  {
  }

  /** The two cuts of a piece's range, read from a store that may have grown. */
  lemma CutSlices(grown: seq<char>, store: seq<char>, s: nat, len: nat, off: nat)
    requires s + len <= |store| && off <= len && |store| <= |grown| && grown[..|store|] == store
    ensures grown[s..s + off] == store[s..s + len][..off]
    ensures grown[s + off..s + off + (len - off)] == store[s..s + len][off..]
  {
    forall i | s <= i < s + len ensures grown[i] == store[i] {
      assert grown[..|store|][i] == grown[i];
    }
    assert grown[s..s + len] == store[s..s + len];
    assert grown[s..s + off] == grown[s..s + len][..off];
    assert grown[s + off..s + off + (len - off)] == grown[s..s + len][off..];
  }

  /** Three pieces whose slices are `si`, `sj` and `sk` spell them in order. */
  lemma RenderThree(original: seq<char>, append: seq<char>, pieces: seq<Piece>, i: nat, j: nat, k: nat,
                    si: seq<char>, sj: seq<char>, sk: seq<char>)
    requires i < |pieces| && pieces[i].start + pieces[i].length <= |Store(original, append, pieces[i].source)|
    requires j < |pieces| && pieces[j].start + pieces[j].length <= |Store(original, append, pieces[j].source)|
    requires k < |pieces| && pieces[k].start + pieces[k].length <= |Store(original, append, pieces[k].source)|
    requires si == Store(original, append, pieces[i].source)[pieces[i].start..pieces[i].start + pieces[i].length]
    requires sj == Store(original, append, pieces[j].source)[pieces[j].start..pieces[j].start + pieces[j].length]
    requires sk == Store(original, append, pieces[k].source)[pieces[k].start..pieces[k].start + pieces[k].length]
    ensures InStore(original, append, pieces, [i, j, k])
    ensures Render(original, append, pieces, [i, j, k]) == si + sj + sk
  {
    RenderCons(original, append, pieces, k, []);
    assert [k] + [] == [k];
    RenderTwo(original, append, pieces, i, j, [k], si, sj);
    assert [i] + ([j] + [k]) == [i, j, k];
  }

  /** The stores and pieces of `Buffer::from(s)`: one ORIGINAL piece whose
      length is the byte length of `s` over the chars of `s`. It lies inside
      the store exactly when `s` is ASCII, and then the text is `s`. */
  lemma FromText(s: string)
    ensures var pieces := [Piece(0, Utf8Length(s), Original, None, None)];
      && Ranked(pieces, [0])
      && Chain(pieces, [0], Some(0)) == [0]
      && (InStore(s, [], pieces, [0]) <==> IsAscii(s))
      && (IsAscii(s) ==> Render(s, [], pieces, [0]) == s)
  {
    var pieces := [Piece(0, Utf8Length(s), Original, None, None)];
    assert Chain(pieces, [0], None) == [];
    Utf8LengthCountsChars(s);
    assert InStore(s, [], pieces, [0][1..]);
  }

  class Buffer {
    var original: seq<char>
    var append: seq<char>
    var pieces: seq<Piece>
    var first: Option<nat>
    /** Ranks bounding the chains; they record no state of the program. */
    ghost var Rank: seq<nat>

    ghost predicate Valid()
      reads this`pieces, this`first, this`Rank
    {
      Ranked(pieces, Rank) && PointsIn(pieces, first)
    }

    /** The indices `to_string` visits. */
    ghost function Visited(): seq<nat>
      reads this`pieces, this`first, this`Rank
      requires Valid()
    {
      Chain(pieces, Rank, first)
    }

    /** Every visited piece can be sliced from its store. */
    ghost predicate Readable()
      reads this
    {
      Valid() && InStore(original, append, pieces, Visited())
    }

    ghost function Text(): seq<char>
      reads this
      requires Readable()
    {
      Render(original, append, pieces, Visited())
    }

    /** `Buffer::new`: no stores, no pieces, no `first`. */
    constructor ()
      ensures original == [] && append == [] && pieces == [] && first == None
      ensures Readable() && Text() == []
    {
      original, append, pieces, first := [], [], [], None;
      Rank := [];
    }

    /** `Buffer::from`: the chars of `source`, covered by one ORIGINAL piece
        whose length is the byte length of `source`. */
    constructor From(source: string)
      ensures original == source && append == []
      ensures pieces == [Piece(0, Utf8Length(source), Original, None, None)] && first == Some(0)
      ensures Valid() && (Readable() <==> IsAscii(source))
      ensures IsAscii(source) ==> Text() == source
    {
      original := source;
      append := [];
      pieces := [Piece(0, Utf8Length(source), Original, None, None)];
      first := Some(0);
      Rank := [0];
      FromText(source);
    }

    /** `Buffer::insert`: the chars of `text` are pushed onto the append store,
        then the chain is scanned for the piece whose end reaches `pos`, and
        the pieces of `InsertResult` are pushed. */
    method Insert(text: string, pos: nat)
      requires Valid()
      modifies this
      ensures Valid()
      ensures original == old(original) && append == old(append) + text
      ensures (pieces, first) == InsertResult(old(pieces), old(first), old(Visited()), |old(append)|, Utf8Length(text), pos)
    {
      var start := |append|;
      for i := 0 to |text|
        invariant append == old(append) + text[..i]
        invariant pieces == old(pieces) && first == old(first) && Rank == old(Rank) && original == old(original)
      {
        append := append + [text[i]];
      }
      assert text[..|text|] == text;
      ghost var c0 := Visited();
      var searchPos: nat := 0;
      var iterPiece := first;
      while true
        invariant pieces == old(pieces) && first == old(first) && Rank == old(Rank)
        invariant original == old(original) && append == old(append) + text
        invariant Valid() && c0 == Visited()
        invariant PointsIn(pieces, iterPiece) && searchPos <= pos
        invariant Find(pieces, c0, 0, pos) == Find(pieces, Chain(pieces, Rank, iterPiece), searchPos, pos)
        decreases if iterPiece.Some? then Rank[iterPiece.value] + 1 else 0
      {
        if iterPiece.None? {
          break;
        }
        var piecePointer := iterPiece.value;
        var piece := pieces[piecePointer];
        var piecePosStart := searchPos;
        FindStep(pieces, Rank, iterPiece, searchPos, pos);
        searchPos := searchPos + piece.length;
        if searchPos >= pos {
          assert Find(pieces, c0, 0, pos) == Some((piecePointer, piecePosStart));
          Push(piecePointer, piecePosStart, pos, start, Utf8Length(text), c0);
          break;
        }
        iterPiece := piece.next;
      }
    }

    /** The pushes of `insert` once the scan has found the piece. */
    method Push(piecePointer: nat, piecePosStart: nat, pos: nat, start: nat, n: nat, ghost c0: seq<nat>)
      requires Valid() && c0 == Visited()
      requires Find(pieces, c0, 0, pos) == Some((piecePointer, piecePosStart))
      modifies this`pieces, this`first, this`Rank
      ensures Valid()
      ensures (pieces, first) == InsertResult(old(pieces), old(first), c0, start, n, pos)
    {
      InsertKeepsRanked(pieces, Rank, first, start, n, pos);
      ghost var result := InsertResult(pieces, first, c0, start, n, pos);
      assert result == Pushed(pieces, first, piecePointer, piecePosStart, pos, start, n);
      Rank := Rank + PushedRanks(pieces, c0, Rank, pos);
      ghost var pieces0 := pieces;
      var piece := pieces[piecePointer];
      var piecePosEnd := piecePosStart + piece.length;
      if pos == piecePosStart {
        var firstPointer := Some(|pieces|);
        var newPointer := Some(|pieces| + 1);
        var piecePrev := piece.prev;
        var copy := Piece(piece.start, piecePosEnd - pos, piece.source, piece.next, newPointer);
        pieces := pieces + [copy];
        var inserted := Piece(start, n, Append, firstPointer, piecePrev);
        pieces := pieces + [inserted];
        assert pieces == pieces0 + [copy, inserted];
        if piecePrev == None {
          first := newPointer;
        }
      } else {
        var firstPointer := Some(|pieces|);
        var secondPointer := Some(|pieces| + 1);
        var newPointer := Some(|pieces| + 2);
        var before := Piece(piece.start, piecePosEnd - pos, piece.source, newPointer, piece.prev);
        var after := Piece(piece.start + piece.length, piece.length - before.length, piece.source, piece.next, newPointer);
        pieces := pieces + [before];
        pieces := pieces + [after];
        var inserted := Piece(start, n, Append, secondPointer, firstPointer);
        pieces := pieces + [inserted];
        assert pieces == pieces0 + [before, after, inserted];
        if first.Some? && first.value == piecePointer {
          first := firstPointer;
        }
      }
      assert (pieces, first) == result;
    }

    /** `Buffer::to_string`: the slices of the pieces met following `next`
        from `first`, in order. */
    method ToString() returns (result: string)
      requires Readable()
      ensures result == Text()
    {
      ghost var text := Text();
      result := [];
      var iterPointer := first;
      while iterPointer.Some?
        invariant PointsIn(pieces, iterPointer)
        invariant InStore(original, append, pieces, Chain(pieces, Rank, iterPointer))
        invariant result + Render(original, append, pieces, Chain(pieces, Rank, iterPointer)) == text
        decreases if iterPointer.Some? then Rank[iterPointer.value] + 1 else 0
      {
        var piece := pieces[iterPointer.value];
        ChainStep(original, append, pieces, Rank, iterPointer);
        var from := Store(original, append, piece.source);
        result := result + from[piece.start..piece.start + piece.length];
        iterPointer := piece.next;
      }
    }
  }
}
