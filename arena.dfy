/** The index-linked piece arena of src/buffer/piece_list.rs: a doubly-linked list of
    pieces kept in a growable vector of nodes, with `head`, `tail` and `free` indices
    instead of pointers, and a free list threaded through the `next` links of
    retired nodes.

    The live code holds `NodeIndex`, `PieceList::new`, `iter` and the iterator; the
    structural edits `insert_before` and `remove` and the `PieceCursor` exist only in
    a commented-out earlier version, which used a raw `usize` with a sentinel for
    "no neighbour". Their links are stored here as `NodeIndex` values that designate
    the slot written (`At`). */
module Arena {
  import opened Seqs

  /** `PieceSource` of src/buffer/mod.rs: the store a piece points into. */
  datatype PieceSource = Original | Append

  /** `Piece` of src/buffer/mod.rs: the byte range `[start, start + length)` of a store. */
  datatype Piece = Piece(start: nat, length: nat, source: PieceSource)

  type NonZero = n: nat | n > 0 witness 1

  /** `NodeIndex(Option<NonZeroUsize>)`: `None` is the empty index. */
  datatype NodeIndex = NodeIndex(word: Option<NonZero>)
  {
    /** `NodeIndex::get`: the slot designated, one below the stored word. */
    function Get(): Option<nat>
    {
      match word
      case None => None
      case Some(v) => Some(v - 1)
    }
  }

  /** `NodeIndex::with` as written: the value is stored unchanged, so `With(0)` is
      the empty index and `With(v)` designates slot `v - 1`. */
  function With(v: nat): (r: NodeIndex)
    ensures r.Get() == if v == 0 then None else Some(v - 1)
  {
    NodeIndex(if v == 0 then None else Some(v))
  }

  /** `NodeIndex::empty`. */
  function Empty(): (r: NodeIndex)
    ensures r.Get() == None
  {
    NodeIndex(None)
  }

  /** The index that designates slot `i`: what `with` evidently means to build,
      storing `i + 1` so that `get` gives back `i`. */
  function At(i: nat): (r: NodeIndex)
    ensures r.Get() == Some(i)
  {
    NodeIndex(Some(i + 1))
  }

  /** The index designating `slot`, or the empty index. */
  function IndexOf(slot: Option<nat>): (r: NodeIndex)
    ensures r.Get() == slot
  {
    match slot
    case None => Empty()
    case Some(i) => At(i)
  }

  /** `Get` and `At` are inverse: every non-empty index is `At` of the slot it
      designates, and no two indices designate the same slot. */
  lemma GetInvertsAt(ix: NodeIndex, jx: NodeIndex)
    ensures ix.word.Some? ==> At(ix.Get().value) == ix
    ensures ix.Get() == jx.Get() ==> ix == jx
  {
  }

  /** As written, `with(v)` never designates slot `v`, and `with(0)` is empty. */
  lemma WithMissesItsSlot(v: nat)
    ensures With(v).Get() != Some(v)
    ensures With(0) == Empty()
    ensures With(v + 1) == At(v)
  {
  }

  /** A node of the arena: its piece and its two neighbour links. */
  datatype Node = Node(val: Piece, next: NodeIndex, prev: NodeIndex)

  // ---------------------------------------------------------------------------
  // Shape predicates over the node vector.

  ghost predicate InMemory(memory: seq<Node>, order: seq<nat>)
  {
    forall k :: 0 <= k < |order| ==> order[k] < |memory|
  }

  ghost predicate Distinct(order: seq<nat>)
  {
    forall i, j :: 0 <= i < j < |order| ==> order[i] != order[j]
  }

  ghost predicate Disjoint(a: seq<nat>, b: seq<nat>)
  {
    forall i, j :: 0 <= i < |a| && 0 <= j < |b| ==> a[i] != b[j]
  }

  function Successor(order: seq<nat>, k: nat): Option<nat>
  {
    if k + 1 < |order| then Some(order[k + 1]) else None
  }

  function Predecessor(order: seq<nat>, k: nat): Option<nat>
    requires k <= |order|
  {
    if 0 < k then Some(order[k - 1]) else None
  }

  function FirstOf(order: seq<nat>): Option<nat>
  {
    if order == [] then None else Some(order[0])
  }

  function LastOf(order: seq<nat>): Option<nat>
  {
    if order == [] then None else Some(order[|order| - 1])
  }

  /** The node at position `k` of `order` links forward to the next position. */
  ghost predicate NextLinked(memory: seq<Node>, order: seq<nat>, k: nat)
  {
    k < |order| && order[k] < |memory| && memory[order[k]].next.Get() == Successor(order, k)
  }

  /** The node at position `k` of `order` links back to the previous position. */
  ghost predicate PrevLinked(memory: seq<Node>, order: seq<nat>, k: nat)
  {
    k < |order| && order[k] < |memory| && memory[order[k]].prev.Get() == Predecessor(order, k)
  }

  /** Following `next` from `first` visits exactly the slots of `order`, in that
      order, and then reaches the empty index. */
  ghost predicate Threads(memory: seq<Node>, first: NodeIndex, order: seq<nat>)
  {
    && InMemory(memory, order)
    && first.Get() == FirstOf(order)
    && forall k: nat :: k < |order| ==> NextLinked(memory, order, k)
  }

  /** Following `prev` from `last` visits the slots of `order` backwards. */
  ghost predicate BackThreads(memory: seq<Node>, last: NodeIndex, order: seq<nat>)
  {
    && InMemory(memory, order)
    && last.Get() == LastOf(order)
    && forall k: nat :: k < |order| ==> PrevLinked(memory, order, k)
  }

  /** The pieces held by the slots of `order`, in order. */
  function Values(memory: seq<Node>, order: seq<nat>): (ps: seq<Piece>)
    requires InMemory(memory, order)
    ensures |ps| == |order|
    ensures forall k {:trigger ps[k]} :: 0 <= k < |order| ==> ps[k] == memory[order[k]].val
  {
    seq(|order|, k requires 0 <= k < |order| => memory[order[k]].val)
  }

  /** The position of `x` in `s`. */
  function PositionIn(s: seq<nat>, x: nat): (k: nat)
    requires x in s
    ensures k < |s| && s[k] == x
  {
    if s[0] == x then 0 else 1 + PositionIn(s[1..], x)
  }

  /** In a list without repeated slots the position of a slot is the only one. */
  lemma PositionInDistinct(s: seq<nat>, k: nat)
    requires Distinct(s) && k < |s|
    ensures PositionIn(s, s[k]) == k
  {
  }

  /** The values of a spliced order are the spliced values, provided the slots
      kept hold their old pieces and the slots put in hold `vals`. */
  lemma ValuesSplice(m0: seq<Node>, m1: seq<Node>, o: seq<nat>, p: nat, q: nat, mid: seq<nat>, vals: seq<Piece>)
    requires p <= q <= |o| && InMemory(m0, o) && InMemory(m1, o[..p] + mid + o[q..])
    requires forall k :: 0 <= k < |o| && (k < p || q <= k) ==> o[k] < |m1| && m1[o[k]].val == m0[o[k]].val
    requires |vals| == |mid| && forall k :: 0 <= k < |mid| ==> mid[k] < |m1| && m1[mid[k]].val == vals[k]
    ensures Values(m1, o[..p] + mid + o[q..]) == Values(m0, o)[..p] + vals + Values(m0, o)[q..]
  {
    var o1 := o[..p] + mid + o[q..];
    var lhs := Values(m1, o1);
    var v0 := Values(m0, o);
    var rhs := v0[..p] + vals + v0[q..];
    assert |lhs| == |rhs|;
    forall k | 0 <= k < |lhs| ensures lhs[k] == rhs[k] {
      if k < p {
        assert o1[k] == o[k] && rhs[k] == v0[k];
      } else if k < p + |mid| {
        assert o1[k] == mid[k - p] && rhs[k] == vals[k - p];
      } else {
        assert o1[k] == o[k - p - |mid| + q] && rhs[k] == v0[k - p - |mid| + q];
      }
    }
  }

  /** Links of the slots of `order` survive a change of the vector that leaves
      those slots alone. */
  lemma ThreadsKept(m1: seq<Node>, m2: seq<Node>, first: NodeIndex, order: seq<nat>)
    requires Threads(m1, first, order) && |m1| <= |m2|
    requires forall k :: 0 <= k < |order| ==> m2[order[k]] == m1[order[k]]
    ensures Threads(m2, first, order)
  {
    forall k: nat | k < |order| ensures NextLinked(m2, order, k) {
      assert NextLinked(m1, order, k);
    }
  }

  lemma BackThreadsKept(m1: seq<Node>, m2: seq<Node>, last: NodeIndex, order: seq<nat>)
    requires BackThreads(m1, last, order) && |m1| <= |m2|
    requires forall k :: 0 <= k < |order| ==> m2[order[k]] == m1[order[k]]
    ensures BackThreads(m2, last, order)
  {
    forall k: nat | k < |order| ensures PrevLinked(m2, order, k) {
      assert PrevLinked(m1, order, k);
    }
  }

  /** Dropping the first slot of a threaded list leaves the list threaded from
      that slot's `next`. */
  lemma ThreadsTail(m: seq<Node>, first: NodeIndex, order: seq<nat>)
    requires Threads(m, first, order) && order != []
    ensures Threads(m, m[order[0]].next, order[1..])
  {
    assert NextLinked(m, order, 0);
    forall k: nat | k < |order[1..]| ensures NextLinked(m, order[1..], k) {
      assert NextLinked(m, order, k + 1);
    }
  }

  /** A slot whose `next` is the first of a threaded list threads that list with
      itself in front. */
  lemma ThreadsCons(m: seq<Node>, x: nat, first: NodeIndex, order: seq<nat>)
    requires Threads(m, first, order) && x < |m| && m[x].next == first
    ensures Threads(m, At(x), [x] + order)
  {
    forall k: nat | k < |[x] + order| ensures NextLinked(m, [x] + order, k) {
      if k > 0 {
        assert NextLinked(m, order, k - 1);
      }
    }
  }

  /** The arena invariant: forward and backward links of the list, the links of
      the free list, no slot twice on a list, and no slot on both lists. */
  ghost predicate WellLinked(memory: seq<Node>, head: NodeIndex, tail: NodeIndex, free: NodeIndex,
                             chain: seq<nat>, freeChain: seq<nat>)
  {
    && Threads(memory, head, chain)
    && BackThreads(memory, tail, chain)
    && Distinct(chain)
    && Threads(memory, free, freeChain)
    && Distinct(freeChain)
    && Disjoint(chain, freeChain)
  }

  // Order lemmas for the three structural edits: the new lists keep their slots
  // distinct and apart.

  lemma ReplacedOrder(c0: seq<nat>, fc: seq<nat>, p: nat, idx: nat)
    requires Distinct(c0) && Disjoint(c0, fc) && p < |c0| && idx !in c0 && idx !in fc
    ensures var c := c0[..p] + [idx] + c0[p + 1..]; Distinct(c) && Disjoint(c, fc) && c0[p] !in c
  {
    var c := c0[..p] + [idx] + c0[p + 1..];
    forall k | 0 <= k < |c| ensures c[k] == (if k == p then idx else c0[k]) {
      if k < p { assert c[k] == c0[k]; } else if k > p { assert c[k] == c0[k]; }
    }
    forall i, j | 0 <= i < j < |c| ensures c[i] != c[j] {
      if i != p && j != p { assert c0[i] != c0[j]; }
    }
    forall i, j | 0 <= i < |c| && 0 <= j < |fc| ensures c[i] != fc[j] {
      if i != p { assert c0[i] != fc[j]; }
    }
    forall k | 0 <= k < |c| ensures c[k] != c0[p] {
      if k != p { assert c0[k] != c0[p]; }
    }
  }

  lemma SplicedOrder(c0: seq<nat>, fc: seq<nat>, p: nat, idx: nat)
    requires Distinct(c0) && Disjoint(c0, fc) && p <= |c0| && idx !in c0 && idx !in fc
    ensures var c := c0[..p] + [idx] + c0[p..]; Distinct(c) && Disjoint(c, fc)
  {
    var c := c0[..p] + [idx] + c0[p..];
    forall k | 0 <= k < |c| ensures c[k] == (if k < p then c0[k] else if k == p then idx else c0[k - 1]) {
      if k < p { assert c[k] == c0[k]; } else if k > p { assert c[k] == c0[k - 1]; }
    }
    forall i, j | 0 <= i < j < |c| ensures c[i] != c[j] {
      if i != p && j != p {
        var i0 := if i < p then i else i - 1;
        var j0 := if j < p then j else j - 1;
        assert c0[i0] != c0[j0];
      }
    }
    forall i, j | 0 <= i < |c| && 0 <= j < |fc| ensures c[i] != fc[j] {
      if i < p { assert c0[i] != fc[j]; } else if i > p { assert c0[i - 1] != fc[j]; }
    }
  }

  lemma RemovedOrder(c0: seq<nat>, fc: seq<nat>, p: nat)
    requires Distinct(c0) && Distinct(fc) && Disjoint(c0, fc) && p < |c0|
    ensures var c, fc2 := c0[..p] + c0[p + 1..], [c0[p]] + fc;
      Distinct(c) && Distinct(fc2) && Disjoint(c, fc2)
  {
    var c, fc2 := c0[..p] + c0[p + 1..], [c0[p]] + fc;
    forall k | 0 <= k < |c| ensures c[k] == (if k < p then c0[k] else c0[k + 1]) {
      if k < p { assert c[k] == c0[k]; } else { assert c[k] == c0[k + 1]; }
    }
    forall i, j | 0 <= i < j < |c| ensures c[i] != c[j] {
      var i0 := if i < p then i else i + 1;
      var j0 := if j < p then j else j + 1;
      assert c0[i0] != c0[j0];
    }
    forall i, j | 0 <= i < j < |fc2| ensures fc2[i] != fc2[j] {
      if i == 0 { assert c0[p] != fc[j - 1]; } else { assert fc[i - 1] != fc[j - 1]; }
    }
    forall i, j | 0 <= i < |c| && 0 <= j < |fc2| ensures c[i] != fc2[j] {
      var i0 := if i < p then i else i + 1;
      if j == 0 { assert c0[i0] != c0[p]; } else { assert c0[i0] != fc[j - 1]; }
    }
  }

  // The neighbour fix-up shared by the structural edits, on values.

  /** `m` with the `next` link of `slot` set to `x`; `m` itself when there is no
      slot. */
  function SetNext(m: seq<Node>, slot: Option<nat>, x: NodeIndex): (r: seq<Node>)
    ensures |r| == |m|
    ensures forall i {:trigger r[i]} :: 0 <= i < |m| ==> r[i] == if slot == Some(i) then m[i].(next := x) else m[i]
  {
    if slot.Some? && slot.value < |m| then m[slot.value := m[slot.value].(next := x)] else m
  }

  /** `m` with the `prev` link of `slot` set to `x`; `m` itself when there is no
      slot. */
  function SetPrev(m: seq<Node>, slot: Option<nat>, x: NodeIndex): (r: seq<Node>)
    ensures |r| == |m|
    ensures forall i {:trigger r[i]} :: 0 <= i < |m| ==> r[i] == if slot == Some(i) then m[i].(prev := x) else m[i]
  {
    if slot.Some? && slot.value < |m| then m[slot.value := m[slot.value].(prev := x)] else m
  }

  // Link lemmas for the three structural edits: the links of the new lists.

  /** The node-level effect of putting slot `idx` in the place of position `p`. */
  ghost predicate ReplacedNodes(m1: seq<Node>, c0: seq<nat>, p: nat, idx: nat, m2: seq<Node>)
    requires InMemory(m1, c0) && p < |c0| && idx < |m1|
  {
    && m1[idx].next == m1[c0[p]].next && m1[idx].prev == m1[c0[p]].prev
    && |m2| == |m1|
    && (p > 0 ==> m2[c0[p - 1]] == m1[c0[p - 1]].(next := At(idx)))
    && (p + 1 < |c0| ==> m2[c0[p + 1]] == m1[c0[p + 1]].(prev := At(idx)))
    && forall i {:trigger m2[i]} :: 0 <= i < |m1| && Some(i) != Predecessor(c0, p) && Some(i) != Successor(c0, p) ==> m2[i] == m1[i]
  }

  lemma ReplacedNextAt(m1: seq<Node>, h: NodeIndex, c0: seq<nat>, p: nat, idx: nat, m2: seq<Node>, k: nat)
    requires Threads(m1, h, c0) && Distinct(c0) && p < |c0|
    requires idx < |m1| && idx !in c0 && ReplacedNodes(m1, c0, p, idx, m2)
    requires k < |c0|
    ensures NextLinked(m2, c0[..p] + [idx] + c0[p + 1..], k)
  {
    var c := c0[..p] + [idx] + c0[p + 1..];
    assert c[p] == idx;
    assert NextLinked(m1, c0, p);
    if k != p {
      assert c[k] == c0[k];
      assert NextLinked(m1, c0, k);
    }
    if k + 1 < |c| && k + 1 != p { assert c[k + 1] == c0[k + 1]; }
  }

  lemma ReplacedPrevAt(m1: seq<Node>, t: NodeIndex, c0: seq<nat>, p: nat, idx: nat, m2: seq<Node>, k: nat)
    requires BackThreads(m1, t, c0) && Distinct(c0) && p < |c0|
    requires idx < |m1| && idx !in c0 && ReplacedNodes(m1, c0, p, idx, m2)
    requires k < |c0|
    ensures PrevLinked(m2, c0[..p] + [idx] + c0[p + 1..], k)
  {
    var c := c0[..p] + [idx] + c0[p + 1..];
    assert c[p] == idx;
    assert PrevLinked(m1, c0, p);
    if k != p {
      assert c[k] == c0[k];
      assert PrevLinked(m1, c0, k);
    }
    if k > 0 && k - 1 != p { assert c[k - 1] == c0[k - 1]; }
  }

  lemma ReplacedLinks(m1: seq<Node>, h: NodeIndex, t: NodeIndex, c0: seq<nat>,
                      p: nat, idx: nat, m2: seq<Node>, h2: NodeIndex, t2: NodeIndex)
    requires Threads(m1, h, c0) && BackThreads(m1, t, c0) && Distinct(c0) && p < |c0|
    requires idx < |m1| && idx !in c0 && ReplacedNodes(m1, c0, p, idx, m2)
    requires h2.Get() == (if p == 0 then Some(idx) else FirstOf(c0))
    requires t2.Get() == (if p + 1 == |c0| then Some(idx) else LastOf(c0))
    ensures var c := c0[..p] + [idx] + c0[p + 1..]; Threads(m2, h2, c) && BackThreads(m2, t2, c)
  {
    var c := c0[..p] + [idx] + c0[p + 1..];
    forall k: nat | k < |c| ensures NextLinked(m2, c, k) && PrevLinked(m2, c, k) {
      ReplacedNextAt(m1, h, c0, p, idx, m2, k);
      ReplacedPrevAt(m1, t, c0, p, idx, m2, k);
    }
    assert c[p] == idx;
    if p > 0 { assert c[0] == c0[0]; }
    if p + 1 < |c0| { assert c[|c| - 1] == c0[|c0| - 1]; }
  }

  /** `insert_before` as written, on values: slot `idx`, already holding the new
      piece with the pivot's links, takes the place of the pivot at position `p`
      once the neighbours (or `head`/`tail`) are pointed at it. */
  lemma LinkedAfterReplace(m0: seq<Node>, m1: seq<Node>, h: NodeIndex, t: NodeIndex, f: NodeIndex,
                           c0: seq<nat>, fc: seq<nat>, p: nat, idx: nat)
    requires WellLinked(m1, h, t, f, c0, fc) && p < |c0|
    requires InMemory(m0, c0) && forall k :: 0 <= k < |c0| ==> m1[c0[k]] == m0[c0[k]]
    requires idx < |m1| && idx !in c0 && idx !in fc
    requires m1[idx].next == m1[c0[p]].next && m1[idx].prev == m1[c0[p]].prev
    ensures var m2 := SetPrev(SetNext(m1, Predecessor(c0, p), At(idx)), Successor(c0, p), At(idx));
      var c := c0[..p] + [idx] + c0[p + 1..];
      && WellLinked(m2, if p > 0 then h else At(idx), if p + 1 < |c0| then t else At(idx), f, c, fc)
      && Values(m2, c) == Values(m0, c0)[..p] + [m1[idx].val] + Values(m0, c0)[p + 1..]
      && c0[p] !in c && m2[c0[p]] == m1[c0[p]] && m2[idx] == m1[idx]
  {
    var m2 := SetPrev(SetNext(m1, Predecessor(c0, p), At(idx)), Successor(c0, p), At(idx));
    var h2, t2 := if p > 0 then h else At(idx), if p + 1 < |c0| then t else At(idx);
    assert NextLinked(m1, c0, p) && PrevLinked(m1, c0, p);
    if p > 0 && p + 1 < |c0| { assert c0[p - 1] != c0[p + 1]; }
    assert ReplacedNodes(m1, c0, p, idx, m2);
    ReplacedNodesLinked(m0, m1, h, t, f, c0, fc, p, idx, m2);
  }

  /** A replaced pivot keeps standing for the position it stood for: that
      position has the same neighbours after the replacement, and the pivot is
      neither of them nor on the new list. */
  lemma ShadowKept(c0: seq<nat>, p: nat, idx: nat, pivot: nat)
    requires Distinct(c0) && p < |c0| && pivot != idx && (pivot in c0 ==> pivot == c0[p])
    ensures var c := c0[..p] + [idx] + c0[p + 1..];
      && Successor(c, p) == Successor(c0, p) && Predecessor(c, p) == Predecessor(c0, p)
      && pivot !in c && Successor(c0, p) != Some(pivot) && Predecessor(c0, p) != Some(pivot)
  {
    var c := c0[..p] + [idx] + c0[p + 1..];
    if p + 1 < |c0| { assert c[p + 1] == c0[p + 1]; }
    if p > 0 { assert c[p - 1] == c0[p - 1]; }
    forall k | 0 <= k < |c| ensures c[k] != pivot {
      if k < p { assert c[k] == c0[k] && c0[k] != c0[p]; }
      else if k > p { assert c[k] == c0[k] && c0[k] != c0[p]; }
    }
  }

  lemma ReplacedNodesLinked(m0: seq<Node>, m1: seq<Node>, h: NodeIndex, t: NodeIndex, f: NodeIndex,
                            c0: seq<nat>, fc: seq<nat>, p: nat, idx: nat, m2: seq<Node>)
    requires WellLinked(m1, h, t, f, c0, fc) && p < |c0|
    requires InMemory(m0, c0) && forall k :: 0 <= k < |c0| ==> m1[c0[k]] == m0[c0[k]]
    requires idx < |m1| && idx !in c0 && idx !in fc
    requires ReplacedNodes(m1, c0, p, idx, m2)
    ensures var c := c0[..p] + [idx] + c0[p + 1..];
      && WellLinked(m2, if p > 0 then h else At(idx), if p + 1 < |c0| then t else At(idx), f, c, fc)
      && Values(m2, c) == Values(m0, c0)[..p] + [m1[idx].val] + Values(m0, c0)[p + 1..]
      && c0[p] !in c && m2[c0[p]] == m1[c0[p]] && m2[idx] == m1[idx]
  {
    var h2, t2 := if p > 0 then h else At(idx), if p + 1 < |c0| then t else At(idx);
    assert NextLinked(m1, c0, p) && PrevLinked(m1, c0, p);
    if p > 0 { assert c0[p - 1] != c0[p]; }
    if p + 1 < |c0| { assert c0[p + 1] != c0[p]; }
    ReplacedOrder(c0, fc, p, idx);
    ReplacedLinks(m1, h, t, c0, p, idx, m2, h2, t2);
    forall j | 0 <= j < |fc| ensures m2[fc[j]] == m1[fc[j]] {
      if p > 0 { assert c0[p - 1] != fc[j]; }
      if p + 1 < |c0| { assert c0[p + 1] != fc[j]; }
    }
    ThreadsKept(m1, m2, f, fc);
    forall k | 0 <= k < |c0| && (k < p || p + 1 <= k) ensures c0[k] < |m2| && m2[c0[k]].val == m0[c0[k]].val {
      assert c0[k] != c0[p];
    }
    assert m2[idx] == m1[idx];
    ValuesSplice(m0, m2, c0, p, p + 1, [idx], [m1[idx].val]);
  }

  /** The node-level effect of linking slot `idx` in at position `p`: its own
      links, the two neighbours pointed at it, every other slot unchanged. */
  ghost predicate SplicedNodes(m1: seq<Node>, c0: seq<nat>, p: nat, idx: nat, m2: seq<Node>)
    requires InMemory(m1, c0) && p <= |c0| && idx < |m1|
  {
    && m1[idx].next.Get() == (if p < |c0| then Some(c0[p]) else None)
    && m1[idx].prev.Get() == Predecessor(c0, p)
    && |m2| == |m1|
    && (p > 0 ==> m2[c0[p - 1]] == m1[c0[p - 1]].(next := At(idx)))
    && (p < |c0| ==> m2[c0[p]] == m1[c0[p]].(prev := At(idx)))
    && forall i {:trigger m2[i]} :: 0 <= i < |m1| && Some(i) != Predecessor(c0, p) && (p >= |c0| || i != c0[p]) ==> m2[i] == m1[i]
  }

  lemma SplicedNextAt(m1: seq<Node>, h: NodeIndex, c0: seq<nat>, p: nat, idx: nat, m2: seq<Node>, k: nat)
    requires Threads(m1, h, c0) && Distinct(c0) && p <= |c0|
    requires idx < |m1| && idx !in c0 && SplicedNodes(m1, c0, p, idx, m2)
    requires k <= |c0|
    ensures NextLinked(m2, c0[..p] + [idx] + c0[p..], k)
  {
    var c := c0[..p] + [idx] + c0[p..];
    assert c[p] == idx;
    if k < p {
      assert c[k] == c0[k];
      if k + 1 < p { assert c[k + 1] == c0[k + 1]; }
      assert NextLinked(m1, c0, k);
    } else if k > p {
      assert c[k] == c0[k - 1];
      if k + 1 < |c| { assert c[k + 1] == c0[k]; }
      assert NextLinked(m1, c0, k - 1);
    } else if p < |c0| {
      assert c[p + 1] == c0[p];
    }
  }

  lemma SplicedPrevAt(m1: seq<Node>, t: NodeIndex, c0: seq<nat>, p: nat, idx: nat, m2: seq<Node>, k: nat)
    requires BackThreads(m1, t, c0) && Distinct(c0) && p <= |c0|
    requires idx < |m1| && idx !in c0 && SplicedNodes(m1, c0, p, idx, m2)
    requires k <= |c0|
    ensures PrevLinked(m2, c0[..p] + [idx] + c0[p..], k)
  {
    var c := c0[..p] + [idx] + c0[p..];
    assert c[p] == idx;
    if k < p {
      assert c[k] == c0[k];
      if k > 0 { assert c[k - 1] == c0[k - 1]; }
      assert PrevLinked(m1, c0, k);
    } else if k > p {
      assert c[k] == c0[k - 1];
      if k - 1 > p { assert c[k - 1] == c0[k - 2]; }
      assert PrevLinked(m1, c0, k - 1);
    } else if p > 0 {
      assert c[p - 1] == c0[p - 1];
    }
  }

  lemma SplicedLinks(m1: seq<Node>, h: NodeIndex, t: NodeIndex, c0: seq<nat>,
                     p: nat, idx: nat, m2: seq<Node>, h2: NodeIndex, t2: NodeIndex)
    requires Threads(m1, h, c0) && BackThreads(m1, t, c0) && Distinct(c0) && p <= |c0|
    requires idx < |m1| && idx !in c0 && SplicedNodes(m1, c0, p, idx, m2)
    requires h2.Get() == (if p == 0 then Some(idx) else FirstOf(c0))
    requires t2.Get() == (if p == |c0| then Some(idx) else LastOf(c0))
    ensures var c := c0[..p] + [idx] + c0[p..]; Threads(m2, h2, c) && BackThreads(m2, t2, c)
  {
    var c := c0[..p] + [idx] + c0[p..];
    forall k: nat | k < |c| ensures NextLinked(m2, c, k) && PrevLinked(m2, c, k) {
      SplicedNextAt(m1, h, c0, p, idx, m2, k);
      SplicedPrevAt(m1, t, c0, p, idx, m2, k);
    }
    assert c[p] == idx;
    if p > 0 { assert c[0] == c0[0]; }
    if p < |c0| { assert c[|c| - 1] == c0[|c0| - 1]; }
  }

  /** Insertion before position `p` (or at the end when `p == |c0|`), on values:
      slot `idx`, holding the new piece linked to the pivot and its predecessor,
      joins the list once they (or `head`/`tail`) are pointed at it. */
  lemma LinkedAfterSplice(m0: seq<Node>, m1: seq<Node>, h: NodeIndex, t: NodeIndex, f: NodeIndex,
                          c0: seq<nat>, fc: seq<nat>, p: nat, idx: nat)
    requires WellLinked(m1, h, t, f, c0, fc) && p <= |c0|
    requires InMemory(m0, c0) && forall k :: 0 <= k < |c0| ==> m1[c0[k]] == m0[c0[k]]
    requires idx < |m1| && idx !in c0 && idx !in fc
    requires m1[idx].next.Get() == (if p < |c0| then Some(c0[p]) else None)
    requires m1[idx].prev.Get() == Predecessor(c0, p)
    ensures var m2 := SetPrev(SetNext(m1, Predecessor(c0, p), At(idx)), if p < |c0| then Some(c0[p]) else None, At(idx));
      var c := c0[..p] + [idx] + c0[p..];
      && WellLinked(m2, if p > 0 then h else At(idx), if p < |c0| then t else At(idx), f, c, fc)
      && Values(m2, c) == Values(m0, c0)[..p] + [m1[idx].val] + Values(m0, c0)[p..]
      && m2[idx] == m1[idx]
  {
    var m2 := SetPrev(SetNext(m1, Predecessor(c0, p), At(idx)), if p < |c0| then Some(c0[p]) else None, At(idx));
    var h2, t2 := if p > 0 then h else At(idx), if p < |c0| then t else At(idx);
    if 0 < p < |c0| { assert c0[p - 1] != c0[p]; }
    if p > 0 { assert PrevLinked(m1, c0, p - 1); }
    assert SplicedNodes(m1, c0, p, idx, m2);
    SplicedNodesLinked(m0, m1, h, t, f, c0, fc, p, idx, m2);
  }

  lemma SplicedNodesLinked(m0: seq<Node>, m1: seq<Node>, h: NodeIndex, t: NodeIndex, f: NodeIndex,
                           c0: seq<nat>, fc: seq<nat>, p: nat, idx: nat, m2: seq<Node>)
    requires WellLinked(m1, h, t, f, c0, fc) && p <= |c0|
    requires InMemory(m0, c0) && forall k :: 0 <= k < |c0| ==> m1[c0[k]] == m0[c0[k]]
    requires idx < |m1| && idx !in c0 && idx !in fc
    requires SplicedNodes(m1, c0, p, idx, m2)
    ensures var c := c0[..p] + [idx] + c0[p..];
      && WellLinked(m2, if p > 0 then h else At(idx), if p < |c0| then t else At(idx), f, c, fc)
      && Values(m2, c) == Values(m0, c0)[..p] + [m1[idx].val] + Values(m0, c0)[p..]
      && m2[idx] == m1[idx]
  {
    var h2, t2 := if p > 0 then h else At(idx), if p < |c0| then t else At(idx);
    SplicedOrder(c0, fc, p, idx);
    SplicedLinks(m1, h, t, c0, p, idx, m2, h2, t2);
    forall j | 0 <= j < |fc| ensures m2[fc[j]] == m1[fc[j]] {
      if p > 0 { assert c0[p - 1] != fc[j]; }
      if p < |c0| { assert c0[p] != fc[j]; }
    }
    ThreadsKept(m1, m2, f, fc);
    ValuesSplice(m0, m2, c0, p, p, [idx], [m1[idx].val]);
  }

  lemma RemovedLinks(m0: seq<Node>, h: NodeIndex, t: NodeIndex, c0: seq<nat>,
                     p: nat, m2: seq<Node>, h2: NodeIndex, t2: NodeIndex)
    requires Threads(m0, h, c0) && BackThreads(m0, t, c0) && Distinct(c0) && p < |c0|
    requires |m2| == |m0|
    requires p > 0 ==> m2[c0[p - 1]] == m0[c0[p - 1]].(next := m0[c0[p]].next)
    requires p + 1 < |c0| ==> m2[c0[p + 1]] == m0[c0[p + 1]].(prev := m0[c0[p]].prev)
    requires forall i {:trigger m2[i]} :: 0 <= i < |m0| && Some(i) != Predecessor(c0, p) && Some(i) != Successor(c0, p) && i != c0[p] ==> m2[i] == m0[i]
    requires h2.Get() == (if p == 0 then Successor(c0, p) else FirstOf(c0))
    requires t2.Get() == (if p + 1 == |c0| then Predecessor(c0, p) else LastOf(c0))
    ensures var c := c0[..p] + c0[p + 1..]; Threads(m2, h2, c) && BackThreads(m2, t2, c)
  {
    var c := c0[..p] + c0[p + 1..];
    forall k: nat | k < |c| ensures NextLinked(m2, c, k) && PrevLinked(m2, c, k) {
      RemovedNextAt(m0, h, t, c0, p, m2, k);
      RemovedPrevAt(m0, h, t, c0, p, m2, k);
    }
  }

  lemma RemovedNextAt(m0: seq<Node>, h: NodeIndex, t: NodeIndex, c0: seq<nat>, p: nat, m2: seq<Node>, k: nat)
    requires Threads(m0, h, c0) && Distinct(c0) && p < |c0|
    requires |m2| == |m0|
    requires p > 0 ==> m2[c0[p - 1]] == m0[c0[p - 1]].(next := m0[c0[p]].next)
    requires p + 1 < |c0| ==> m2[c0[p + 1]] == m0[c0[p + 1]].(prev := m0[c0[p]].prev)
    requires forall i {:trigger m2[i]} :: 0 <= i < |m0| && Some(i) != Predecessor(c0, p) && Some(i) != Successor(c0, p) && i != c0[p] ==> m2[i] == m0[i]
    requires k + 1 < |c0|
    ensures NextLinked(m2, c0[..p] + c0[p + 1..], k)
  {
    var c := c0[..p] + c0[p + 1..];
    var k0 := if k < p then k else k + 1;
    assert c[k] == c0[k0] && c0[k0] != c0[p];
    if k + 1 < |c| { assert c[k + 1] == c0[if k + 1 < p then k + 1 else k + 2]; }
    assert NextLinked(m0, c0, k0);
    if k0 + 1 == p { assert NextLinked(m0, c0, p); }
  }

  lemma RemovedPrevAt(m0: seq<Node>, h: NodeIndex, t: NodeIndex, c0: seq<nat>, p: nat, m2: seq<Node>, k: nat)
    requires BackThreads(m0, t, c0) && Distinct(c0) && p < |c0|
    requires |m2| == |m0|
    requires p > 0 ==> m2[c0[p - 1]] == m0[c0[p - 1]].(next := m0[c0[p]].next)
    requires p + 1 < |c0| ==> m2[c0[p + 1]] == m0[c0[p + 1]].(prev := m0[c0[p]].prev)
    requires forall i {:trigger m2[i]} :: 0 <= i < |m0| && Some(i) != Predecessor(c0, p) && Some(i) != Successor(c0, p) && i != c0[p] ==> m2[i] == m0[i]
    requires k + 1 < |c0|
    ensures PrevLinked(m2, c0[..p] + c0[p + 1..], k)
  {
    var c := c0[..p] + c0[p + 1..];
    var k0 := if k < p then k else k + 1;
    assert c[k] == c0[k0] && c0[k0] != c0[p];
    if k > 0 { assert c[k - 1] == c0[if k - 1 < p then k - 1 else k]; }
    assert PrevLinked(m0, c0, k0);
    if k0 == p + 1 { assert PrevLinked(m0, c0, p); }
  }

  /** The node-level effect of unlinking position `p` and pushing its slot on the
      free list in front of `f`. */
  ghost predicate RemovedNodes(m0: seq<Node>, c0: seq<nat>, p: nat, f: NodeIndex, m3: seq<Node>)
    requires InMemory(m0, c0) && p < |c0|
  {
    && |m3| == |m0|
    && m3[c0[p]] == m0[c0[p]].(next := f)
    && (p > 0 ==> m3[c0[p - 1]] == m0[c0[p - 1]].(next := m0[c0[p]].next))
    && (p + 1 < |c0| ==> m3[c0[p + 1]] == m0[c0[p + 1]].(prev := m0[c0[p]].prev))
    && forall i {:trigger m3[i]} :: 0 <= i < |m0| && Some(i) != Predecessor(c0, p) && Some(i) != Successor(c0, p) && i != c0[p] ==> m3[i] == m0[i]
  }

  /** `remove` on values: the neighbours of position `p` (or `head`/`tail`) are
      pointed past it, and its slot goes on the front of the free list. */
  lemma LinkedAfterRemove(m0: seq<Node>, h: NodeIndex, t: NodeIndex, f: NodeIndex, c0: seq<nat>, fc: seq<nat>, p: nat)
    requires WellLinked(m0, h, t, f, c0, fc) && p < |c0|
    ensures var x := c0[p];
      var m2 := SetPrev(SetNext(m0, Predecessor(c0, p), m0[x].next), Successor(c0, p), m0[x].prev);
      var m3 := m2[x := m2[x].(next := f)];
      var c := c0[..p] + c0[p + 1..];
      && m2[x] == m0[x]
      && WellLinked(m3, if p > 0 then h else m0[x].next, if p + 1 < |c0| then t else m0[x].prev, At(x), c, [x] + fc)
      && Values(m3, c) == Values(m0, c0)[..p] + Values(m0, c0)[p + 1..]
  {
    var x := c0[p];
    var m2 := SetPrev(SetNext(m0, Predecessor(c0, p), m0[x].next), Successor(c0, p), m0[x].prev);
    var m3 := m2[x := m2[x].(next := f)];
    if p > 0 { assert c0[p - 1] != x; }
    if p + 1 < |c0| { assert c0[p + 1] != x; }
    if p > 0 && p + 1 < |c0| { assert c0[p - 1] != c0[p + 1]; }
    assert RemovedNodes(m0, c0, p, f, m3);
    RemovedNodesLinked(m0, h, t, f, c0, fc, p, m3);
  }

  lemma RemovedNodesLinked(m0: seq<Node>, h: NodeIndex, t: NodeIndex, f: NodeIndex, c0: seq<nat>, fc: seq<nat>, p: nat, m3: seq<Node>)
    requires WellLinked(m0, h, t, f, c0, fc) && p < |c0|
    requires RemovedNodes(m0, c0, p, f, m3)
    ensures var x := c0[p];
      var c := c0[..p] + c0[p + 1..];
      && WellLinked(m3, if p > 0 then h else m0[x].next, if p + 1 < |c0| then t else m0[x].prev, At(x), c, [x] + fc)
      && Values(m3, c) == Values(m0, c0)[..p] + Values(m0, c0)[p + 1..]
  {
    var x := c0[p];
    var h2, t2 := if p > 0 then h else m0[x].next, if p + 1 < |c0| then t else m0[x].prev;
    assert NextLinked(m0, c0, p) && PrevLinked(m0, c0, p);
    RemovedOrder(c0, fc, p);
    RemovedLinks(m0, h, t, c0, p, m3, h2, t2);
    RemovedFreeList(m0, f, c0, fc, p, m3);
    RemovedValues(m0, c0, p, f, m3);
  }

  /** The removed slot, linked to the old free list, heads the new one. */
  lemma RemovedFreeList(m0: seq<Node>, f: NodeIndex, c0: seq<nat>, fc: seq<nat>, p: nat, m3: seq<Node>)
    requires InMemory(m0, c0) && Distinct(c0) && Threads(m0, f, fc) && Disjoint(c0, fc) && p < |c0|
    requires RemovedNodes(m0, c0, p, f, m3)
    ensures Threads(m3, At(c0[p]), [c0[p]] + fc)
  {
    forall j | 0 <= j < |fc| ensures m3[fc[j]] == m0[fc[j]] {
      assert c0[p] != fc[j];
      if p > 0 { assert c0[p - 1] != fc[j]; }
      if p + 1 < |c0| { assert c0[p + 1] != fc[j]; }
    }
    ThreadsKept(m0, m3, f, fc);
    ThreadsCons(m3, c0[p], f, fc);
  }

  /** The slots left on the list keep their pieces. */
  lemma RemovedValues(m0: seq<Node>, c0: seq<nat>, p: nat, f: NodeIndex, m3: seq<Node>)
    requires InMemory(m0, c0) && Distinct(c0) && p < |c0|
    requires RemovedNodes(m0, c0, p, f, m3)
    ensures InMemory(m3, c0[..p] + c0[p + 1..])
    ensures Values(m3, c0[..p] + c0[p + 1..]) == Values(m0, c0)[..p] + Values(m0, c0)[p + 1..]
  {
    var c := c0[..p] + c0[p + 1..];
    forall k | 0 <= k < |c0| && (k < p || p + 1 <= k) ensures c0[k] < |m3| && m3[c0[k]].val == m0[c0[k]].val {
      assert c0[k] != c0[p];
    }
    assert c0[..p] + [] + c0[p + 1..] == c;
    forall k | 0 <= k < |c| ensures c[k] < |m3| {
      if k < p { assert c[k] == c0[k]; } else { assert c[k] == c0[k + 1]; }
    }
    ValuesSplice(m0, m3, c0, p, p + 1, [], []);
  }

  // ---------------------------------------------------------------------------

  /** `PieceList`: the node vector and its three indices. `Chain` lists the slots
      of the list from `head` to `tail`; `FreeChain` the slots of the free list. A
      slot may be on neither (the node left by `new` as written is). */
  class PieceList {
    var memory: seq<Node>
    var head: NodeIndex
    var tail: NodeIndex
    var free: NodeIndex

    ghost var Chain: seq<nat>
    ghost var FreeChain: seq<nat>

    ghost predicate Valid()
      reads this
    {
      WellLinked(memory, head, tail, free, Chain, FreeChain)
    }

    /** The pieces in list order: what `iter()` yields. */
    ghost function Contents(): (ps: seq<Piece>)
      reads this
      requires Valid()
      ensures |ps| == |Chain|
    {
      Values(memory, Chain)
    }

    /** `PieceList::new` as written: one node holding `val`, but `head` and `tail`
        are `with(0)`, the empty index, so the list reaches no node. */
    constructor (val: Piece)
      ensures Valid()
      ensures memory == [Node(val, Empty(), Empty())]
      ensures head == With(0) && tail == With(0) && free == Empty()
      ensures Chain == [] && FreeChain == [] && Contents() == []
    {
      memory := [Node(val, Empty(), Empty())];
      head := With(0);
      tail := With(0);
      free := Empty();
      Chain := [];
      FreeChain := [];
    }

    /** `PieceList::new` with `head` and `tail` designating slot 0, as the comment
        "PieceList is never empty" intends: the list holds exactly `val`. */
    constructor Single(val: Piece)
      ensures Valid()
      ensures memory == [Node(val, Empty(), Empty())]
      ensures head == At(0) && tail == At(0) && free == Empty()
      ensures Chain == [0] && FreeChain == [] && Contents() == [val]
    {
      memory := [Node(val, Empty(), Empty())];
      head := At(0);
      tail := At(0);
      free := Empty();
      Chain := [0];
      FreeChain := [];
    }

    /** `PieceList::iter`: an iterator positioned at `head`. */
    method Iter() returns (it: PieceIterator)
      requires Valid()
      ensures fresh(it) && it.list == this && it.idx == head
      ensures it.Valid() && it.Visited == 0
    {
      it := new PieceIterator(this);
    }

    /** The commented `cursor()`: a cursor before the first node. */
    method Cursor() returns (c: PieceCursor)
      requires Valid()
      ensures fresh(c) && c.list == this && c.Valid() && c.Position == 0
      ensures c.nextIdx == head && c.prevIdx == Empty()
    {
      c := new PieceCursor(this);
    }

    /** The slot-allocation step shared by the structural inserts: reuse the head of
        the free list, or push a new slot. The list itself is unchanged. */
    method Allocate(node: Node) returns (idx: nat)
      requires Valid()
      modifies this
      ensures Valid()
      ensures Chain == old(Chain) && head == old(head) && tail == old(tail)
      ensures idx < |memory| && memory[idx] == node
      ensures idx !in Chain && idx !in FreeChain
      ensures old(FreeChain) != [] ==>
        && idx == old(FreeChain)[0] && free == old(memory[idx].next)
        && FreeChain == old(FreeChain)[1..] && memory == old(memory)[idx := node]
      ensures old(FreeChain) == [] ==>
        && idx == old(|memory|) && free == old(free)
        && FreeChain == old(FreeChain) && memory == old(memory) + [node]
    {
      ghost var m0, fc0 := memory, FreeChain;
      if free.Get().Some? {
        idx := free.Get().value;
        assert NextLinked(memory, FreeChain, 0);
        ThreadsTail(memory, free, FreeChain);
        free := memory[idx].next;
        memory := memory[idx := node];
        FreeChain := FreeChain[1..];
        forall k | 0 <= k < |FreeChain| ensures FreeChain[k] != idx {
          assert fc0[k + 1] != fc0[0];
        }
      } else {
        idx := |memory|;
        memory := memory + [node];
      }
      forall k | 0 <= k < |Chain| ensures Chain[k] != idx {
        if fc0 != [] {
          assert fc0[0] == idx;
        } else {
          assert Chain[k] < |m0|;
        }
      }
      ThreadsKept(m0, memory, head, Chain);
      BackThreadsKept(m0, memory, tail, Chain);
      ThreadsKept(m0, memory, free, FreeChain);
      assert Disjoint(Chain, FreeChain) by {
        forall i, j | 0 <= i < |Chain| && 0 <= j < |FreeChain| ensures Chain[i] != FreeChain[j] {
          if fc0 != [] { assert FreeChain[j] == fc0[j + 1]; }
        }
      }
      assert Distinct(FreeChain) by {
        forall i, j | 0 <= i < j < |FreeChain| ensures FreeChain[i] != FreeChain[j] {
          if fc0 != [] { assert fc0[i + 1] != fc0[j + 1]; }
        }
      }
    }

    /** `pivot` stands for position `p` of the list: it is the node there, or a
        slot on neither list whose links still name that node's neighbours, as a
        pivot replaced by `insert_before` keeps them. */
    ghost predicate Shadows(pivot: nat, p: nat)
      reads this
    {
      && p < |Chain|
      && pivot < |memory|
      && pivot !in FreeChain
      && (pivot in Chain ==> pivot == Chain[p])
      && memory[pivot].next.Get() == Successor(Chain, p)
      && memory[pivot].prev.Get() == Predecessor(Chain, p)
    }

    /** The commented `insert_before(pivot, start, length, source)` as written: the
        new node copies the pivot's `prev` and `next`, and the neighbours are pointed
        at it, so it REPLACES the node the pivot stands for. A pivot on the list
        drops out of it, is not put on the free list, and keeps its old links, so
        it still stands for the same position afterwards. */
    method InsertBefore(pivot: nat, start: nat, length: nat, source: PieceSource, ghost p: nat) returns (idx: nat)
      requires Valid() && Shadows(pivot, p)
      modifies this
      ensures Valid()
      ensures idx < |memory| && |memory| >= old(|memory|)
      ensures memory[idx] == Node(Piece(start, length, source), old(memory[pivot].next), old(memory[pivot].prev))
      ensures old(FreeChain) != [] ==> idx == old(FreeChain)[0] && FreeChain == old(FreeChain)[1..]
      ensures old(FreeChain) == [] ==> idx == old(|memory|) && FreeChain == old(FreeChain)
      ensures Chain == old(Chain)[..p] + [idx] + old(Chain)[p + 1..]
      ensures Contents() == old(Contents())[..p] + [Piece(start, length, source)] + old(Contents())[p + 1..]
      ensures pivot !in Chain && memory[pivot] == old(memory[pivot]) && Shadows(pivot, p)
    {
      assert NextLinked(memory, Chain, p) && PrevLinked(memory, Chain, p);
      var pivotNode := memory[pivot];
      GetInvertsAt(pivotNode.next, memory[Chain[p]].next);
      GetInvertsAt(pivotNode.prev, memory[Chain[p]].prev);
      ghost var m0, c0 := memory, Chain;
      idx := Allocate(Node(Piece(start, length, source), pivotNode.next, pivotNode.prev));
      ghost var m1, h1, t1, f1, fc1 := memory, head, tail, free, FreeChain;
      assert pivot != idx && m1[pivot] == pivotNode;
      Relink(pivotNode.prev.Get(), pivotNode.next.Get(), At(idx), At(idx));
      Chain := c0[..p] + [idx] + c0[p + 1..];
      LinkedAfterReplace(m0, m1, h1, t1, f1, c0, fc1, p, idx);
      ShadowKept(c0, p, idx, pivot);
    }

    /** Insertion before a pivot as the arena's callers need it: the new node is
        linked between the pivot's predecessor and the pivot, or at the tail when
        there is no pivot (`None`). Allocation is that of `InsertBefore`. */
    method SpliceBefore(pivot: Option<nat>, start: nat, length: nat, source: PieceSource) returns (idx: nat)
      requires Valid() && (pivot.Some? ==> pivot.value in Chain)
      modifies this
      ensures Valid()
      ensures idx < |memory| && |memory| >= old(|memory|)
      ensures memory[idx].val == Piece(start, length, source)
      ensures old(FreeChain) != [] ==> idx == old(FreeChain)[0] && FreeChain == old(FreeChain)[1..]
      ensures old(FreeChain) == [] ==> idx == old(|memory|) && FreeChain == old(FreeChain)
      ensures var p := if pivot.Some? then PositionIn(old(Chain), pivot.value) else |old(Chain)|;
        && Chain == old(Chain)[..p] + [idx] + old(Chain)[p..]
        && Contents() == old(Contents())[..p] + [Piece(start, length, source)] + old(Contents())[p..]
    {
      var p := if pivot.Some? then PositionIn(Chain, pivot.value) else |Chain|;
      if pivot.Some? {
        assert PrevLinked(memory, Chain, p);
      }
      var prevIdx := if pivot.Some? then memory[pivot.value].prev else tail;
      ghost var m0, c0 := memory, Chain;
      idx := Allocate(Node(Piece(start, length, source), IndexOf(pivot), prevIdx));
      ghost var m1, h1, t1, f1, fc1 := memory, head, tail, free, FreeChain;
      Relink(prevIdx.Get(), pivot, At(idx), At(idx));
      Chain := c0[..p] + [idx] + c0[p..];
      LinkedAfterSplice(m0, m1, h1, t1, f1, c0, fc1, p, idx);
    }

    /** The commented `remove(elem)`: unlink `elem`, repair `head`/`tail` when it was
        an end, push it on the free list, and return the node as it was. */
    method Remove(elem: nat) returns (removed: Node)
      requires Valid() && elem in Chain
      modifies this
      ensures Valid()
      ensures removed == old(memory[elem])
      ensures |memory| == old(|memory|)
      ensures memory[elem] == old(memory[elem]).(next := old(free))
      ensures free == At(elem) && FreeChain == [elem] + old(FreeChain)
      ensures var p := PositionIn(old(Chain), elem);
        && Chain == old(Chain)[..p] + old(Chain)[p + 1..]
        && Contents() == old(Contents())[..p] + old(Contents())[p + 1..]
        && (p == 0 ==> head == old(memory[elem].next))
        && (p + 1 == |old(Chain)| ==> tail == old(memory[elem].prev))
    {
      var p := PositionIn(Chain, elem);
      assert NextLinked(memory, Chain, p) && PrevLinked(memory, Chain, p);
      ghost var m0, h0, t0, f0, c0, fc0 := memory, head, tail, free, Chain, FreeChain;
      var prevIdx := memory[elem].prev;
      var nextIdx := memory[elem].next;
      assert prevIdx.Get() == Predecessor(c0, p) && nextIdx.Get() == Successor(c0, p);
      LinkedAfterRemove(m0, h0, t0, f0, c0, fc0, p);
      ghost var m2 := SetPrev(SetNext(m0, Predecessor(c0, p), nextIdx), Successor(c0, p), prevIdx);
      ghost var m3 := m2[elem := m2[elem].(next := f0)];
      ghost var h3, t3 := if p > 0 then h0 else nextIdx, if p + 1 < |c0| then t0 else prevIdx;
      assert WellLinked(m3, h3, t3, At(elem), c0[..p] + c0[p + 1..], [elem] + fc0);
      Relink(prevIdx.Get(), nextIdx.Get(), nextIdx, prevIdx);
      removed := memory[elem];
      memory := memory[elem := memory[elem].(next := free)];
      free := At(elem);
      Chain := c0[..p] + c0[p + 1..];
      FreeChain := [elem] + FreeChain;
      assert memory == m3 && head == h3 && tail == t3;
    }

    /** The neighbour fix-up of `insert_before` and `remove`: the node `before`
        the gap gets `toNext` as its `next` (or `head` becomes `toNext` when there
        is none), and the node `after` it gets `toPrev` as its `prev` (or `tail`
        becomes `toPrev`). */
    method Relink(before: Option<nat>, after: Option<nat>, toNext: NodeIndex, toPrev: NodeIndex)
      requires before.Some? ==> before.value < |memory|
      requires after.Some? ==> after.value < |memory|
      modifies this
      ensures memory == SetPrev(SetNext(old(memory), before, toNext), after, toPrev)
      ensures head == (if before.Some? then old(head) else toNext)
      ensures tail == (if after.Some? then old(tail) else toPrev)
      ensures free == old(free) && Chain == old(Chain) && FreeChain == old(FreeChain)
    {
      match before {
        case Some(q) => memory := memory[q := memory[q].(next := toNext)];
        case None => head := toNext;
      }
      match after {
        case Some(r) => memory := memory[r := memory[r].(prev := toPrev)];
        case None => tail := toPrev;
      }
    }
  }

  /** `PieceIterator`: walks `next` links from `head`. `Visited` counts the pieces
      already yielded. */
  class PieceIterator {
    const list: PieceList
    var idx: NodeIndex
    ghost var Visited: nat

    ghost predicate Valid()
      reads this, list
    {
      && list.Valid()
      && Visited <= |list.Chain|
      && idx.Get() == (if Visited < |list.Chain| then Some(list.Chain[Visited]) else None)
    }

    constructor (list: PieceList)
      requires list.Valid()
      ensures this.list == list && idx == list.head && Visited == 0 && Valid()
    {
      this.list := list;
      idx := list.head;
      Visited := 0;
    }

    /** `Iterator::next`: the next piece of the list, or `None` at the end; the list
        is never changed. */
    method Next() returns (r: Option<Piece>)
      requires Valid()
      modifies this
      ensures Valid()
      ensures old(Visited) < |list.Chain| ==> r == Some(list.Contents()[old(Visited)]) && Visited == old(Visited) + 1
      ensures old(Visited) == |list.Chain| ==> r == None && Visited == old(Visited)
    {
      match idx.Get()
      case None =>
        r := None;
      case Some(i) =>
        assert NextLinked(list.memory, list.Chain, Visited);
        var result := list.memory[i];
        idx := result.next;
        Visited := Visited + 1;
        r := Some(result.val);
    }
  }

  /** The commented `PieceCursor`: a position between two nodes of the list, kept as
      the pair (next node, previous node). `Position` is the number of nodes before
      the cursor. */
  class PieceCursor {
    const list: PieceList
    var nextIdx: NodeIndex
    var prevIdx: NodeIndex
    ghost var Position: nat

    ghost predicate Valid()
      reads this, list
    {
      && list.Valid()
      && Position <= |list.Chain|
      && nextIdx.Get() == (if Position < |list.Chain| then Some(list.Chain[Position]) else None)
      && prevIdx.Get() == Predecessor(list.Chain, Position)
    }

    constructor (list: PieceList)
      requires list.Valid()
      ensures this.list == list && nextIdx == list.head && prevIdx == Empty()
      ensures Position == 0 && Valid()
    {
      this.list := list;
      nextIdx := list.head;
      prevIdx := Empty();
      Position := 0;
    }

    /** `PieceCursor::next`: step over the node after the cursor and return it. */
    method Next() returns (r: Option<Node>)
      requires Valid()
      modifies this
      ensures Valid()
      ensures old(Position) < |list.Chain| ==>
        && r == Some(list.memory[list.Chain[old(Position)]]) && Position == old(Position) + 1
        && r.value.val == list.Contents()[old(Position)]
      ensures old(Position) == |list.Chain| ==> r == None && Position == old(Position)
    {
      match nextIdx.Get()
      case None =>
        r := None;
      case Some(i) =>
        assert NextLinked(list.memory, list.Chain, Position);
        var result := list.memory[i];
        nextIdx, prevIdx := result.next, At(i);
        Position := Position + 1;
        r := Some(result);
    }

    /** `PieceCursor::prev`: step back over the node before the cursor and return it. */
    method Prev() returns (r: Option<Node>)
      requires Valid()
      modifies this
      ensures Valid()
      ensures old(Position) > 0 ==>
        r == Some(list.memory[list.Chain[old(Position) - 1]]) && Position == old(Position) - 1
      ensures old(Position) == 0 ==> r == None && Position == 0
    {
      match prevIdx.Get()
      case None =>
        r := None;
      case Some(i) =>
        assert PrevLinked(list.memory, list.Chain, Position - 1);
        var result := list.memory[i];
        nextIdx, prevIdx := At(i), result.prev;
        Position := Position - 1;
        r := Some(result);
    }

    /** `PieceCursor::remove_prev`: remove exactly the node before the cursor, which
        then stands between that node's former neighbours; nothing happens when
        there is no node before the cursor. */
    method RemovePrev()
      requires Valid()
      modifies this, list
      ensures Valid()
      ensures old(Position) > 0 ==>
        && Position == old(Position) - 1
        && list.Chain == old(list.Chain)[..Position] + old(list.Chain)[Position + 1..]
        && list.Contents() == old(list.Contents())[..Position] + old(list.Contents())[Position + 1..]
        && list.FreeChain == [old(list.Chain)[Position]] + old(list.FreeChain)
      ensures old(Position) == 0 ==> Position == 0 && unchanged(list)
    {
      match prevIdx.Get()
      case None =>
      case Some(i) =>
        ghost var c0 := list.Chain;
        ghost var k := Position - 1;
        PositionInDistinct(c0, k);
        assert NextLinked(list.memory, c0, k) && PrevLinked(list.memory, c0, k);
        var removed := list.Remove(i);
        nextIdx, prevIdx := removed.next, removed.prev;
        Position := k;
        if k < |list.Chain| { assert list.Chain[k] == c0[k + 1]; }
        if k > 0 { assert list.Chain[k - 1] == c0[k - 1]; }
    }

    /** The node after the cursor stands for position `Position` of the list (see
        `PieceList.Shadows`); the cursor's `insert_before` needs it. */
    ghost predicate Pivots()
      reads this, list
    {
      && list.Valid()
      && nextIdx.Get().Some?
      && list.Shadows(nextIdx.Get().value, Position)
    }

    /** A well-placed cursor with a node after it pivots on that node. */
    lemma ValidPivots()
      requires Valid() && Position < |list.Chain|
      ensures Pivots()
    {
      var c := list.Chain;
      assert NextLinked(list.memory, c, Position) && PrevLinked(list.memory, c, Position);
      assert c[Position] !in list.FreeChain by {
        forall j | 0 <= j < |list.FreeChain| ensures list.FreeChain[j] != c[Position] {
          assert Disjoint(c, list.FreeChain);
        }
      }
      forall q | 0 <= q < |c| && c[q] == c[Position] ensures q == Position {
        assert Distinct(c);
      }
    }

    /** `PieceCursor::insert_before` as written: it passes the node after the
        cursor to the list's `insert_before`, so the new node REPLACES that node
        rather than going before it. The cursor is left on the replaced node,
        now off the list, which still stands for the same position, so a second
        call replaces the new node in turn. With no node after the cursor, the
        list's `insert_before` panics on the empty index. */
    method InsertBefore(start: nat, length: nat, source: PieceSource)
      requires Pivots()
      modifies this, list
      ensures Pivots() && Position == old(Position)
      ensures nextIdx == old(nextIdx) && prevIdx == At(list.Chain[Position])
      ensures list.Chain == old(list.Chain)[..Position] + [list.Chain[Position]] + old(list.Chain)[Position + 1..]
      ensures list.Contents() == old(list.Contents())[..Position] + [Piece(start, length, source)] + old(list.Contents())[Position + 1..]
    {
      var pieceIdx := list.InsertBefore(nextIdx.Get().value, start, length, source, Position);
      prevIdx := At(pieceIdx);
    }

    /** Insertion at the cursor as `remove` needs it, over `SpliceBefore`: the new
        node goes just before the cursor, which then stands after it. */
    method SpliceBefore(start: nat, length: nat, source: PieceSource)
      requires Valid()
      modifies this, list
      ensures Valid()
      ensures Position == old(Position) + 1
      ensures |list.Chain| == |old(list.Chain)| + 1
      ensures list.Contents() == old(list.Contents())[..old(Position)] + [Piece(start, length, source)] + old(list.Contents())[old(Position)..]
    {
      ghost var c0 := list.Chain;
      if Position < |c0| {
        PositionInDistinct(c0, Position);
      }
      var pieceIdx := list.SpliceBefore(nextIdx.Get(), start, length, source);
      prevIdx := At(pieceIdx);
      Position := Position + 1;
      assert list.Chain[Position - 1] == pieceIdx;
      if Position < |list.Chain| {
        assert list.Chain[Position] == c0[Position - 1];
      }
    }
  }
}
