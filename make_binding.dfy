/** The `make_binding!` procedural macro of rust-macros/src/lib.rs: a binding
    specification such as "CTRL | s, q" becomes the keys "sq" and one modifier
    mask per `|`-separated component, here [CTRL, 0, 0]. */
module BindingMacro {
  import opened Seqs
  import opened Text

  const CTRL: bv32 := 1 << 0
  const SHIFT: bv32 := 1 << 1
  const ALT: bv32 := 1 << 2

  predicate IsModifierName(component: string)
  {
    component == "CTRL" || component == "SHIFT" || component == "ALT"
  }

  /** The mask one component contributes: `modif` starts at zero for every
      component and at most one bit is set into it. */
  function Modif(component: string): (m: bv32)
    ensures m == 0 || m == CTRL || m == SHIFT || m == ALT
    ensures m != 0 <==> IsModifierName(component)
  {
    var modif: bv32 := 0;
    if component == "CTRL" then modif | CTRL
    else if component == "SHIFT" then modif | SHIFT
    else if component == "ALT" then modif | ALT
    else modif
  }

  /** What one component adds to the keys: itself unless it names a modifier. */
  function KeyPart(component: string): string
  {
    if IsModifierName(component) then [] else component
  }

  /** `map(str::trim)`. */
  function TrimAll(ss: seq<string>): (r: seq<string>)
    ensures |r| == |ss|
    decreases |ss|
  {
    if ss == [] then [] else [Trim(ss[0])] + TrimAll(ss[1..])
  }

  lemma {:induction false} TrimAllAt(ss: seq<string>, i: nat)
    requires i < |ss|
    ensures TrimAll(ss)[i] == Trim(ss[i])
    decreases i
  {
    if i > 0 {
      TrimAllAt(ss[1..], i - 1);
    }
  }

  /** Parts that trim alike give the same trimmed list. */
  lemma {:induction false} TrimAllAlike(a: seq<string>, b: seq<string>)
    requires |a| == |b| && forall i :: 0 <= i < |a| ==> Trim(a[i]) == Trim(b[i])
    ensures TrimAll(a) == TrimAll(b)
    decreases |a|
  {
    if a != [] {
      assert Trim(a[0]) == Trim(b[0]);
      forall i | 0 <= i < |a| - 1 ensures Trim(a[1..][i]) == Trim(b[1..][i]) {
        assert a[1..][i] == a[i + 1] && b[1..][i] == b[i + 1];
      }
      TrimAllAlike(a[1..], b[1..]);
    }
  }

  /** The trimmed bindings of a specification: its `,`-separated parts. */
  function Bindings(value: string): seq<string>
  {
    TrimAll(Split(value, ','))
  }

  /** The trimmed components of one binding: its `|`-separated parts. */
  function ComponentsOf(binding: string): seq<string>
  {
    TrimAll(Split(binding, '|'))
  }

  /** The components of a series of bindings, in order. */
  function Components(bindings: seq<string>): seq<string>
    decreases |bindings|
  {
    if bindings == [] then [] else ComponentsOf(bindings[0]) + Components(bindings[1..])
  }

  /** Every component of a specification, in the order the loops visit them. */
  function AllComponents(value: string): seq<string>
  {
    Components(Bindings(value))
  }

  /** The keys: the components that are not modifier names, run together. */
  function KeysOf(components: seq<string>): (r: string)
    ensures |r| <= |Flatten(components)|
    decreases |components|
  {
    if components == [] then [] else KeyPart(components[0]) + KeysOf(components[1..])
  }

  /** The masks: exactly one per component, in order. */
  function ModifsOf(components: seq<string>): (r: seq<bv32>)
    ensures |r| == |components|
    decreases |components|
  {
    if components == [] then [] else [Modif(components[0])] + ModifsOf(components[1..])
  }

  /** The `i`th mask is the one of the `i`th component. */
  lemma {:induction false} ModifsAt(components: seq<string>, i: nat)
    requires i < |components|
    ensures ModifsOf(components)[i] == Modif(components[i])
    decreases i
  {
    if i > 0 {
      ModifsAt(components[1..], i - 1);
    }
  }

  /** `make_binding` without the token-stream conversions: the two nested
      loops over the bindings and their components. */
  method MakeBinding(value: string) returns (keys: string, modifs: seq<bv32>)
    ensures keys == KeysOf(AllComponents(value))
    ensures modifs == ModifsOf(AllComponents(value))
  {
    var bindings := Bindings(value);
    keys := [];
    modifs := [];
    for i := 0 to |bindings|
      invariant keys == KeysOf(Components(bindings[..i]))
      invariant modifs == ModifsOf(Components(bindings[..i]))
    {
      var components := ComponentsOf(bindings[i]);
      ghost var before := Components(bindings[..i]);
      assert before + components[..0] == before;
      for j := 0 to |components|
        invariant keys == KeysOf(before + components[..j])
        invariant modifs == ModifsOf(before + components[..j])
      {
        var component := components[j];
        ghost var done := before + components[..j];
        ghost var keys0 := keys;
        var modif: bv32 := 0;
        if component == "CTRL" {
          modif := modif | CTRL;
        } else if component == "SHIFT" {
          modif := modif | SHIFT;
        } else if component == "ALT" {
          modif := modif | ALT;
        } else {
          keys := keys + component;
        }
        modifs := modifs + [modif];
        assert modif == Modif(component) && keys == keys0 + KeyPart(component);
        ComponentStep(done, component);
        PrefixSnoc(before, components, j);
      }
      assert before + components[..|components|] == Components(bindings[..i + 1]) by {
        assert components[..|components|] == components;
        ComponentsSnoc(bindings[..i], bindings[i]);
        PrefixSnoc([], bindings, i);
      }
    }
    assert bindings[..|bindings|] == bindings;
  }

  /** One more component adds its key part and its mask. */
  lemma ComponentStep(done: seq<string>, component: string)
    ensures KeysOf(done + [component]) == KeysOf(done) + KeyPart(component)
    ensures ModifsOf(done + [component]) == ModifsOf(done) + [Modif(component)]
  {
    KeysConcat(done, [component]);
    KeysCons(component, []);
    ModifsConcat(done, [component]);
    assert ModifsOf([component]) == [Modif(component)] + ModifsOf([]);
  }

  lemma {:induction false} ModifsConcat(a: seq<string>, b: seq<string>)
    ensures ModifsOf(a + b) == ModifsOf(a) + ModifsOf(b)
    decreases |a|
  {
    if a == [] {
      assert a + b == b;
    } else {
      assert (a + b)[0] == a[0];
      assert (a + b)[1..] == a[1..] + b;
      ModifsConcat(a[1..], b);
    }
  }

  // ---------------------------------------------------------------------------
  // The keys are the non-modifier components in order.

  lemma {:induction false} KeysConcat(a: seq<string>, b: seq<string>)
    ensures KeysOf(a + b) == KeysOf(a) + KeysOf(b)
    decreases |a|
  {
    if a == [] {
      assert a + b == b;
    } else {
      assert (a + b)[0] == a[0];
      assert (a + b)[1..] == a[1..] + b;
      KeysConcat(a[1..], b);
    }
  }

  lemma KeysCons(c: string, rest: seq<string>)
    ensures KeysOf([c] + rest) == KeyPart(c) + KeysOf(rest)
  {
    assert ([c] + rest)[1..] == rest;
  }

  lemma KeysAround(pre: seq<string>, c: string, post: seq<string>)
    requires !IsModifierName(c)
    ensures KeysOf(pre + [c] + post) == KeysOf(pre) + c + KeysOf(post)
  {
    assert pre + [c] + post == pre + ([c] + post);
    KeysConcat(pre, [c] + post);
    KeysCons(c, post);
  }

  /** Each non-modifier component appears in the keys between the keys of the
      components before it and those of the components after it. */
  lemma KeysInOrder(components: seq<string>, i: nat)
    requires i < |components| && !IsModifierName(components[i])
    ensures KeysOf(components) == KeysOf(components[..i]) + components[i] + KeysOf(components[i + 1..])
  {
    SplitAt(components, i);
    KeysAround(components[..i], components[i], components[i + 1..]);
  }

  /** Modifier names never reach the keys. */
  lemma {:induction false} KeysOfModifiers(components: seq<string>)
    requires forall i :: 0 <= i < |components| ==> IsModifierName(components[i])
    ensures KeysOf(components) == []
    decreases |components|
  {
    if components != [] {
      assert IsModifierName(components[0]);
      KeysOfModifiers(components[1..]);
    }
  }

  lemma {:induction false} ComponentsConcat(a: seq<string>, b: seq<string>)
    ensures Components(a + b) == Components(a) + Components(b)
    decreases |a|
  {
    if a == [] {
      assert a + b == b;
    } else {
      assert (a + b)[0] == a[0];
      assert (a + b)[1..] == a[1..] + b;
      ComponentsConcat(a[1..], b);
    }
  }

  lemma ComponentsSnoc(a: seq<string>, b: string)
    ensures Components(a + [b]) == Components(a) + ComponentsOf(b)
  {
    ComponentsConcat(a, [b]);
    assert Components([b]) == ComponentsOf(b) + Components([]);
  }

  // ---------------------------------------------------------------------------
  // One mask per component: as many as there are '|' and ',' separators, plus one.

  function Count(s: string, x: char): nat
    decreases |s|
  {
    if s == [] then 0 else (if s[0] == x then 1 else 0) + Count(s[1..], x)
  }

  lemma {:induction false} CountConcat(a: string, b: string, x: char)
    ensures Count(a + b, x) == Count(a, x) + Count(b, x)
    decreases |a|
  {
    if a == [] {
      assert a + b == b;
    } else {
      assert (a + b)[0] == a[0];
      assert (a + b)[1..] == a[1..] + b;
      CountConcat(a[1..], b, x);
    }
  }

  lemma {:induction false} CountWhitespace(s: string, x: char)
    requires AllWhitespace(s) && !IsWhitespace(x)
    ensures Count(s, x) == 0
    decreases |s|
  {
    if s != [] {
      assert AllWhitespace(s[1..]) by {
        forall i | 0 <= i < |s[1..]| ensures IsWhitespace(s[1..][i]) {
          assert s[1..][i] == s[i + 1];
        }
      }
      CountWhitespace(s[1..], x);
    }
  }

  lemma TrimStartKeepsCount(s: string, x: char)
    requires !IsWhitespace(x)
    ensures Count(TrimStart(s), x) == Count(s, x)
  {
    var k := |s| - |TrimStart(s)|;
    SliceSplit(s, k);
    CountConcat(s[..k], s[k..], x);
    CountWhitespace(s[..k], x);
  }

  lemma TrimEndKeepsCount(s: string, x: char)
    requires !IsWhitespace(x)
    ensures Count(TrimEnd(s), x) == Count(s, x)
  {
    var k := |TrimEnd(s)|;
    SliceSplit(s, k);
    CountConcat(s[..k], s[k..], x);
    CountWhitespace(s[k..], x);
  }

  /** Trimming removes only white space, so it keeps every other character. */
  lemma TrimKeepsCount(s: string, x: char)
    requires !IsWhitespace(x)
    ensures Count(Trim(s), x) == Count(s, x)
  {
    TrimBothEnds(s);
    TrimStartKeepsCount(s, x);
    TrimEndKeepsCount(TrimStart(s), x);
  }

  /** A split has one more part than the input has separators. */
  lemma {:induction false} SplitCount(s: string, sep: char)
    ensures |Split(s, sep)| == Count(s, sep) + 1
    decreases |s|
  {
    if s != [] {
      SplitCount(s[1..], sep);
    }
  }

  /** The occurrences of `x` in all the parts together. */
  function CountIn(parts: seq<string>, x: char): nat
    decreases |parts|
  {
    if parts == [] then 0 else Count(parts[0], x) + CountIn(parts[1..], x)
  }

  /** Splitting on one separator keeps every other character in some part. */
  lemma {:induction false} SplitKeepsOthers(s: string, sep: char, x: char)
    requires x != sep
    ensures CountIn(Split(s, sep), x) == Count(s, x)
    decreases |s|
  {
    if s != [] {
      var rest := Split(s[1..], sep);
      SplitKeepsOthers(s[1..], sep, x);
      if s[0] == sep {
        assert ([[]] + rest)[1..] == rest;
      } else {
        var parts := [[s[0]] + rest[0]] + rest[1..];
        assert parts[1..] == rest[1..];
        assert ([s[0]] + rest[0])[1..] == rest[0];
      }
    }
  }

  /** The components of the trimmed bindings number the '|' in the untrimmed
      bindings plus one per binding. */
  lemma {:induction false} ComponentsCount(raw: seq<string>)
    ensures |Components(TrimAll(raw))| == CountIn(raw, '|') + |raw|
    decreases |raw|
  {
    if raw != [] {
      var b := TrimAll(raw);
      assert b[1..] == TrimAll(raw[1..]);
      ComponentsCount(raw[1..]);
      SplitCount(b[0], '|');
      TrimKeepsCount(raw[0], '|');
    }
  }

  /** `modifs` has one entry per component: one more than the number of '|'
      and ',' separators in the specification. */
  lemma ModifsCount(value: string)
    ensures |ModifsOf(AllComponents(value))| == Count(value, '|') + Count(value, ',') + 1
  {
    var raw := Split(value, ',');
    ComponentsCount(raw);
    SplitCount(value, ',');
    SplitKeepsOthers(value, ',', '|');
  }

  // ---------------------------------------------------------------------------
  // White space around a binding or a component changes nothing.

  lemma {:induction false} SplitPrefix(w: string, s: string, sep: char)
    requires sep !in w
    ensures var p := Split(s, sep); Split(w + s, sep) == [w + p[0]] + p[1..]
    decreases |w|
  {
    var p := Split(s, sep);
    if w == [] {
      assert w + s == s;
      assert w + p[0] == p[0];
      assert [w + p[0]] + p[1..] == p;
    } else {
      assert (w + s)[0] == w[0];
      assert (w + s)[1..] == w[1..] + s;
      SplitPrefix(w[1..], s, sep);
      assert [w[0]] + (w[1..] + p[0]) == w + p[0];
    }
  }

  /** Text without the separator added at the end joins the last part. */
  predicate SuffixJoinsLast(s: string, w: string, sep: char)
  {
    var p := Split(s, sep);
    Split(s + w, sep) == p[..|p| - 1] + [p[|p| - 1] + w]
  }

  lemma {:induction false} SplitSuffix(s: string, w: string, sep: char)
    requires sep !in w
    ensures SuffixJoinsLast(s, w, sep)
    decreases |s|
  {
    if s == [] {
      assert s + w == w + [];
      SplitPrefix(w, [], sep);
    } else {
      SplitSuffix(s[1..], w, sep);
      assert (s + w)[0] == s[0];
      assert (s + w)[1..] == s[1..] + w;
      if s[0] == sep {
        SuffixAfterSeparator(s, w, sep);
      } else {
        SuffixAfterOther(s, w, sep);
      }
    }
  }

  lemma SuffixAfterSeparator(s: string, w: string, sep: char)
    requires s != [] && s[0] == sep && (s + w)[1..] == s[1..] + w
    requires SuffixJoinsLast(s[1..], w, sep)
    ensures SuffixJoinsLast(s, w, sep)
  {
    var q := Split(s[1..], sep);
    var p := Split(s, sep);
    assert p == [[]] + q;
    assert p[..|p| - 1] == [[]] + q[..|q| - 1];
  }

  lemma SuffixAfterOther(s: string, w: string, sep: char)
    requires s != [] && s[0] != sep && (s + w)[0] == s[0] && (s + w)[1..] == s[1..] + w
    requires SuffixJoinsLast(s[1..], w, sep)
    ensures SuffixJoinsLast(s, w, sep)
  {
    var q := Split(s[1..], sep);
    var r := Split(s[1..] + w, sep);
    var p := Split(s, sep);
    assert p == [[s[0]] + q[0]] + q[1..];
    if |q| == 1 {
      assert r == [q[0] + w];
      assert [s[0]] + (q[0] + w) == ([s[0]] + q[0]) + w;
    } else {
      assert r[0] == q[0];
      assert r[1..] == q[1..|q| - 1] + [q[|q| - 1] + w];
      assert p[..|p| - 1] == [[s[0]] + q[0]] + q[1..|q| - 1];
    }
  }

  lemma WhitespaceHasNoSeparator(w: string, sep: char)
    requires AllWhitespace(w) && !IsWhitespace(sep)
    ensures sep !in w
  {
  }

  /** A component means the same with white space around it. */
  lemma PaddedComponent(w1: string, c: string, w2: string)
    requires AllWhitespace(w1) && AllWhitespace(w2)
    ensures Modif(Trim(w1 + c + w2)) == Modif(Trim(c))
    ensures KeyPart(Trim(w1 + c + w2)) == KeyPart(Trim(c))
  {
    TrimPadded(w1, c, w2);
  }

  /** The parts of a padded binding: the padding joins the first and the
      last part. */
  lemma PaddedSplit(w1: string, b: string, w2: string)
    requires '|' !in w1 && '|' !in w2
    ensures var p := Split(b, '|'); var r := Split(w1 + b + w2, '|');
      && |r| == |p|
      && (|p| == 1 ==> r[0] == w1 + p[0] + w2)
      && (|p| > 1 ==> r[0] == w1 + p[0] && r[|p| - 1] == p[|p| - 1] + w2)
      && (forall i :: 0 < i < |p| - 1 ==> r[i] == p[i])
  {
    var p := Split(b, '|');
    SplitPrefix(w1, b, '|');
    var q := Split(w1 + b, '|');
    assert q == [w1 + p[0]] + p[1..];
    SplitSuffix(w1 + b, w2, '|');
    var r := Split(w1 + b + w2, '|');
    assert r == q[..|q| - 1] + [q[|q| - 1] + w2];
  }

  /** White space around a binding gives the same components. */
  lemma PaddedBinding(w1: string, b: string, w2: string)
    requires AllWhitespace(w1) && AllWhitespace(w2)
    ensures ComponentsOf(w1 + b + w2) == ComponentsOf(b)
  {
    WhitespaceHasNoSeparator(w1, '|');
    WhitespaceHasNoSeparator(w2, '|');
    var p := Split(b, '|');
    var r := Split(w1 + b + w2, '|');
    PaddedSplit(w1, b, w2);
    forall i | 0 <= i < |p| ensures Trim(r[i]) == Trim(p[i]) {
      PaddedPart(w1, w2, p, r, i);
    }
    TrimAllAlike(r, p);
  }

  lemma PaddedPart(w1: string, w2: string, p: seq<string>, r: seq<string>, i: nat)
    requires AllWhitespace(w1) && AllWhitespace(w2) && |r| == |p| && i < |p|
    requires |p| == 1 ==> r[0] == w1 + p[0] + w2
    requires |p| > 1 ==> r[0] == w1 + p[0] && r[|p| - 1] == p[|p| - 1] + w2
    requires forall k :: 0 < k < |p| - 1 ==> r[k] == p[k]
    ensures Trim(r[i]) == Trim(p[i])
  {
    if |p| == 1 {
      TrimPadded(w1, p[0], w2);
    } else if i == 0 {
      assert r[i] == w1 + p[0] + [];
      TrimPadded(w1, p[0], []);
    } else if i == |p| - 1 {
      assert r[i] == [] + p[i] + w2;
      TrimPadded([], p[i], w2);
    }
  }
}
