/**
 * The fallback name of a header that matches no field:
 * `re.sub(r'[^a-zA-Z0-9]+', '_', s).strip('_')`.
 */
module Slug {
  import opened Text

  /** A character of the class `[^a-zA-Z0-9]`; `_` is one of them. */
  predicate IsSeparator(c: char) {
    !IsAlnum(c)
  }

  predicate NoDoubleUnderscore(s: string) {
    forall i :: 0 <= i < |s| - 1 ==> !(s[i] == '_' && s[i + 1] == '_')
  }

  /** The shape every slug has. */
  predicate IsSlug(s: string) {
    && (forall c :: c in s ==> IsAlnum(c) || c == '_')
    && NoDoubleUnderscore(s)
    && (s == [] || (s[0] != '_' && s[|s| - 1] != '_'))
  }

  /** The alphanumeric characters of `s`, in order. */
  function Alnums(s: string): string {
    if s == [] then [] else (if IsAlnum(s[0]) then [s[0]] else []) + Alnums(s[1..])
  }

  /** `re.sub(r'[^a-zA-Z0-9]+', '_', s)`: each maximal run of separators becomes one `_`. */
  function CollapseRuns(s: string): (r: string)
    decreases |s|
    ensures forall c :: c in r ==> (IsAlnum(c) && c in s) || c == '_'
    ensures NoDoubleUnderscore(r)
    ensures s == [] <==> r == []
    ensures s != [] ==> r[0] == if IsAlnum(s[0]) then s[0] else '_'
  {
    if s == [] then []
    else if IsAlnum(s[0]) then
      var rest := CollapseRuns(s[1..]);
      assert forall i :: 1 <= i < |s| ==> s[i] == s[1..][i - 1];
      [s[0]] + rest
    else
      var t := TrimStart(s[1..], IsSeparator);
      var rest := CollapseRuns(t);
      assert forall i :: 0 <= i < |t| ==> t[i] == s[|s| - |t| + i];
      "_" + rest
  }

  /** The fallback name of a normalised header. */
  function CleanName(s: string): (r: string)
    ensures IsSlug(r)
    ensures forall c :: c in r ==> c in s || c == '_'
  {
    StrippedCollapseIsSlug(CollapseRuns(s));
    Strip(CollapseRuns(s), IsUnderscore)
  }

  lemma StrippedCollapseIsSlug(collapsed: string)
    requires forall c :: c in collapsed ==> IsAlnum(c) || c == '_'
    requires NoDoubleUnderscore(collapsed)
    ensures IsSlug(Strip(collapsed, IsUnderscore))
    ensures forall c :: c in Strip(collapsed, IsUnderscore) ==> c in collapsed
  {
    var front := TrimStart(collapsed, IsUnderscore);
    SliceKeepsNoDoubleUnderscore(collapsed, |collapsed| - |front|, |collapsed|);
    var r := Strip(collapsed, IsUnderscore);
    assert r == TrimEnd(front, IsUnderscore);
    SliceKeepsNoDoubleUnderscore(front, 0, |r|);
    assert forall c :: c in r ==> c in front;
    assert forall c :: c in front ==> c in collapsed;
  }

  lemma CleanNameTrims(s: string)
    ensures CleanName(s) == TrimEnd(TrimStart(CollapseRuns(s), IsUnderscore), IsUnderscore)
  {
  }

  lemma SliceKeepsNoDoubleUnderscore(s: string, a: nat, b: nat)
    requires a <= b <= |s| && NoDoubleUnderscore(s)
    ensures NoDoubleUnderscore(s[a..b])
  {
    var r := s[a..b];
    forall i | 0 <= i < |r| - 1 ensures !(r[i] == '_' && r[i + 1] == '_') {
      assert r[i] == s[a + i] && r[i + 1] == s[a + i + 1];
    }
  }

  lemma {:induction false} AlnumsAppend(a: string, b: string)
    ensures Alnums(a + b) == Alnums(a) + Alnums(b)
  {
    if a == [] {
      assert a + b == b;
    } else {
      var head := if IsAlnum(a[0]) then [a[0]] else [];
      assert (a + b)[0] == a[0] && (a + b)[1..] == a[1..] + b;
      assert Alnums(a + b) == head + Alnums(a[1..] + b);
      AlnumsAppend(a[1..], b);
      assert Alnums(a) == head + Alnums(a[1..]);
    }
  }

  lemma {:induction false} AlnumsOfSeparators(s: string)
    requires forall i :: 0 <= i < |s| ==> IsSeparator(s[i])
    ensures Alnums(s) == []
  {
    if s != [] {
      AlnumsOfSeparators(s[1..]);
    }
  }

  /** Collapsing separator runs keeps every letter and digit, in order. */
  lemma {:induction false} CollapseKeepsAlnums(s: string)
    ensures Alnums(CollapseRuns(s)) == Alnums(s)
    decreases |s|
  {
    if s != [] {
      if IsAlnum(s[0]) {
        CollapseKeepsAlnums(s[1..]);
        AlnumsAppend([s[0]], CollapseRuns(s[1..]));
      } else {
        var t := TrimStart(s[1..], IsSeparator);
        CollapseKeepsAlnums(t);
        AlnumsAppend("_", CollapseRuns(t));
        SeparatorRunHasNoAlnums(s);
      }
    }
  }

  /** A leading run of separators holds no letter or digit. */
  lemma SeparatorRunHasNoAlnums(s: string)
    requires s != [] && IsSeparator(s[0])
    ensures Alnums(s) == Alnums(TrimStart(s[1..], IsSeparator))
  {
    var t := TrimStart(s[1..], IsSeparator);
    var skipped := s[1..][..|s| - 1 - |t|];
    assert s[1..] == skipped + t;
    AlnumsOfSeparators(skipped);
    AlnumsAppend(skipped, t);
    assert Alnums(s) == Alnums(s[1..]);
  }

  lemma TrimStartKeepsAlnums(x: string)
    ensures Alnums(TrimStart(x, IsUnderscore)) == Alnums(x)
  {
    var front := TrimStart(x, IsUnderscore);
    var lead := x[..|x| - |front|];
    assert x == lead + front;
    AlnumsOfSeparators(lead);
    AlnumsAppend(lead, front);
  }

  lemma TrimEndKeepsAlnums(x: string)
    ensures Alnums(TrimEnd(x, IsUnderscore)) == Alnums(x)
  {
    var r := TrimEnd(x, IsUnderscore);
    var trail := x[|r|..];
    assert x == r + trail;
    AlnumsOfSeparators(trail);
    AlnumsAppend(r, trail);
  }

  /** The slug holds exactly the header's letters and digits, in order. */
  lemma SlugKeepsAlnums(s: string)
    ensures Alnums(CleanName(s)) == Alnums(s)
  {
    var collapsed := CollapseRuns(s);
    CollapseKeepsAlnums(s);
    TrimStartKeepsAlnums(collapsed);
    TrimEndKeepsAlnums(TrimStart(collapsed, IsUnderscore));
  }

  /** A string already in slug form (bar the outer underscores) is left as it is by the collapse. */
  lemma {:induction false} CollapseFixesCleanText(s: string)
    requires forall c :: c in s ==> IsAlnum(c) || c == '_'
    requires NoDoubleUnderscore(s)
    ensures CollapseRuns(s) == s
    decreases |s|
  {
    if s != [] {
      var rest := s[1..];
      SliceKeepsNoDoubleUnderscore(s, 1, |s|);
      assert forall c :: c in rest ==> c in s;
      CollapseFixesCleanText(rest);
      if IsAlnum(s[0]) {
        assert CollapseRuns(s) == [s[0]] + CollapseRuns(rest);
      } else {
        assert s[0] == '_';
        assert rest == [] || (rest[0] == s[1] && s[1] in s && s[1] != '_');
        assert TrimStart(rest, IsSeparator) == rest;
        assert CollapseRuns(s) == "_" + CollapseRuns(rest);
      }
      assert s == [s[0]] + rest;
    }
  }

  /** A word that ends in a letter or digit collapses to one ending in that character. */
  lemma {:induction false} CollapseKeepsLast(s: string)
    requires s != [] && IsAlnum(s[|s| - 1])
    ensures CollapseRuns(s) != [] && CollapseRuns(s)[|CollapseRuns(s)| - 1] == s[|s| - 1]
    decreases |s|
  {
    if |s| == 1 {
      assert CollapseRuns(s) == [s[0]] + CollapseRuns([]);
    } else if IsAlnum(s[0]) {
      assert s[1..][|s| - 2] == s[|s| - 1];
      CollapseKeepsLast(s[1..]);
      assert CollapseRuns(s) == [s[0]] + CollapseRuns(s[1..]);
    } else {
      var t := TrimStart(s[1..], IsSeparator);
      assert s[1..][|s| - 2] == s[|s| - 1];
      assert t != [] && t[|t| - 1] == s[|s| - 1];
      CollapseKeepsLast(t);
      assert CollapseRuns(s) == "_" + CollapseRuns(t);
    }
  }

  /**
   * The collapse works run by run: cutting a string just after a letter or
   * digit never cuts a separator run, so the two parts collapse on their own.
   */
  lemma {:induction false} CollapseAppend(u: string, y: string)
    requires u == [] || IsAlnum(u[|u| - 1])
    ensures CollapseRuns(u + y) == CollapseRuns(u) + CollapseRuns(y)
    decreases |u|
  {
    if u == [] {
      assert u + y == y;
    } else if IsAlnum(u[0]) {
      CollapseAppend(u[1..], y);
      CollapseWordHead(u, y);
      var a, b := CollapseRuns(u[1..]), CollapseRuns(y);
      Regroup([u[0]], a, b);
    } else {
      var t := TrimStart(u[1..], IsSeparator);
      assert u[1..][|u| - 2] == u[|u| - 1];
      assert t != [] && t[|t| - 1] == u[|u| - 1];
      CollapseAppend(t, y);
      CollapseSeparatorHead(u, y);
      var a, b := CollapseRuns(t), CollapseRuns(y);
      Regroup("_", a, b);
    }
  }

  /**
   * Where the underscores go: a run of separators between a word ending in
   * a letter or digit and one starting with a letter or digit becomes exactly
   * one `_`, and the two sides collapse independently.
   */
  lemma CollapseSplits(u: string, w: string, v: string)
    requires u == [] || IsAlnum(u[|u| - 1])
    requires w != [] && forall i :: 0 <= i < |w| ==> IsSeparator(w[i])
    requires v == [] || IsAlnum(v[0])
    ensures CollapseRuns(u + w + v) == CollapseRuns(u) + "_" + CollapseRuns(v)
  {
    CollapseAppend(u, w + v);
    CollapseSeparatorsThenWord(w, v);
    Regroup(u, w, v);
    Regroup(CollapseRuns(u), "_", CollapseRuns(v));
  }

  lemma CollapseSeparatorsThenWord(w: string, v: string)
    requires w != [] && forall i :: 0 <= i < |w| ==> IsSeparator(w[i])
    requires v == [] || IsAlnum(v[0])
    ensures CollapseRuns(w + v) == "_" + CollapseRuns(v)
  {
    var y := w + v;
    assert y[0] == w[0] && y[1..] == w[1..] + v;
    forall i | 0 <= i < |w| - 1 ensures IsSeparator(w[1..][i]) {
      assert w[1..][i] == w[i + 1];
    }
    TrimStartSkips(w[1..], v, IsSeparator);
    assert TrimStart(v, IsSeparator) == v;
    assert CollapseRuns(y) == "_" + CollapseRuns(TrimStart(y[1..], IsSeparator));
  }

  lemma CollapseWordHead(u: string, y: string)
    requires u != [] && IsAlnum(u[0])
    ensures CollapseRuns(u + y) == [u[0]] + CollapseRuns(u[1..] + y)
  {
    assert (u + y)[0] == u[0] && (u + y)[1..] == u[1..] + y;
  }

  /** A separator run that stops inside `u` stops there whatever follows `u`. */
  lemma CollapseSeparatorHead(u: string, y: string)
    requires u != [] && !IsAlnum(u[0]) && TrimStart(u[1..], IsSeparator) != []
    ensures CollapseRuns(u + y) == "_" + CollapseRuns(TrimStart(u[1..], IsSeparator) + y)
  {
    assert (u + y)[0] == u[0] && (u + y)[1..] == u[1..] + y;
    TrimStartStops(u[1..], y, IsSeparator);
  }

  /**
   * The slug joins the words of a header with single underscores: a
   * separator run between two words becomes one `_` in the slug.
   */
  lemma CleanNameSplits(u: string, w: string, v: string)
    requires u != [] && IsAlnum(u[|u| - 1])
    requires w != [] && forall i :: 0 <= i < |w| ==> IsSeparator(w[i])
    requires v != [] && IsAlnum(v[0])
    ensures CleanName(u + w + v) == CleanName(u) + "_" + CleanName(v)
  {
    CollapseSplits(u, w, v);
    CollapseKeepsLast(u);
    var cu, cv := CollapseRuns(u), CollapseRuns(v);
    TrimsAroundJoint(cu, "_", cv, IsUnderscore);
    CleanNameTrims(u + w + v);
    CleanNameTrims(u);
    CleanNameTrims(v);
  }

  /** Outer separator runs collapse to at most one `_` on either side. */
  lemma CollapseOuterSeparators(w1: string, s: string, w2: string)
    requires forall i :: 0 <= i < |w1| ==> IsSeparator(w1[i])
    requires s != [] && IsAlnum(s[0]) && IsAlnum(s[|s| - 1])
    requires forall i :: 0 <= i < |w2| ==> IsSeparator(w2[i])
    ensures CollapseRuns(w1 + s + w2)
      == (if w1 == [] then "" else "_") + (CollapseRuns(s) + (if w2 == [] then "" else "_"))
  {
    var cs := CollapseRuns(s);
    var tail := if w2 == [] then "" else "_";
    CollapseAppend(s, w2);
    assert CollapseRuns(s + w2) == cs + tail by {
      if w2 != [] {
        CollapseSeparatorsThenWord(w2, []);
        assert w2 + [] == w2;
      }
    }
    Regroup(w1, s, w2);
    if w1 == [] {
      assert w1 + (s + w2) == s + w2;
    } else {
      CollapseSeparatorsThenWord(w1, s + w2);
    }
  }

  /** Separators before the first word and after the last one leave no trace in the slug. */
  lemma CleanNameDropsOuterSeparators(w1: string, s: string, w2: string)
    requires forall i :: 0 <= i < |w1| ==> IsSeparator(w1[i])
    requires s != [] && IsAlnum(s[0]) && IsAlnum(s[|s| - 1])
    requires forall i :: 0 <= i < |w2| ==> IsSeparator(w2[i])
    ensures CleanName(w1 + s + w2) == CleanName(s)
  {
    var cs := CollapseRuns(s);
    CollapseKeepsLast(s);
    var head := if w1 == [] then "" else "_";
    var tail := if w2 == [] then "" else "_";
    CollapseOuterSeparators(w1, s, w2);
    TrimsPadding(head, cs, tail, IsUnderscore);
    CleanNameTrims(w1 + s + w2);
    CleanNameTrims(s);
    TrimsNothing(cs, IsUnderscore);
  }

  /**
   * A word of letters and digits, with at most the inner position `k`
   * holding an underscore instead, is a slug of word characters.
   */
  lemma SlugWord(s: string, k: nat)
    requires 0 < k < |s| - 1
    requires forall i :: 0 <= i < |s| && i != k ==> IsAlnum(s[i])
    requires IsWordChar(s[k])
    ensures IsSlug(s)
    ensures forall c :: c in s ==> IsWordChar(c)
  {
    forall i | 0 <= i < |s| - 1 ensures !(s[i] == '_' && s[i + 1] == '_') {
      assert i != k ==> IsAlnum(s[i]);
    }
  }

  /** A slug is its own slug. */
  lemma SlugFixesSlugs(s: string)
    requires IsSlug(s)
    ensures CleanName(s) == s
  {
    CollapseFixesCleanText(s);
    assert TrimStart(s, IsUnderscore) == s;
    assert TrimEnd(s, IsUnderscore) == s;
  }

  lemma SlugIdempotent(s: string)
    ensures CleanName(CleanName(s)) == CleanName(s)
  {
    SlugFixesSlugs(CleanName(s));
  }

  /** The slug of a normalised header uses only `[a-z0-9_]`. */
  lemma HeaderSlugCharacters(header: string)
    ensures forall c :: c in CleanName(Normalize(header)) ==> 'a' <= c <= 'z' || '0' <= c <= '9' || c == '_'
  {
  }
}
