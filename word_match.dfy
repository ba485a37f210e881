/**
 * Whole-word keyword search, the test `re.search(r'\b' + k + r'\b', s)`
 * made on the normalised header for every keyword. The keyword is spliced
 * into the pattern unescaped; none of the table's keywords holds a regex
 * metacharacter, so each one matches itself literally.
 */
module WordMatch {
  import opened Text

  /** Position `p` of `s` holds a word character; outside `s` there is none. */
  predicate WordAt(s: string, p: int) {
    0 <= p < |s| && IsWordChar(s[p])
  }

  /** Regex `\b` at position `p`: word-ness differs on the two sides of `p`. */
  predicate IsBoundary(s: string, p: int) {
    WordAt(s, p - 1) != WordAt(s, p)
  }

  /** `\bk\b` matches `s` starting at index `i`. */
  predicate OccursAt(s: string, k: string, i: int) {
    && 0 <= i && i + |k| <= |s|
    && s[i..i + |k|] == k
    && IsBoundary(s, i) && IsBoundary(s, i + |k|)
  }

  ghost predicate ContainsWord(s: string, k: string) {
    exists i :: OccursAt(s, k, i)
  }

  /** Tries every start position from `i` on, as the regex engine's search does. */
  function SearchFrom(s: string, k: string, i: nat): (found: bool)
    decreases |s| - i
    ensures found <==> exists j :: i <= j && OccursAt(s, k, j)
  {
    if i > |s| then false else OccursAt(s, k, i) || SearchFrom(s, k, i + 1)
  }

  /** `re.search(r'\b' + k + r'\b', s) is not None`. */
  function Search(s: string, k: string): (found: bool)
    ensures found <==> ContainsWord(s, k)
  {
    SearchFrom(s, k, 0)
  }

  /** `any(re.search(r'\b' + k + r'\b', s) for k in ks)`. */
  function AnyKeyword(s: string, ks: seq<string>): (r: bool)
    ensures r <==> exists m :: 0 <= m < |ks| && ContainsWord(s, ks[m])
  {
    if ks == [] then false
    else
      var rest := AnyKeyword(s, ks[1..]);
      assert forall m :: 1 <= m < |ks| ==> ks[m] == ks[1..][m - 1];
      Search(s, ks[0]) || rest
  }

  /**
   * For a keyword made of word characters only, a match is the classic
   * whole-word occurrence: the keyword, with no word character right before
   * or right after it.
   */
  lemma {:induction false} WordKeywordOccurrence(s: string, k: string, i: int)
    requires k != [] && forall c :: c in k ==> IsWordChar(c)
    requires 0 <= i && i + |k| <= |s| && s[i..i + |k|] == k
    ensures OccursAt(s, k, i) <==> !WordAt(s, i - 1) && !WordAt(s, i + |k|)
  {
    assert s[i] == k[0] && k[0] in k;
    assert s[i + |k| - 1] == k[|k| - 1] && k[|k| - 1] in k;
  }

  /**
   * A keyword that ends in a non-word character, such as `fat_%`, matches
   * only where a word character follows it: the closing `\b` needs one.
   */
  lemma {:induction false} TrailingSymbolNeedsWordAfter(s: string, k: string, i: int)
    requires k != [] && !IsWordChar(k[|k| - 1])
    requires OccursAt(s, k, i)
    ensures i + |k| < |s| && IsWordChar(s[i + |k|])
  {
    assert s[i + |k| - 1] == s[i..i + |k|][|k| - 1];
  }

  /**
   * Underscore is a word character, so a keyword that starts with a word
   * character never matches right after an `_`: "id" is not found in "cow_id".
   */
  lemma {:induction false} UnderscoreGluesWords(s: string, k: string, i: int)
    requires k != [] && IsWordChar(k[0])
    requires 0 < i <= |s| && s[i - 1] == '_'
    ensures !OccursAt(s, k, i)
  {
  }

  /** In a string made of one word, a non-empty keyword matches only the whole string. */
  lemma OneWordMatchesOnlyItself(s: string, k: string, i: int)
    requires forall c :: c in s ==> IsWordChar(c)
    requires k != [] && OccursAt(s, k, i)
    ensures i == 0 && k == s
  {
    assert s[i] in s && WordAt(s, i);
    assert s[i + |k| - 1] in s && WordAt(s, i + |k| - 1);
  }

  /** A one-word string holds a keyword of `ks` as a whole word exactly when it is one of them. */
  lemma {:induction false} OneWordAnyKeyword(s: string, ks: seq<string>)
    requires s != [] && forall c :: c in s ==> IsWordChar(c)
    requires forall m :: 0 <= m < |ks| ==> ks[m] != []
    ensures AnyKeyword(s, ks) <==> s in ks
  {
    if AnyKeyword(s, ks) {
      var m, i :| 0 <= m < |ks| && OccursAt(s, ks[m], i);
      OneWordMatchesOnlyItself(s, ks[m], i);
    }
    if s in ks {
      var m :| 0 <= m < |ks| && ks[m] == s;
      assert s[..|s|] == s;
      assert OccursAt(s, ks[m], 0);
    }
  }

  /**
   * In a word followed only by non-word characters (`fat %`), a keyword that
   * starts with a word character matches only that leading word.
   */
  lemma LeadingWordMatchesOnlyItself(s: string, w: string, k: string, i: int)
    requires w != [] && forall c :: c in w ==> IsWordChar(c)
    requires |w| <= |s| && s[..|w|] == w
    requires forall p :: |w| <= p < |s| ==> !IsWordChar(s[p])
    requires k != [] && IsWordChar(k[0]) && OccursAt(s, k, i)
    ensures i == 0 && k == w
  {
    assert forall p :: 0 <= p < |w| ==> s[p] == w[p] && w[p] in w;
    assert WordAt(s, i) by { assert s[i] == s[i..i + |k|][0]; }
  }

  /** Such a string holds a keyword of `ks` as a whole word exactly when its leading word is one of them. */
  lemma {:induction false} LeadingWordAnyKeyword(s: string, w: string, ks: seq<string>)
    requires w != [] && forall c :: c in w ==> IsWordChar(c)
    requires |w| <= |s| && s[..|w|] == w
    requires forall p :: |w| <= p < |s| ==> !IsWordChar(s[p])
    requires forall m :: 0 <= m < |ks| ==> ks[m] != [] && IsWordChar(ks[m][0])
    ensures AnyKeyword(s, ks) <==> w in ks
  {
    if AnyKeyword(s, ks) {
      var m, i :| 0 <= m < |ks| && OccursAt(s, ks[m], i);
      LeadingWordMatchesOnlyItself(s, w, ks[m], i);
    }
    if w in ks {
      var m :| 0 <= m < |ks| && ks[m] == w;
      assert w[|w| - 1] in w && s[|w| - 1] == w[|w| - 1];
      assert s[0..|w|] == w;
      assert OccursAt(s, ks[m], 0);
    }
  }
}
