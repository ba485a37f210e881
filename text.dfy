/**
 * Character classes and the string clean-up applied to every raw header
 * before it is matched: `str(col).lower().strip()`.
 */
module Text {

  /** The class `[a-zA-Z0-9]` that the slug pattern negates. */
  predicate IsAlnum(c: char) {
    'a' <= c <= 'z' || 'A' <= c <= 'Z' || '0' <= c <= '9'
  }

  /** Regex `\w`, restricted to ASCII. */
  predicate IsWordChar(c: char) {
    IsAlnum(c) || c == '_'
  }

  predicate IsUpper(c: char) {
    'A' <= c <= 'Z'
  }

  predicate IsUnderscore(c: char) {
    c == '_'
  }

  /** The characters Python's `str.isspace` accepts. */
  predicate IsSpace(c: char) {
    || '\t' <= c <= '\r' || '\U{1c}' <= c <= ' '
    || c == '\U{85}' || c == '\U{a0}' || c == '\U{1680}'
    || '\U{2000}' <= c <= '\U{200a}' || c == '\U{2028}' || c == '\U{2029}'
    || c == '\U{202f}' || c == '\U{205f}' || c == '\U{3000}'
  }

  /** `str.lower` on one character, ASCII letters only. */
  function LowerChar(c: char): (r: char)
    ensures !IsUpper(r)
    ensures IsAlnum(r) == IsAlnum(c) && IsWordChar(r) == IsWordChar(c)
    ensures IsSpace(r) == IsSpace(c)
    ensures IsUpper(c) || r == c
    ensures IsUpper(c) ==> 'a' <= r <= 'z' && r as int - 'a' as int == c as int - 'A' as int
  {
    if IsUpper(c) then (c as int + 32) as char else c
  }

  function Lower(s: string): (r: string)
    ensures |r| == |s|
    ensures forall i :: 0 <= i < |s| ==> r[i] == LowerChar(s[i])
  {
    seq(|s|, i requires 0 <= i < |s| => LowerChar(s[i]))
  }

  /** Drops the longest prefix of `s` whose characters all satisfy `p`. */
  function TrimStart(s: string, p: char -> bool): (r: string)
    ensures |r| <= |s| && r == s[|s| - |r|..]
    ensures forall i :: 0 <= i < |s| - |r| ==> p(s[i])
    ensures r == [] || !p(r[0])
  {
    if s != [] && p(s[0]) then TrimStart(s[1..], p) else s
  }

  /** Drops the longest suffix of `s` whose characters all satisfy `p`. */
  function TrimEnd(s: string, p: char -> bool): (r: string)
    ensures |r| <= |s| && r == s[..|r|]
    ensures forall i :: |r| <= i < |s| ==> p(s[i])
    ensures r == [] || !p(r[|r| - 1])
  {
    if s != [] && p(s[|s| - 1]) then TrimEnd(s[..|s| - 1], p) else s
  }

  /** Concatenation regroups freely; stated once so that proofs need not rediscover it. */
  lemma Regroup(a: string, b: string, c: string)
    ensures a + (b + c) == (a + b) + c
  {
  }

  /** A prefix made only of trimmed characters disappears with the trimming. */
  lemma {:induction false} TrimStartSkips(x: string, y: string, p: char -> bool)
    requires forall i :: 0 <= i < |x| ==> p(x[i])
    ensures TrimStart(x + y, p) == TrimStart(y, p)
  {
    if x == [] {
      assert x + y == y;
    } else {
      assert (x + y)[1..] == x[1..] + y;
      TrimStartSkips(x[1..], y, p);
    }
  }

  /** Trimming stops inside `x` when `x` holds a character that is kept. */
  lemma {:induction false} TrimStartStops(x: string, y: string, p: char -> bool)
    requires TrimStart(x, p) != []
    ensures TrimStart(x + y, p) == TrimStart(x, p) + y
  {
    assert (x + y)[0] == x[0];
    if p(x[0]) {
      assert (x + y)[1..] == x[1..] + y;
      assert TrimStart(x, p) == TrimStart(x[1..], p);
      TrimStartStops(x[1..], y, p);
    } else {
      assert TrimStart(x + y, p) == x + y;
    }
  }

  /** A suffix made only of trimmed characters disappears with the trimming. */
  lemma {:induction false} TrimEndSkips(x: string, y: string, p: char -> bool)
    requires forall i :: 0 <= i < |y| ==> p(y[i])
    ensures TrimEnd(x + y, p) == TrimEnd(x, p)
  {
    if y == [] {
      assert x + y == x;
    } else {
      assert (x + y)[..|x + y| - 1] == x + y[..|y| - 1];
      TrimEndSkips(x, y[..|y| - 1], p);
    }
  }

  /** Trimming from the end stops inside `y` when `y` holds a character that is kept. */
  lemma {:induction false} TrimEndStops(x: string, y: string, p: char -> bool)
    requires TrimEnd(y, p) != []
    ensures TrimEnd(x + y, p) == x + TrimEnd(y, p)
  {
    if p(y[|y| - 1]) {
      assert (x + y)[..|x + y| - 1] == x + y[..|y| - 1];
      TrimEndStops(x, y[..|y| - 1], p);
    }
  }

  /** A string that starts and ends with kept characters trims to itself. */
  lemma TrimsNothing(c: string, p: char -> bool)
    requires c != [] && !p(c[0]) && !p(c[|c| - 1])
    ensures TrimEnd(TrimStart(c, p), p) == c
  {
    assert TrimStart(c, p) == c;
  }

  /** Trimming both ends removes padding made of trimmed characters and nothing more. */
  lemma TrimsPadding(head: string, c: string, tail: string, p: char -> bool)
    requires forall i :: 0 <= i < |head| ==> p(head[i])
    requires forall i :: 0 <= i < |tail| ==> p(tail[i])
    requires c != [] && !p(c[0]) && !p(c[|c| - 1])
    ensures TrimEnd(TrimStart(head + (c + tail), p), p) == c
  {
    TrimStartSkips(head, c + tail, p);
    TrimStartStops(c, tail, p);
    TrimEndSkips(c, tail, p);
    TrimsNothing(c, p);
  }

  /**
   * Trimming both ends of `a + m + b` trims `a` and `b` on their own when
   * the joint is guarded by kept characters on either side.
   */
  lemma TrimsAroundJoint(a: string, m: string, b: string, p: char -> bool)
    requires a != [] && !p(a[|a| - 1])
    requires b != [] && !p(b[0])
    ensures TrimEnd(TrimStart(a + m + b, p), p)
      == TrimEnd(TrimStart(a, p), p) + m + TrimEnd(TrimStart(b, p), p)
  {
    var front := TrimStart(a, p);
    assert front != [] && front[|front| - 1] == a[|a| - 1];
    assert TrimEnd(front, p) == front;
    assert TrimStart(b, p) == b;
    assert TrimEnd(b, p) != [];
    Regroup(a, m, b);
    TrimStartStops(a, m + b, p);
    Regroup(front, m, b);
    TrimEndStops(front + m, b, p);
  }

  /** The number of characters at the start of `s` that satisfy `p`. */
  function Lead(s: string, p: char -> bool): (n: nat)
    ensures n <= |s|
    ensures forall i :: 0 <= i < n ==> p(s[i])
    ensures n == |s| || !p(s[n])
  {
    if s != [] && p(s[0]) then 1 + Lead(s[1..], p) else 0
  }

  /**
   * Python's `s.strip(chars)`, with the stripped characters given by `p`:
   * the slice of `s` left once every leading and every trailing character
   * satisfying `p` is removed.
   */
  function Strip(s: string, p: char -> bool): (r: string)
    ensures r == [] || (!p(r[0]) && !p(r[|r| - 1]))
    ensures Lead(s, p) + |r| <= |s| && r == s[Lead(s, p)..][..|r|]
    ensures forall i :: Lead(s, p) + |r| <= i < |s| ==> p(s[i])
  {
    StripIsSlice(s, p);
    StripLeavesTail(s, p);
    TrimEnd(TrimStart(s, p), p)
  }

  lemma {:induction false} StripIsSlice(s: string, p: char -> bool)
    ensures var r := TrimEnd(TrimStart(s, p), p);
      Lead(s, p) + |r| <= |s| && r == s[Lead(s, p)..][..|r|]
  {
    LeadIsTrimmed(s, p);
  }

  lemma {:induction false} StripLeavesTail(s: string, p: char -> bool)
    ensures var r := TrimEnd(TrimStart(s, p), p);
      forall i :: Lead(s, p) + |r| <= i < |s| ==> p(s[i])
  {
    if s != [] && p(s[0]) {
      StripLeavesTail(s[1..], p);
      var r := TrimEnd(TrimStart(s[1..], p), p);
      forall i | Lead(s, p) + |r| <= i < |s| ensures p(s[i]) {
        assert s[i] == s[1..][i - 1];
      }
    }
  }

  lemma {:induction false} LeadIsTrimmed(s: string, p: char -> bool)
    ensures TrimStart(s, p) == s[Lead(s, p)..]
  {
    if s != [] && p(s[0]) {
      LeadIsTrimmed(s[1..], p);
      assert s[1..][Lead(s[1..], p)..] == s[Lead(s, p)..];
    }
  }

  /**
   * The match key of a header: `str(col).lower().strip()`, that is the
   * lower-cased header without its leading and trailing white space.
   */
  function Normalize(header: string): (r: string)
    ensures forall c :: c in r ==> !IsUpper(c)
    ensures r == [] || (!IsSpace(r[0]) && !IsSpace(r[|r| - 1]))
    ensures Lead(Lower(header), IsSpace) + |r| <= |header|
    ensures r == Lower(header)[Lead(Lower(header), IsSpace)..][..|r|]
    ensures forall i :: Lead(Lower(header), IsSpace) + |r| <= i < |header| ==> IsSpace(header[i])
  {
    NormalizeIsSlice(header);
    Strip(Lower(header), IsSpace)
  }

  lemma {:induction false} NormalizeIsSlice(header: string)
    ensures var low, r := Lower(header), Strip(Lower(header), IsSpace);
      && Lead(low, IsSpace) + |r| <= |header|
      && r == low[Lead(low, IsSpace)..][..|r|]
      && (forall i :: Lead(low, IsSpace) + |r| <= i < |header| ==> IsSpace(header[i]))
  {
    var low := Lower(header);
    var r := Strip(low, IsSpace);
    forall i | Lead(low, IsSpace) + |r| <= i < |header| ensures IsSpace(header[i]) {
      assert IsSpace(low[i]);
    }
  }

  /** A string already lower-case and without outer white space is its own key. */
  lemma NormalizeFixes(s: string)
    requires forall c :: c in s ==> !IsUpper(c)
    requires s == [] || (!IsSpace(s[0]) && !IsSpace(s[|s| - 1]))
    ensures Normalize(s) == s
  {
    assert Lower(s) == s;
    assert TrimStart(s, IsSpace) == s;
    assert TrimEnd(s, IsSpace) == s;
  }

  /** Normalising a header twice is normalising it once. */
  lemma NormalizeIdempotent(header: string)
    ensures Normalize(Normalize(header)) == Normalize(header)
  {
    NormalizeFixes(Normalize(header));
  }
}
