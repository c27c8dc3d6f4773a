/**
 * The loop of `String.prototype.replace` with a global regular expression
 * (ECMA-262, section 22.1.3.19): try a match at each position from left to
 * right, substitute the leftmost one, resume right after it, and copy every
 * character at which no match starts.
 *
 * A position of a string is described by the text from there on, `t`, and
 * `w`, whether the character just before it is a word character: that is
 * all `\b` looks at. The regular expression itself is a `Rule`; the four of
 * `cleanCode` are in module Patterns.
 */
module Scanner {
  import opened Wrappers
  import opened Chars

  /**
   * A global regular expression with its replacement: the length of the match
   * that starts at the start of `t` (given the `\b` flag `w`), if any, and the
   * text that replaces a matched text.
   */
  datatype Rule = Rule(matchAt: (bool, string) -> Option<nat>, replacement: string -> string)

  /** Matches are non-empty, lie inside the text, and are replaced by something shorter. */
  ghost predicate Valid(r: Rule)
  {
    forall w: bool, t: string {:trigger r.matchAt(w, t)} ::
      r.matchAt(w, t).Some? ==>
        0 < r.matchAt(w, t).value <= |t| &&
        |r.replacement(t[..r.matchAt(w, t).value])| < r.matchAt(w, t).value
  }

  /** The `\b` flag at position `k` of `t`, when the character before `t` has flag `w`. */
  function Flag(w: bool, t: string, k: nat): bool
    requires k <= |t|
  {
    if k == 0 then w else IsWordChar(t[k - 1])
  }

  /** The match of `r` at position `k` of `t`. */
  function MatchAt(r: Rule, w: bool, t: string, k: nat): Option<nat>
    requires k <= |t|
  {
    r.matchAt(Flag(w, t, k), t[k..])
  }

  /** Some match of `r` starts somewhere in `t`. */
  ghost predicate HasMatch(r: Rule, w: bool, t: string)
  {
    exists k :: 0 <= k < |t| && MatchAt(r, w, t, k).Some?
  }

  /** `t.replace(r, ...)`: the scan from left to right, resuming after each match. */
  function Scan(r: Rule, w: bool, t: string): (u: string)
    requires Valid(r)
    ensures |u| <= |t|
    decreases |t|
  {
    if t == [] then []
    else match r.matchAt(w, t)
      case Some(n) => r.replacement(t[..n]) + Scan(r, IsWordChar(t[n - 1]), t[n..])
      case None => [t[0]] + Scan(r, IsWordChar(t[0]), t[1..])
  }

  /** Replacing every match of `r` in a whole string. */
  function ReplaceAll(r: Rule, s: string): (u: string)
    requires Valid(r)
    ensures |u| <= |s|
  {
    Scan(r, false, s)
  }

  /** Looking at position `m + i` of `t` is looking at position `i` of `t[m..]`. */
  lemma MatchAtShift(r: Rule, w: bool, t: string, m: nat, i: nat)
    requires m + i <= |t|
    ensures MatchAt(r, w, t, m + i) == MatchAt(r, Flag(w, t, m), t[m..], i)
  {
    assert t[m..][i..] == t[m + i..];
  }

  /** Positions `1..` of `t` are the positions of `t[1..]`. */
  lemma MatchAtTail(r: Rule, w: bool, t: string)
    requires t != []
    ensures MatchAt(r, w, t, 0) == r.matchAt(w, t)
    ensures forall i :: 0 < i <= |t| ==> MatchAt(r, w, t, i) == MatchAt(r, IsWordChar(t[0]), t[1..], i - 1)
  {
    assert t[0..] == t;
    forall i | 0 < i <= |t|
      ensures MatchAt(r, w, t, i) == MatchAt(r, IsWordChar(t[0]), t[1..], i - 1)
    {
      MatchAtShift(r, w, t, 1, i - 1);
    }
  }

  /** The leftmost position at which `r` matches, or `|t|` if there is none. */
  function FirstMatch(r: Rule, w: bool, t: string): (j: nat)
    ensures j <= |t|
    ensures forall i :: 0 <= i < j ==> MatchAt(r, w, t, i).None?
    ensures j < |t| ==> MatchAt(r, w, t, j).Some?
    decreases |t|
  {
    if t == [] then 0
    else
      MatchAtTail(r, w, t);
      if r.matchAt(w, t).Some? then 0
      else 1 + FirstMatch(r, IsWordChar(t[0]), t[1..])
  }

  lemma HasMatchIffFirstMatch(r: Rule, w: bool, t: string)
    ensures HasMatch(r, w, t) <==> FirstMatch(r, w, t) < |t|
  {
  }

  /** Where no match starts, the scan copies one character and goes on. */
  lemma ScanCopies(r: Rule, w: bool, t: string)
    requires Valid(r)
    requires t != [] && r.matchAt(w, t).None?
    ensures Scan(r, w, t) == [t[0]] + Scan(r, IsWordChar(t[0]), t[1..])
  {
  }

  /** Where a match starts, the scan substitutes it and resumes right after it. */
  lemma ScanReplaces(r: Rule, w: bool, t: string)
    requires Valid(r)
    requires t != [] && r.matchAt(w, t).Some?
    ensures var n := r.matchAt(w, t).value;
            0 < n <= |t| &&
            Scan(r, w, t) == r.replacement(t[..n]) + Scan(r, IsWordChar(t[n - 1]), t[n..])
  {
  }

  // Facts about slices, kept apart from the scan: proved next to the scan's
  // definition they cost the solver far more.

  lemma ConsPrefix(t: string, k: nat, x: string, u: string, u1: string)
    requires 0 < k <= |t|
    requires u == [t[0]] + u1
    requires u1 == t[1..][..k - 1] + x
    ensures u == t[..k] + x
  {
    assert [t[0]] + t[1..][..k - 1] == t[..k];
  }

  lemma DropDrop(t: string, j: nat, n: nat)
    requires j + n <= |t|
    ensures t[j..][n..] == t[j + n..]
    ensures t[j..][..n] == t[j..j + n]
    ensures t[..j] + t[j..j + n] == t[..j + n]
  {
  }

  lemma Concat3(a: string, b: string, c: string, d: string, u: string, v: string)
    requires u == a + v
    requires v == b + c
    ensures u == a + b + c
  {
  }

  /** Where nothing matches, the scan copies the text unchanged. */
  lemma {:induction false} ScanSkip(r: Rule, w: bool, t: string, k: nat)
    requires Valid(r)
    requires k <= |t|
    requires forall i :: 0 <= i < k ==> MatchAt(r, w, t, i).None?
    ensures Scan(r, w, t) == t[..k] + Scan(r, Flag(w, t, k), t[k..])
    decreases k
  {
    if k == 0 {
      assert t[..0] + Scan(r, w, t) == Scan(r, w, t);
    } else {
      assert MatchAt(r, w, t, 0).None?;
      assert t[0..] == t;
      ScanCopies(r, w, t);
      forall i | 0 <= i < k - 1
        ensures MatchAt(r, IsWordChar(t[0]), t[1..], i).None?
      {
        MatchAtShift(r, w, t, 1, i);
      }
      ScanSkip(r, IsWordChar(t[0]), t[1..], k - 1);
      DropDrop(t, 1, k - 1);
      assert Flag(IsWordChar(t[0]), t[1..], k - 1) == Flag(w, t, k);
      ConsPrefix(t, k, Scan(r, Flag(w, t, k), t[k..]), Scan(r, w, t), Scan(r, IsWordChar(t[0]), t[1..]));
    }
  }

  /** A text without any match of `r` is returned unchanged. */
  lemma ScanNoMatch(r: Rule, w: bool, t: string)
    requires Valid(r)
    requires !HasMatch(r, w, t)
    ensures Scan(r, w, t) == t
  {
    ScanSkip(r, w, t, |t|);
    assert t[..|t|] == t;
  }

  /** Every substitution shortens the text, so one match is enough to make it shorter. */
  lemma {:induction false} ScanShrinks(r: Rule, w: bool, t: string)
    requires Valid(r)
    requires HasMatch(r, w, t)
    ensures |Scan(r, w, t)| < |t|
    decreases |t|
  {
    MatchAtTail(r, w, t);
    if r.matchAt(w, t).Some? {
      ScanReplaces(r, w, t);
    } else {
      ScanCopies(r, w, t);
      ScanShrinks(r, IsWordChar(t[0]), t[1..]);
    }
  }

  /** The scan changes `t` exactly when some match of `r` exists in it, and then shortens it. */
  lemma ScanChangesIffMatch(r: Rule, w: bool, t: string)
    requires Valid(r)
    ensures Scan(r, w, t) == t <==> !HasMatch(r, w, t)
    ensures |Scan(r, w, t)| < |t| <==> HasMatch(r, w, t)
  {
    if HasMatch(r, w, t) {
      ScanShrinks(r, w, t);
    } else {
      ScanNoMatch(r, w, t);
    }
  }

  /** From any position on, a text without a match still has none. */
  lemma NoMatchSuffix(r: Rule, w: bool, t: string, m: nat)
    requires m <= |t|
    requires !HasMatch(r, w, t)
    ensures !HasMatch(r, Flag(w, t, m), t[m..])
  {
    forall i | 0 <= i < |t| - m
      ensures MatchAt(r, Flag(w, t, m), t[m..], i).None?
    {
      MatchAtShift(r, w, t, m, i);
    }
  }

  /** No match starts in `a`, none in `b`: none in `a + b`. */
  lemma NoMatchAppend(r: Rule, w: bool, a: string, b: string)
    requires forall i :: 0 <= i < |a| ==> MatchAt(r, w, a + b, i).None?
    requires !HasMatch(r, Flag(w, a + b, |a|), b)
    ensures !HasMatch(r, w, a + b)
  {
    forall k | |a| <= k < |a + b|
      ensures MatchAt(r, w, a + b, k).None?
    {
      MatchAtShift(r, w, a + b, |a|, k - |a|);
      assert (a + b)[|a|..] == b;
    }
  }

  /**
   * The scan copies `t` up to its first match at `j`; what it produces from
   * there on is `x`: nothing if there is no match, otherwise the replacement
   * of the match followed by the rest `y`.
   */
  lemma ScanSplit(r: Rule, w: bool, t: string) returns (j: nat, x: string, y: string)
    requires Valid(r)
    ensures j <= |t| && Scan(r, w, t) == t[..j] + x
    ensures forall i :: 0 <= i < j ==> MatchAt(r, w, t, i).None?
    ensures j == |t| ==> x == []
    ensures j < |t| ==> MatchAt(r, w, t, j).Some? && 0 < MatchAt(r, w, t, j).value <= |t| - j &&
                        x == r.replacement(t[j..][..MatchAt(r, w, t, j).value]) + y
    ensures j < |t| ==> var n := MatchAt(r, w, t, j).value;
                        y == Scan(r, IsWordChar(t[j..][n - 1]), t[j..][n..])
  {
    j := FirstMatch(r, w, t);
    var f := Flag(w, t, j);
    var u := t[j..];
    x := Scan(r, f, u);
    assert Scan(r, w, t) == t[..j] + x by { ScanSkip(r, w, t, j); }
    if j < |t| {
      var n := MatchAt(r, w, t, j).value;
      assert r.matchAt(f, u) == Some(n);
      y := Scan(r, IsWordChar(u[n - 1]), u[n..]);
      assert 0 < n <= |u| && x == r.replacement(u[..n]) + y by { ScanReplaces(r, f, u); }
    } else {
      y := [];
    }
  }

  /**
   * A match `m` in context: when no match starts inside `a` and `r` matches
   * exactly `m` right after it, the scan gives `a`, the replacement of `m`,
   * and the scan of `b` resumed after `m`.
   */
  lemma ScanAt(r: Rule, w: bool, a: string, m: string, b: string)
    requires Valid(r)
    requires forall i :: 0 <= i < |a| ==> MatchAt(r, w, a + m + b, i).None?
    requires r.matchAt(Flag(w, a + m + b, |a|), m + b) == Some(|m|)
    requires m != []
    ensures Scan(r, w, a + m + b) == a + r.replacement(m) + Scan(r, IsWordChar(m[|m| - 1]), b)
  {
    var o := a + m + b;
    var f := Flag(w, o, |a|);
    SplitAround(a, m, b, o);
    ScanSkip(r, w, o, |a|);
    var s1 := Scan(r, f, m + b);
    assert Scan(r, w, o) == a + s1;
    ScanReplaces(r, f, m + b);
    var s2 := Scan(r, IsWordChar(m[|m| - 1]), b);
    LastOfConcat(m, b);
    assert s1 == r.replacement(m) + s2;
    Concat3(a, r.replacement(m), s2, [], Scan(r, w, o), s1);
  }

  /** One match with nothing matching around it: only `m` is replaced. */
  lemma ScanAround(r: Rule, w: bool, a: string, m: string, b: string)
    requires Valid(r)
    requires forall i :: 0 <= i < |a| ==> MatchAt(r, w, a + m + b, i).None?
    requires r.matchAt(Flag(w, a + m + b, |a|), m + b) == Some(|m|)
    requires m != [] && !HasMatch(r, IsWordChar(m[|m| - 1]), b)
    ensures Scan(r, w, a + m + b) == a + r.replacement(m) + b
  {
    ScanAt(r, w, a, m, b);
    ScanNoMatch(r, IsWordChar(m[|m| - 1]), b);
  }

  /** A rule that matches the same whatever `w` is scans the same. */
  lemma ScanIgnoresFlag(r: Rule, w1: bool, w2: bool, t: string)
    requires Valid(r)
    requires r.matchAt(w1, t) == r.matchAt(w2, t)
    ensures Scan(r, w1, t) == Scan(r, w2, t)
  {
  }

  lemma LastOfConcat(m: string, b: string)
    requires m != []
    ensures (m + b)[|m| - 1] == m[|m| - 1]
  {
  }

  lemma SplitAround(a: string, m: string, b: string, o: string)
    requires o == a + m + b
    ensures o[..|a|] == a && o[|a|..] == m + b
    ensures (m + b)[..|m|] == m && (m + b)[|m|..] == b
  {
  }
}
