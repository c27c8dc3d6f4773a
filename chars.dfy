/**
 * Character classes used by the regular expressions of `cleanCode`
 * (JavaScript regular expressions without the `u` flag).
 */
module Chars {

  /** `\w`, the class `\b` tests on either side: `[A-Za-z0-9_]`. */
  predicate IsWordChar(c: char)
  {
    ('A' <= c <= 'Z') || ('a' <= c <= 'z') || ('0' <= c <= '9') || c == '_'
  }

  /** `\d`: the ASCII digits only. */
  predicate IsDigit(c: char): (r: bool)
    ensures r ==> IsWordChar(c)
  {
    '0' <= c <= '9'
  }

  /**
   * `\s`: the WhiteSpace and LineTerminator code points of ECMA-262
   * (section 12.2 and 12.3), which covers every `Zs` character. All of
   * them lie in the Basic Multilingual Plane, so each is one UTF-16 unit.
   */
  predicate IsSpace(c: char): (r: bool)
    ensures r ==> c < '\U{10000}'
  {
    c == '\t' || c == '\n' || c == '\U{B}' || c == '\U{C}' || c == '\r' || c == ' '
    || c == '\U{A0}' || c == '\U{1680}' || ('\U{2000}' <= c <= '\U{200A}')
    || c == '\U{2028}' || c == '\U{2029}' || c == '\U{202F}' || c == '\U{205F}'
    || c == '\U{3000}' || c == '\U{FEFF}'
  }

  predicate AllSpaces(t: string)
  {
    forall i :: 0 <= i < |t| ==> IsSpace(t[i])
  }

  predicate AllDigits(t: string)
  {
    forall i :: 0 <= i < |t| ==> IsDigit(t[i])
  }

  /** Length of the longest run of `\s` at the start of `t` (what a greedy `\s*` takes). */
  function SpaceRun(t: string): (n: nat)
    ensures n <= |t|
    ensures AllSpaces(t[..n])
    ensures n < |t| ==> !IsSpace(t[n])
  {
    if |t| > 0 && IsSpace(t[0]) then 1 + SpaceRun(t[1..]) else 0
  }

  /** Length of the longest run of `\d` at the start of `t` (what a greedy `\d+` takes). */
  function DigitRun(t: string): (n: nat)
    ensures n <= |t|
    ensures AllDigits(t[..n])
    ensures n < |t| ==> !IsDigit(t[n])
  {
    if |t| > 0 && IsDigit(t[0]) then 1 + DigitRun(t[1..]) else 0
  }

  /** A whitespace run followed by a non-space is taken whole, and no further. */
  lemma {:induction false} SpaceRunOf(ws: string, rest: string)
    requires AllSpaces(ws)
    requires rest == [] || !IsSpace(rest[0])
    ensures SpaceRun(ws + rest) == |ws|
  {
    if ws != [] {
      assert (ws + rest)[1..] == ws[1..] + rest;
      SpaceRunOf(ws[1..], rest);
    } else {
      assert ws + rest == rest;
    }
  }

  /** A digit run followed by a non-digit is taken whole, and no further. */
  lemma {:induction false} DigitRunOf(ds: string, rest: string)
    requires AllDigits(ds)
    requires rest == [] || !IsDigit(rest[0])
    ensures DigitRun(ds + rest) == |ds|
  {
    if ds != [] {
      assert (ds + rest)[1..] == ds[1..] + rest;
      DigitRunOf(ds[1..], rest);
    } else {
      assert ds + rest == rest;
    }
  }
}
