/**
 * The four regular expressions of `cleanCode` (gulpfile.js:34-38), each as a
 * `Rule` for the scanner: a matcher anchored at the start of the remaining
 * text and the replacement given to `replace`.
 */
module Patterns {
  import opened Wrappers
  import opened Chars
  import opened Scanner

  predicate StartsWith(t: string, lit: string)
  {
    |lit| <= |t| && t[..|lit|] == lit
  }

  const UseStrict: string := "\"use strict\";"

  /** The literal pieces of the header pattern; `\s*` stands between each two. */
  const HeaderParts: seq<string> :=
    [UseStrict, "Object.defineProperty(exports,", "\"__esModule\",", "{", "value:", "true", "})"]

  const ExportsKeyword: string := "exports.default"
  const ExportsReplacement: string := "module.exports="
  const DotDefault: string := ".default"
  const ConstKeyword: string := "const"
  const LetReplacement: string := "let "

  /** One element of a pattern without alternatives: a literal character, or `\s*`. */
  datatype Elem = Ch(c: char) | Ws

  /** The literal characters of `s`. */
  function Lits(s: string): (es: seq<Elem>)
    ensures |es| == |s| && forall i :: 0 <= i < |s| ==> es[i] == Ch(s[i])
  {
    seq(|s|, i requires 0 <= i < |s| => Ch(s[i]))
  }

  /** The literal `parts` with `\s*` between each two. */
  function Interleave(parts: seq<string>): seq<Elem>
    decreases |parts|
  {
    if parts == [] then []
    else if |parts| == 1 then Lits(parts[0])
    else Lits(parts[0]) + [Ws] + Interleave(parts[1..])
  }

  /** The elements of the header pattern. */
  const HeaderElems: seq<Elem> := Interleave(HeaderParts)

  /** The length of the match of `es` at the start of `t`; a greedy `\s*` takes a whole run. */
  function MatchElems(t: string, es: seq<Elem>): Option<nat>
    decreases |es|, |t|
  {
    if es == [] then Some(0)
    else if es[0].Ch? then
      if t != [] && t[0] == es[0].c then
        var r := MatchElems(t[1..], es[1..]);
        if r.None? then None else Some(1 + r.value)
      else None
    else if t != [] && IsSpace(t[0]) then
      var r := MatchElems(t[1..], es);
      if r.None? then None else Some(1 + r.value)
    else MatchElems(t, es[1..])
  }

  /** A match lies inside the text, and is not empty when the pattern starts with a character. */
  lemma {:induction false} MatchElemsBound(t: string, es: seq<Elem>)
    ensures MatchElems(t, es).Some? ==> MatchElems(t, es).value <= |t|
    ensures MatchElems(t, es).Some? && es != [] && es[0].Ch? ==> MatchElems(t, es).value > 0
    decreases |es|, |t|
  {
    if es != [] {
      if es[0].Ch? {
        if t != [] && t[0] == es[0].c {
          MatchElemsBound(t[1..], es[1..]);
        }
      } else if t != [] && IsSpace(t[0]) {
        MatchElemsBound(t[1..], es);
      } else {
        MatchElemsBound(t, es[1..]);
      }
    }
  }

  /** The header pattern `es`, then `;?`. */
  function MatchHeaderWith(t: string, es: seq<Elem>): (r: Option<nat>)
    ensures r.Some? ==> r.value <= |t|
    ensures r.Some? && es != [] && es[0].Ch? ==> r.value > 0
  {
    var m := MatchElems(t, es);
    if m.None? then None
    else
      MatchElemsBound(t, es);
      var e := m.value;
      Some(if e < |t| && t[e] == ';' then e + 1 else e)
  }

  /** `"use strict";\s*Object\.defineProperty\(exports,\s*"__esModule",\s*\{\s*value:\s*true\s*\}\);?` */
  function MatchHeader(t: string): (r: Option<nat>)
    ensures r.Some? ==> 0 < r.value <= |t|
  {
    assert HeaderElems[0] == Ch('"');
    MatchHeaderWith(t, HeaderElems)
  }

  /** `\bexports\.default\s*=`; `w` says whether a word character precedes `t`. */
  function MatchExports(w: bool, t: string): (r: Option<nat>)
    ensures r.Some? ==> |ExportsKeyword| < r.value <= |t|
  {
    if w || !StartsWith(t, ExportsKeyword) then None
    else
      var k := |ExportsKeyword| + SpaceRun(t[|ExportsKeyword|..]);
      if k < |t| && t[k] == '=' then Some(k + 1) else None
  }

  /** `(_\d+)\.default`: no `\b`, so it also matches inside an identifier. */
  function MatchMiddleDefault(t: string): (r: Option<nat>)
    ensures r.Some? ==> |DotDefault| + 1 < r.value <= |t|
  {
    if |t| == 0 || t[0] != '_' then None
    else
      var d := DigitRun(t[1..]);
      if d == 0 || !StartsWith(t[1 + d..], DotDefault) then None
      else Some(1 + d + |DotDefault|)
  }

  /** `\bconst\s+`: the keyword and its whole whitespace run. */
  function MatchConst(w: bool, t: string): (r: Option<nat>)
    ensures r.Some? ==> |ConstKeyword| < r.value <= |t|
  {
    if w || !StartsWith(t, ConstKeyword) || |t| == |ConstKeyword| || !IsSpace(t[|ConstKeyword|]) then None
    else Some(|ConstKeyword| + SpaceRun(t[|ConstKeyword|..]))
  }

  /** `'$1'` for `(_\d+)\.default`: the match without its `.default`. */
  function DropDotDefault(m: string): (d: string)
    ensures d <= m
    ensures |m| >= |DotDefault| ==> |d| + |DotDefault| == |m|
  {
    if |m| < |DotDefault| then m else m[..|m| - |DotDefault|]
  }

  /** `removeESModuleReg`, replaced by `''`. */
  const RemoveESModuleReg: Rule := Rule((w: bool, t: string) => MatchHeader(t), (m: string) => "")
  /** `exportsReg`, replaced by `'module.exports='`. */
  const ExportsReg: Rule := Rule((w: bool, t: string) => MatchExports(w, t), (m: string) => ExportsReplacement)
  /** `removeMiddleDefault`, replaced by `'$1'`. */
  const RemoveMiddleDefault: Rule := Rule((w: bool, t: string) => MatchMiddleDefault(t), DropDotDefault)
  /** `constReg`, replaced by `'let '`. */
  const ConstReg: Rule := Rule((w: bool, t: string) => MatchConst(w, t), (m: string) => LetReplacement)

  /** Each replacement is strictly shorter than every text its pattern matches. */
  lemma RulesValid()
    ensures Valid(RemoveESModuleReg) && Valid(ExportsReg) && Valid(RemoveMiddleDefault) && Valid(ConstReg)
  {
    forall w: bool, t: string | RemoveMiddleDefault.matchAt(w, t).Some?
      ensures |RemoveMiddleDefault.replacement(t[..RemoveMiddleDefault.matchAt(w, t).value])| < RemoveMiddleDefault.matchAt(w, t).value
    {
      var n := MatchMiddleDefault(t).value;
      assert |DropDotDefault(t[..n])| == n - |DotDefault|;
    }
  }
}

/** What a match of each pattern consists of. */
module PatternShapes {
  import opened Wrappers
  import opened Chars
  import opened Scanner
  import opened Patterns

  /** The characters a match of `\bexports\.default\s*=` can contain. */
  predicate ExportsChar(c: char)
  {
    c == 'e' || c == 'x' || c == 'p' || c == 'o' || c == 'r' || c == 't' || c == 's' || c == '.'
    || c == 'd' || c == 'f' || c == 'a' || c == 'u' || c == 'l' || c == '=' || IsSpace(c)
  }

  /** `\bconst\s+` takes `const` and the whole whitespace run after it, only at a word boundary. */
  lemma ConstShape(w: bool, t: string)
    requires MatchConst(w, t).Some?
    ensures var n := MatchConst(w, t).value;
            !w && t[..5] == ConstKeyword && t[0] == 'c' && 5 < n <= |t| &&
            AllSpaces(t[5..n]) && IsSpace(t[n - 1]) && (n == |t| || !IsSpace(t[n]))
  {
    var n := MatchConst(w, t).value;
    var k := SpaceRun(t[5..]);
    assert t[0] == t[..5][0];
    assert t[5..][..k] == t[5..n];
    assert t[n - 1] == t[5..n][k - 1];
    assert n < |t| ==> t[n] == t[5..][k];
  }

  /** Whether `\bconst\s+` matches depends on the flag and the first six characters only. */
  lemma ConstLocal(w: bool, t: string, o: string)
    requires MatchConst(w, o).Some?
    requires |t| >= 6 && t[..6] == o[..6]
    ensures MatchConst(w, t).Some?
  {
    assert t[..5] == t[..6][..5] == o[..6][..5] == o[..5];
    assert t[5] == t[..6][5];
    assert o[5] == o[..6][5];
  }

  /** A match of `\bexports\.default\s*=`: the keyword, a whitespace run, `=`. */
  lemma ExportsShape(w: bool, t: string)
    requires MatchExports(w, t).Some?
    ensures var m := MatchExports(w, t).value;
            !w && t[..15] == ExportsKeyword && t[0] == 'e' && 16 <= m <= |t| &&
            AllSpaces(t[15..m - 1]) && t[m - 1] == '=' &&
            forall i :: 0 <= i < m ==> ExportsChar(t[i])
  {
    var m := MatchExports(w, t).value;
    var k := SpaceRun(t[15..]);
    assert t[0] == t[..15][0];
    assert t[15..][..k] == t[15..m - 1];
    forall i | 0 <= i < m
      ensures ExportsChar(t[i])
    {
      if i < 15 {
        assert t[i] == t[..15][i];
      } else if i < m - 1 {
        assert t[i] == t[15..m - 1][i - 15];
      }
    }
  }

  /** A match of `\bexports\.default\s*=` depends on the flag and the matched text only. */
  lemma ExportsLocal(w: bool, t: string, o: string)
    requires MatchExports(w, o).Some?
    requires MatchExports(w, o).value <= |t|
    requires t[..MatchExports(w, o).value] == o[..MatchExports(w, o).value]
    ensures MatchExports(w, t) == MatchExports(w, o)
  {
    var m := MatchExports(w, o).value;
    ExportsShape(w, o);
    assert t[..15] == t[..m][..15];
    assert o[..15] == o[..m][..15];
    var ws := t[15..m - 1];
    assert ws == o[15..m - 1];
    assert t[15..] == ws + t[m - 1..];
    assert t[m - 1] == t[..m][m - 1];
    SpaceRunOf(ws, t[m - 1..]);
  }

  /** A match of `(_\d+)\.default`: `_`, digits, `.default`. */
  lemma MiddleDefaultShape(t: string)
    requires MatchMiddleDefault(t).Some?
    ensures var n := MatchMiddleDefault(t).value;
            var g := n - |DotDefault|;
            2 <= g && n <= |t| && t[0] == '_' && AllDigits(t[1..g]) &&
            t[g..n] == DotDefault && t[n - 1] == 't' &&
            DropDotDefault(t[..n]) == t[..g]
  {
    var n := MatchMiddleDefault(t).value;
    var d := DigitRun(t[1..]);
    assert t[1..][..d] == t[1..1 + d];
    assert t[1 + d..][..8] == t[1 + d..n];
    assert t[n - 1] == t[1 + d..n][7];
  }

  /** `const`, a non-empty whitespace run and text that does not go on with whitespace. */
  lemma ConstOf(ws: string, rest: string)
    requires ws != [] && AllSpaces(ws) && (rest == [] || !IsSpace(rest[0]))
    ensures MatchConst(false, ConstKeyword + ws + rest) == Some(|ConstKeyword| + |ws|)
  {
    var t := ConstKeyword + ws + rest;
    assert t[..5] == ConstKeyword;
    assert t[5] == ws[0];
    assert t[5..] == ws + rest;
    SpaceRunOf(ws, rest);
  }

  /** `exports.default`, any whitespace run, and `=`. */
  lemma ExportsOf(ws: string, rest: string)
    requires AllSpaces(ws)
    ensures MatchExports(false, ExportsKeyword + ws + "=" + rest) == Some(|ExportsKeyword| + |ws| + 1)
  {
    var t := ExportsKeyword + ws + "=" + rest;
    assert t[..15] == ExportsKeyword;
    assert t[15..] == ws + ("=" + rest);
    SpaceRunOf(ws, "=" + rest);
    assert t[15 + |ws|] == '=';
  }

  /** `_`, a non-empty run of digits, and `.default`; the replacement keeps `_` and the digits. */
  lemma MiddleDefaultOf(ds: string, rest: string)
    requires ds != [] && AllDigits(ds)
    ensures var m := "_" + ds + DotDefault;
            MatchMiddleDefault(m + rest) == Some(|m|) && DropDotDefault(m) == "_" + ds
  {
    var m := "_" + ds + DotDefault;
    var t := m + rest;
    assert t[1..] == ds + (DotDefault + rest);
    DigitRunOf(ds, DotDefault + rest);
    assert t[1 + |ds|..] == DotDefault + rest;
    assert m[..|m| - |DotDefault|] == "_" + ds;
  }

  // The header: the literal parts of HeaderParts with a whitespace run
  // between each two, then an optional `;`.

  /**
   * The text that `es` matches when the `\s*` at position `i` takes `ws[i]`
   * (`ws[i]` is ignored where `es[i]` is a character).
   */
  function Fill(es: seq<Elem>, ws: seq<string>): string
    requires |ws| == |es|
    decreases |es|
  {
    if es == [] then [] else (if es[0].Ch? then [es[0].c] else ws[0]) + Fill(es[1..], ws[1..])
  }

  /** Every run stands where `es` has a `\s*`, and is whitespace only. */
  ghost predicate RunsFit(es: seq<Elem>, ws: seq<string>)
    requires |ws| == |es|
  {
    forall i :: 0 <= i < |es| && es[i].Ws? ==> AllSpaces(ws[i])
  }

  /** Every `\s*` is followed by a literal character other than whitespace. */
  predicate Solid(es: seq<Elem>)
  {
    forall i :: 0 <= i < |es| && es[i].Ws? ==> i + 1 < |es| && es[i + 1].Ch? && !IsSpace(es[i + 1].c)
  }

  lemma FitTail(es: seq<Elem>, ws: seq<string>)
    requires |ws| == |es| > 0 && RunsFit(es, ws) && Solid(es)
    ensures RunsFit(es[1..], ws[1..]) && Solid(es[1..])
  {
    assert forall i :: 0 <= i < |es| - 1 ==> es[1..][i] == es[i + 1] && ws[1..][i] == ws[i + 1];
  }

  /** A `\s*` takes a whole whitespace run when no whitespace follows it. */
  lemma {:induction false} SkipSpaces(ws: string, u: string, es: seq<Elem>, r: nat)
    requires es != [] && es[0].Ws? && AllSpaces(ws)
    requires u == [] || !IsSpace(u[0])
    requires MatchElems(u, es[1..]) == Some(r)
    ensures MatchElems(ws + u, es) == Some(|ws| + r)
    decreases |ws|
  {
    if ws == [] {
      assert ws + u == u;
    } else {
      assert (ws + u)[1..] == ws[1..] + u;
      SkipSpaces(ws[1..], u, es, r);
    }
  }

  /** The pattern with any whitespace runs in place of its `\s*` is matched in full. */
  lemma {:induction false} MatchElemsOf(es: seq<Elem>, ws: seq<string>, rest: string)
    requires |ws| == |es| && RunsFit(es, ws) && Solid(es)
    ensures MatchElems(Fill(es, ws) + rest, es) == Some(|Fill(es, ws)|)
    decreases |es|
  {
    if es != [] {
      var tail := Fill(es[1..], ws[1..]);
      FitTail(es, ws);
      MatchElemsOf(es[1..], ws[1..], rest);
      if es[0].Ch? {
        FillCh(es, ws, tail, rest);
      } else {
        assert es[1..][0] == es[1] && es[1].Ch? && !IsSpace(es[1].c);
        FillHead(es[1..], ws[1..]);
        FillWs(es, ws, tail, rest);
      }
    }
  }

  lemma FillCh(es: seq<Elem>, ws: seq<string>, tail: string, rest: string)
    requires |ws| == |es| && es != [] && es[0].Ch? && tail == Fill(es[1..], ws[1..])
    requires MatchElems(tail + rest, es[1..]) == Some(|tail|)
    ensures MatchElems(Fill(es, ws) + rest, es) == Some(|Fill(es, ws)|)
  {
    var t := [es[0].c] + (tail + rest);
    assert Fill(es, ws) + rest == t;
    assert t[1..] == tail + rest;
    StepCh(t, es, |tail|);
  }

  lemma FillWs(es: seq<Elem>, ws: seq<string>, tail: string, rest: string)
    requires |ws| == |es| && es != [] && es[0].Ws? && tail == Fill(es[1..], ws[1..])
    requires AllSpaces(ws[0]) && tail != [] && !IsSpace(tail[0])
    requires MatchElems(tail + rest, es[1..]) == Some(|tail|)
    ensures MatchElems(Fill(es, ws) + rest, es) == Some(|Fill(es, ws)|)
  {
    var u := tail + rest;
    assert MatchElems(ws[0] + u, es) == Some(|ws[0]| + |tail|) by {
      assert u[0] == tail[0];
      SkipSpaces(ws[0], u, es, |tail|);
    }
    assert Fill(es, ws) + rest == ws[0] + u;
  }

  lemma FillHead(es: seq<Elem>, ws: seq<string>)
    requires |ws| == |es| && es != [] && es[0].Ch?
    ensures Fill(es, ws) != [] && Fill(es, ws)[0] == es[0].c
  {
  }

  lemma StepCh(t: string, es: seq<Elem>, r: nat)
    requires es != [] && es[0].Ch? && t != [] && t[0] == es[0].c
    requires MatchElems(t[1..], es[1..]) == Some(r)
    ensures MatchElems(t, es) == Some(1 + r)
  {
  }

  /** Whatever `es` matches is `es` with whitespace runs in place of its `\s*`. */
  lemma {:induction false} MatchElemsSound(t: string, es: seq<Elem>) returns (ws: seq<string>)
    requires MatchElems(t, es).Some?
    ensures |ws| == |es| && RunsFit(es, ws)
    ensures MatchElems(t, es).value <= |t| && t[..MatchElems(t, es).value] == Fill(es, ws)
    decreases |es|, |t|
  {
    MatchElemsBound(t, es);
    if es == [] {
      ws := [];
    } else if es[0].Ch? {
      var ws1 := MatchElemsSound(t[1..], es[1..]);
      ws := SoundCh(t, es, ws1, MatchElems(t[1..], es[1..]).value);
    } else if t != [] && IsSpace(t[0]) {
      var ws1 := MatchElemsSound(t[1..], es);
      ws := SoundSpace(t, es, ws1, MatchElems(t[1..], es).value);
    } else {
      var ws1 := MatchElemsSound(t, es[1..]);
      ws := SoundEnd(es, ws1);
    }
  }

  lemma SoundCh(t: string, es: seq<Elem>, ws1: seq<string>, v: nat) returns (ws: seq<string>)
    requires es != [] && es[0].Ch? && t != [] && t[0] == es[0].c
    requires |ws1| == |es| - 1 && RunsFit(es[1..], ws1)
    requires v <= |t| - 1 && t[1..][..v] == Fill(es[1..], ws1)
    ensures |ws| == |es| && RunsFit(es, ws) && t[..1 + v] == Fill(es, ws)
  {
    ws := [[]] + ws1;
    assert ws[1..] == ws1;
    ConsFill(t, v, [es[0].c], Fill(es[1..], ws1));
    assert forall i :: 1 <= i < |es| ==> es[i] == es[1..][i - 1] && ws[i] == ws1[i - 1];
  }

  lemma SoundSpace(t: string, es: seq<Elem>, ws1: seq<string>, v: nat) returns (ws: seq<string>)
    requires es != [] && es[0].Ws? && t != [] && IsSpace(t[0])
    requires |ws1| == |es| && RunsFit(es, ws1)
    requires v <= |t| - 1 && t[1..][..v] == Fill(es, ws1)
    ensures |ws| == |es| && RunsFit(es, ws) && t[..1 + v] == Fill(es, ws)
  {
    ws := [[t[0]] + ws1[0]] + ws1[1..];
    assert ws[1..] == ws1[1..];
    assert Fill(es, ws1) == ws1[0] + Fill(es[1..], ws1[1..]);
    assert Fill(es, ws) == [t[0]] + Fill(es, ws1);
    ConsFill(t, v, [t[0]], Fill(es, ws1));
    assert forall i :: 1 <= i < |es| ==> ws[i] == ws1[i];
    assert AllSpaces(ws[0]) by {
      assert forall k :: 1 <= k < |ws[0]| ==> ws[0][k] == ws1[0][k - 1];
    }
  }

  lemma SoundEnd(es: seq<Elem>, ws1: seq<string>) returns (ws: seq<string>)
    requires es != [] && es[0].Ws?
    requires |ws1| == |es| - 1 && RunsFit(es[1..], ws1)
    ensures |ws| == |es| && RunsFit(es, ws) && Fill(es, ws) == Fill(es[1..], ws1)
  {
    ws := [[]] + ws1;
    assert ws[1..] == ws1;
    assert forall i :: 1 <= i < |es| ==> es[i] == es[1..][i - 1] && ws[i] == ws1[i - 1];
  }

  lemma ConsFill(t: string, v: nat, a: string, f: string)
    requires t != [] && [t[0]] == a && v <= |t| - 1 && t[1..][..v] == f
    ensures t[..1 + v] == a + f
  {
    assert t[..1 + v] == [t[0]] + t[1..][..v];
  }

  /** Literal parts with whitespace between them: every `\s*` is followed by a part's first character. */
  lemma {:induction false} InterleaveSolid(parts: seq<string>)
    requires forall i :: 0 <= i < |parts| ==> parts[i] != [] && !IsSpace(parts[i][0])
    ensures Solid(Interleave(parts))
    ensures parts != [] ==> Interleave(parts)[0] == Ch(parts[0][0])
    decreases |parts|
  {
    if |parts| > 1 {
      var rest := parts[1..];
      assert forall i :: 0 <= i < |rest| ==> rest[i] == parts[i + 1];
      InterleaveSolid(rest);
      var a := Lits(parts[0]);
      var x := Interleave(rest);
      var es := a + [Ws] + x;
      forall i | 0 <= i < |es| && es[i].Ws?
        ensures i + 1 < |es| && es[i + 1].Ch? && !IsSpace(es[i + 1].c)
      {
        if i > |a| {
          assert es[i] == x[i - |a| - 1];
          assert es[i + 1] == x[i + 1 - |a| - 1];
        } else {
          assert i == |a|;
          assert es[i + 1] == x[0];
        }
      }
    }
  }

  lemma HeaderSolid()
    ensures Solid(HeaderElems) && HeaderElems[0] == Ch('"')
  {
    var heads := ['"', 'O', '"', '{', 'v', 't', '}'];
    forall i | 0 <= i < |HeaderParts|
      ensures HeaderParts[i] != [] && !IsSpace(HeaderParts[i][0])
    {
      assert HeaderParts[i][0] == heads[i];
    }
    InterleaveSolid(HeaderParts);
  }

  /** The text the header pattern `es` matches with the runs `ws`, and `;` if `semi`. */
  function HeaderTextWith(es: seq<Elem>, ws: seq<string>, semi: bool): string
    requires |ws| == |es|
  {
    Fill(es, ws) + (if semi then ";" else "")
  }

  /**
   * The header with the whitespace runs `ws` (the one at position `i` is used
   * where HeaderElems has its `\s*`) and, if `semi`, the trailing `;`.
   */
  function HeaderText(ws: seq<string>, semi: bool): string
    requires |ws| == |HeaderElems|
  {
    HeaderTextWith(HeaderElems, ws, semi)
  }

  lemma MatchHeaderStep(t: string, es: seq<Elem>, m: nat)
    requires MatchElems(t, es) == Some(m) && m <= |t|
    ensures MatchHeaderWith(t, es) == Some(if m < |t| && t[m] == ';' then m + 1 else m)
  {
  }

  lemma MatchHeaderWithOf(es: seq<Elem>, ws: seq<string>, semi: bool, rest: string)
    requires |ws| == |es| && RunsFit(es, ws) && Solid(es)
    requires semi || rest == [] || rest[0] != ';'
    ensures MatchHeaderWith(HeaderTextWith(es, ws, semi) + rest, es) == Some(|HeaderTextWith(es, ws, semi)|)
  {
    var f := Fill(es, ws);
    var s := if semi then ";" else "";
    var t := HeaderTextWith(es, ws, semi) + rest;
    HeaderSplit(f, s, rest, t);
    MatchElemsOf(es, ws, s + rest);
    MatchHeaderStep(t, es, |f|);
  }

  lemma HeaderSplit(f: string, s: string, rest: string, t: string)
    requires t == f + s + rest
    requires s == ";" || s == []
    requires s == ";" || rest == [] || rest[0] != ';'
    ensures t == f + (s + rest) && |f| <= |t|
    ensures (|f| < |t| && t[|f|] == ';') <==> s == ";"
  {
    if s == [] && |f| < |t| {
      assert t[|f|] == rest[0];
    }
  }

  /** The header is matched in full, with its `;` when it has one, whatever follows. */
  lemma MatchHeaderOf(ws: seq<string>, semi: bool, rest: string)
    requires |ws| == |HeaderElems| && RunsFit(HeaderElems, ws)
    requires semi || rest == [] || rest[0] != ';'
    ensures MatchHeader(HeaderText(ws, semi) + rest) == Some(|HeaderText(ws, semi)|)
  {
    HeaderSolid();
    MatchHeaderWithOf(HeaderElems, ws, semi, rest);
  }

  lemma MatchHeaderWithSound(t: string, es: seq<Elem>) returns (ws: seq<string>, semi: bool)
    requires MatchHeaderWith(t, es).Some?
    ensures |ws| == |es| && RunsFit(es, ws)
    ensures t[..MatchHeaderWith(t, es).value] == HeaderTextWith(es, ws, semi)
    ensures !semi ==> MatchHeaderWith(t, es).value == |t| || t[MatchHeaderWith(t, es).value] != ';'
  {
    ws := MatchElemsSound(t, es);
    var m := MatchElems(t, es).value;
    MatchHeaderStep(t, es, m);
    semi := m < |t| && t[m] == ';';
    HeaderJoin(t, m, Fill(es, ws), semi);
  }

  lemma HeaderJoin(t: string, m: nat, f: string, semi: bool)
    requires m <= |t| && t[..m] == f
    requires semi <==> m < |t| && t[m] == ';'
    ensures t[..if semi then m + 1 else m] == f + (if semi then ";" else "")
  {
    if semi {
      assert t[..m + 1] == t[..m] + ";";
    }
  }

  /** Whatever the header pattern matches is a header. */
  lemma MatchHeaderSound(t: string) returns (ws: seq<string>, semi: bool)
    requires MatchHeader(t).Some?
    ensures |ws| == |HeaderElems| && RunsFit(HeaderElems, ws)
    ensures t[..MatchHeader(t).value] == HeaderText(ws, semi)
    ensures !semi ==> MatchHeader(t).value == |t| || t[MatchHeader(t).value] != ';'
  {
    ws, semi := MatchHeaderWithSound(t, HeaderElems);
  }
}
