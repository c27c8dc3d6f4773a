/**
 * What one `replace` call of `cleanCode` leaves behind: after `constReg` no
 * `\bconst\s+` is left, after `exportsReg` no `\bexports.default\s*=`, and
 * neither of the later two calls can put an `exports.default =` back.
 */
module Rewrites {
  import opened Wrappers
  import opened Chars
  import opened Scanner
  import opened Patterns
  import opened PatternShapes

  // ---------------------------------------------------------------- constReg

  /** The inserted `let ` cannot start a `const`, and the space after it clears `\b`. */
  lemma LetPrefixNoConst(w: bool, rest: string)
    requires !HasMatch(ConstReg, false, rest)
    ensures !HasMatch(ConstReg, w, LetReplacement + rest)
  {
    var o := LetReplacement + rest;
    forall i | 0 <= i < |LetReplacement|
      ensures MatchAt(ConstReg, w, o, i).None?
    {
      assert o[i..][0] == o[i] == LetReplacement[i];
    }
    assert Flag(w, o, |LetReplacement|) == false;
    NoMatchAppend(ConstReg, w, LetReplacement, rest);
  }

  /**
   * If the copied character `t[0]` followed by the rest of the output matched
   * `const\s+`, then `t` did already: the rest starts with the input up to its
   * first replacement at `j`, and `j` is either past the sixth character or the
   * whole input, since a match at `j` needs a non-word character before it.
   */
  lemma ConstTransfer(w: bool, t: string, R: string, j: nat, x: string)
    requires t != [] && j <= |t| - 1
    requires R == t[1..][..j] + x
    requires j == |t| - 1 ==> x == []
    requires j < |t| - 1 ==> !Flag(IsWordChar(t[0]), t[1..], j)
    requires MatchConst(w, [t[0]] + R).Some?
    ensures MatchConst(w, t).Some?
  {
    var o := [t[0]] + R;
    ConstShape(w, o);
    if j <= 4 {
      ConstKeywordFlag(t, R, j, x);
    }
    if j == |t| - 1 {
      assert t[1..][..j] == t[1..];
      assert o == t;
    } else {
      assert o[..6] == t[..6];
      ConstLocal(w, t, o);
    }
  }

  /** A copied run that ends inside `const` ends after a word character. */
  lemma ConstKeywordFlag(t: string, R: string, j: nat, x: string)
    requires t != [] && j <= |t| - 1 && j <= 4
    requires R == t[1..][..j] + x
    requires 5 <= |[t[0]] + R| && ([t[0]] + R)[..5] == ConstKeyword
    ensures Flag(IsWordChar(t[0]), t[1..], j)
  {
    var o := [t[0]] + R;
    assert o[0] == o[..5][0] == 'c';
    if j > 0 {
      assert t[1..][j - 1] == R[j - 1] == o[j] == o[..5][j];
    }
  }

  /** Copying a character where `\bconst\s+` did not match never creates a match there. */
  lemma ConstNotCreated(w: bool, t: string)
    requires t != [] && MatchConst(w, t).None?
    ensures MatchConst(w, [t[0]] + Scan(ConstReg, IsWordChar(t[0]), t[1..])).None?
  {
    RulesValid();
    var b := IsWordChar(t[0]);
    var v := t[1..];
    var R := Scan(ConstReg, b, v);
    if MatchConst(w, [t[0]] + R).Some? {
      var j := FirstMatch(ConstReg, b, v);
      ScanSkip(ConstReg, b, v, j);
      var x := Scan(ConstReg, Flag(b, v, j), v[j..]);
      if j < |v| {
        assert MatchConst(Flag(b, v, j), v[j..]).Some?;
      }
      ConstTransfer(w, t, R, j, x);
    }
  }

  /** After `code.replace(constReg, 'let ')` no `\bconst\s+` is left. */
  lemma {:induction false} ConstRegLeavesNoConst(w: bool, t: string)
    requires Valid(ConstReg)
    ensures !HasMatch(ConstReg, w, Scan(ConstReg, w, t))
    decreases |t|
  {
    if t != [] {
      match MatchConst(w, t)
      case Some(n) =>
        ScanReplaces(ConstReg, w, t);
        ConstShape(w, t);
        ConstRegLeavesNoConst(false, t[n..]);
        LetPrefixNoConst(w, Scan(ConstReg, false, t[n..]));
      case None =>
        ScanCopies(ConstReg, w, t);
        var R := Scan(ConstReg, IsWordChar(t[0]), t[1..]);
        ConstRegLeavesNoConst(IsWordChar(t[0]), t[1..]);
        ConstNotCreated(w, t);
        CopiedPrefix(ConstReg, w, t[0], R);
    }
  }

  /** No match at the copied first character, none after it: none at all. */
  lemma CopiedPrefix(r: Rule, w: bool, c: char, rest: string)
    requires r.matchAt(w, [c] + rest).None?
    requires !HasMatch(r, IsWordChar(c), rest)
    ensures !HasMatch(r, w, [c] + rest)
  {
    assert ([c] + rest)[0..] == [c] + rest;
    NoMatchAppend(r, w, [c], rest);
  }

  // -------------------------------------------------------------- exportsReg

  /**
   * Copying `t[0]` where `exports.default =` did not match never creates a
   * match there, as long as the first replacement `x` after the copied run
   * starts with a character such a match cannot contain, or with `le`.
   */
  lemma ExportsTransfer(w: bool, t: string, R: string, j: nat, x: string)
    requires t != [] && j <= |t| - 1
    requires R == t[1..][..j] + x
    requires j == |t| - 1 ==> x == []
    requires j < |t| - 1 ==> (x != [] && !ExportsChar(x[0])) || (|x| >= 2 && x[0] == 'l' && x[1] == 'e')
    requires MatchExports(w, [t[0]] + R).Some?
    ensures MatchExports(w, t).Some?
  {
    var o := [t[0]] + R;
    var m := MatchExports(w, o).value;
    ExportsShape(w, o);
    if j < |t| - 1 {
      assert o[1 + j] == x[0];
      if |x| >= 2 {
        assert o[2 + j] == x[1];
      }
      ExportsNoLe(w, o, 1 + j);
    }
    if j == |t| - 1 {
      assert t[1..][..j] == t[1..];
      assert o == t;
    } else {
      assert o[..m] == t[..m];
      ExportsLocal(w, t, o);
    }
  }

  /** Inside an `exports.default =` match every character is one it may contain, and no `l` is followed by `e`. */
  lemma ExportsNoLe(w: bool, o: string, k: nat)
    requires MatchExports(w, o).Some? && k < |o|
    ensures var m := MatchExports(w, o).value;
            k < m ==> ExportsChar(o[k]) && (k + 1 < |o| ==> !(o[k] == 'l' && o[k + 1] == 'e'))
  {
    var m := MatchExports(w, o).value;
    ExportsShape(w, o);
    if k < 15 {
      assert o[k] == o[..15][k];
      assert o[14] == o[..15][14] == 't';
    } else if k < m - 1 {
      assert IsSpace(o[k]) by {
        assert o[k] == o[15..m - 1][k - 15];
      }
    }
  }

  /** The inserted `module.exports=` contains no `\bexports.default\s*=` and ends outside a word. */
  lemma ModulePrefixNoExports(w: bool, rest: string)
    requires !HasMatch(ExportsReg, false, rest)
    ensures !HasMatch(ExportsReg, w, ExportsReplacement + rest)
  {
    var o := ExportsReplacement + rest;
    forall i | 0 <= i < |ExportsReplacement|
      ensures MatchAt(ExportsReg, w, o, i).None?
    {
      if MatchExports(Flag(w, o, i), o[i..]).Some? {
        assert false;
      }
    }
    assert Flag(w, o, |ExportsReplacement|) == false;
    NoMatchAppend(ExportsReg, w, ExportsReplacement, rest);
  }

  /** Copying a character where `exports.default =` did not match never creates one there. */
  lemma ExportsNotCreated(w: bool, t: string)
    requires t != [] && MatchExports(w, t).None?
    ensures MatchExports(w, [t[0]] + Scan(ExportsReg, IsWordChar(t[0]), t[1..])).None?
  {
    RulesValid();
    var b := IsWordChar(t[0]);
    var v := t[1..];
    if MatchExports(w, [t[0]] + Scan(ExportsReg, b, v)).Some? {
      var j, x, y := ScanSplit(ExportsReg, b, v);
      if j < |v| {
        HeadOf(x, ExportsReplacement, y);
      }
      ExportsTransfer(w, t, Scan(ExportsReg, b, v), j, x);
    }
  }

  /** After `code.replace(exportsReg, 'module.exports=')` no `\bexports.default\s*=` is left. */
  lemma {:induction false} ExportsRegLeavesNoExports(w: bool, t: string)
    requires Valid(ExportsReg)
    ensures !HasMatch(ExportsReg, w, Scan(ExportsReg, w, t))
    decreases |t|
  {
    if t != [] {
      match MatchExports(w, t)
      case Some(m) =>
        ExportsRegLeavesNoExports(false, t[m..]);
        ExportsReplacedCase(w, t);
      case None =>
        ExportsRegLeavesNoExports(IsWordChar(t[0]), t[1..]);
        ExportsCopiedCase(w, t);
    }
  }

  /** A match at the start is replaced by `module.exports=`, which cannot start a new one. */
  lemma ExportsReplacedCase(w: bool, t: string)
    requires Valid(ExportsReg) && MatchExports(w, t).Some?
    requires !HasMatch(ExportsReg, false, Scan(ExportsReg, false, t[MatchExports(w, t).value..]))
    ensures !HasMatch(ExportsReg, w, Scan(ExportsReg, w, t))
  {
    var m := MatchExports(w, t).value;
    ScanReplaces(ExportsReg, w, t);
    ExportsShape(w, t);
    ModulePrefixNoExports(w, Scan(ExportsReg, false, t[m..]));
  }

  /** A character copied where nothing matched cannot start a match in the output either. */
  lemma ExportsCopiedCase(w: bool, t: string)
    requires Valid(ExportsReg) && t != [] && MatchExports(w, t).None?
    requires !HasMatch(ExportsReg, IsWordChar(t[0]), Scan(ExportsReg, IsWordChar(t[0]), t[1..]))
    ensures !HasMatch(ExportsReg, w, Scan(ExportsReg, w, t))
  {
    ScanCopies(ExportsReg, w, t);
    ExportsNotCreated(w, t);
    CopiedPrefix(ExportsReg, w, t[0], Scan(ExportsReg, IsWordChar(t[0]), t[1..]));
  }

  // ------------------------------------------ removeMiddleDefault, constReg

  /** The kept `_<digits>` contains no `exports.default =` and ends inside a word. */
  lemma KeptPrefixNoExports(w: bool, t: string, rest: string)
    requires MatchMiddleDefault(t).Some?
    requires !HasMatch(ExportsReg, true, rest)
    ensures var g := MatchMiddleDefault(t).value - |DotDefault|;
            !HasMatch(ExportsReg, w, t[..g] + rest)
  {
    MiddleDefaultShape(t);
    var g := MatchMiddleDefault(t).value - |DotDefault|;
    var a := t[..g];
    var o := a + rest;
    forall i | 0 <= i < |a|
      ensures MatchAt(ExportsReg, w, o, i).None?
    {
      assert o[i..][0] == o[i] == t[i];
      if i > 0 {
        assert t[i] == t[1..g][i - 1];
      }
      if MatchExports(Flag(w, o, i), o[i..]).Some? {
        ExportsShape(Flag(w, o, i), o[i..]);
      }
    }
    assert o[g - 1] == t[1..g][g - 2];
    assert Flag(w, o, |a|);
    NoMatchAppend(ExportsReg, w, a, rest);
  }

  /** `code.replace(removeMiddleDefault, '$1')` never creates an `exports.default =`. */
  lemma {:induction false} MiddleDefaultKeepsNoExports(w: bool, t: string)
    requires Valid(RemoveMiddleDefault)
    requires !HasMatch(ExportsReg, w, t)
    ensures !HasMatch(ExportsReg, w, Scan(RemoveMiddleDefault, w, t))
    decreases |t|
  {
    if t != [] {
      MatchAtTail(ExportsReg, w, t);
      match MatchMiddleDefault(t)
      case Some(n) =>
        ScanReplaces(RemoveMiddleDefault, w, t);
        MiddleDefaultShape(t);
        NoMatchSuffix(ExportsReg, w, t, n);
        MiddleDefaultKeepsNoExports(true, t[n..]);
        KeptPrefixNoExports(w, t, Scan(RemoveMiddleDefault, true, t[n..]));
      case None =>
        ScanCopies(RemoveMiddleDefault, w, t);
        NoMatchSuffix(ExportsReg, w, t, 1);
        MiddleDefaultKeepsNoExports(IsWordChar(t[0]), t[1..]);
        MiddleDefaultNoExportsCreated(w, t);
        CopiedPrefix(ExportsReg, w, t[0], Scan(RemoveMiddleDefault, IsWordChar(t[0]), t[1..]));
    }
  }

  lemma MiddleDefaultNoExportsCreated(w: bool, t: string)
    requires t != [] && MatchExports(w, t).None?
    ensures MatchExports(w, [t[0]] + Scan(RemoveMiddleDefault, IsWordChar(t[0]), t[1..])).None?
  {
    RulesValid();
    var b := IsWordChar(t[0]);
    var v := t[1..];
    if MatchExports(w, [t[0]] + Scan(RemoveMiddleDefault, b, v)).Some? {
      var j, x, y := ScanSplit(RemoveMiddleDefault, b, v);
      if j < |v| {
        KeptHead(v[j..], x, y);
      }
      ExportsTransfer(w, t, Scan(RemoveMiddleDefault, b, v), j, x);
    }
  }

  /** What `'$1'` puts in starts with the `_` of the match. */
  lemma KeptHead(u: string, x: string, y: string)
    requires MatchMiddleDefault(u).Some?
    requires x == DropDotDefault(u[..MatchMiddleDefault(u).value]) + y
    ensures x != [] && !ExportsChar(x[0])
  {
    MiddleDefaultShape(u);
    var g := MatchMiddleDefault(u).value - |DotDefault|;
    assert x[0] == u[..g][0] == u[0];
  }

  lemma HeadOf(x: string, a: string, y: string)
    requires x == a + y && |a| >= 2
    ensures |x| >= 2 && x[0] == a[0] && x[1] == a[1]
  {
  }

  /** The inserted `let ` contains no `exports.default =` and ends outside a word. */
  lemma LetPrefixNoExports(w: bool, rest: string)
    requires !HasMatch(ExportsReg, false, rest)
    ensures !HasMatch(ExportsReg, w, LetReplacement + rest)
  {
    var o := LetReplacement + rest;
    forall i | 0 <= i < |LetReplacement|
      ensures MatchAt(ExportsReg, w, o, i).None?
    {
      assert o[i..][0] == o[i] == LetReplacement[i];
    }
    assert Flag(w, o, |LetReplacement|) == false;
    NoMatchAppend(ExportsReg, w, LetReplacement, rest);
  }

  lemma ConstNoExportsCreated(w: bool, t: string)
    requires t != [] && MatchExports(w, t).None?
    ensures MatchExports(w, [t[0]] + Scan(ConstReg, IsWordChar(t[0]), t[1..])).None?
  {
    RulesValid();
    var b := IsWordChar(t[0]);
    var v := t[1..];
    if MatchExports(w, [t[0]] + Scan(ConstReg, b, v)).Some? {
      var j, x, y := ScanSplit(ConstReg, b, v);
      if j < |v| {
        HeadOf(x, LetReplacement, y);
      }
      ExportsTransfer(w, t, Scan(ConstReg, b, v), j, x);
    }
  }

  /** `code.replace(constReg, 'let ')` never creates an `exports.default =`. */
  lemma {:induction false} ConstKeepsNoExports(w: bool, t: string)
    requires Valid(ConstReg)
    requires !HasMatch(ExportsReg, w, t)
    ensures !HasMatch(ExportsReg, w, Scan(ConstReg, w, t))
    decreases |t|
  {
    if t != [] {
      MatchAtTail(ExportsReg, w, t);
      match MatchConst(w, t)
      case Some(n) =>
        ScanReplaces(ConstReg, w, t);
        ConstShape(w, t);
        NoMatchSuffix(ExportsReg, w, t, n);
        ConstKeepsNoExports(false, t[n..]);
        LetPrefixNoExports(w, Scan(ConstReg, false, t[n..]));
      case None =>
        ScanCopies(ConstReg, w, t);
        NoMatchSuffix(ExportsReg, w, t, 1);
        ConstKeepsNoExports(IsWordChar(t[0]), t[1..]);
        ConstNoExportsCreated(w, t);
        CopiedPrefix(ExportsReg, w, t[0], Scan(ConstReg, IsWordChar(t[0]), t[1..]));
    }
  }

  // ------------------------------------------------------- one match in place

  lemma FlagBefore(w: bool, a: string, m: string, b: string)
    ensures Flag(w, a + m + b, |a|) == if a == [] then w else IsWordChar(a[|a| - 1])
  {
    if a != [] {
      assert (a + m + b)[|a| - 1] == a[|a| - 1];
    }
  }

  /**
   * The first header of the text is deleted in full, with its `;` if it has
   * one; the scan goes on over the rest as over a text of its own.
   */
  lemma HeaderDeleted(a: string, ws: seq<string>, semi: bool, b: string)
    requires |ws| == |HeaderElems| && RunsFit(HeaderElems, ws)
    requires semi || b == [] || b[0] != ';'
    requires forall i :: 0 <= i < |a| ==> MatchAt(RemoveESModuleReg, false, a + HeaderText(ws, semi) + b, i).None?
    ensures ReplaceAll(RemoveESModuleReg, a + HeaderText(ws, semi) + b) == a + ReplaceAll(RemoveESModuleReg, b)
  {
    RulesValid();
    var h := HeaderText(ws, semi);
    MatchHeaderOf(ws, semi, b);
    ScanAt(RemoveESModuleReg, false, a, h, b);
    HeaderScanFlag(IsWordChar(h[|h| - 1]), b);
    EmptyMiddle(a, ReplaceAll(RemoveESModuleReg, b));
  }

  /** The header pattern does not look at `\b`, so neither does its scan. */
  lemma HeaderScanFlag(w: bool, t: string)
    ensures Valid(RemoveESModuleReg) && Scan(RemoveESModuleReg, w, t) == ReplaceAll(RemoveESModuleReg, t)
  {
    RulesValid();
    assert RemoveESModuleReg.matchAt(w, t) == RemoveESModuleReg.matchAt(false, t) == MatchHeader(t);
    ScanIgnoresFlag(RemoveESModuleReg, w, false, t);
  }

  lemma EmptyMiddle(a: string, b: string)
    ensures a + "" + b == a + b
  {
  }

  /** The first `exports.default =` at a word boundary becomes `module.exports=`. */
  lemma ExportsRewritten(a: string, ws: string, b: string)
    requires AllSpaces(ws)
    requires a == [] || !IsWordChar(a[|a| - 1])
    requires forall i :: 0 <= i < |a| ==> MatchAt(ExportsReg, false, a + (ExportsKeyword + ws + "=") + b, i).None?
    ensures ReplaceAll(ExportsReg, a + (ExportsKeyword + ws + "=") + b) == a + ExportsReplacement + ReplaceAll(ExportsReg, b)
  {
    RulesValid();
    var m := ExportsKeyword + ws + "=";
    FlagBefore(false, a, m, b);
    ExportsOf(ws, b);
    assert m + b == ExportsKeyword + ws + "=" + b;
    assert m[|m| - 1] == '=';
    ScanAt(ExportsReg, false, a, m, b);
  }

  /** The first `_<digits>.default` becomes `_<digits>`, also inside an identifier. */
  lemma MiddleDefaultRewritten(a: string, ds: string, b: string)
    requires ds != [] && AllDigits(ds)
    requires forall i :: 0 <= i < |a| ==> MatchAt(RemoveMiddleDefault, false, a + ("_" + ds + DotDefault) + b, i).None?
    ensures ReplaceAll(RemoveMiddleDefault, a + ("_" + ds + DotDefault) + b) ==
            a + ("_" + ds) + ReplaceAll(RemoveMiddleDefault, b)
  {
    RulesValid();
    var m := "_" + ds + DotDefault;
    MiddleDefaultOf(ds, b);
    assert m[|m| - 1] == 't';
    ScanAt(RemoveMiddleDefault, false, a, m, b);
    ScanIgnoresFlag(RemoveMiddleDefault, true, false, b);
  }

  /** The first `const` and its whole whitespace run, at a word boundary, become `let `. */
  lemma ConstRewritten(a: string, ws: string, b: string)
    requires ws != [] && AllSpaces(ws) && (b == [] || !IsSpace(b[0]))
    requires a == [] || !IsWordChar(a[|a| - 1])
    requires forall i :: 0 <= i < |a| ==> MatchAt(ConstReg, false, a + (ConstKeyword + ws) + b, i).None?
    ensures ReplaceAll(ConstReg, a + (ConstKeyword + ws) + b) == a + LetReplacement + ReplaceAll(ConstReg, b)
  {
    RulesValid();
    var m := ConstKeyword + ws;
    FlagBefore(false, a, m, b);
    ConstOf(ws, b);
    assert m[|m| - 1] == ws[|ws| - 1];
    ScanAt(ConstReg, false, a, m, b);
  }
}
