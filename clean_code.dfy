/**
 * `cleanCode` (gulpfile.js:40-45): the four global replacements applied in
 * order to the transpiler's output, and what the chain as a whole promises.
 */
module Clean {
  import opened Wrappers
  import opened Chars
  import opened Scanner
  import opened Patterns
  import opened PatternShapes
  import opened Rewrites

  /**
   * `code.replace(removeESModuleReg, '').replace(exportsReg, 'module.exports=')
   *     .replace(removeMiddleDefault, '$1').replace(constReg, 'let ')`.
   * The result is never longer, and has no `\bconst\s+` and no
   * `\bexports.default\s*=` left: the last two replacements cannot put one back.
   */
  function CleanCode(code: string): (r: string)
    ensures |r| <= |code|
    ensures !HasMatch(ConstReg, false, r)
    ensures !HasMatch(ExportsReg, false, r)
  {
    RulesValid();
    var s1 := ReplaceAll(RemoveESModuleReg, code);
    var s2 := ReplaceAll(ExportsReg, s1);
    var s3 := ReplaceAll(RemoveMiddleDefault, s2);
    ExportsRegLeavesNoExports(false, s1);
    MiddleDefaultKeepsNoExports(false, s2);
    ConstKeepsNoExports(false, s3);
    ConstRegLeavesNoConst(false, s3);
    ReplaceAll(ConstReg, s3)
  }

  /** Some pattern of `cleanCode` matches somewhere in `code`. */
  ghost predicate AnyMatch(code: string)
  {
    HasMatch(RemoveESModuleReg, false, code) || HasMatch(ExportsReg, false, code) ||
    HasMatch(RemoveMiddleDefault, false, code) || HasMatch(ConstReg, false, code)
  }

  /**
   * Code in which no pattern matches comes back unchanged; code in which one
   * does comes back strictly shorter.
   */
  lemma CleanChangesIffMatch(code: string)
    ensures CleanCode(code) == code <==> !AnyMatch(code)
    ensures |CleanCode(code)| < |code| <==> AnyMatch(code)
  {
    RulesValid();
    var s1 := ReplaceAll(RemoveESModuleReg, code);
    var s2 := ReplaceAll(ExportsReg, s1);
    var s3 := ReplaceAll(RemoveMiddleDefault, s2);
    ScanChangesIffMatch(RemoveESModuleReg, false, code);
    if !HasMatch(RemoveESModuleReg, false, code) {
      ScanChangesIffMatch(ExportsReg, false, s1);
      if !HasMatch(ExportsReg, false, code) {
        ScanChangesIffMatch(RemoveMiddleDefault, false, s2);
        if !HasMatch(RemoveMiddleDefault, false, code) {
          ScanChangesIffMatch(ConstReg, false, s3);
        }
      }
    }
  }

  /**
   * A leading header is deleted whatever whitespace it has and whether or not
   * it ends in `;`: cleaning it and what follows is cleaning what follows.
   */
  lemma CleanDropsHeader(ws: seq<string>, semi: bool, b: string)
    requires |ws| == |HeaderElems| && RunsFit(HeaderElems, ws)
    requires semi || b == [] || b[0] != ';'
    ensures CleanCode(HeaderText(ws, semi) + b) == CleanCode(b)
  {
    RulesValid();
    var h := HeaderText(ws, semi);
    HeaderStep(ws, semi, b);
    var s1 := ReplaceAll(RemoveESModuleReg, b);
    var s2 := ReplaceAll(ExportsReg, s1);
    var s3 := ReplaceAll(RemoveMiddleDefault, s2);
    var r := ReplaceAll(ConstReg, s3);
    CleanSteps(h + b, s1, s2, s3, r);
    CleanSteps(b, s1, s2, s3, r);
  }

  lemma HeaderStep(ws: seq<string>, semi: bool, b: string)
    requires |ws| == |HeaderElems| && RunsFit(HeaderElems, ws)
    requires semi || b == [] || b[0] != ';'
    ensures Valid(RemoveESModuleReg)
    ensures ReplaceAll(RemoveESModuleReg, HeaderText(ws, semi) + b) == ReplaceAll(RemoveESModuleReg, b)
  {
    RulesValid();
    HeaderDeleted([], ws, semi, b);
    EmptyPrefix(HeaderText(ws, semi), b);
    EmptyPrefix(ReplaceAll(RemoveESModuleReg, b), []);
    EmptySuffix(ReplaceAll(RemoveESModuleReg, b), []);
  }

  // ------------------------------------------------- what each pattern needs

  lemma HeaderHead(t: string)
    ensures MatchHeader(t).Some? ==> t != [] && t[0] == '"'
  {
    HeaderSolid();
    ElemsHead(t, HeaderElems);
  }

  lemma ElemsHead(t: string, es: seq<Elem>)
    requires es != [] && es[0].Ch?
    ensures MatchElems(t, es).Some? ==> t != [] && t[0] == es[0].c
  {
  }

  lemma ExportsHead(w: bool, t: string)
    ensures MatchExports(w, t).Some? ==> |t| >= 2 && t[0] == 'e' && t[1] == 'x'
  {
    if MatchExports(w, t).Some? {
      ExportsShape(w, t);
      assert t[1] == t[..15][1];
    }
  }

  lemma MiddleDefaultHead(t: string)
    ensures MatchMiddleDefault(t).Some? ==> t != [] && t[0] == '_'
  {
  }

  lemma ConstHead(w: bool, t: string)
    ensures MatchConst(w, t).Some? ==> t != [] && t[0] == 'c'
  {
    if MatchConst(w, t).Some? {
      ConstShape(w, t);
    }
  }

  /** Without a `"` there is no header. */
  lemma NoHeaderWithout(w: bool, t: string)
    requires '"' !in t
    ensures !HasMatch(RemoveESModuleReg, w, t)
  {
    forall k | 0 <= k < |t|
      ensures MatchAt(RemoveESModuleReg, w, t, k).None?
    {
      HeaderHead(t[k..]);
    }
  }

  /** Without an `e` or without an `x` there is no `exports.default`. */
  lemma NoExportsWithout(w: bool, t: string)
    requires 'e' !in t || 'x' !in t
    ensures !HasMatch(ExportsReg, w, t)
  {
    forall k | 0 <= k < |t|
      ensures MatchAt(ExportsReg, w, t, k).None?
    {
      ExportsHead(Flag(w, t, k), t[k..]);
      if k + 1 < |t| {
        assert t[k..][1] == t[k + 1];
      }
    }
  }

  /** Without a `_` there is no `_<digits>.default`. */
  lemma NoMiddleDefaultWithout(w: bool, t: string)
    requires '_' !in t
    ensures !HasMatch(RemoveMiddleDefault, w, t)
  {
    forall k | 0 <= k < |t|
      ensures MatchAt(RemoveMiddleDefault, w, t, k).None?
    {
      MiddleDefaultHead(t[k..]);
    }
  }

  /** Without a `c` there is no `const`. */
  lemma NoConstWithout(w: bool, t: string)
    requires 'c' !in t
    ensures !HasMatch(ConstReg, w, t)
  {
    forall k | 0 <= k < |t|
      ensures MatchAt(ConstReg, w, t, k).None?
    {
      ConstHead(Flag(w, t, k), t[k..]);
    }
  }

  /** A run of whitespace holds none of the characters the patterns start with. */
  lemma NotInSpaces(ws: string, c: char)
    requires AllSpaces(ws) && !IsSpace(c)
    ensures c !in ws
  {
  }

  /** A run of digits holds none of the characters the patterns start with. */
  lemma NotInDigits(ds: string, c: char)
    requires AllDigits(ds) && !IsDigit(c)
    ensures c !in ds
  {
  }

  // ------------------------------------------------------------- instances

  /** `cleanCode` is its four passes, whatever the intermediate texts are called. */
  lemma CleanSteps(t: string, s1: string, s2: string, s3: string, r: string)
    requires Valid(RemoveESModuleReg) && Valid(ExportsReg) && Valid(RemoveMiddleDefault) && Valid(ConstReg)
    requires ReplaceAll(RemoveESModuleReg, t) == s1 && ReplaceAll(ExportsReg, s1) == s2
    requires ReplaceAll(RemoveMiddleDefault, s2) == s3 && ReplaceAll(ConstReg, s3) == r
    ensures CleanCode(t) == r
  {
  }

  /** Text without `"` is not touched by the first pass. */
  lemma KeepsNoHeader(t: string)
    requires '"' !in t
    ensures Valid(RemoveESModuleReg) && ReplaceAll(RemoveESModuleReg, t) == t
  {
    RulesValid();
    NoHeaderWithout(false, t);
    ScanNoMatch(RemoveESModuleReg, false, t);
  }

  /** Text without `e` or without `x` is not touched by the second pass. */
  lemma KeepsNoExports(t: string)
    requires 'e' !in t || 'x' !in t
    ensures Valid(ExportsReg) && ReplaceAll(ExportsReg, t) == t
  {
    RulesValid();
    NoExportsWithout(false, t);
    ScanNoMatch(ExportsReg, false, t);
  }

  /** Text without `_` is not touched by the third pass. */
  lemma KeepsNoMiddleDefault(t: string)
    requires '_' !in t
    ensures Valid(RemoveMiddleDefault) && ReplaceAll(RemoveMiddleDefault, t) == t
  {
    RulesValid();
    NoMiddleDefaultWithout(false, t);
    ScanNoMatch(RemoveMiddleDefault, false, t);
  }

  /** Text without `c` is not touched by the last pass. */
  lemma KeepsNoConst(t: string)
    requires 'c' !in t
    ensures Valid(ConstReg) && ReplaceAll(ConstReg, t) == t
  {
    RulesValid();
    NoConstWithout(false, t);
    ScanNoMatch(ConstReg, false, t);
  }

  /** A `const` declaration becomes a `let` one, whatever whitespace follows the keyword. */
  lemma CleanConstDecl(ws: string, b: string)
    requires ws != [] && AllSpaces(ws) && (b == [] || !IsSpace(b[0]))
    requires '"' !in b && '_' !in b && 'c' !in b && ('e' !in b || 'x' !in b)
    ensures CleanCode(ConstKeyword + ws + b) == LetReplacement + b
  {
    var t := ConstKeyword + ws + b;
    ConstDeclChars(ws, b);
    KeepsNoHeader(t);
    KeepsNoExports(t);
    KeepsNoMiddleDefault(t);
    ConstDeclStep(ws, b);
    CleanSteps(t, t, t, t, LetReplacement + b);
  }

  lemma ConstDeclChars(ws: string, b: string)
    requires AllSpaces(ws)
    requires '"' !in b && '_' !in b && ('e' !in b || 'x' !in b)
    ensures var t := ConstKeyword + ws + b;
            '"' !in t && '_' !in t && ('e' !in t || 'x' !in t)
  {
    NotInSpaces(ws, '"');
    NotInSpaces(ws, '_');
    NotInSpaces(ws, 'e');
    NotInSpaces(ws, 'x');
  }

  lemma ConstDeclStep(ws: string, b: string)
    requires ws != [] && AllSpaces(ws) && (b == [] || !IsSpace(b[0])) && 'c' !in b
    ensures Valid(ConstReg) && ReplaceAll(ConstReg, ConstKeyword + ws + b) == LetReplacement + b
  {
    RulesValid();
    NoConstWithout(false, b);
    ScanNoMatch(ConstReg, false, b);
    EmptyPrefix(ConstKeyword + ws, b);
    ConstRewritten([], ws, b);
    EmptyPrefix(LetReplacement, b);
  }

  /** `exports.default =` becomes `module.exports=`, whatever whitespace precedes the `=`. */
  lemma CleanExportsDefault(ws: string, b: string)
    requires AllSpaces(ws)
    requires '"' !in b && '_' !in b && 'c' !in b && ('e' !in b || 'x' !in b)
    ensures CleanCode(ExportsKeyword + ws + "=" + b) == ExportsReplacement + b
  {
    var t := ExportsKeyword + ws + "=" + b;
    var u := ExportsReplacement + b;
    ExportsDefaultChars(ws, b);
    KeepsNoHeader(t);
    ExportsDefaultStep(ws, b);
    KeepsNoMiddleDefault(u);
    KeepsNoConst(u);
    CleanSteps(t, t, u, u, u);
  }

  lemma ExportsDefaultChars(ws: string, b: string)
    requires AllSpaces(ws) && '"' !in b && '_' !in b && 'c' !in b
    ensures '"' !in ExportsKeyword + ws + "=" + b
    ensures '_' !in ExportsReplacement + b && 'c' !in ExportsReplacement + b
  {
    NotInSpaces(ws, '"');
  }

  lemma ExportsDefaultStep(ws: string, b: string)
    requires AllSpaces(ws) && ('e' !in b || 'x' !in b)
    ensures Valid(ExportsReg) && ReplaceAll(ExportsReg, ExportsKeyword + ws + "=" + b) == ExportsReplacement + b
  {
    RulesValid();
    NoExportsWithout(false, b);
    ScanNoMatch(ExportsReg, false, b);
    EmptyPrefix(ExportsKeyword + ws + "=", b);
    ExportsRewritten([], ws, b);
    EmptyPrefix(ExportsReplacement, b);
  }

  /** `_<digits>.default` loses its `.default`, even at the end of an identifier. */
  lemma CleanMiddleDefault(a: string, ds: string)
    requires ds != [] && AllDigits(ds)
    requires '"' !in a && '_' !in a && 'c' !in a && 'x' !in a
    ensures CleanCode(a + ("_" + ds + DotDefault)) == a + ("_" + ds)
  {
    var t := a + ("_" + ds + DotDefault);
    var u := a + ("_" + ds);
    MiddleDefaultChars(a, ds, DotDefault);
    KeepsNoHeader(t);
    KeepsNoExports(t);
    MiddleDefaultStep(a, ds);
    KeepsNoConst(u);
    CleanSteps(t, t, t, u, u);
  }

  lemma MiddleDefaultChars(a: string, ds: string, b: string)
    requires AllDigits(ds)
    requires '"' !in a && 'c' !in a && 'x' !in a
    requires '"' !in b && 'c' !in b && 'x' !in b
    ensures var t := a + ("_" + ds + b);
            var u := a + ("_" + ds);
            '"' !in t && 'x' !in t && 'c' !in u
  {
    NotInDigits(ds, '"');
    NotInDigits(ds, 'x');
    NotInDigits(ds, 'c');
  }

  lemma MiddleDefaultStep(a: string, ds: string)
    requires ds != [] && AllDigits(ds) && '_' !in a
    ensures Valid(RemoveMiddleDefault)
    ensures ReplaceAll(RemoveMiddleDefault, a + ("_" + ds + DotDefault)) == a + ("_" + ds)
  {
    RulesValid();
    var m := "_" + ds + DotDefault;
    forall i | 0 <= i < |a|
      ensures MatchAt(RemoveMiddleDefault, false, a + m + [], i).None?
    {
      assert (a + m + [])[i..][0] == a[i];
      MiddleDefaultHead((a + m + [])[i..]);
    }
    assert ReplaceAll(RemoveMiddleDefault, []) == [];
    EmptySuffix(a, m);
    MiddleDefaultRewritten(a, ds, []);
    EmptySuffix(a, "_" + ds);
  }

  /** A second `.default` survives one pass: the scan resumes after the first. */
  lemma CleanDoubleDefault(ds: string)
    requires ds != [] && AllDigits(ds)
    ensures CleanCode("_" + ds + DotDefault + DotDefault) == "_" + ds + DotDefault
  {
    var m := "_" + ds + DotDefault;
    var t := m + DotDefault;
    MiddleDefaultChars([], ds, DotDefault + DotDefault);
    MiddleDefaultChars([], ds, DotDefault);
    assert t == [] + ("_" + ds + (DotDefault + DotDefault));
    assert m == [] + ("_" + ds + DotDefault);
    KeepsNoHeader(t);
    KeepsNoExports(t);
    DoubleDefaultStep(ds, DotDefault);
    KeepsNoConst(m);
    CleanSteps(t, t, t, m, m);
  }

  lemma DoubleDefaultStep(ds: string, b: string)
    requires ds != [] && AllDigits(ds) && '_' !in b
    ensures Valid(RemoveMiddleDefault)
    ensures ReplaceAll(RemoveMiddleDefault, "_" + ds + DotDefault + b) == "_" + ds + b
  {
    RulesValid();
    var m := "_" + ds + DotDefault;
    assert ReplaceAll(RemoveMiddleDefault, b) == b by {
      NoMiddleDefaultWithout(false, b);
      ScanNoMatch(RemoveMiddleDefault, false, b);
    }
    assert ReplaceAll(RemoveMiddleDefault, [] + m + b) == [] + ("_" + ds) + b by {
      MiddleDefaultRewritten([], ds, b);
    }
    EmptyPrefix(m, b);
    EmptyPrefix("_" + ds, b);
  }

  lemma EmptyPrefix(m: string, b: string)
    ensures [] + m + b == m + b
  {
  }

  lemma EmptySuffix(a: string, m: string)
    ensures a + m + [] == a + m
  {
  }

  /**
   * Cleaning twice is not cleaning once: the scan resumes after each
   * `_<digits>.default` it rewrites, so a second `.default` behind it survives
   * one pass and falls to the next.
   */
  lemma CleanNotIdempotent(ds: string)
    requires ds != [] && AllDigits(ds)
    ensures var once := CleanCode("_" + ds + DotDefault + DotDefault);
            CleanCode(once) != once
  {
    CleanDoubleDefault(ds);
    CleanMiddleDefault([], ds);
    assert [] + ("_" + ds + DotDefault) == "_" + ds + DotDefault;
    assert |"_" + ds| < |"_" + ds + DotDefault|;
  }

  /** The compiled `const x = 1;` comes out as `let x = 1;`. */
  lemma ConstDeclExample()
    ensures CleanCode(ConstKeyword + " " + "x = 1;") == LetReplacement + "x = 1;"
  {
    CleanConstDecl(" ", "x = 1;");
  }
}
