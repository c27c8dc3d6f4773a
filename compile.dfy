/**
 * The two hooks of the `combineTool.config` call (gulpfile.js:46-76) that
 * hold logic of their own: `compileJSStart`, which runs the TypeScript
 * transpiler and then `cleanCode`, and `resolveRequire`, which renames one
 * module id.
 */
module Compile {
  import opened Scanner
  import opened Patterns
  import opened Clean

  /** `ts.ModuleKind`: the module systems the transpiler can emit. */
  datatype ModuleKind = None | CommonJS | AMD | UMD | System | ES2015 | ESNext

  /** The `compilerOptions` given to `ts.transpileModule`. */
  datatype CompilerOptions = CompilerOptions(lib: seq<string>, target: string, moduleKind: ModuleKind)

  /** `{ lib: ['es7'], target: 'es2018', module: ts.ModuleKind.None }` (gulpfile.js:58-62). */
  const TranspileOptions: CompilerOptions := CompilerOptions(["es7"], "es2018", ModuleKind.None)

  /**
   * `compileJSStart(content)`: the transpiler's output text for `content`
   * under the fixed options, cleaned. The transpiler is a parameter: what it
   * produces is not part of this model.
   */
  function CompileJSStart(transpile: (string, CompilerOptions) -> string, content: string): (r: string)
    ensures |r| <= |transpile(content, TranspileOptions)|
    ensures !HasMatch(ConstReg, false, r) && !HasMatch(ExportsReg, false, r)
  {
    CleanCode(transpile(content, TranspileOptions))
  }

  /**
   * Only what the transpiler does under the fixed options matters: two
   * transpilers that agree there give the same hook result.
   */
  lemma CompileDependsOnOptionsOnly(t1: (string, CompilerOptions) -> string, t2: (string, CompilerOptions) -> string, content: string)
    requires t1(content, TranspileOptions) == t2(content, TranspileOptions)
    ensures CompileJSStart(t1, content) == CompileJSStart(t2, content)
  {
  }

  /**
   * The hook returns the transpiler's output untouched exactly when none of
   * the four patterns occurs in it, and a strictly shorter text otherwise.
   */
  lemma CompileKeepsIffClean(transpile: (string, CompilerOptions) -> string, content: string)
    ensures var out := transpile(content, TranspileOptions);
            (CompileJSStart(transpile, content) == out <==> !AnyMatch(out)) &&
            (|CompileJSStart(transpile, content)| < |out| <==> AnyMatch(out))
  {
    CleanChangesIffMatch(transpile(content, TranspileOptions));
  }

  const Magix: string := "magix"
  const Magix5: string := "magix5"

  /** The module id `resolveRequire` leaves behind: `magix` is renamed, nothing else is. */
  function Resolved(mId: string): (r: string)
    ensures r != Magix
    ensures mId == Magix ==> r == Magix5
    ensures mId != Magix ==> r == mId
  {
    if mId == Magix then Magix5 else mId
  }

  /** Resolving an id that has been resolved changes nothing. */
  lemma ResolvedIdempotent(mId: string)
    ensures Resolved(Resolved(mId)) == Resolved(mId)
  {
    assert Magix5 != Magix by {
      assert |Magix5| != |Magix|;
    }
  }

  /** The `reqInfo` record the composer hands to `resolveRequire`; only `mId` is read or written. */
  class RequireInfo {
    var mId: string

    constructor (mId: string)
      ensures this.mId == mId
    {
      this.mId := mId;
    }
  }

  /** `resolveRequire(reqInfo)`: rename `magix` to `magix5` in place. */
  method ResolveRequire(info: RequireInfo)
    modifies info
    ensures info.mId == Resolved(old(info.mId))
  {
    if info.mId == Magix {
      info.mId := Magix5;
    }
  }
}
