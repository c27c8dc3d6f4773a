# gulpfile.js of the keyboard project, modelled in Dafny

The build script of this project compiles templates and TypeScript through the
magix composer. It then cleans up the JavaScript the TypeScript transpiler
emits with `cleanCode`, and runs gulp tasks that clear, compile, minify and
bundle the output. The model covers four parts of the script:

- **`cleanCode`** (gulpfile.js:34-45). It applies four global regular-expression replacements in a fixed order:
  1. It deletes the `"use strict"; Object.defineProperty(exports, "__esModule", { value: true });` header. The whitespace inside the header may vary, and the trailing `;` is optional.
  2. It turns `exports.default =` into `module.exports=`.
  3. It turns `_<digits>.default` into `_<digits>`.
  4. It turns `const` plus its whitespace run into `let `.

  Each replacement is the `String.prototype.replace` loop with a `g` flag (ECMA-262, section 22.1.3.19), modelled as a scanner:
  - Module `Scanner` finds the leftmost match and substitutes it, then resumes after the match.
  - It carries one flag, whether the previous character is a word character, because that is all `\b` looks at.
  - Module `Patterns` gives one hand-written matcher per regular expression. Whitespace and digit runs are taken whole. This is what the JavaScript engine's backtracking settles on, because each run is followed by a character outside its class or ends the pattern.
- **`compileJSStart`** (gulpfile.js:56-67). This is the transpiler under fixed compiler options, followed by `cleanCode`. The transpiler is a function parameter.
- **`resolveRequire`** (gulpfile.js:71-75). It renames the module id `magix` to `magix5` in the request record, in place: a class with a method.
- **The tasks** (gulpfile.js:78-165). Each task is a `gulp.series` plan of other tasks and of one promise chain of actions. The chain has a rejection policy:
  - `combine` logs the rejection and exits the process.
  - `build` logs it and completes.
  - `dist` lets the task fail.

  `watch`'s own function returns nothing and takes no callback, so gulp never sees `watch` complete. The model gives such a run the outcome `Running`. Whether a deletion or the composer's run is rejected is a parameter. The model also includes the dispatch of the watcher's callback (gulpfile.js:95-104).

The files are:
- `chars.dfy`: the character classes.
- `scanner.dfy`: the replace loop.
- `patterns.dfy`: the four matchers, and what their matches look like.
- `rewrites.dfy`: what each pass does in context, and why later passes cannot recreate what earlier ones removed.
- `clean_code.dfy`: `cleanCode`.
- `compile.dfy`: the two hooks.
- `tasks.dfy`: the tasks.

Two properties one might expect of the script do not hold:
- **Idempotence.** `cleanCode` is not idempotent. One pass over `_1.default.default` gives `_1.default`, and a second pass gives `_1`. `Clean.CleanNotIdempotent` proves this for any digit run.
- **No swallowed failure.** `build` only logs a rejected `combine()` and then completes without output (gulpfile.js:142-144; `Tasks.BuildJobRuns`, `Tasks.CombineRejected`).

## Model

| member | source | states |
|---|---|---|
| Chars.IsWordChar | gulpfile.js:36-38 | `\w`, the class `\b` tests: ASCII letters, digits and `_` |
| Chars.IsDigit | gulpfile.js:37 | `\d`, the ASCII digits; each is a word character |
| Chars.IsSpace | gulpfile.js:34-38 | `\s`, the ECMAScript WhiteSpace and LineTerminator characters; each lies in the Basic Multilingual Plane |
| Chars.SpaceRun | gulpfile.js:34-38 | the greedy `\s*` / `\s+` run: all whitespace, and followed by a non-whitespace character or the end |
| Chars.DigitRun | gulpfile.js:37 | the greedy `\d+` run: all digits, and followed by a non-digit or the end |
| Chars.SpaceRunOf | gulpfile.js:34-38 | a whitespace run followed by a non-whitespace character is taken exactly |
| Scanner.Scan | gulpfile.js:41-44 | a global replace never makes the text longer |
| Scanner.ReplaceAll | gulpfile.js:41-44 | `text.replace(re, rep)` with the `g` flag: the scan from the start of the text, where `\b` sees no word character before it; never longer than the input |
| Scanner.ScanNoMatch | gulpfile.js:41-44 | a text in which the pattern matches nowhere is returned unchanged |
| Scanner.ScanShrinks | gulpfile.js:41-44 | one match anywhere makes the result strictly shorter |
| Scanner.ScanChangesIffMatch | gulpfile.js:41-44 | the replace changes the text if and only if the pattern matches somewhere, and then shortens it |
| Scanner.ScanSkip | gulpfile.js:41-44 | the text before the first match is copied unchanged |
| Scanner.ScanSplit | gulpfile.js:41-44 | `j` is the leftmost match (none starts before it, or there is none and the text is copied); the result is the text before `j`, the replacement of the match at `j`, then the scan of the rest resumed right after the match with the flag of its last character |
| Scanner.ScanAt | gulpfile.js:41-44 | a match `m` with no match before it, whatever follows: the text before it is kept, `m` is replaced, and the text after it is scanned on its own, resumed after `m` |
| Scanner.ScanAround | gulpfile.js:41-44 | a matched text with no match before it and none after it is replaced in place, and the surrounding text is kept |
| Scanner.HasMatchIffFirstMatch | gulpfile.js:41-44 | a match exists if and only if the leftmost match lies inside the text |
| Patterns.MatchHeader | gulpfile.js:34 | a header match is non-empty and lies inside the text |
| Patterns.MatchExports | gulpfile.js:36 | a match of `\bexports\.default\s*=` is longer than the keyword and lies inside the text |
| Patterns.MatchMiddleDefault | gulpfile.js:37 | a match of `(_\d+)\.default` is longer than `.default` plus one character |
| Patterns.MatchConst | gulpfile.js:38 | a match of `\bconst\s+` is longer than the keyword |
| Patterns.DropDotDefault | gulpfile.js:43 | `'$1'` of `(_\d+)\.default`: a prefix of the match, exactly `.default` shorter |
| Patterns.RemoveESModuleReg | gulpfile.js:34 | `removeESModuleReg` with its replacement `''`: the header matcher, which does not look at `\b` |
| Patterns.ExportsReg | gulpfile.js:36 | `exportsReg` with its replacement `'module.exports='` |
| Patterns.RemoveMiddleDefault | gulpfile.js:37 | `removeMiddleDefault` with its replacement `'$1'` (`Patterns.DropDotDefault`) |
| Patterns.ConstReg | gulpfile.js:38 | `constReg` with its replacement `'let '` |
| Patterns.RulesValid | gulpfile.js:41-44 | each replacement is strictly shorter than every text its pattern matches (header to empty, 16+ characters to 15, `_N.default` to `_N`, 6+ characters to `let `) |
| PatternShapes.MatchHeaderOf | gulpfile.js:34 | the header is matched in full, with any whitespace runs and with its `;` when present |
| PatternShapes.MatchHeaderSound | gulpfile.js:34 | whatever the header pattern matches is a header with some whitespace runs and an optional `;` |
| PatternShapes.MatchElemsOf | gulpfile.js:34 | literal characters with whitespace runs between them match exactly their own length |
| PatternShapes.MatchElemsSound | gulpfile.js:34 | a match of the literal-and-whitespace pattern is such a text |
| PatternShapes.ExportsShape | gulpfile.js:36 | an `exports` match is only at a word boundary: the keyword, whitespace, `=`, nothing else |
| PatternShapes.ExportsOf | gulpfile.js:36 | the keyword, any whitespace run and `=` match at a word boundary |
| PatternShapes.MiddleDefaultShape | gulpfile.js:37 | a match is `_`, digits and `.default`, and its replacement keeps `_` and the digits |
| PatternShapes.MiddleDefaultOf | gulpfile.js:37 | `_`, any digit run and `.default` match, and the replacement is `_` and the digits |
| PatternShapes.ConstShape | gulpfile.js:38 | a `const` match is only at a word boundary (so `xconst` is untouched) and only with whitespace right after the keyword (so `constant` is untouched); it takes the whole run |
| PatternShapes.ConstOf | gulpfile.js:38 | `const` and a non-empty whitespace run match whole at a word boundary |
| Rewrites.HeaderDeleted | gulpfile.js:41 | the first header in a text is deleted in full with its optional `;`, the text before it is kept, and the text after it goes through the same pass on its own, whatever it holds |
| Rewrites.ExportsRewritten | gulpfile.js:42 | the first `exports.default`, whitespace and `=` at a word boundary become exactly `module.exports=`; the text before is kept and the text after goes through the same pass on its own |
| Rewrites.MiddleDefaultRewritten | gulpfile.js:43 | the first `_<digits>.default` becomes `_<digits>`, also inside an identifier; the text before is kept and the text after goes through the same pass on its own |
| Rewrites.ConstRewritten | gulpfile.js:44 | the first `const` with its whole whitespace run, of any length, becomes exactly `let `; the text before is kept and the text after goes through the same pass on its own |
| Rewrites.ConstRegLeavesNoConst | gulpfile.js:44 | after the `const` pass no `\bconst\s+` remains |
| Rewrites.ExportsRegLeavesNoExports | gulpfile.js:42 | after the `exports` pass no `\bexports\.default\s*=` remains |
| Rewrites.MiddleDefaultKeepsNoExports | gulpfile.js:42-43 | the `.default` pass cannot create an `exports.default =` |
| Rewrites.ConstKeepsNoExports | gulpfile.js:42-44 | the `const` pass cannot create an `exports.default =` |
| Rewrites.ExportsNotCreated | gulpfile.js:42 | where no `exports.default =` starts at a position, rewriting the text after it cannot make one start there |
| Rewrites.ConstNotCreated | gulpfile.js:44 | where no `const` match starts at a position, rewriting the text after it cannot make one start there |
| Clean.CleanCode | gulpfile.js:40-45 | the result is never longer than the input and holds no `\bconst\s+` and no `\bexports\.default\s*=` |
| Clean.CleanChangesIffMatch | gulpfile.js:40-45 | the input comes back unchanged if and only if none of the four patterns matches it, and strictly shorter if and only if one does |
| Clean.CleanDropsHeader | gulpfile.js:40-45 | a leading header, whatever its whitespace, is removed, and cleaning the rest is all that happens, whatever the rest holds (further headers included) |
| Clean.CleanConstDecl | gulpfile.js:44 | a `const` declaration comes out as a `let ` declaration |
| Clean.CleanExportsDefault | gulpfile.js:42 | `exports.default =` comes out as `module.exports=` |
| Clean.CleanMiddleDefault | gulpfile.js:43 | `foo_1.default`-style names lose only `.default` |
| Clean.CleanDoubleDefault | gulpfile.js:43 | of `_N.default.default` one pass removes only the first `.default` |
| Clean.CleanNotIdempotent | gulpfile.js:40-45 | a second pass over such output changes it again: the clean-up is not idempotent |
| Clean.ConstDeclExample | gulpfile.js:40-45 | `const x = 1;` becomes `let x = 1;` |
| Compile.CompileJSStart | gulpfile.js:56-67 | the hook's output is never longer than the transpiler's and has no `const` or `exports.default =` left |
| Compile.CompileKeepsIffClean | gulpfile.js:56-67 | the transpiler's output is returned untouched if and only if no pattern occurs in it |
| Compile.CompileDependsOnOptionsOnly | gulpfile.js:57-63 | only the transpiler's behaviour under `lib es7, target es2018, module None` matters |
| Compile.Resolved | gulpfile.js:71-75 | `magix` becomes `magix5`, every other id stays, and `magix` never remains |
| Compile.ResolvedIdempotent | gulpfile.js:71-75 | resolving twice is resolving once |
| Compile.ResolveRequire | gulpfile.js:71-75 | the record's `mId` is replaced by its resolved id, in place |
| Tasks.Plan | gulpfile.js:78-165 | each task's `gulp.series`: the tasks it names, then its own function as the last entry |
| Tasks.RunTask | gulpfile.js:78-165 | running a task is running its plan as a series; `Tasks.RunIsExpected` gives the result for every task |
| Tasks.RunSteps | gulpfile.js:83-165 | `gulp.series`: each entry starts once the one before has completed, and the first that does not complete ends the series with its outcome |
| Tasks.RunStep | gulpfile.js:83-165 | a series entry: a named task is run; an inline function attempts a prefix of its chain, and one that never signals completion never completes |
| Tasks.RunJob | gulpfile.js:84-89 | a promise chain attempts a prefix of its actions, and it completes whenever it attempted none |
| Tasks.JobStops | gulpfile.js:84-89 | a chain stops exactly at its first rejection: no earlier action was rejected, a rejected last action gives the outcome of the `.catch` policy, and otherwise the whole chain ran and completed |
| Tasks.JobFull | gulpfile.js:84-89 | without rejections a chain runs all its actions and completes |
| Tasks.PlanAcyclic | gulpfile.js:83-151 | every task's series names only tasks of smaller height, so the plans are acyclic |
| Tasks.CleanSrcRuns | gulpfile.js:78 | `cleanSrc` deletes `src` and fails if the deletion is rejected |
| Tasks.CleanBuildRuns | gulpfile.js:127-129 | `cleanBuild` deletes `build` and fails if the deletion is rejected |
| Tasks.CombineRuns | gulpfile.js:83-90 | `combine` clears `src` then runs the composer; a rejected run ends the process |
| Tasks.WatchRuns | gulpfile.js:94-105 | `watch` clears `src`, compiles, then starts watching `tmpl/**/*`, and is then left running: its function never signals completion |
| Tasks.WatchNeverDone | gulpfile.js:94-105 | `watch` never completes; it is left running if and only if neither the deletion of `src` nor `combine()` is rejected |
| Tasks.BuildRuns | gulpfile.js:134-145 | `build` clears `build`, then `src`, then configures, compiles and minifies into `build` |
| Tasks.BuildJobRuns | gulpfile.js:135-144 | `build`'s chain only logs a rejected `combine()`, completes, and minifies nothing |
| Tasks.DistRuns | gulpfile.js:151-165 | `dist` clears `src`, configures, deletes `./dist`, compiles, then concatenates `./src/index.js` before `./src/views/**` into `index.js` in `./dist` |
| Tasks.DistJobRuns | gulpfile.js:152-164 | `dist`'s chain stops at the first rejection and fails the task |
| Tasks.Expected | gulpfile.js:78-165 | the run of every task written out case by case, from which deletions and whether `combine()` are rejected |
| Tasks.RunIsExpected | gulpfile.js:78-165 | running each task's plan gives the written-out trace `Expected` for every pattern of rejections |
| Tasks.TaskOrders | gulpfile.js:78-165 | without rejections `combine`, `watch`, `build` and `dist` attempt exactly their declared steps, in order; all complete except `watch`, which is left running |
| Tasks.RunIsPrefix | gulpfile.js:78-165 | every run of a task attempts a prefix of its full run |
| Tasks.OutputsFollowCombine | gulpfile.js:83-165 | nothing is minified, bundled or watched except right after a composer run that was not rejected |
| Tasks.SrcClearedBeforeCombine | gulpfile.js:78-165 | the composer never runs before `src` has been cleared |
| Tasks.CombineRejected | gulpfile.js:83-165 | a rejected `combine()` ends the process in `combine` and `watch`, is swallowed by `build`, fails `dist`, and no task writes output |
| Tasks.OnWatchEvent | gulpfile.js:95-104 | a changed path that still exists is recompiled, and a missing one is removed |

## Left out

- Minification (`minify`, gulpfile.js:16-29) and the terser options (gulpfile.js:109-123) are left out. They call a foreign library from an asynchronous stream transform; the model keeps only the position of the minify step in each plan.
- The TypeScript transpiler (gulpfile.js:57-63) is a function parameter: its output is not modelled.
- The magix composer (`combineTool`: `config`, `combine`, `processFile`, `removeFile`) is left out because its internals are not visible. The configuration object (gulpfile.js:46-55) is reduced to the `debug` switch the tasks toggle.
- The `progress` hook (gulpfile.js:68-70) and every `console.log`/`console.error` are left out as logging. `process.exit()` is the `Exited` outcome.
- `uniqueStart` (gulpfile.js:55) is left out because it is random.
- `del`, `gulp.src`/`dest`, `gulp-concat`, `fs.existsSync` and `gulp-watch` are file-system I/O. Their effects are not modelled.
  - `fs.existsSync` is the `present` parameter of `Tasks.OnWatchEvent`.
  - Whether a deletion or a composer run is rejected is the `fails` parameter.
- Asynchrony is left out. Promise chains and series are sequential runs here.
  - The task does not wait for its output stream in `build` or in `dist`. In `build` (gulpfile.js:139-141) the minify stream is not returned from the `.then` callback. In `dist` (gulpfile.js:158-163) it is returned, but a stream is not a promise, so the chain does not wait for it. Either task can complete before its stream finishes. The model puts the step in sequence.
  - Concurrent watch events are not modelled.
- Tasks.CanFail: only deletions and `combine()` can be rejected. A terser error inside the minify stream, a rejected `processFile` (which is logged), and stream errors of `gulp.src`/`dest` are not modelled.
- Clean.CleanConstDecl, Clean.CleanExportsDefault, Clean.CleanMiddleDefault: these state the whole four-pass result only when the surrounding text lacks the characters the other patterns need. The per-pass lemmas `Rewrites.ConstRewritten`, `Rewrites.ExportsRewritten` and `Rewrites.MiddleDefaultRewritten` cover the first occurrence in any context: the text after it goes through the same pass again.
- A second kind of non-idempotence is not proved. A doubled `Object.defineProperty(exports, "__esModule", { value: true });` after a doubled `"use strict";` leaves a new header after one pass: the inner `"use strict";` and the inner `Object.defineProperty(...)` form the header, which is deleted, and the outer two then meet. A doubled `"use strict";` alone does not do this.
- Characters are Unicode scalar values. JavaScript strings are UTF-16 code units, so the length bounds count a character outside the Basic Multilingual Plane once instead of twice. Every pattern character and every `\s` character is in the Basic Multilingual Plane, so the matches are the same.
