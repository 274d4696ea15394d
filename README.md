# npm module discovery and installation — a Dafny model

This project models `src/renderer/npm.ts` of the Fiddle playground: the code
that looks for `require(...)` calls in the editors' main and renderer texts and
installs the modules it finds with `npm`.

- `RequireRegex` (require_regex.dfy) models the one regular expression
  `/require\(['"]{1}([\w\d\/\-\_]*)['"]{1}\)/` and what `String.prototype.match`
  does with it when the expression has no `g` flag: the leftmost position where
  the whole pattern matches, its matched text and its single capture. The class
  `[\w\d\/\-\_]` is ASCII letters, digits, `_`, `/` and `-` (`\w` without the `u`
  flag). The opening and the closing quote are matched independently, so
  `require('foo")` matches. The capture may be empty. Because a quote is not in
  the class, the greedy star never has to give characters back; `MatchAt` takes
  the whole run and is proved to agree with the declarative `IsMatchAt`.
- `Discovery` (discovery.dfy) models `findModules` and `findModulesInEditors`
  as methods with the loops of the source (the `forEach` over the captured
  candidates, the `for` over the two texts). They are proved against the
  specification functions `Discover` and `DiscoverAll`. The built-in module
  list is a `set<string>` parameter. A candidate is dropped when it is
  `electron`, a built-in, or starts with `.`. Only the leftmost match of each
  text is examined, so each text yields at most one module.
- `Install` (install.dfy) models `installModules`: the command line
  `['npm i'].concat(['-S'], names).join(' ')`, and how the exec callback
  settles the promise it returns. The child process is a function parameter
  from the request (command and working directory) to the callback's
  arguments. `Split` (splitting on single spaces) is used only to state which
  words the command consists of.

Points of behaviour the model makes explicit:
- Module names may be empty: `require('')` matches and is kept unless `""`
  is a built-in.
- Relative requires such as `require('./x')` are excluded because the pattern
  cannot match them (`.` is not in the class), not by the `startsWith('.')`
  check, which can never fire.
- `findModulesInEditors` reads exactly the two texts `main` and `renderer`.
  `DiscoverAll` is the general form over any sequence of texts.

## Model

| member | source | states |
|---|---|---|
| RequireRegex.NameEnd | src/renderer/npm.ts:34 | the greedy `[\w\d\/\-\_]*` stops exactly at the first non-class character or the end of the text |
| RequireRegex.MatchAt | src/renderer/npm.ts:34 | a match found at a position satisfies the pattern there, and its whole text is `require(`, a quote, the capture, a quote and `)` |
| RequireRegex.MatchAtComplete | src/renderer/npm.ts:34 | every match the pattern admits at a position is found, with the same capture (no backtracking alternative exists) |
| RequireRegex.SearchFrom | src/renderer/npm.ts:35 | the scan returns the first position at or after its start where the pattern matches, and no earlier one matches |
| RequireRegex.ExecIsLeftmost | src/renderer/npm.ts:34-35 | `input.match` without `g` returns the leftmost match of the pattern, and `null` exactly when the pattern matches nowhere |
| RequireRegex.ExecOfLeftmost | src/renderer/npm.ts:34-35 | a match with no match before it is the one `input.match` returns |
| RequireRegex.MatchOfParts | src/renderer/npm.ts:34 | `require(` with any two quotes around a class-only name (possibly empty) and `)` is a match |
| RequireRegex.DotArgumentNotMatched | src/renderer/npm.ts:34 | a require whose argument starts with `.` is not a match at that position |
| Discovery.Kept | src/renderer/npm.ts:41-46 | the kept candidates are exactly those that are not `electron`, not built-in and not dot-prefixed, at most as many as the candidates; for the single candidate the source passes, the result is that candidate when kept and empty otherwise |
| Discovery.Discover | src/renderer/npm.ts:33-50 | the result has at most one name, each kept by the filter and made of class characters, and it is the capture of the leftmost match |
| Discovery.FindModules | src/renderer/npm.ts:33-50 | the method's result is the specification `Discover`: at most one name, kept by the filter |
| Discovery.DiscoverAll | src/renderer/npm.ts:13-23 | the modules of several texts number at most the texts and all pass the filter |
| Discovery.FindModulesInEditors | src/renderer/npm.ts:13-23 | the result is the main text's modules followed by the renderer text's, at most two, all passing the filter |
| Discovery.DiscoverLeftmost | src/renderer/npm.ts:35-46 | with a leftmost match, the result is its capture if the filter keeps it and empty otherwise |
| Discovery.DiscoverNoMatch | src/renderer/npm.ts:35-39 | a text in which the pattern matches nowhere yields no module |
| Discovery.DotFilterUnreachable | src/renderer/npm.ts:44 | the capture never starts with `.`, so the relative-path check never fires |
| Discovery.LeadingRequire | src/renderer/npm.ts:34-46 | a text starting with one require call yields its argument when kept, whatever follows |
| Discovery.LaterRequireIgnored | src/renderer/npm.ts:35-46 | when the first require's argument is dropped by the filter (say the built-in `path`), the text yields nothing, although a later require (say `lodash`) matches |
| Discovery.SingleRequire | src/renderer/npm.ts:34-46 | a text that is one `require('pkg')` call, with `pkg` kept by the filter, yields exactly `["pkg"]` |
| Discovery.EmptyArgumentKept | src/renderer/npm.ts:34-45 | `require('')` yields `[""]` when the empty name is not a built-in |
| Discovery.MixedQuotesMatch | src/renderer/npm.ts:34 | `require('foo")` yields `["foo"]`: the two quotes need not agree |
| Discovery.DiscoverAllAppend | src/renderer/npm.ts:17-20 | the modules of two runs of texts, concatenated, are those of the first run followed by those of the second |
| Discovery.DiscoverAllPair | src/renderer/npm.ts:14-22 | for two texts the result is the first text's modules followed by the second's |
| Discovery.EditorsInOrder | src/renderer/npm.ts:14-22 | texts `require('a')` and `require('b')` with both names kept yield `["a", "b"]` in that order |
| Install.JoinIsSpaced | src/renderer/npm.ts:63 | a space followed by the space-joined names is a space before each name in turn |
| Install.JoinAfterHead | src/renderer/npm.ts:63 | a word followed by the names, space-joined, is the word then a space before each name |
| Install.JoinAfterHeads | src/renderer/npm.ts:62-63 | two words followed by the names, space-joined, are the two words, a space between them, then a space before each name |
| Install.CommandLine | src/renderer/npm.ts:62-63 | the command is `npm i -S` followed by a space and each name in order; with no names it is `npm i -S` |
| Install.CommandWords | src/renderer/npm.ts:62-63 | when no name contains a space, the command's words are `npm`, `i`, `-S` and the names, in order |
| Install.UnescapedName | src/renderer/npm.ts:63 | names are not escaped: a name holding a space becomes two words of the command |
| Install.Settle | src/renderer/npm.ts:65-71 | once exec's callback runs, the promise settles; it is rejected with the error exactly when exec reports one, whatever the output, and fulfilled with the output otherwise |
| Install.InstallModules | src/renderer/npm.ts:59-73 | exec is called with the `npm i -S` command in the target directory; once its callback runs, the promise is rejected with exec's own error whenever there is one, and otherwise fulfilled with the output |

## Left out

- The child process: `child_process.exec`, the shell, the working directory's
  contents and what `npm` does on disk are outside the model; the process is
  the `exec` parameter of `InstallModules`.
- Install.InstallModules: assumes exec's callback runs. The promise stays
  pending in two cases the model does not cover. One is a child process that
  never exits. The other is a failing `await import('child_process')`: it
  rejects the async executor's own promise, which `new Promise` ignores.
- The asynchronous plumbing: `async`/`await`, the `await import(...)` calls and
  the promise executor run in one step here.
- Loading the built-in module list: it is a `set<string>` parameter, so a
  failure to load `builtin-modules` is not modelled.
- `EditorValues` from `../interfaces` is not part of this model; it is a record
  of the two strings `main` and `renderer`.
- `result.toString()` on an undefined output after a rejection: output is a
  string here; the promise is already settled when it runs.
- A general regular-expression engine: only the fixed pattern is modelled.
- Install.CommandWords: splits on single spaces only; the shell's own parsing
  (quotes, `;`, `&&`, globbing) of an unescaped name is not modelled.
