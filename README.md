# create-web3-dapp: project directory set-up, modelled in Dafny

This project models `src/utils/directory.js` of create-web3-dapp. That file:

- scaffolds a new Scaffold Alchemy project (`setupProjectDirectory`),
- decides whether the working directory is already such a project (`isInsideScaffoldAlchemyProject`),
- rewrites the project's `packages/shared/src/cw3d.config.ts` for another chain (`updateProjectConfig`).

Both writers render the bundled `cw3d.config.template` the same way. They look the chain up by its short name in the chain registry (`CHAIN_CONFIGS.find`), then call JavaScript's `String.prototype.replace` four times, once per placeholder: `{{mainnetName}}`, `{{mainnetChainId}}`, `{{testnetChainId}}` and `{{testnetChainName}}`.

The modules:

- `Wrappers`: `Option`.
- `JsString`: `String.prototype.replace` with a string pattern, as ECMAScript defines it. `indexOf` finds the first occurrence, and GetSubstitution expands `$$`, `$&`, `` $` `` and `$'` in the replacement.
- `Chains`: a registry entry, the lookup `FindChain` and the four-step `Render`.
- `Templates`: what `Render` does to a template seen as literal text interleaved with placeholders.
- `Files`: the filesystem. `Tree` is a value (a set of directories and a map from file paths to contents). The `FileSystem` class holds those two fields, reads them through `ExistsSync` and updates them in place through `RmSync`, `MkdirSync`, `WriteFileSync` and `Clone`.
- `Directory`: `getConfigPath` and the project check, and `setupProjectDirectory` and `updateProjectConfig` in two forms:
  - imperative methods on a `FileSystem`;
  - the specification functions `Setup` and `Update`, which the methods are proved equal to and which the lemmas are about.

The intended behaviour and the code differ in two places. The model follows the code in both:

- The intent is that rendering replaces every occurrence of each placeholder. The code passes a string pattern to `replace`, which replaces only the FIRST occurrence (`directory.js:116-120`, `146-150`). `Templates.RenderKeepsSecondPlaceholder` shows a second `{{mainnetName}}` reaching the output.
- The intent is that a project's manifest declares a non-empty list of workspace packages. The code's guard `!projectPackages || !Array.isArray(projectPackages)` accepts an empty array, because `![]` is false (`directory.js:48`). `Directory.EmptyPackagesAccepted` states this.

A failed step ends a run in one of three ways, and the model represents each as a value:

- `process.exit(1)` becomes `Exit1(reason)`.
- An exception that escapes `setupProjectDirectory` (the `mkdirSync` at line 92, which sits outside the `try`) becomes `Threw(reason)`.
- An exception that escapes `updateProjectConfig` becomes `UpdateThrew(reason)`.

An unknown chain is not caught by the lookup: `find` gives `undefined`, and the later field access throws. During set-up that happens after the clone, so the run exits with the clone left on disk.

## Model

| member | source | states |
|---|---|---|
| JsString.IndexOf | src/utils/directory.js:117 | a result is found exactly when the pattern occurs, and the index found is the leftmost occurrence |
| JsString.Expand | src/utils/directory.js:117 | GetSubstitution leaves a replacement without `$` as it is; `JsString.ExpandPatterns` and `JsString.ExpandKeepsOtherDollars` give its table |
| JsString.ExpandPatterns | src/utils/directory.js:117 | `$$` expands to `$`, `$&` to the match, `` $` `` to the text before it and `$'` to the text after it |
| JsString.ExpandKeepsOtherDollars | src/utils/directory.js:117 | with a string pattern there are no capture groups, so `$1` and a trailing `$` stay as written |
| JsString.Replace | src/utils/directory.js:116-120 | without an occurrence the string is unchanged; otherwise, for a replacement free of `$`, the leftmost occurrence is swapped for the replacement and everything before and after it is kept |
| JsString.ReplaceKeepsOutside | src/utils/directory.js:117 | whatever the replacement (with `$` patterns too), the text before the first occurrence and the text after it survive unchanged |
| JsString.LaterOccurrenceSurvives | src/utils/directory.js:117 | only the first occurrence is replaced: for a replacement without `$`, a later, non-overlapping occurrence of the pattern is still in the result, shifted by the change in length |
| JsString.ReplaceAtStart | src/utils/directory.js:117 | for a replacement without `$`, a text that starts with the pattern has exactly that prefix replaced |
| JsString.ReplaceAfterPrefix | src/utils/directory.js:118-120 | for a replacement without `$`, when no occurrence starts inside a prefix, replacing in prefix + text is replacing in the text alone |
| Chains.FindChain | src/utils/directory.js:97 | `CHAIN_CONFIGS.find` (also line 138): nothing is found exactly when no entry has the short name; a found entry is the FIRST entry with that short name |
| Chains.Render | src/utils/directory.js:116-120 | the four replacements leave a template without any placeholder unchanged |
| Templates.NoStrayOccurrence | src/utils/directory.js:116-120 | no placeholder can start inside a different placeholder, so one field's `replace` never cuts into another field's token |
| Templates.ReplaceFillsFirst | src/utils/directory.js:117 | on a template whose literal text is plain (no `{{`, no trailing `{`) and a plain value (plain text without `$`), one `replace` turns exactly the first placeholder of its field into the value and keeps every other piece |
| Templates.RenderFillsInOrder | src/utils/directory.js:116-120 | for plain literal text and plain values: the rendered config equals filling the first placeholder of each field in the order mainnetName, mainnetChainId, testnetChainId, testnetChainName |
| Templates.FillInOrderSubstitutes | src/utils/directory.js:116-120 | when each field appears exactly once, the four first-placeholder fills substitute every placeholder |
| Templates.RenderComplete | src/utils/directory.js:116-120 | for plain literal text and plain values, a template naming each field once renders to the template with every placeholder replaced by the chain's value, and no placeholder remains |
| Templates.ObjectLiteralTemplate | src/utils/directory.js:146-150 | a TypeScript module with object-literal braces around the four placeholders has plain literal text, and with plain values it renders completely, with no placeholder left |
| Templates.RenderFourSlots | src/utils/directory.js:146-150 | four placeholders separated by plain text render, for plain values (no `{{`, no trailing `{`, no `$`), to that text with the four values in place |
| Templates.PlaceholdersSpelled | src/utils/directory.js:117-120 | the four placeholder tokens are exactly `{{mainnetName}}`, `{{mainnetChainId}}`, `{{testnetChainId}}`, `{{testnetChainName}}` |
| Templates.RenderExample | src/utils/directory.js:146-150 | `chain={{mainnetName}}/{{mainnetChainId}}/{{testnetChainId}}/{{testnetChainName}}` renders to `chain=Ethereum/1/11155111/Sepolia` for the sepolia entry |
| Templates.RenderRefillsEarlierValue | src/utils/directory.js:116-120 | the replacements are applied one after another: in a template that is a lone `{{mainnetName}}`, a `mainnetName` value spelling `{{testnetChainName}}` is filled by the last step, whatever the other values are (the last one without `$`); a later placeholder that already stands earlier in the template would be hit first instead |
| Templates.RenderLeavesLaterValue | src/utils/directory.js:116-120 | in a template that is a lone `{{testnetChainName}}`, a `testnetChainName` value spelling `{{mainnetName}}` is left in the output as it is, since that step has already run, whatever the other values are |
| Templates.RenderKeepsSecondPlaceholder | src/utils/directory.js:117 | in a template naming `mainnetName` twice around plain text, with a plain `mainnetName` value, the second `{{mainnetName}}` reaches the output |
| Templates.OtherPlaceholderAbsent | src/utils/directory.js:117-120 | the placeholder of one field never occurs in the placeholder of another |
| Templates.ReplaceOtherOnPlaceholder | src/utils/directory.js:117-120 | one field's `replace` leaves a lone placeholder of another field as it is, whatever the value |
| Templates.ReplaceOwnPlaceholder | src/utils/directory.js:117 | for a value without `$`, a lone placeholder replaced by its own field gives the value (a `$&` in the value would bring the placeholder back) |
| Files.FileSystem.ExistsSync | src/utils/directory.js:74 | `existsSync` answers `Exists`: true exactly when the path is the root, a directory or a file |
| Files.FileSystem.RmSync | src/utils/directory.js:89 | a recursive, forced `rmSync` never fails; the new state is the old one less the path and everything below it, still well formed |
| Files.FileSystem.MkdirSync | src/utils/directory.js:92 | a recursive `mkdirSync` succeeds exactly when no prefix of the path is a file; it then adds the path and its ancestors as directories, and otherwise changes nothing |
| Files.FileSystem.WriteFileSync | src/utils/directory.js:27 | `writeFileSync` succeeds exactly when the parent is a directory and the path is not one; it then sets that file's content, and otherwise changes nothing |
| Files.FileSystem.Clone | src/utils/directory.js:99-103 | a clone into the empty project directory either fails and changes nothing, or adds the delivered files and their directories below it |
| Files.RemovedWellFormed | src/utils/directory.js:89 | after a recursive removal the path and everything below it are gone and the tree is still a real filesystem |
| Files.MadeDirsWellFormed | src/utils/directory.js:92 | after a recursive mkdir the path is a directory, the tree is well formed, and an empty directory stays empty |
| Files.WithCloneWellFormed | src/utils/directory.js:99-103 | a clone into an empty directory keeps the tree well formed |
| Files.WrittenWellFormed | src/utils/directory.js:27 | a successful write keeps the tree well formed |
| Files.RemovedFrame | src/utils/directory.js:89 | a removal changes nothing outside the removed path |
| Files.MadeDirsFrame | src/utils/directory.js:92 | a recursive mkdir changes nothing outside the path and its ancestors |
| Files.WithCloneFrame | src/utils/directory.js:99-103 | a clone changes nothing outside the project directory |
| Files.WrittenFrame | src/utils/directory.js:27 | a write below a directory changes nothing outside it |
| Directory.ConfigPath | src/utils/directory.js:16-18 | the config path extends `base/packages/shared` by `src/cw3d.config.ts`, four segments below `base` |
| Directory.ConfigPathInjective | src/utils/directory.js:16-18 | two base directories with the same config path are the same directory |
| Directory.WritePackageConfig | src/utils/directory.js:25-28 | the write goes to `getConfigPath(projectDir)`; it succeeds exactly when that path is writable, and otherwise the filesystem is unchanged |
| Directory.Member | src/utils/directory.js:47 | `packageJson.workspaces.packages`: reading from `undefined` or `null` throws; an object gives its own member when it has one |
| Directory.IsInsideProject | src/utils/directory.js:34-68 | the early-return chain of `isInsideScaffoldAlchemyProject`; `Directory.IsInsideProjectIff` states when it is true, and every failure answers false |
| Directory.IsInsideProjectIff | src/utils/directory.js:34-68 | the check is true exactly when `package.json` is a file that parses to an object whose `workspaces.packages` is an array, `packages/shared` exists and the config file exists; every other case answers false, never an error |
| Directory.SharedCheckImplied | src/utils/directory.js:55-65 | in a real filesystem the `packages/shared` check is implied by the config-file check that follows it |
| Directory.EmptyPackagesAccepted | src/utils/directory.js:48 | an empty `workspaces.packages` array passes the guard |
| Directory.WorkspacesArrayRejected | src/utils/directory.js:47-49 | npm's array form `"workspaces": [...]` fails the guard |
| Directory.Setup | src/utils/directory.js:70-129 | the whole set-up as a function of the filesystem, the prompt answer, the clone outcome and the template; the `Directory.Setup…` lemmas below state what it promises |
| Directory.SetupProjectDirectory | src/utils/directory.js:70-129 | the step-by-step run keeps the filesystem well formed and ends in exactly the state, prompt and outcome that `Setup` gives |
| Directory.SetupAsksOnlyWhenPresent | src/utils/directory.js:74-90 | the user is asked exactly when the project directory exists; the run is cancelled exactly when it exists and the answer is no, and then nothing changes; without a prompt the answer is irrelevant |
| Directory.SetupThrowsOnlyUnderFile | src/utils/directory.js:92 | the set-up throws only from `mkdirSync`; the filesystem is then unchanged, and a proper ancestor of the project directory is a file |
| Directory.SetupCreated | src/utils/directory.js:105-128 | a successful set-up returns `{ projectDir, currentDir }`, the config file holds the template rendered for the chain, and nothing of `.git` remains |
| Directory.ClearedIsEmptyBelow | src/utils/directory.js:74-90 | once the old directory is removed, or if it never existed, nothing lies below the project directory |
| Directory.SetupReplacesOldContents | src/utils/directory.js:89-122 | unless the user declined, every file below the project directory afterwards is the config file or a cloned file with the clone's content: old contents are gone |
| Directory.SetupUnknownChainKeepsClone | src/utils/directory.js:97-120 | an unknown chain ends the run only after the clone, and every cloned file outside `.git` is left on disk |
| Directory.SetupFrame | src/utils/directory.js:70-129 | the set-up changes nothing except the project directory, what lies below it and its ancestors |
| Directory.ClonedTreeWellFormed | src/utils/directory.js:89-108 | removal, mkdir, clone and removal of `.git` keep a real filesystem real |
| Directory.ManifestSurvivesClone | src/utils/directory.js:105-108 | the clone's top-level `package.json` survives the removal of `.git` |
| Directory.WrittenConfigMakesProject | src/utils/directory.js:122 | writing the config file next to a manifest that declares its packages makes the project check succeed |
| Directory.SetupYieldsProject | src/utils/directory.js:70-129 | a successful set-up from a clone whose `package.json` declares its workspace packages leaves a directory that `isInsideScaffoldAlchemyProject` accepts |
| Directory.Update | src/utils/directory.js:136-153 | the update as a function of the filesystem and the template; `Directory.UpdateWritesOnlyConfig` states that it changes at most the config file and when it succeeds |
| Directory.UpdateProjectConfig | src/utils/directory.js:136-153 | the step-by-step run keeps the filesystem well formed and ends in exactly the state and outcome that `Update` gives |
| Directory.UpdateWritesOnlyConfig | src/utils/directory.js:136-153 | the update changes at most the config file, and sets it to the rendered template; it succeeds exactly when the template is readable, the chain is known and the path is writable, and otherwise nothing changes |
| Directory.UpdateInsideProject | src/utils/directory.js:136-153 | where the config file already exists, a readable template and a known chain always give a successful update |
| Directory.UpdateOverRendered | src/utils/directory.js:146-152 | writing the same rendered config over itself changes nothing |
| Directory.UpdateAfterSetupIsIdempotent | src/utils/directory.js:146-152 | updating a freshly set-up project with the same chain and template changes nothing: the two render sites agree |

## Left out

- Paths are sequences of segments. `path.join` normalisation (`.`, `..`, separators, an absolute `projectName`) is not modelled.
- `process.cwd()` becomes the `currentDir` parameter.
- The `inquirer` prompt becomes the `overwrite` parameter. Its message and its default of `false` are not modelled.
- A rejected `inquirer.prompt` promise is not modelled. It would throw out of `setupProjectDirectory` before anything on disk changes.
- The `chalk`/`console` output is not modelled.
- `process.exit(1)` is modelled as the `Exit1` outcome, which ends the run. The exit itself is not modelled.
- The git clone is network I/O. Its result is the `CloneOutcome` parameter: a failure or the delivered file tree. A failed clone is modelled as leaving the filesystem unchanged, so a partially written clone is not modelled. The repository URL and the `shallow` option are not modelled.
- Reading the bundled template is the `template: Option<string>` parameter, where `None` means `readFileSync` threw. The `__dirname`-relative template path and UTF-8 decoding are not modelled.
- `JSON.parse` is the `parse` parameter, where `None` means it threw.
- `src/config/chains.js` is not part of this model. `CHAIN_CONFIGS` is the `registry` parameter, and its four fields are taken to be strings. The sepolia entry in `Templates.Sepolia` only serves as a worked example.
- Filesystem failures other than the tree's shape are not modelled: permissions, a full disk, symbolic links and errors from `rmSync` itself. `CanMkdir` and `CanWrite` depend only on which paths are files and which are directories.
- Property access on JSON values: `Directory.Member` covers keys that no prototype supplies, such as `workspaces` and `packages`. Inherited properties are not modelled.
- Asynchrony (`await` on the prompt and the clone) is not modelled. The steps run in program order.
- Chains.Render: its own contract covers only templates without placeholders. Its full meaning is proved in `Templates` for plain literal text and plain values. Plain text holds no `{{` and does not end in `{`; single braces, as in TypeScript object literals, are allowed. A plain value is plain text without `$`. Other templates and values are handled by `JsString.Replace` as defined, but no lemma about the whole render covers them.
- Templates.RenderFillsInOrder: not stated for literal text holding `{{` or ending in `{` (a `{` right before a placeholder, as in `{{{mainnetName}}`), nor for values holding `$`, `{{` or a trailing `{`. There a `replace` can match across piece boundaries or expand `$`.
- Templates.RenderComplete: not stated outside the same plain-text and plain-value conditions as `Templates.RenderFillsInOrder`, for the same reason.
- JsString.Replace: its contract gives the result in closed form only for a replacement without `$`. For any replacement, `JsString.ReplaceKeepsOutside` states what survives around the match.
