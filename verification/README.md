# readme-generator core, in Dafny

A model of the logic inside `generator.js` of the verb readme generator. The
file registers tasks on a host task runner. Inside that wiring sit five
pieces of deterministic logic, and this project models each of them with
pure functions and proves what they promise:

- **Alias strategies** (`alias.dfy`, module `Alias`). The default `toAlias`
  function turns `verb-readme-generator` into `readme`. It uses two regular
  expressions, and both are modelled as hand-written scanners with
  JavaScript's meaning of `.` and `\w`. The generator variant strips a
  leading `generate-` and camel-cases the rest.
- **Strategy selection** (`setup.dfy`, module `Setup`). The `options` task
  writes the default strategy. The `data` task overwrites it when
  `app.isGenerator` holds. `setup` runs both, `options` first.
- **Template keys** (`template_keys.dfy`, module `TemplateKeys`). The
  `renameKey` option strips an anchored `(templates|docs)/?(layouts|includes)/?`
  prefix and then drops the extension. The extension comes from Node's
  POSIX `path.extname` of the unstripped name.
- **Input acquisition** (`acquisition.dfy`, module `Acquisition`). The
  `verbmd` task picks one of three branches in priority order. The
  `prompt-verbmd` task has three outcomes.
- **Task graph and template loading** (`task_graph.dfy`, module `TaskGraph`;
  `template_load.dfy`, module `TemplateLoad`).
  - The declared dependencies form an acyclic graph, and the transitive
    closure of each task is computed exactly.
  - The `templates` task registers its sources in a fixed order into four
    view collections. The `views` section of the package configuration
    optionally overrides them afterwards.

`common.dfy` (module `Common`) holds `Option`, the task completion type, and
the string primitives `startsWith` and `lastIndexOf`.

Modelling assumptions about the host runner and the plugins it loads, neither of which is part of this model:

- An option cell and a view collection keep the last value written under a
  key (last-wins registration).
- A task runs its declared dependencies one after another, in the order they
  are listed.
- The nine plugins the `plugins` task installs (generator.js:52-63) run after
  `options` and before `data`. None of them writes the `toAlias` option, so
  `Setup.AliasWrites` gives no write for `plugins`.
- No plugin installs a per-collection `renameKey`. The app-level option of
  generator.js:236-241 keys all four view collections.
- A package's alias is computed only after `setup` has finished, so it reads
  the strategy `setup` leaves installed (`Setup.RunAlias`).
- These are parameters rather than code:
  - `utils.camelcase` is `camel`;
  - `utils.exists` is `onDisk` or a boolean;
  - directory listings and the static template sets are `files`;
  - the user's answer to the prompt is `answer`;
  - the result of the `new` task is `newResult`;
  - the error reported by `config.process` is `processError`.

## Model

| member | source | states |
|---|---|---|
| Alias.GuardFrom | generator.js:36 | The guard scan from an index succeeds exactly when some `-` followed by a word character lies ahead, with no line terminator before it. |
| Alias.GuardTest | generator.js:36 | The guard holds exactly when the name starts with `verb-` and some separator (`-` then a word character, with no line terminator before it) follows. |
| Alias.ScanVerb | generator.js:37 | The rewrite match exists exactly when a separator exists. It stops at the leftmost separator (lazy `.*?`). Its match end is the end of the maximal word run after the `-` (greedy `\w+`). |
| Alias.WordRunEnd | generator.js:37 | The greedy `\w+` consumes the whole run of word characters and stops at the first non-word character or at the end. |
| Alias.MatchVerb | generator.js:37 | There is no match exactly when the name does not start with `verb-` or has no separator. A match captures up to the leftmost separator and ends at the end of the word run after it. |
| Alias.ReplaceVerb | generator.js:37 | Without a match the name is returned unchanged. With one the result is strictly shorter. Alias.VerbBranch gives the exact result. |
| Alias.GuardIffRewriteMatches | generator.js:36-37 | The guard regex holds exactly when the rewrite regex matches, so inside the guarded branch the replacement always fires. |
| Alias.VerbBranch | generator.js:36-37 | In the `verb-` branch, the alias is the text between `verb-` and the first `-\w`, followed by everything after the word run that follows it. The alias is strictly shorter than the name. |
| Alias.GuardGivesSplit | generator.js:36-37 | Every name the guard accepts has a leftmost separator and a word run after it, so the `verb-` branch characterisation always applies. |
| Alias.AfterLastHyphen | generator.js:39 | `slice(lastIndexOf('-') + 1)` gives a suffix of the name with no hyphen. It is the whole name when there is no hyphen. Otherwise a hyphen sits just before it. |
| Alias.LastHyphenBranch | generator.js:39 | When the guard fails, the alias is the text after the last hyphen. It holds no hyphen, and it is the whole name when the name has none. |
| Alias.ReadmeAlias | generator.js:35-40 | The alias is never longer than the name, and strictly shorter in the `verb-` branch. Otherwise it is a hyphen-free suffix of the name. Alias.VerbBranch and Alias.LastHyphenBranch give the exact result of each branch. |
| Alias.ReadmeAliasOfVerbReadmeGenerator | generator.js:35-38 | `verb-readme-generator` becomes `readme`. |
| Alias.ReadmeAliasKeepsTail | generator.js:37 | Only the first word run after the capture is removed: `verb-foo-bar-baz` becomes `foo-baz`. |
| Alias.VerbMiddleWord | generator.js:36-37 | Any `verb-<middle>-<word>` name has alias `<middle>`, provided `<middle>` holds no hyphen and no line terminator and `<word>` is a run of word characters. |
| Alias.VerbNameWithoutSeparator | generator.js:36-39 | `verb-toc` has no second separator, so it falls back to the last-hyphen rule and gives `toc`. |
| Alias.OtherNameFallsBack | generator.js:36-39 | `markdown-toc` does not start with `verb-` and gives `toc`. |
| Alias.HyphenlessNameKept | generator.js:36-39 | `verb` has no hyphen and stays `verb`. |
| Alias.StripGenerate | generator.js:122 | A leading `generate-` is removed. Any other name is returned unchanged. |
| Alias.GeneratorAlias | generator.js:121-123 | The variant is `camel` of the name without its leading `generate-`, and `camel` of the whole name when there is no such prefix. |
| Alias.ToAlias | generator.js:35-40 | No contract of its own. It applies whichever strategy the `toAlias` cell holds. Setup.RunAliasByContext states which one a run uses. |
| Alias.StripGenerateExamples | generator.js:122 | Only one leading `generate-` goes, and a `generate-` that is not at the start stays. |
| Setup.AliasWrites | generator.js:35-40 | `options` writes the default strategy. `data` writes the generator variant exactly when `app.isGenerator` holds (120-124). Every task writes at most once. |
| Setup.SelectionByOrder | generator.js:120-124 | For any task order where `options` runs before `data`, the cell ends holding the generator variant exactly when `app.isGenerator` holds. Otherwise it holds the default. |
| Setup.CellAfter | generator.js:35-40 | The `toAlias` cell is empty exactly when nothing was written. Otherwise it holds one of the written values. Setup.CellAfterAppend makes it the last one. |
| Setup.InstalledAlias | generator.js:287 | After `setup` runs its four dependencies in declared order, the cell holds the generator variant when `app.isGenerator` holds and the default otherwise. |
| Setup.ReversedOrderLosesVariant | generator.js:120-124 | The order matters: if `data` ran before `options`, a generator would be left with the default strategy. |
| Setup.RunAliasByContext | generator.js:35-40 | The alias a run computes is `camel` of the `generate-`-stripped name for a generator, and the default strategy's result otherwise. |
| Common.LastIndexOf | generator.js:39 | `lastIndexOf` returns -1 exactly when the character is absent. Otherwise it returns an index holding the character with no occurrence after it. |
| TemplateKeys.FirstAlternativeOfDistinctHeads | generator.js:239 | When the alternatives start with distinct characters, regex alternation picks the one alternative the string starts with. |
| TemplateKeys.FirstAlternative | generator.js:239 | Alternation yields an alternative the text starts with, or nothing when the text starts with none of them. |
| TemplateKeys.OptionalSlash | generator.js:239 | The greedy `\/?` takes `/` exactly when the text starts with one, and takes nothing otherwise. |
| TemplateKeys.MatchSecond | generator.js:239 | A match of the second group is one of `layouts`/`includes` at the start, with its optional slash taken greedily. |
| TemplateKeys.MatchSecondComplete | generator.js:239 | Every `layouts`/`includes` group followed by a greedy optional slash is found. |
| TemplateKeys.PrefixMatch | generator.js:239 | A match is a well-formed prefix: both groups are present, each optional slash is taken greedily, and the prefix starts the name. |
| TemplateKeys.FirstGroupComplete | generator.js:239 | A `templates`/`docs` group followed by its optional slash is recognised, with the slash taken greedily, when the next character is not `/`. |
| TemplateKeys.PrefixMatchComplete | generator.js:239 | Every well-formed prefix is matched as itself, provided a prefix without a trailing slash is not followed by `/`. |
| TemplateKeys.StripPrefixComplete | generator.js:239 | Stripping a well-formed prefix leaves exactly the rest of the name. |
| TemplateKeys.StripTemplatePrefix | generator.js:239 | A name the regex does not match comes back unchanged. Otherwise the result is what follows the matched prefix, so the prefix goes only when a `templates`/`docs` group is followed by a `layouts`/`includes` group. The removed part never contains a `.`. |
| TemplateKeys.StripIsAnchored | generator.js:239 | A name that starts with neither `templates` nor `docs` is never changed: the prefix is anchored. |
| TemplateKeys.DocsWithoutSecondGroup | generator.js:239 | `docs/foo.md` keeps its `docs/`, because the second group is required. Its key is `docs/foo`. |
| TemplateKeys.LayoutPrefixStripped | generator.js:239 | `templates/layouts/default.md` is stripped to `default.md`. |
| TemplateKeys.BaseSpan | generator.js:238 | The last path segment holds no `/`. It starts at the beginning of the name or just after a `/`, and only `/` characters follow it. |
| TemplateKeys.ExtSpan | generator.js:238 | The extension span ends where the last path segment ends. It is empty exactly when the segment has no dot after its first character, or is `..`. |
| TemplateKeys.Extname | generator.js:238 | The extension is empty or starts with its only `.`. It contains no `/`. It is a strict suffix of the base name, and a suffix of the name when the name has no trailing `/`. |
| TemplateKeys.ExtnameOfSplit | generator.js:238 | For `stem + ext`, where `ext` is a dot followed by a non-empty run with no dot or slash and `stem` does not end in `/`, `extname` is exactly `ext`. |
| TemplateKeys.ExtFitsStripped | generator.js:238-240 | The extension of the unstripped name is never longer than the stripped name, so `slice` gets a non-negative end. |
| TemplateKeys.RenameKey | generator.js:236-241 | The key is a prefix of the stripped name, and exactly one extension length shorter. |
| TemplateKeys.RenameKeyRoundTrip | generator.js:240 | For a name without a trailing `/`, key + extension gives back the stripped name. |
| TemplateKeys.RenameKeyOfSplit | generator.js:238-240 | For `stem + ext` as in ExtnameOfSplit, key + `ext` gives back the stripped name. |
| TemplateKeys.ReadmeKey | generator.js:236-241 | `README.md` is keyed `README`. |
| TemplateKeys.VerbKey | generator.js:236-241 | `.verb.md` is keyed `.verb`: its only dot besides the leading one starts the extension. |
| TemplateKeys.RenameKeyOfTemplate | generator.js:236-241 | A template under a strippable folder prefix (such as `templates/layouts/`) whose file name is `stem + ext` is keyed `stem`: the folders and the extension both go. |
| TemplateKeys.LayoutKey | generator.js:236-241 | `templates/layouts/default.md` is keyed `default`. |
| Acquisition.ReadmePath | generator.js:175 | The configured readme path is used when set and non-empty. Otherwise it is `.verb.md`, and it is never empty. |
| Acquisition.SkipCondition | generator.js:169 | No contract of its own: the skip test of line 169. Acquisition.Decide makes it the first branch, and Acquisition.OnlyBooleanFalseDisables pins down `=== false`. |
| Acquisition.Decide | generator.js:169-181 | Exactly one branch is taken, in priority order. (a) Skip when `README` or `.verb` is registered or `verbmd` is exactly `false`. (b) Otherwise load the readme path when it exists. (c) Otherwise build `ask`. |
| Acquisition.PromptOutcome | generator.js:198-204 | A prompt error is propagated unchanged. A yes builds `new`. A no declines. |
| Acquisition.RunVerbmd | generator.js:166-182 | In branch (b), the `readme` file (default `.verb.md`) is registered under `README.md`, and nothing is registered otherwise. `new` starts exactly when branch (c) gets a yes. An error reaches the callback only from the prompt, unless `new` itself fails. |
| Acquisition.NoPromptNoError | generator.js:169-180 | Branches (a) and (b) call back with no error and create nothing. |
| Acquisition.DisabledDoesNothing | generator.js:169 | With `verbmd` set to `false`, nothing is loaded, nothing is created and no error is reported, whatever is on disk and whatever the user would answer. |
| Acquisition.OnlyBooleanFalseDisables | generator.js:169 | The test is `=== false`: the string `"false"` does not disable acquisition. |
| Acquisition.SkipBeatsExistingFile | generator.js:169-177 | A registered `README` wins over an existing file on disk. |
| Acquisition.PromptErrorPropagates | generator.js:199 | In branch (c), a prompt error reaches the callback unchanged and nothing is created. |
| Acquisition.AnswerOutcomes | generator.js:200-204 | A no completes without error and creates nothing. A yes hands the callback to `new`. |
| Acquisition.LoadingIsIdempotent | generator.js:169-177 | After a load, the view's key is `README` (from `README.md`) or `.verb` (from `.verb.md`), so a second run skips. |
| TaskGraph.DeclaredIsAcyclic | generator.js:221-329 | The dependencies declared for `ask`, `setup`, `readme` and `default` admit a strictly decreasing ranking, so they form no cycle. |
| TaskGraph.RankedIsAcyclic | generator.js:221-329 | A graph whose every dependency ranks strictly below its dependent has no cycle. |
| TaskGraph.Closure | generator.js:221-329 | No contract of its own: the transitive dependencies computed along the ranking. TaskGraph.ClosureIsReachability proves it equals reachability. |
| TaskGraph.ClosureIsReachability | generator.js:287-300 | The closure computed along the ranking contains exactly the tasks reachable through declared dependencies. |
| TaskGraph.SetupClosureFrom | generator.js:287 | Any graph where `setup` declares `[options, plugins, middleware, data]` and none of those declares a dependency gives `setup` exactly those four in its closure. |
| TaskGraph.SetupClosure | generator.js:287 | `setup` depends transitively on exactly `options`, `plugins`, `middleware` and `data`. |
| TaskGraph.ReadmeClosureComputed | generator.js:300 | The computed closure of `readme` is `{setup, options, plugins, middleware, data, templates, verbmd}`. |
| TaskGraph.ReadmeClosureFrom | generator.js:300 | Any graph where `readme` declares `[setup, templates, verbmd]`, the last two declare nothing and `setup`'s closure is its four tasks gives `readme` exactly those seven tasks in its closure. |
| TaskGraph.ReachesFromReadme | generator.js:287-300 | A task is reachable from `readme` exactly when it is one of those seven. |
| TaskGraph.ReadmeClosure | generator.js:287-300 | The transitive dependencies of `readme` are exactly those seven tasks. |
| TaskGraph.DefaultClosure | generator.js:329 | `default` reaches exactly `readme` and the seven tasks `readme` depends on. |
| TaskGraph.AskAndNewOnlyDynamic | generator.js:181-201 | No declared dependency reaches `ask` or `new`. They are started only by the builds at 181 and 201. |
| TaskGraph.WithBuilds | generator.js:181-201 | Adding the dynamic builds keeps the task set and adds exactly the build edges. |
| TaskGraph.RankedWithBuilds | generator.js:181-201 | A ranking of both the declared graph and the build edges also ranks their union. |
| TaskGraph.BuildsKeepAcyclic | generator.js:181-201 | With the dynamic builds added as edges, the graph is still acyclic. |
| TemplateLoad.LoadPlan | generator.js:243-260 | No contract of its own: the load calls in source order, with the project `docs` steps only when `docs` exists. TemplateLoad.LoadOrderPerCategory states the order per collection. |
| TemplateLoad.LoadOrderPerCategory | generator.js:243-260 | Docs: built-in first, then project `docs` only when it exists. Layouts: built-in only. Includes: the directory, then the static set, then project `docs`. Badges: the static set. |
| TemplateLoad.AllSteps | generator.js:243-273 | The `views` override steps come only when `views` is defined, and only after every load step. |
| TemplateLoad.LastFor | generator.js:243-260 | The lookup finds nothing exactly when no file in the batch has the key. |
| TemplateLoad.LastForIsLastMatch | generator.js:243-260 | When the file at position `i` has the key and no later file does, the lookup returns that file's contents. |
| TemplateLoad.LastForSteps | generator.js:243-273 | Across batches of one collection, the lookup finds nothing exactly when no batch has the key. Otherwise it returns what some batch of that collection has for the key. |
| TemplateLoad.ApplyFiles | generator.js:243-260 | No contract of its own: one batch registered file by file into a last-wins collection. TemplateLoad.FilesLastWins characterises it. |
| TemplateLoad.ApplySteps | generator.js:243-273 | No contract of its own: the batches registered one after another. TemplateLoad.StepsLastWins characterises it. |
| TemplateLoad.Registered | generator.js:243-273 | No contract of its own: the registry after every load and the optional override. TemplateLoad.RegisteredLastWins characterises it. |
| TemplateLoad.FilesLastWins | generator.js:243-260 | Within one batch, each key holds the last file registered under it. Other keys and other collections keep their value. |
| TemplateLoad.StepsLastWins | generator.js:243-273 | Across batches, each view holds what the last batch that registered it stored. Views no batch registers keep their value. |
| TemplateLoad.LastStepDecides | generator.js:243-273 | A batch that registers the key decides it when it is the last batch. |
| TemplateLoad.TailPassesOver | generator.js:243-273 | Later batches of other collections, or ones that do not register the key, leave the outcome unchanged. |
| TemplateLoad.DecidedBy | generator.js:243-273 | A batch that registers the key decides it when no later batch registers that key into the same collection. |
| TemplateLoad.RegisteredLastWins | generator.js:243-273 | After all loads and the optional override, every view holds what the last registration of its key stored. Views nothing registers keep their value. |
| TemplateLoad.TemplatesTask | generator.js:233-274 | The callback gets an error exactly when `views` is defined and `config.process` fails, and the error is the one reported. |
| TemplateLoad.TemplatesTaskLastWins | generator.js:236-273 | In a successful run, every view holds what the last registration of its `renameKey` key stored. |
| TemplateLoad.ApplyStepsSameFiles | generator.js:243-260 | Two file sources that list the same files for every step build the same registry. |
| TemplateLoad.NoViewsIgnoresConfig | generator.js:262-265 | Without `views`, the task completes without error. Neither what `config.process` would report nor what the `config.views` entries would list changes the outcome. |
| TemplateLoad.OverrideDecides | generator.js:267-273 | After any loads, the override step of a collection decides every key it registers. |
| TemplateLoad.ViewsOverride | generator.js:267-273 | With `views` defined and `config.process` succeeding, every file of a collection's `views` batch decides its `renameKey` key. The registry holds the last `views` file with that key, replacing the built-in or project template with the same key. |
| TemplateLoad.ProjectDocsShadowBuiltinDocs | generator.js:244-247 | A project doc replaces the built-in doc with the same key, unless `views` defines that doc. |
| TemplateLoad.ProjectDocsShadowIncludes | generator.js:252-257 | Project docs, loaded last among the include sources, replace both a directory include and a static include with the same key. |
| TemplateLoad.StaticIncludesShadowBuiltin | generator.js:252-254 | The static include set replaces a directory include with the same key, unless project docs or `views` register it. |

## Left out

- The host runner (`app.task`/`app.build` scheduling, run-once semantics, events) is not modelled. It is a library this file only calls. The order in which `setup` runs its dependencies is a stated assumption.
- The render stream of the `readme` task (generator.js:300-317) is not modelled: the template engines, `app.pipeline` and `app.dest` are all external. The destination basename is forced to `README.md` (310), and the destination defaults to `app.cwd` (303).
- The `new` task's scaffolding stream (141-151) is not modelled. Its result is the parameter `newResult`.
- File I/O is left out: `fs.readFileSync` in `readTemplate`, `utils.exists`, globbing, and the `preRender` deletion of `readme.md` (79). Existence checks and directory listings are parameters.
- The fallback `templates()` in `readTemplate` (347) refers to a binding local to the generator function, so it cannot work at module scope. It is not modelled.
- Plugins, lint, reflinks, helpers, middleware, the `data` task's merges into `app.data`, logging, `debug` and the `readme-generator:end` event are not modelled. What the model needs from the plugins is stated as an assumption at the top of this file.
- `path.resolve` is not modelled. `path.relative` is not modelled either: `renameKey` is applied to the registered name as given, the same way for files and for static template objects.
- TemplateKeys.Extname: follows Node's POSIX `path.extname` only. The Windows variant is not modelled.
- TemplateKeys.RenameKeyRoundTrip: requires a name without a trailing `/`. For a name ending in `/`, `extname` skips the trailing slashes, so the extension is not a suffix of the name and key + extension does not rebuild it.
- TemplateKeys.RenameKey: names are sequences of Unicode scalar values, and lengths count code points, while JavaScript's `length` and `slice` count UTF-16 code units. The two agree unless a name ends in `/` and its extension contains a character outside the Basic Multilingual Plane. For `a.😀//` the model gives `a.😀`, but generator.js:240 cuts the surrogate pair and gives `a.\uD83D`.
- `utils.exists(cwd('docs'))` is called twice (245, 255). The model uses one boolean for both calls, so it leaves out a directory that appears between the two calls. The two project-docs batches (246 and 256 glob the same `*.md` in the same directory) are separate values of `files`. No lemma needs them to be equal, and a lemma stated over any two batches covers the case where they are.
- TemplateLoad.TemplatesTask: the registry after a failed `config.process` is not described. Only the error handed to the callback is.
- TemplateLoad.TemplatesTask: `viewsDefined` stands for `typeof config.views` (262). The model assumes `config` is an object that the `options` task wrote from `app.base.get('cache.config')` (44) before `templates` runs. If `templates` runs without `options`, `config` keeps its initial `{}` (20) and no override happens, which is the `viewsDefined = false` case. If `cache.config` is unset, reading `config.views` throws before any callback, and the model does not represent that.
- TemplateLoad.ViewsOverride: `config.views` is modelled as one batch of files per collection. The order in which `config.process` registers them across collections does not matter, because collections have disjoint keys.
- Acquisition.LoadingIsIdempotent: the host may key the loaded view by `README.md` or by the loaded file's name `.verb.md`. The lemma covers both, and does not cover a custom `readme` option naming some other file.
- `utils.camelcase` is a parameter (`camel`). Its behaviour is not modelled.
