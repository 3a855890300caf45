/** How the `verbmd` task obtains the input template (generator.js:166-182)
    and what the `prompt-verbmd` task does with the user's answer
    (generator.js:195-206). The file system, the prompt and the `new` task
    are parameters: `onDisk` answers `utils.exists`, `answer` is what
    `app.ask` delivered, and `newResult` is how the `new` task ended. */
module Acquisition {
  import opened Common
  import TemplateKeys

  /** An option value as far as `=== false` can tell them apart. */
  datatype OptionValue = Undefined | Bool(b: bool) | Text(s: string)

  const DefaultReadme: string := ".verb.md"

  /** `app.option('readme') || '.verb.md'`: an unset or empty option falls back. */
  function ReadmePath(readme: Option<string>): (path: string)
    ensures path != ""
    ensures readme.Some? && readme.value != "" ==> path == readme.value
    ensures readme.None? || readme.value == "" ==> path == DefaultReadme
  {
    if readme.Some? && readme.value != "" then readme.value else DefaultReadme
  }

  /** The three ways `verbmd` can go. */
  datatype Decision =
    | Skip                        // an input is registered already, or acquisition is off
    | LoadExisting(path: string)  // register the file at `path` under `README.md`
    | BuildAsk                    // hand over to `app.build('ask', cb)`

  /** The key the loaded file is registered under (generator.js:177). */
  const LoadedKey: string := "README.md"

  /** Acquisition is skipped: a `README` or `.verb` view is registered, or
      the `verbmd` option is exactly the boolean `false`. */
  predicate SkipCondition(files: set<string>, verbmd: OptionValue)
  {
    "README" in files || ".verb" in files || verbmd == Bool(false)
  }

  /** The priority-ordered decision of generator.js:169-181. */
  function Decide(files: set<string>, verbmd: OptionValue, readme: Option<string>,
                  onDisk: string -> bool): (d: Decision)
    ensures d.Skip? <==> SkipCondition(files, verbmd)
    ensures d.LoadExisting? <==> !SkipCondition(files, verbmd) && onDisk(ReadmePath(readme))
    ensures d.BuildAsk? <==> !SkipCondition(files, verbmd) && !onDisk(ReadmePath(readme))
    ensures d.LoadExisting? ==> d.path == ReadmePath(readme)
  {
    if SkipCondition(files, verbmd) then Skip
    else if onDisk(ReadmePath(readme)) then LoadExisting(ReadmePath(readme))
    else BuildAsk
  }

  /** What `app.ask` hands to its callback. */
  datatype Answer = PromptError(error: string) | Answered(verbmd: bool)

  /** What `prompt-verbmd` does next. */
  datatype PromptStep = Propagate(error: string) | BuildNew | Decline

  /** generator.js:199-204. */
  function PromptOutcome(answer: Answer): (step: PromptStep)
    ensures answer.PromptError? ==> step == Propagate(answer.error)
    ensures answer.Answered? ==> (step.BuildNew? <==> answer.verbmd)
    ensures step.Decline? <==> answer.Answered? && !answer.verbmd
  {
    match answer
    case PromptError(e) => Propagate(e)
    case Answered(yes) => if yes then BuildNew else Decline
  }

  /** Everything one run of `verbmd` does. */
  datatype Run = Run(
    registered: Option<string>,  // path registered under `README.md`, if any
    scaffolded: bool,            // whether the `new` task was started
    completion: Completion)      // what the task's callback received

  function RunVerbmd(files: set<string>, verbmd: OptionValue, readme: Option<string>,
                     onDisk: string -> bool, answer: Answer, newResult: Completion): (r: Run)
    ensures r.registered == (if Decide(files, verbmd, readme, onDisk).LoadExisting?
                             then Some(ReadmePath(readme)) else None)
    ensures r.scaffolded <==> Decide(files, verbmd, readme, onDisk).BuildAsk? && answer == Answered(true)
    ensures !r.scaffolded && r.completion.Failed? ==> answer.PromptError?
  {
    match Decide(files, verbmd, readme, onDisk)
    case Skip => Run(None, false, Done)
    case LoadExisting(path) => Run(Some(path), false, Done)
    case BuildAsk =>
      match PromptOutcome(answer)
      case Propagate(e) => Run(None, false, Failed(e))
      case BuildNew => Run(None, true, newResult)
      case Decline => Run(None, false, Done)
  }

  /** Branches (a) and (b) call back with no error and never prompt. */
  lemma NoPromptNoError(files: set<string>, verbmd: OptionValue, readme: Option<string>,
                        onDisk: string -> bool, answer: Answer, newResult: Completion)
    requires !Decide(files, verbmd, readme, onDisk).BuildAsk?
    ensures RunVerbmd(files, verbmd, readme, onDisk, answer, newResult).completion == Done
    ensures !RunVerbmd(files, verbmd, readme, onDisk, answer, newResult).scaffolded
  {
  }

  /** `--verbmd=false`: nothing is loaded, nothing is created, no error,
      whatever is on disk and whatever the user would have answered. */
  lemma DisabledDoesNothing(files: set<string>, readme: Option<string>, onDisk: string -> bool,
                            answer: Answer, newResult: Completion)
    ensures RunVerbmd(files, Bool(false), readme, onDisk, answer, newResult)
            == Run(None, false, Done)
  {
  }

  /** Only the boolean `false` disables acquisition; the string "false" does not. */
  lemma OnlyBooleanFalseDisables(readme: Option<string>, onDisk: string -> bool)
    ensures !Decide({}, Text("false"), readme, onDisk).Skip?
    ensures Decide({}, Bool(false), readme, onDisk).Skip?
  {
  }

  /** Skipping takes priority over a file that exists on disk. */
  lemma SkipBeatsExistingFile(files: set<string>, readme: Option<string>, onDisk: string -> bool)
    requires "README" in files
    requires onDisk(ReadmePath(readme))
    ensures Decide(files, Undefined, readme, onDisk) == Skip
  {
  }

  /** A prompt error reaches the callback unchanged and creates nothing. */
  lemma PromptErrorPropagates(files: set<string>, verbmd: OptionValue, readme: Option<string>,
                              onDisk: string -> bool, e: string, newResult: Completion)
    requires Decide(files, verbmd, readme, onDisk).BuildAsk?
    ensures RunVerbmd(files, verbmd, readme, onDisk, PromptError(e), newResult)
            == Run(None, false, Failed(e))
  {
  }

  /** Declining completes without error and creates nothing; accepting hands
      the callback to the `new` task. */
  lemma AnswerOutcomes(files: set<string>, verbmd: OptionValue, readme: Option<string>,
                       onDisk: string -> bool, newResult: Completion)
    requires Decide(files, verbmd, readme, onDisk).BuildAsk?
    ensures RunVerbmd(files, verbmd, readme, onDisk, Answered(false), newResult)
            == Run(None, false, Done)
    ensures RunVerbmd(files, verbmd, readme, onDisk, Answered(true), newResult)
            == Run(None, true, newResult)
  {
  }

  /** Once a file has been loaded, a second `verbmd` run skips: the loaded
      view's key is `README` (from `README.md`) or `.verb` (from `.verb.md`),
      whichever name the host keys it by, and both are reserved names. */
  lemma LoadingIsIdempotent(files: set<string>, verbmd: OptionValue, readme: Option<string>,
                            onDisk: string -> bool, viewName: string)
    requires Decide(files, verbmd, readme, onDisk).LoadExisting?
    requires viewName == LoadedKey || viewName == DefaultReadme
    ensures Decide(files + {TemplateKeys.RenameKey(viewName)}, verbmd, readme, onDisk) == Skip
  {
    if viewName == LoadedKey {
      TemplateKeys.ReadmeKey(viewName);
    } else {
      TemplateKeys.VerbKey(viewName);
    }
  }
}
