/** The `templates` task (generator.js:233-274): which template sources are
    loaded into which view collection, in which order, and when the `views`
    section of the package configuration is processed on top of them.

    Modelling assumptions about the host: every registration stores the file's
    contents under the key `renameKey` computes from the file's name, in the
    collection of its category, replacing whatever was stored there (last
    registration wins); the directory listings and the static template sets
    are parameters (`files`), as is the error `config.process` reports.
    The registry lemmas hold for any key function `keyOf`; the task itself
    uses `TemplateKeys.RenameKey`. */
module TemplateLoad {
  import opened Common
  import TemplateKeys

  /** The four view collections the task fills. */
  datatype Category = Docs | Layouts | Includes | Badges

  /** Where a batch of templates comes from. */
  datatype Source =
    | BuiltinDocs      // the generator's own `templates/docs`
    | ProjectDocs      // the project's `docs` directory
    | BuiltinLayouts   // `templates/layouts`
    | BuiltinIncludes  // `templates/includes/**`
    | StaticIncludes   // the object exported by `templates/includes`
    | StaticBadges     // the object exported by `templates/badges`
    | ConfigViews      // the `views` section of the package configuration

  /** One call that registers a batch of templates into one collection. */
  datatype LoadStep = LoadStep(category: Category, source: Source)

  datatype File = File(name: string, contents: string)

  /** A view's address: its collection and its key. */
  datatype ViewKey = ViewKey(category: Category, key: string)

  type Registry = map<ViewKey, string>

  /** The sources that feed `category`, in load order. */
  function SourcesOf(steps: seq<LoadStep>, category: Category): (sources: seq<Source>)
  {
    if |steps| == 0 then []
    else
      (if steps[0].category == category then [steps[0].source] else []) + SourcesOf(steps[1..], category)
  }

  /** The registrations of generator.js:243-260, in program order. The project
      `docs` directory is loaded twice, as docs and as includes, when it exists. */
  function LoadPlan(docsExists: bool): seq<LoadStep>
  {
    [LoadStep(Docs, BuiltinDocs)]
    + (if docsExists then [LoadStep(Docs, ProjectDocs)] else [])
    + [LoadStep(Layouts, BuiltinLayouts)]
    + [LoadStep(Includes, BuiltinIncludes), LoadStep(Includes, StaticIncludes)]
    + (if docsExists then [LoadStep(Includes, ProjectDocs)] else [])
    + [LoadStep(Badges, StaticBadges)]
  }

  /** The load order within each collection: built-in docs before project
      docs; layouts built-in only; the include directory, then the static
      include set, then project docs; the static badge set. */
  lemma LoadOrderPerCategory(docsExists: bool)
    ensures SourcesOf(LoadPlan(docsExists), Docs)
            == [BuiltinDocs] + (if docsExists then [ProjectDocs] else [])
    ensures SourcesOf(LoadPlan(docsExists), Layouts) == [BuiltinLayouts]
    ensures SourcesOf(LoadPlan(docsExists), Includes)
            == [BuiltinIncludes, StaticIncludes] + (if docsExists then [ProjectDocs] else [])
    ensures SourcesOf(LoadPlan(docsExists), Badges) == [StaticBadges]
  {
    if docsExists {
      LoadOrderWithDocs();
    } else {
      LoadOrderWithoutDocs();
    }
  }

  lemma LoadOrderWithDocs()
    ensures SourcesOf(LoadPlan(true), Docs) == [BuiltinDocs, ProjectDocs]
    ensures SourcesOf(LoadPlan(true), Layouts) == [BuiltinLayouts]
    ensures SourcesOf(LoadPlan(true), Includes) == [BuiltinIncludes, StaticIncludes, ProjectDocs]
    ensures SourcesOf(LoadPlan(true), Badges) == [StaticBadges]
  {
    var plan := [LoadStep(Docs, BuiltinDocs), LoadStep(Docs, ProjectDocs),
                 LoadStep(Layouts, BuiltinLayouts),
                 LoadStep(Includes, BuiltinIncludes), LoadStep(Includes, StaticIncludes),
                 LoadStep(Includes, ProjectDocs), LoadStep(Badges, StaticBadges)];
    assert LoadPlan(true) == plan;
    assert plan[1..] == [LoadStep(Docs, ProjectDocs), LoadStep(Layouts, BuiltinLayouts),
                         LoadStep(Includes, BuiltinIncludes), LoadStep(Includes, StaticIncludes),
                         LoadStep(Includes, ProjectDocs), LoadStep(Badges, StaticBadges)];
  }

  lemma LoadOrderWithoutDocs()
    ensures SourcesOf(LoadPlan(false), Docs) == [BuiltinDocs]
    ensures SourcesOf(LoadPlan(false), Layouts) == [BuiltinLayouts]
    ensures SourcesOf(LoadPlan(false), Includes) == [BuiltinIncludes, StaticIncludes]
    ensures SourcesOf(LoadPlan(false), Badges) == [StaticBadges]
  {
    var plan := [LoadStep(Docs, BuiltinDocs), LoadStep(Layouts, BuiltinLayouts),
                 LoadStep(Includes, BuiltinIncludes), LoadStep(Includes, StaticIncludes),
                 LoadStep(Badges, StaticBadges)];
    assert LoadPlan(false) == plan;
    assert plan[1..] == [LoadStep(Layouts, BuiltinLayouts),
                         LoadStep(Includes, BuiltinIncludes), LoadStep(Includes, StaticIncludes),
                         LoadStep(Badges, StaticBadges)];
  }

  /** The override steps: `config.process({views})` may register into every
      collection; the collections' keys are disjoint, so their order does not matter. */
  const OverrideSteps: seq<LoadStep> :=
    [LoadStep(Docs, ConfigViews), LoadStep(Layouts, ConfigViews),
     LoadStep(Includes, ConfigViews), LoadStep(Badges, ConfigViews)]

  /** Where the override step of `category` sits among the override steps. */
  function OverrideIndex(category: Category): (i: nat)
    ensures i < |OverrideSteps| && OverrideSteps[i] == LoadStep(category, ConfigViews)
    ensures forall j :: 0 <= j < |OverrideSteps| && j != i ==> OverrideSteps[j].category != category
  {
    match category
    case Docs => 0
    case Layouts => 1
    case Includes => 2
    case Badges => 3
  }

  /** All registrations of one run: the override comes only when `views` is
      defined, and only after every load. */
  function AllSteps(docsExists: bool, viewsDefined: bool): (steps: seq<LoadStep>)
    ensures |steps| == |LoadPlan(docsExists)| + (if viewsDefined then |OverrideSteps| else 0)
    ensures steps[..|LoadPlan(docsExists)|] == LoadPlan(docsExists)
    ensures forall i :: 0 <= i < |steps| ==>
              (steps[i].source == ConfigViews <==> i >= |LoadPlan(docsExists)|)
  {
    LoadPlan(docsExists) + (if viewsDefined then OverrideSteps else [])
  }

  /** Registering `files` into `category`, one after another. */
  function ApplyFiles(reg: Registry, category: Category, files: seq<File>,
                      keyOf: string -> string): Registry
  {
    if |files| == 0 then reg
    else
      var last := files[|files| - 1];
      ApplyFiles(reg, category, files[..|files| - 1], keyOf)[ViewKey(category, keyOf(last.name)) := last.contents]
  }

  /** Running the registration steps one after another. */
  function ApplySteps(reg: Registry, steps: seq<LoadStep>, files: LoadStep -> seq<File>,
                      keyOf: string -> string): Registry
  {
    if |steps| == 0 then reg
    else
      var last := steps[|steps| - 1];
      ApplyFiles(ApplySteps(reg, steps[..|steps| - 1], files, keyOf), last.category, files(last), keyOf)
  }

  /** Reference definition: the contents of the last file in `files` whose key is `key`. */
  function LastFor(files: seq<File>, key: string, keyOf: string -> string): (r: Option<string>)
    ensures r.None? <==> forall i :: 0 <= i < |files| ==> keyOf(files[i].name) != key
  {
    if |files| == 0 then None
    else if keyOf(files[|files| - 1].name) == key then Some(files[|files| - 1].contents)
    else
      assert forall i :: 0 <= i < |files| - 1 ==> files[..|files| - 1][i] == files[i];
      LastFor(files[..|files| - 1], key, keyOf)
  }

  /** The reference definition picks the contents of the last file carrying the key. */
  lemma {:induction false} LastForIsLastMatch(files: seq<File>, key: string, keyOf: string -> string, i: nat)
    requires i < |files| && keyOf(files[i].name) == key
    requires forall j :: i < j < |files| ==> keyOf(files[j].name) != key
    ensures LastFor(files, key, keyOf) == Some(files[i].contents)
    decreases |files|
  {
    if i < |files| - 1 {
      var init := files[..|files| - 1];
      assert init[i] == files[i];
      assert forall j :: i < j < |init| ==> init[j] == files[j];
      LastForIsLastMatch(init, key, keyOf, i);
    }
  }

  /** Reference definition: what the last step registering `key` into
      `category` stored under it. */
  function LastForSteps(steps: seq<LoadStep>, files: LoadStep -> seq<File>,
                        category: Category, key: string, keyOf: string -> string): (r: Option<string>)
    ensures r.None? <==> forall i :: 0 <= i < |steps| && steps[i].category == category
                                     ==> LastFor(files(steps[i]), key, keyOf).None?
    ensures r.Some? ==> exists i :: 0 <= i < |steps| && steps[i].category == category
                                    && LastFor(files(steps[i]), key, keyOf) == r
  {
    if |steps| == 0 then None
    else
      var last := steps[|steps| - 1];
      if last.category == category && LastFor(files(last), key, keyOf).Some? then
        LastFor(files(last), key, keyOf)
      else
        assert forall i :: 0 <= i < |steps| - 1 ==> steps[..|steps| - 1][i] == steps[i];
        LastForSteps(steps[..|steps| - 1], files, category, key, keyOf)
  }

  /** A registry agrees with a lookup: a found entry is stored, and an entry
      not found is what it was before. */
  ghost predicate Agrees(before: Registry, after: Registry, vk: ViewKey, found: Option<string>)
  {
    match found
    case Some(v) => vk in after && after[vk] == v
    case None => (vk in after <==> vk in before) && (vk in before ==> after[vk] == before[vk])
  }

  /** Last-wins within one batch; other collections are untouched. */
  lemma {:induction false} FilesLastWins(reg: Registry, category: Category, files: seq<File>,
                                         keyOf: string -> string, vk: ViewKey)
    ensures Agrees(reg, ApplyFiles(reg, category, files, keyOf), vk,
                   if vk.category == category then LastFor(files, vk.key, keyOf) else None)
    decreases |files|
  {
    if |files| > 0 {
      FilesLastWins(reg, category, files[..|files| - 1], keyOf, vk);
    }
  }

  /** Last-wins across steps: every view holds what the last step registering
      it stored; views no step registers keep their earlier value. */
  lemma {:induction false} StepsLastWins(reg: Registry, steps: seq<LoadStep>, files: LoadStep -> seq<File>,
                                         keyOf: string -> string, vk: ViewKey)
    ensures Agrees(reg, ApplySteps(reg, steps, files, keyOf), vk,
                   LastForSteps(steps, files, vk.category, vk.key, keyOf))
    decreases |steps|
  {
    if |steps| > 0 {
      var last := steps[|steps| - 1];
      StepsLastWins(reg, steps[..|steps| - 1], files, keyOf, vk);
      FilesLastWins(ApplySteps(reg, steps[..|steps| - 1], files, keyOf), last.category, files(last), keyOf, vk);
    }
  }

  /** A step that registers `key` into its collection decides it when it is last. */
  lemma LastStepDecides(steps: seq<LoadStep>, files: LoadStep -> seq<File>, s: LoadStep,
                        key: string, keyOf: string -> string)
    requires LastFor(files(s), key, keyOf).Some?
    ensures LastForSteps(steps + [s], files, s.category, key, keyOf) == LastFor(files(s), key, keyOf)
  {
    assert (steps + [s])[|steps|] == s;
  }

  /** Steps of other collections, or ones that do not register `key`, change nothing. */
  lemma {:induction false} TailPassesOver(steps: seq<LoadStep>, tail: seq<LoadStep>,
                                          files: LoadStep -> seq<File>, category: Category,
                                          key: string, keyOf: string -> string)
    requires forall i :: 0 <= i < |tail| ==>
               tail[i].category != category || LastFor(files(tail[i]), key, keyOf).None?
    ensures LastForSteps(steps + tail, files, category, key, keyOf)
            == LastForSteps(steps, files, category, key, keyOf)
    decreases |tail|
  {
    if |tail| == 0 {
      assert steps + tail == steps;
    } else {
      var t0 := tail[..|tail| - 1];
      assert (steps + tail)[..|steps + tail| - 1] == steps + t0;
      assert (steps + tail)[|steps + tail| - 1] == tail[|tail| - 1];
      TailPassesOver(steps, t0, files, category, key, keyOf);
    }
  }

  /** What the task hands to its callback, with the registry it leaves. */
  datatype Outcome = Loaded(registry: Registry) | LoadFailed(error: string)

  /** The registry after running every step of a run, keyed by `keyOf`. */
  function Registered(init: Registry, docsExists: bool, viewsDefined: bool,
                      files: LoadStep -> seq<File>, keyOf: string -> string): Registry
  {
    ApplySteps(init, AllSteps(docsExists, viewsDefined), files, keyOf)
  }

  /** Every view holds what the last registration of it stored; views nothing
      registers keep their value. */
  lemma RegisteredLastWins(init: Registry, docsExists: bool, viewsDefined: bool,
                           files: LoadStep -> seq<File>, keyOf: string -> string, vk: ViewKey)
    ensures Agrees(init, Registered(init, docsExists, viewsDefined, files, keyOf), vk,
                   LastForSteps(AllSteps(docsExists, viewsDefined), files, vk.category, vk.key, keyOf))
  {
    StepsLastWins(init, AllSteps(docsExists, viewsDefined), files, keyOf, vk);
  }

  /** The whole task. `docsExists` answers `utils.exists(cwd('docs'))`,
      `viewsDefined` says whether `config.views` is defined, and `processError`
      is what `config.process` reports when it is called. Keys are computed
      by the `renameKey` option the task installs first. */
  function TemplatesTask(init: Registry, docsExists: bool, viewsDefined: bool,
                         files: LoadStep -> seq<File>, processError: Option<string>): (r: Outcome)
    ensures r.LoadFailed? <==> viewsDefined && processError.Some?
    ensures r.LoadFailed? ==> r.error == processError.value
  {
    if viewsDefined && processError.Some? then LoadFailed(processError.value)
    else Loaded(Registered(init, docsExists, viewsDefined, files, TemplateKeys.RenameKey))
  }

  /** In a successful run every view holds what the last registration of
      its `renameKey` key stored, over the loads and then the override. */
  lemma TemplatesTaskLastWins(init: Registry, docsExists: bool, viewsDefined: bool,
                              files: LoadStep -> seq<File>, processError: Option<string>, vk: ViewKey)
    requires TemplatesTask(init, docsExists, viewsDefined, files, processError).Loaded?
    ensures Agrees(init, TemplatesTask(init, docsExists, viewsDefined, files, processError).registry, vk,
                   LastForSteps(AllSteps(docsExists, viewsDefined), files, vk.category, vk.key,
                                TemplateKeys.RenameKey))
  {
    RegisteredLastWins(init, docsExists, viewsDefined, files, TemplateKeys.RenameKey, vk);
  }

  /** Two file sources that list the same files for every step of `steps`
      build the same registry. */
  lemma {:induction false} ApplyStepsSameFiles(reg: Registry, steps: seq<LoadStep>,
                                               files: LoadStep -> seq<File>, files': LoadStep -> seq<File>,
                                               keyOf: string -> string)
    requires forall i :: 0 <= i < |steps| ==> files(steps[i]) == files'(steps[i])
    ensures ApplySteps(reg, steps, files, keyOf) == ApplySteps(reg, steps, files', keyOf)
    decreases |steps|
  {
    if |steps| > 0 {
      var init := steps[..|steps| - 1];
      assert forall i :: 0 <= i < |init| ==> init[i] == steps[i];
      ApplyStepsSameFiles(reg, init, files, files', keyOf);
      assert files(steps[|steps| - 1]) == files'(steps[|steps| - 1]);
    }
  }

  /** Without `views` (generator.js:262-265) the callback never receives an
      error, and neither what `config.process` would report nor what the
      collections' `config.views` entries would list changes the outcome. */
  lemma NoViewsIgnoresConfig(init: Registry, docsExists: bool,
                             files: LoadStep -> seq<File>, files': LoadStep -> seq<File>,
                             processError: Option<string>, processError': Option<string>)
    requires forall step: LoadStep :: step.source != ConfigViews ==> files(step) == files'(step)
    ensures TemplatesTask(init, docsExists, false, files, processError).Loaded?
    ensures TemplatesTask(init, docsExists, false, files, processError)
            == TemplatesTask(init, docsExists, false, files', processError')
  {
    var steps := AllSteps(docsExists, false);
    assert forall i :: 0 <= i < |steps| ==> steps[i].source != ConfigViews;
    ApplyStepsSameFiles(init, steps, files, files', TemplateKeys.RenameKey);
  }

  /** After any loads, the override step of a collection decides every key it registers. */
  lemma OverrideDecides(loads: seq<LoadStep>, files: LoadStep -> seq<File>, category: Category,
                        key: string, keyOf: string -> string)
    requires LastFor(files(LoadStep(category, ConfigViews)), key, keyOf).Some?
    ensures LastForSteps(loads + OverrideSteps, files, category, key, keyOf)
            == LastFor(files(LoadStep(category, ConfigViews)), key, keyOf)
  {
    var k := OverrideIndex(category);
    var before := loads + OverrideSteps[..k];
    var tail := OverrideSteps[k + 1..];
    assert OverrideSteps == OverrideSteps[..k] + [OverrideSteps[k]] + tail;
    assert loads + OverrideSteps == before + [OverrideSteps[k]] + tail;
    LastStepDecides(before, files, OverrideSteps[k], key, keyOf);
    assert forall i :: 0 <= i < |tail| ==> tail[i] == OverrideSteps[k + 1 + i];
    TailPassesOver(before + [OverrideSteps[k]], tail, files, category, key, keyOf);
  }

  /** A view defined in `config.views` overrides every built-in and project
      template of its collection with the same key: the view file at position
      `i` of the collection's `views` batch, or a later one with the same key,
      is what the registry holds. */
  lemma ViewsOverride(init: Registry, docsExists: bool, files: LoadStep -> seq<File>,
                      category: Category, i: nat)
    requires i < |files(LoadStep(category, ConfigViews))|
    ensures TemplatesTask(init, docsExists, true, files, None).Loaded?
    ensures var views := files(LoadStep(category, ConfigViews));
            var key := TemplateKeys.RenameKey(views[i].name);
            var reg := TemplatesTask(init, docsExists, true, files, None).registry;
            && LastFor(views, key, TemplateKeys.RenameKey).Some?
            && ViewKey(category, key) in reg
            && reg[ViewKey(category, key)] == LastFor(views, key, TemplateKeys.RenameKey).value
  {
    var views := files(LoadStep(category, ConfigViews));
    var key := TemplateKeys.RenameKey(views[i].name);
    assert LastFor(views, key, TemplateKeys.RenameKey).Some?;
    OverrideDecides(LoadPlan(docsExists), files, category, key, TemplateKeys.RenameKey);
    RegisteredLastWins(init, docsExists, true, files, TemplateKeys.RenameKey, ViewKey(category, key));
  }

  /** A step decides a key of its collection when no later step registers
      that key into that collection. */
  lemma {:induction false} DecidedBy(before: seq<LoadStep>, s: LoadStep, tail: seq<LoadStep>,
                  files: LoadStep -> seq<File>, key: string, keyOf: string -> string)
    requires LastFor(files(s), key, keyOf).Some?
    requires forall i :: 0 <= i < |tail| ==>
               tail[i].category != s.category || LastFor(files(tail[i]), key, keyOf).None?
    ensures LastForSteps(before + [s] + tail, files, s.category, key, keyOf) == LastFor(files(s), key, keyOf)
  {
    LastStepDecides(before, files, s, key, keyOf);
    TailPassesOver(before + [s], tail, files, s.category, key, keyOf);
  }

  /** The steps after `s` in a run whose plan is `before + [s] + rest`. */
  function Later(rest: seq<LoadStep>, viewsDefined: bool): seq<LoadStep>
  {
    rest + (if viewsDefined then OverrideSteps else [])
  }

  /** A project doc shadows the built-in doc of the same key, unless
      `config.views` defines that doc itself. */
  lemma ProjectDocsShadowBuiltinDocs(init: Registry, viewsDefined: bool, files: LoadStep -> seq<File>,
                                     keyOf: string -> string, key: string)
    requires LastFor(files(LoadStep(Docs, ProjectDocs)), key, keyOf).Some?
    requires viewsDefined ==> LastFor(files(LoadStep(Docs, ConfigViews)), key, keyOf).None?
    ensures var reg := Registered(init, true, viewsDefined, files, keyOf);
            ViewKey(Docs, key) in reg
            && reg[ViewKey(Docs, key)] == LastFor(files(LoadStep(Docs, ProjectDocs)), key, keyOf).value
  {
    var rest := [LoadStep(Layouts, BuiltinLayouts),
                 LoadStep(Includes, BuiltinIncludes), LoadStep(Includes, StaticIncludes),
                 LoadStep(Includes, ProjectDocs), LoadStep(Badges, StaticBadges)];
    var tail := Later(rest, viewsDefined);
    assert AllSteps(true, viewsDefined) == [LoadStep(Docs, BuiltinDocs)] + [LoadStep(Docs, ProjectDocs)] + tail;
    DecidedBy([LoadStep(Docs, BuiltinDocs)], LoadStep(Docs, ProjectDocs), tail, files, key, keyOf);
    RegisteredLastWins(init, true, viewsDefined, files, keyOf, ViewKey(Docs, key));
  }

  /** Project docs are also loaded as includes, last among the include
      sources: they shadow both the include directory and the static set. */
  lemma ProjectDocsShadowIncludes(init: Registry, viewsDefined: bool, files: LoadStep -> seq<File>,
                                  keyOf: string -> string, key: string)
    requires LastFor(files(LoadStep(Includes, ProjectDocs)), key, keyOf).Some?
    requires viewsDefined ==> LastFor(files(LoadStep(Includes, ConfigViews)), key, keyOf).None?
    ensures var reg := Registered(init, true, viewsDefined, files, keyOf);
            ViewKey(Includes, key) in reg
            && reg[ViewKey(Includes, key)] == LastFor(files(LoadStep(Includes, ProjectDocs)), key, keyOf).value
  {
    var before := [LoadStep(Docs, BuiltinDocs), LoadStep(Docs, ProjectDocs),
                   LoadStep(Layouts, BuiltinLayouts),
                   LoadStep(Includes, BuiltinIncludes), LoadStep(Includes, StaticIncludes)];
    var tail := Later([LoadStep(Badges, StaticBadges)], viewsDefined);
    assert AllSteps(true, viewsDefined) == before + [LoadStep(Includes, ProjectDocs)] + tail;
    DecidedBy(before, LoadStep(Includes, ProjectDocs), tail, files, key, keyOf);
    RegisteredLastWins(init, true, viewsDefined, files, keyOf, ViewKey(Includes, key));
  }

  /** The static include set shadows the include directory, unless project
      docs or `config.views` register the same include. */
  lemma StaticIncludesShadowBuiltin(init: Registry, docsExists: bool, viewsDefined: bool,
                                    files: LoadStep -> seq<File>, keyOf: string -> string, key: string)
    requires LastFor(files(LoadStep(Includes, StaticIncludes)), key, keyOf).Some?
    requires docsExists ==> LastFor(files(LoadStep(Includes, ProjectDocs)), key, keyOf).None?
    requires viewsDefined ==> LastFor(files(LoadStep(Includes, ConfigViews)), key, keyOf).None?
    ensures var reg := Registered(init, docsExists, viewsDefined, files, keyOf);
            ViewKey(Includes, key) in reg
            && reg[ViewKey(Includes, key)] == LastFor(files(LoadStep(Includes, StaticIncludes)), key, keyOf).value
  {
    var docs := [LoadStep(Docs, BuiltinDocs)] + (if docsExists then [LoadStep(Docs, ProjectDocs)] else []);
    var before := docs + [LoadStep(Layouts, BuiltinLayouts), LoadStep(Includes, BuiltinIncludes)];
    var rest := (if docsExists then [LoadStep(Includes, ProjectDocs)] else []) + [LoadStep(Badges, StaticBadges)];
    var tail := Later(rest, viewsDefined);
    assert AllSteps(docsExists, viewsDefined) == before + [LoadStep(Includes, StaticIncludes)] + tail;
    DecidedBy(before, LoadStep(Includes, StaticIncludes), tail, files, key, keyOf);
    RegisteredLastWins(init, docsExists, viewsDefined, files, keyOf, ViewKey(Includes, key));
  }
}
