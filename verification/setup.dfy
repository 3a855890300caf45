/** Which `toAlias` strategy a run ends up with. The `options` task writes the
    default strategy into the `toAlias` option cell (generator.js:35-40); the
    `data` task overwrites it with the generator variant when
    `app.isGenerator` holds (generator.js:120-124). Both are dependencies of
    `setup` (generator.js:287).

    Modelling assumptions, both about the host runner: an option cell keeps
    the last value written to it, and `setup` runs its dependencies one after
    another in the order they are listed. */
module Setup {
  import opened Common
  import opened Alias
  import opened TaskGraph

  /** The values a task writes into the `toAlias` cell, in order. */
  function AliasWrites(task: TaskName, isGenerator: bool): (w: seq<AliasStrategy>)
    ensures |w| <= 1
    ensures ReadmeStrategy in w <==> task == Options
    ensures GeneratorStrategy in w <==> task == Data && isGenerator
  {
    match task
    case Options => [ReadmeStrategy]
    case Data => if isGenerator then [GeneratorStrategy] else []
    case _ => []
  }

  /** All writes made by running `tasks` one after another. */
  function WritesInOrder(tasks: seq<TaskName>, isGenerator: bool): seq<AliasStrategy>
  {
    if |tasks| == 0 then []
    else WritesInOrder(tasks[..|tasks| - 1], isGenerator) + AliasWrites(tasks[|tasks| - 1], isGenerator)
  }

  /** A last-wins option cell after a sequence of writes. */
  function CellAfter(writes: seq<AliasStrategy>): (r: Option<AliasStrategy>)
    ensures r.None? <==> |writes| == 0
    ensures r.Some? ==> r.value in writes
  {
    if |writes| == 0 then None else Some(writes[|writes| - 1])
  }

  lemma CellAfterAppend(a: seq<AliasStrategy>, b: seq<AliasStrategy>)
    ensures CellAfter(a + b) == if |b| == 0 then CellAfter(a) else CellAfter(b)
  {
    if |b| == 0 {
      assert a + b == a;
    }
  }

  /** Every `options` run comes before every `data` run. */
  ghost predicate OptionsBeforeData(tasks: seq<TaskName>)
  {
    forall k, l :: 0 <= k < |tasks| && 0 <= l < |tasks| && tasks[k] == Options && tasks[l] == Data ==> k < l
  }

  /** Whatever the order of the other tasks, running `options` before `data`
      leaves the generator variant installed exactly when `isGenerator` holds. */
  lemma {:induction false} SelectionByOrder(tasks: seq<TaskName>, isGenerator: bool)
    requires Options in tasks
    requires isGenerator ==> Data in tasks
    requires OptionsBeforeData(tasks)
    ensures CellAfter(WritesInOrder(tasks, isGenerator))
            == Some(if isGenerator then GeneratorStrategy else ReadmeStrategy)
  {
    var n := |tasks|;
    var init, t := tasks[..n - 1], tasks[n - 1];
    assert tasks == init + [t];
    CellAfterAppend(WritesInOrder(init, isGenerator), AliasWrites(t, isGenerator));
    if t == Options {
      // no `data` can follow this last `options`, so `isGenerator` is false
    } else if t == Data && isGenerator {
    } else {
      assert Options in init by {
        var k :| 0 <= k < n && tasks[k] == Options;
        assert init[k] == Options;
      }
      if isGenerator {
        var l :| 0 <= l < n && tasks[l] == Data;
        assert init[l] == Data;
      }
      SelectionByOrder(init, isGenerator);
    }
  }

  /** The strategy installed once `setup` has run. */
  function InstalledAlias(isGenerator: bool): (r: Option<AliasStrategy>)
    ensures r == Some(if isGenerator then GeneratorStrategy else ReadmeStrategy)
  {
    var tasks := Declared[TaskGraph.Setup];
    assert tasks == [Options, Plugins, Middleware, Data];
    assert tasks[0] == Options && tasks[3] == Data;
    SelectionByOrder(tasks, isGenerator);
    CellAfter(WritesInOrder(tasks, isGenerator))
  }

  /** The order matters: were `data` to run before `options`, a generator would
      keep the default strategy. */
  lemma ReversedOrderLosesVariant()
    ensures CellAfter(WritesInOrder([Data, Options], true)) == Some(ReadmeStrategy)
  {
    assert [Data, Options][..1] == [Data];
    assert WritesInOrder([Data], true) == [GeneratorStrategy];
  }

  /** The alias a run computes for `name`. */
  function RunAlias(isGenerator: bool, camel: string -> string, name: string): string
  {
    ToAlias(InstalledAlias(isGenerator).value, camel, name)
  }

  lemma RunAliasByContext(isGenerator: bool, camel: string -> string, name: string)
    ensures isGenerator ==> RunAlias(isGenerator, camel, name) == camel(StripGenerate(name))
    ensures !isGenerator ==> RunAlias(isGenerator, camel, name) == ReadmeAlias(name)
  {
  }
}
