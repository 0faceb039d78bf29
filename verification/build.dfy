/** How the build script uses the engine (gulpfile.js): the `templates`
    task builds a new engine on every run, each time from the same
    module-level list `[existJSON.package, {version, license}]`, with
    `unprefixed: true`. */
module Build {
  import opened Wrappers
  import opened Replacements
  import opened Patterns
  import opened Engine

  /** The options of the `templates` task. */
  function TemplatesOptions(replacements: array<Obj>): Options
  {
    Options(Some(Many(replacements)), None, true, true)
  }

  /** Two runs of `templates` in one process, as under `watch`: the first
      merge reverses the shared list, so the second run merges it the other
      way round and the LAST object's values win; the list is then back in
      its original order. */
  method TemplatesTwice(replacements: array<Obj>) returns (first: Engine, second: Engine)
    modifies replacements
    ensures first.mode == Unprefixed && second.mode == Unprefixed
    ensures first.table == FirstWins(old(replacements[..]))
    ensures second.table == LastWins(old(replacements[..]))
    ensures replacements[..] == old(replacements[..])
  {
    var r1 := Create(Some(TemplatesOptions(replacements)));
    ghost var between := replacements[..];
    var r2 := Create(Some(TemplatesOptions(replacements)));
    first, second := r1.value, r2.value;
    ReversedTwice(old(replacements[..]));
    LastWinsOfReversed(between);
  }

  /** Two objects that both define `version`: the first run takes the first
      value, the second run the second. */
  lemma SecondRunFlipsPriority()
    ensures FirstWins([map["version" := "1.0"], map["version" := "2.0"]])["version"] == "1.0"
    ensures LastWins([map["version" := "1.0"], map["version" := "2.0"]])["version"] == "2.0"
  {
    var objs: seq<Obj> := [map["version" := "1.0"], map["version" := "2.0"]];
    assert objs[1..] == [map["version" := "2.0"]];
    assert objs[..1] == [map["version" := "1.0"]];
  }
}
