/** The `create` command's parameter step (lib/hygroscope/cli.rb:83-134) as
    it runs: the prompt loop writes each answer into the ParamSet object as
    it gets it, and the save step may give the set a name. Each run is tied
    to the functions of module `Resolution`, where its properties are
    proved. */
module CreateCommand {
  import opened Text
  import opened ParamSets
  import opened Resolution

  /** `until answer != ''`: reads answers from position `from` on until one
      is not empty, and gives its position; none if the answers run out. */
  method AskUntilAnswered(answers: seq<string>, from: nat) returns (r: Option<nat>)
    requires from <= |answers|
    ensures r == NextAnswer(answers, from)
    ensures r.Some? ==> from <= r.value < |answers| && answers[r.value] != ""
    ensures r.Some? ==> forall j :: from <= j < r.value ==> answers[j] == ""
  {
    var answer := "";
    var i := from;
    while answer == "" && i < |answers|
      invariant from <= i <= |answers|
      invariant answer == "" ==> NextAnswer(answers, from) == NextAnswer(answers, i)
      invariant answer != "" ==> from < i && answers[i - 1] == answer && NextAnswer(answers, from) == Some(i - 1)
      decreases |answers| - i
    {
      answer := answers[i];
      i := i + 1;
    }
    NextAnswerSkipsEmpty(answers, from);
    if answer == "" {
      return None;
    }
    return Some(i - 1);
  }

  /** Once the answers have run out, asking for more prompts changes nothing. */
  lemma {:induction false} CollectStuck(answers: seq<string>, n: nat, m: nat)
    requires n <= m && |Collect(answers, n).chosen| < n
    ensures Collect(answers, m) == Collect(answers, n)
    decreases m
  {
    if m > n {
      CollectStuck(answers, n, m - 1);
    }
  }

  /** Writing one more key extends the writes so far. */
  lemma PutAllStep(e: Entries, ks: seq<string>, vs: seq<string>, v: string)
    requires e.Valid() && |vs| < |ks|
    ensures PutAll(e, ks[..|vs| + 1], vs + [v]) == PutAll(e, ks[..|vs|], vs).Put(ks[|vs|], v)
  {
    var n := |vs|;
    assert ks[..n + 1][..n] == ks[..n];
    assert (vs + [v])[..n] == vs;
  }

  /** The paramset `create` starts from: the one named with `--paramset` as
      loaded, or none. */
  function Loaded(paramsetName: Option<string>, entries: Entries): Option<Entries> {
    if paramsetName.Some? then Some(entries) else None
  }

  /** What `create` showed and decided in its parameter step. */
  datatype Outcome = Outcome(notice: Option<string>, prompts: seq<Prompt>, save: SaveStep)

  /** `options = {}` filled in field by field: a default only when the
      offered one is not empty, the allowed values when the template lists
      any, echo switched off when `NoEcho` is truthy. */
  method BuildOptions(offered: string, d: ParamDef) returns (o: AskOptions)
    ensures o == OptionsFor(offered, d)
    ensures o.defaultAnswer.Some? <==> offered != ""
    ensures o.echo != Some(true)
  {
    o := AskOptions(None, None, None);
    if offered != "" {
      o := o.(defaultAnswer := Some(offered));
    }
    if d.allowedValues.Some? {
      o := o.(limitedTo := d.allowedValues);
    }
    if Truthy(d.noEcho) {
      o := o.(echo := Some(false));
    }
  }

  /** One pass of `missing.each`: the prompt for `key` is made, answers are
      read from position `from` until one is not empty, and that answer is
      set in `p`; `p` is left as it was if the answers run out. */
  method AskFor(t: Template, key: string, ask: bool, loaded: Option<Entries>,
                p: ParamSet, answers: seq<string>, from: nat)
    returns (prompt: Prompt, next: Option<nat>)
    requires t.Valid() && p.Valid() && key in t.defs && from <= |answers|
    requires loaded.Some? ==> loaded.value.Valid()
    modifies p
    ensures p.Valid() && p.name == old(p.name)
    ensures prompt == PromptFor(t, key, ask, loaded)
    ensures next == NextAnswer(answers, from)
    ensures next.None? ==> p.entries == old(p.entries)
    ensures next.Some? ==> p.entries == old(p.entries).Put(key, answers[next.value])
  {
    var d := t.defs[key];
    var options := BuildOptions(OfferedDefault(t, key, ask, loaded), d);
    prompt := Prompt(key, Caption(d), options);
    next := AskUntilAnswered(answers, from);
    if next.Some? {
      p.Set(key, answers[next.value]);
    }
  }

  /** `missing.each`: each key in turn is prompted for and its first
      non-empty answer is set in `p` at once. If the answers run out, `p`
      holds the answers given so far and the key left unanswered is named. */
  method PromptMissing(t: Template, loaded: Option<Entries>, ask: bool, missing: seq<string>,
                       p: ParamSet, answers: seq<string>)
    returns (stop: Option<Stop>)
    requires t.Valid() && p.Valid() && forall j :: 0 <= j < |missing| ==> missing[j] in t.defs
    requires loaded.Some? ==> loaded.value.Valid()
    modifies p
    ensures p.Valid() && p.name == old(p.name)
    ensures var c := Collect(answers, |missing|);
      && (stop.Some? <==> |c.chosen| < |missing|)
      && (stop.Some? ==> |c.chosen| < |missing| && stop.value == NoAnswer(missing[|c.chosen|])
                         && p.entries == PutAll(old(p.entries), missing[..|c.chosen|], c.chosen))
      && (stop.None? ==> |c.chosen| == |missing| && p.entries == PutAll(old(p.entries), missing, c.chosen))
  {
    ghost var start := p.entries;
    var used: nat := 0;
    ghost var chosen: seq<string> := [];
    var i := 0;
    while i < |missing|
      invariant 0 <= i <= |missing| && used <= |answers|
      invariant p.Valid() && p.name == old(p.name)
      invariant Collect(answers, i) == Answered(chosen, used) && |chosen| == i
      invariant p.entries == PutAll(start, missing[..i], chosen)
    {
      var key := missing[i];
      var prompt, next := AskFor(t, key, ask, loaded, p, answers, used);
      CollectNext(answers, i);
      if next.None? {
        CollectStuck(answers, i + 1, |missing|);
        return Some(NoAnswer(key));
      }
      var answer := answers[next.value];
      PutAllStep(start, missing, chosen, answer);
      chosen := chosen + [answer];
      used := next.value + 1;
      i := i + 1;
    }
    assert missing[..i] == missing;
    return None;
  }

  /** The parameter step of `create` on the ParamSet `p` made from
      `--paramset` (`paramsetName`): the undeclared paramset keys are
      reported, the missing keys are prompted for and set in `p`, and saving
      is then offered when something was missing; a set without a name is
      named after asking, with the stack name offered as default. */
  method Create(t: Template, paramsetName: Option<string>, p: ParamSet, ask: bool, stackName: string,
                answers: seq<string>, confirm: bool, nameAnswer: string)
    returns (r: Result<Outcome, Stop>)
    requires t.Valid() && p.Valid()
    requires p.name == paramsetName
    requires paramsetName.None? ==> p.entries == NoEntries
    modifies p
    ensures p.Valid()
    ensures var loaded := Loaded(paramsetName, old(p.entries));
      var res := Resolve(t, loaded, ask, answers);
      && (r.Err? <==> res.Err?)
      && (r.Err? ==>
            var missing, c := Missing(t, loaded, ask), Collect(answers, |Missing(t, loaded, ask)|);
            && r.error == res.error
            && |c.chosen| < |missing|
            && p.entries == PutAll(old(p.entries), missing[..|c.chosen|], c.chosen)
            && p.name == old(p.name))
      && (r.Ok? ==>
            && p.entries == res.value.entries
            && r.value.notice == res.value.notice
            && r.value.prompts == res.value.prompts
            && r.value.save == SaveDecision(res.value.missing, paramsetName, stackName, confirm, nameAnswer)
            && p.name == (if r.value.save.Saved? then Some(r.value.save.savedAs) else paramsetName))
  {
    var loaded := Loaded(paramsetName, p.entries);
    assert Start(loaded) == p.entries;
    var notice := Notice(t, loaded);
    var missing := Missing(t, loaded, ask);
    var stop := PromptMissing(t, loaded, ask, missing, p, answers);
    if stop.Some? {
      return Err(stop.value);
    }

    var save: SaveStep;
    if missing == [] {
      save := NotOffered;
    } else if !confirm {
      save := Declined;
    } else if paramsetName.Some? {
      save := Saved(None, paramsetName.value);
    } else {
      p.SetName(nameAnswer);
      save := Saved(Some(stackName), nameAnswer);
    }
    return Ok(Outcome(notice, Prompts(t, loaded, ask), save));
  }
}
