/** Parameter resolution in `create` (lib/hygroscope/cli.rb:83-134) as
    functions of the template's declared parameters, the paramset named with
    `--paramset` (if any), the `--ask` flag and the operator's answers:
    which paramset keys are reported and set aside, which parameters are
    missing, what each prompt offers, which answers are stored, and whether
    saving is offered. */
module Resolution {
  import opened Text
  import opened ParamSets

  /** A YAML scalar as the `NoEcho` attribute may hold it. */
  datatype Scalar = Bool(b: bool) | Str(s: string)

  /** One entry of the template's `Parameters` section; every attribute may
      be absent. */
  datatype ParamDef = ParamDef(
    paramType: Option<string>,
    defaultValue: Option<string>,
    description: Option<string>,
    allowedValues: Option<seq<string>>,
    noEcho: Option<Scalar>)

  /** The template's declared parameters, in declaration order, with the
      definition of each. */
  datatype Template = Template(keys: seq<string>, defs: map<string, ParamDef>)
  {
    ghost predicate Valid() {
      Distinct(keys) && forall k :: k in defs <==> k in keys
    }
  }

  const NoticePrefix := "Keys in paramset not requested by template: "

  // ---------------------------------------------------------------------
  // Paramset keys the template does not declare
  // ---------------------------------------------------------------------

  /** `filtered = pkeys - tkeys`: the paramset keys the template does not
      declare, in the paramset's order; none without a paramset. */
  function FilteredKeys(t: Template, paramset: Option<Entries>): (r: seq<string>)
    ensures forall k :: k in r <==> paramset.Some? && k in paramset.value.keys && k !in t.keys
  {
    if paramset.Some? then Minus(paramset.value.keys, t.keys) else []
  }

  /** `pkeys` after `select`: the paramset keys the template declares, or
      `nil` when no paramset was named. */
  function KeptKeys(t: Template, paramset: Option<Entries>): (r: Option<seq<string>>)
    ensures r.Some? <==> paramset.Some?
    ensures r.Some? ==> forall k :: k in r.value <==> k in paramset.value.keys && k in t.keys
  {
    if paramset.Some? then Some(Keep(paramset.value.keys, t.keys)) else None
  }

  /** The informational notice, emitted exactly when some paramset key is
      not declared, and naming those keys. */
  function Notice(t: Template, paramset: Option<Entries>): (r: Option<string>)
    ensures r.Some? <==> FilteredKeys(t, paramset) != []
    ensures r.Some? ==> r.value == NoticePrefix + Join(FilteredKeys(t, paramset), ", ")
  {
    var filtered := FilteredKeys(t, paramset);
    if filtered == [] then None else Some(NoticePrefix + Join(filtered, ", "))
  }

  /** Filtering moves no key into the template and loses none: every
      paramset key is either kept or reported, never both. */
  lemma FilteringSplitsParamsetKeys(t: Template, ps: Entries)
    ensures multiset(KeptKeys(t, Some(ps)).value) + multiset(FilteredKeys(t, Some(ps))) == multiset(ps.keys)
    ensures forall k :: k in ps.keys ==> (k in KeptKeys(t, Some(ps)).value <==> k !in FilteredKeys(t, Some(ps)))
  {
    KeepMinusPartition(ps.keys, t.keys);
  }

  // ---------------------------------------------------------------------
  // Missing parameters
  // ---------------------------------------------------------------------

  /** `missing`: every declared key with `--ask` or without a paramset;
      otherwise the declared keys the paramset does not hold. */
  function Missing(t: Template, paramset: Option<Entries>, ask: bool): (r: seq<string>)
    ensures forall k :: k in r <==> k in t.keys && (ask || paramset.None? || k !in paramset.value.keys)
    ensures ask || paramset.None? ==> r == t.keys
  {
    match KeptKeys(t, paramset)
    case None => t.keys
    case Some(pkeys) => if ask then t.keys else Minus(t.keys, pkeys)
  }

  lemma {:induction false} SubsequenceOfSelf(a: seq<string>)
    ensures SubsequenceOf(a, a)
  {
    if a != [] {
      SubsequenceOfSelf(a[1..]);
    }
  }

  /** Missing keys come in declaration order, each once. */
  lemma MissingInOrder(t: Template, paramset: Option<Entries>, ask: bool)
    requires t.Valid()
    ensures SubsequenceOf(Missing(t, paramset, ask), t.keys)
    ensures Distinct(Missing(t, paramset, ask))
  {
    SubsequenceOfSelf(t.keys);
    match KeptKeys(t, paramset)
    case None =>
    case Some(pkeys) => MinusOrdered(t.keys, pkeys);
  }

  // ---------------------------------------------------------------------
  // The prompt for one key
  // ---------------------------------------------------------------------

  /** `t.parameters[key]['Default'] || ''` */
  function TemplateDefault(d: ParamDef): string {
    if d.defaultValue.Some? then d.defaultValue.value else ""
  }

  /** The default offered for `key`: the paramset's value when re-asking
      (`--ask`) a key the paramset holds, otherwise the template's default or
      the empty string. This is the corrected reading of cli.rb:109, which
      also covers `--ask` without `--paramset`. */
  function OfferedDefault(t: Template, key: string, ask: bool, paramset: Option<Entries>): (r: string)
    requires t.Valid() && key in t.defs
    requires paramset.Some? ==> paramset.value.Valid()
    ensures ask && paramset.Some? && key in paramset.value.keys ==> paramset.value.Get(key) == Some(r)
    ensures !(ask && paramset.Some? && key in paramset.value.keys) ==> r == TemplateDefault(t.defs[key])
  {
    var kept := KeptKeys(t, paramset);
    if ask && kept.Some? && key in kept.value then paramset.value.values[key]
    else TemplateDefault(t.defs[key])
  }

  /** The failure cli.rb:109 meets as written. */
  datatype Crash = UndefinedMethodForNil(name: string)

  /** cli.rb:109 as written: `options[:ask] && pkeys.include?(key)`. `pkeys`
      is assigned only when a paramset was named, so with `--ask` alone it
      is `nil` and `include?` is called on `nil`. */
  function OfferedDefaultAsWritten(t: Template, key: string, ask: bool, paramset: Option<Entries>): (r: Result<string, Crash>)
    requires t.Valid() && key in t.defs
    requires paramset.Some? ==> paramset.value.Valid()
  {
    if !ask then Ok(TemplateDefault(t.defs[key]))
    else match KeptKeys(t, paramset)
      case None => Err(UndefinedMethodForNil("include?"))
      case Some(pkeys) =>
        Ok(if key in pkeys then paramset.value.values[key] else TemplateDefault(t.defs[key]))
  }

  /** As written, `create --ask` without `--paramset` fails on the first
      declared parameter before prompting for anything, where the evident
      intent (every key is missing, offered with the template's default)
      gives a prompt. */
  lemma AskWithoutParamsetCrashes(t: Template)
    requires t.Valid() && t.keys != []
    ensures t.keys[0] in t.defs && Missing(t, None, true) == t.keys
    ensures OfferedDefaultAsWritten(t, t.keys[0], true, None) == Err(UndefinedMethodForNil("include?"))
    ensures OfferedDefault(t, t.keys[0], true, None) == TemplateDefault(t.defs[t.keys[0]])
  {
    assert t.keys[0] in t.keys;
  }

  /** Everywhere else the code as written and the corrected default agree. */
  lemma OfferedDefaultAgreesAsWritten(t: Template, key: string, ask: bool, paramset: Option<Entries>)
    requires t.Valid() && key in t.defs
    requires paramset.Some? ==> paramset.value.Valid()
    ensures OfferedDefaultAsWritten(t, key, ask, paramset).Err? <==> ask && paramset.None?
    ensures OfferedDefaultAsWritten(t, key, ask, paramset).Ok? ==>
              OfferedDefaultAsWritten(t, key, ask, paramset).value == OfferedDefault(t, key, ask, paramset)
  {
  }

  /** What `ask` is given besides the key: the `options` hash. */
  datatype AskOptions = AskOptions(defaultAnswer: Option<string>, limitedTo: Option<seq<string>>, echo: Option<bool>)

  /** Ruby truthiness: anything but a missing value and `false`. */
  predicate Truthy(v: Option<Scalar>) {
    v.Some? && v.value != Bool(false)
  }

  /** The `options` hash for one key. */
  function OptionsFor(offered: string, d: ParamDef): AskOptions {
    AskOptions(
      if offered == "" then None else Some(offered),
      d.allowedValues,
      if Truthy(d.noEcho) then Some(false) else None)
  }

  /** The line said before the prompt, `"#{description} (#{type})"`, when
      the parameter has a description. */
  function Caption(d: ParamDef): Option<string> {
    match d.description
    case None => None
    case Some(text) => Some(text + " (" + (if d.paramType.Some? then d.paramType.value else "") + ")")
  }

  datatype Prompt = Prompt(key: string, caption: Option<string>, options: AskOptions)

  function PromptFor(t: Template, key: string, ask: bool, paramset: Option<Entries>): Prompt
    requires t.Valid() && key in t.defs
    requires paramset.Some? ==> paramset.value.Valid()
  {
    var d := t.defs[key];
    Prompt(key, Caption(d), OptionsFor(OfferedDefault(t, key, ask, paramset), d))
  }

  /** The prompts for the first `n` keys of `keys`, in order. */
  function FirstPrompts(t: Template, keys: seq<string>, n: nat, ask: bool, paramset: Option<Entries>): (r: seq<Prompt>)
    requires t.Valid() && n <= |keys| && forall k :: k in keys ==> k in t.defs
    requires paramset.Some? ==> paramset.value.Valid()
    ensures |r| == n
  {
    if n == 0 then []
    else
      assert keys[n - 1] in keys;
      FirstPrompts(t, keys, n - 1, ask, paramset) + [PromptFor(t, keys[n - 1], ask, paramset)]
  }

  lemma {:induction false} FirstPromptsAt(t: Template, keys: seq<string>, n: nat, ask: bool, paramset: Option<Entries>, i: nat)
    requires t.Valid() && n <= |keys| && forall k :: k in keys ==> k in t.defs
    requires paramset.Some? ==> paramset.value.Valid()
    requires i < n
    ensures keys[i] in t.defs && FirstPrompts(t, keys, n, ask, paramset)[i] == PromptFor(t, keys[i], ask, paramset)
    decreases n
  {
    assert keys[i] in keys;
    if i < n - 1 {
      FirstPromptsAt(t, keys, n - 1, ask, paramset, i);
    }
  }

  /** One prompt per missing key, in order. */
  function Prompts(t: Template, paramset: Option<Entries>, ask: bool): (r: seq<Prompt>)
    requires t.Valid()
    requires paramset.Some? ==> paramset.value.Valid()
    ensures |r| == |Missing(t, paramset, ask)|
  {
    var m := Missing(t, paramset, ask);
    FirstPrompts(t, m, |m|, ask, paramset)
  }

  /** What each prompt offers: a default only when the offered default is not
      empty, the allowed values only when the template lists them, echo
      switched off only when `NoEcho` is set, and a caption only when there
      is a description. */
  lemma PromptConstraints(t: Template, paramset: Option<Entries>, ask: bool, i: nat)
    requires t.Valid()
    requires paramset.Some? ==> paramset.value.Valid()
    requires i < |Missing(t, paramset, ask)|
    ensures var key := Missing(t, paramset, ask)[i];
      && key in t.defs
      && var p, d, offered := Prompts(t, paramset, ask)[i], t.defs[key], OfferedDefault(t, key, ask, paramset);
      && p.key == key
      && (p.options.defaultAnswer.Some? <==> offered != "")
      && (p.options.defaultAnswer.Some? ==> p.options.defaultAnswer.value == offered)
      && p.options.limitedTo == d.allowedValues
      && (p.options.echo.Some? <==> Truthy(d.noEcho))
      && p.options.echo != Some(true)
      && (p.caption.Some? <==> d.description.Some?)
  {
    var m := Missing(t, paramset, ask);
    FirstPromptsAt(t, m, |m|, ask, paramset, i);
  }

  // ---------------------------------------------------------------------
  // Answers
  // ---------------------------------------------------------------------

  /** `until answer != ''` for one key: the position of the first non-empty
      answer at or after `from`, if there is one. */
  function NextAnswer(answers: seq<string>, from: nat): (r: Option<nat>)
    requires from <= |answers|
    ensures r.Some? ==> from <= r.value < |answers| && answers[r.value] != ""
    decreases |answers| - from
  {
    if from == |answers| then None
    else if answers[from] != "" then Some(from)
    else NextAnswer(answers, from + 1)
  }

  /** The answer found is the first non-empty one: every answer skipped on
      the way is empty, and none is found only when all the rest are empty. */
  lemma {:induction false} NextAnswerSkipsEmpty(answers: seq<string>, from: nat)
    requires from <= |answers|
    ensures var r := NextAnswer(answers, from);
      && (r.Some? ==> forall j :: from <= j < r.value ==> answers[j] == "")
      && (r.None? ==> forall j :: from <= j < |answers| ==> answers[j] == "")
    decreases |answers| - from
  {
    if from < |answers| && answers[from] == "" {
      NextAnswerSkipsEmpty(answers, from + 1);
    }
  }

  /** The answers kept for the first prompts, and how many answers were read. */
  datatype Answered = Answered(chosen: seq<string>, used: nat)

  /** The answers to `n` prompts in turn, each the first non-empty answer
      after the previous one; fewer than `n` if the answers run out. */
  function Collect(answers: seq<string>, n: nat): (r: Answered)
    ensures |r.chosen| <= n && r.used <= |answers|
    decreases n
  {
    if n == 0 then Answered([], 0)
    else
      var a := Collect(answers, n - 1);
      if |a.chosen| < n - 1 then a
      else match NextAnswer(answers, a.used)
        case None => a
        case Some(i) => Answered(a.chosen + [answers[i]], i + 1)
  }

  /** The non-empty answers, in order. */
  function NonEmpty(answers: seq<string>): (r: seq<string>)
    ensures |r| <= |answers|
  {
    if answers == [] then []
    else
      var last := answers[|answers| - 1];
      NonEmpty(answers[..|answers| - 1]) + (if last == "" then [] else [last])
  }

  /** Skipping only empty answers adds nothing. */
  lemma {:induction false} NonEmptySkip(answers: seq<string>, lo: nat, hi: nat)
    requires lo <= hi <= |answers|
    requires forall j :: lo <= j < hi ==> answers[j] == ""
    ensures NonEmpty(answers[..hi]) == NonEmpty(answers[..lo])
    decreases hi
  {
    if hi > lo {
      NonEmptySkip(answers, lo, hi - 1);
      assert answers[..hi][..hi - 1] == answers[..hi - 1];
    }
  }

  /** Skipping empty answers and taking a non-empty one adds just that one. */
  lemma NonEmptyTake(answers: seq<string>, lo: nat, i: nat)
    requires lo <= i < |answers| && answers[i] != ""
    requires forall j :: lo <= j < i ==> answers[j] == ""
    ensures NonEmpty(answers[..i + 1]) == NonEmpty(answers[..lo]) + [answers[i]]
  {
    NonEmptySkip(answers, lo, i);
    assert answers[..i + 1][..i] == answers[..i];
  }

  lemma {:induction false} NonEmptyGrows(answers: seq<string>, k: nat)
    requires k <= |answers|
    ensures |NonEmpty(answers[..k])| <= |NonEmpty(answers)|
    decreases |answers| - k
  {
    if k < |answers| {
      NonEmptyGrows(answers, k + 1);
      assert answers[..k + 1][..k] == answers[..k];
    } else {
      assert answers[..k] == answers;
    }
  }

  /** The answers kept are exactly the non-empty answers read, in order;
      when fewer than `n` are kept, every non-empty answer was used. */
  lemma {:induction false} CollectKeepsNonEmptyAnswers(answers: seq<string>, n: nat)
    ensures var a := Collect(answers, n);
      && NonEmpty(answers[..a.used]) == a.chosen
      && (|a.chosen| < n ==> NonEmpty(answers) == a.chosen)
    decreases n
  {
    if n == 0 {
      assert answers[..0] == [];
    } else {
      CollectKeepsNonEmptyAnswers(answers, n - 1);
      CollectStep(answers, n - 1);
    }
  }

  /** The inductive step of `CollectKeepsNonEmptyAnswers`. */
  lemma CollectStep(answers: seq<string>, m: nat)
    requires var a := Collect(answers, m);
      && NonEmpty(answers[..a.used]) == a.chosen
      && (|a.chosen| < m ==> NonEmpty(answers) == a.chosen)
    ensures var a := Collect(answers, m + 1);
      && NonEmpty(answers[..a.used]) == a.chosen
      && (|a.chosen| < m + 1 ==> NonEmpty(answers) == a.chosen)
  {
    var a := Collect(answers, m);
    if |a.chosen| == m {
      CollectTakes(answers, m);
    } else {
      assert Collect(answers, m + 1) == a;
    }
  }

  /** One more prompt, when every earlier one got its answer. */
  lemma CollectTakes(answers: seq<string>, m: nat)
    requires |Collect(answers, m).chosen| == m
    requires NonEmpty(answers[..Collect(answers, m).used]) == Collect(answers, m).chosen
    ensures var a := Collect(answers, m + 1);
      && NonEmpty(answers[..a.used]) == a.chosen
      && (|a.chosen| < m + 1 ==> NonEmpty(answers) == a.chosen)
  {
    var a := Collect(answers, m);
    CollectNext(answers, m);
    NextAnswerSkipsEmpty(answers, a.used);
    match NextAnswer(answers, a.used)
    case None =>
      NonEmptySkip(answers, a.used, |answers|);
      assert answers[..|answers|] == answers;
    case Some(i) =>
      NonEmptyTake(answers, a.used, i);
  }

  /** One more prompt takes the next non-empty answer, if there is one. */
  lemma CollectNext(answers: seq<string>, n: nat)
    requires |Collect(answers, n).chosen| == n
    ensures var a := Collect(answers, n);
      match NextAnswer(answers, a.used)
      case None => Collect(answers, n + 1) == a
      case Some(j) => Collect(answers, n + 1) == Answered(a.chosen + [answers[j]], j + 1)
  {
  }

  /** The answers run out before every prompt is answered exactly when there
      are fewer non-empty answers than prompts. */
  lemma CollectComplete(answers: seq<string>, n: nat)
    ensures |Collect(answers, n).chosen| == n <==> |NonEmpty(answers)| >= n
  {
    CollectKeepsNonEmptyAnswers(answers, n);
    NonEmptyGrows(answers, Collect(answers, n).used);
  }

  // ---------------------------------------------------------------------
  // The whole resolution
  // ---------------------------------------------------------------------

  /** The operator's answers ran out before `key` got a non-empty one. */
  datatype Stop = NoAnswer(key: string)

  datatype Resolution = Resolution(
    notice: Option<string>,
    missing: seq<string>,
    prompts: seq<Prompt>,
    used: nat,
    entries: Entries)

  /** The paramset `create` starts from: the named one, or an empty one. */
  function Start(paramset: Option<Entries>): Entries {
    if paramset.Some? then paramset.value else NoEntries
  }

  /** Parameter resolution: report the undeclared keys, prompt for each
      missing key in order, store the first non-empty answer for each. */
  function Resolve(t: Template, paramset: Option<Entries>, ask: bool, answers: seq<string>): Result<Resolution, Stop>
    requires t.Valid()
    requires paramset.Some? ==> paramset.value.Valid()
  {
    var m := Missing(t, paramset, ask);
    var a := Collect(answers, |m|);
    if |a.chosen| < |m| then Err(NoAnswer(m[|a.chosen|]))
    else Ok(Resolution(Notice(t, paramset), m, Prompts(t, paramset, ask), a.used,
                       PutAll(Start(paramset), m, a.chosen)))
  }

  /** Resolution fails only for want of non-empty answers, and then names
      the first missing key left unanswered: the one after as many keys as
      there were non-empty answers. */
  lemma ResolveFailsForWantOfAnswers(t: Template, paramset: Option<Entries>, ask: bool, answers: seq<string>)
    requires t.Valid()
    requires paramset.Some? ==> paramset.value.Valid()
    ensures Resolve(t, paramset, ask, answers).Err? <==> |NonEmpty(answers)| < |Missing(t, paramset, ask)|
    ensures Resolve(t, paramset, ask, answers).Err? ==>
              Resolve(t, paramset, ask, answers).error.key in Missing(t, paramset, ask)
    ensures Resolve(t, paramset, ask, answers).Err? ==>
              Resolve(t, paramset, ask, answers).error.key == Missing(t, paramset, ask)[|NonEmpty(answers)|]
  {
    CollectComplete(answers, |Missing(t, paramset, ask)|);
    CollectKeepsNonEmptyAnswers(answers, |Missing(t, paramset, ask)|);
  }

  /** After a resolution: each missing key holds its answer, which is never
      empty, and the answers kept are the non-empty ones read; keys that were
      not missing are untouched; every declared key has a value; and new keys
      are appended in declaration order after the paramset's own. */
  lemma ResolvedParameters(t: Template, paramset: Option<Entries>, ask: bool, answers: seq<string>)
    requires t.Valid()
    requires paramset.Some? ==> paramset.value.Valid()
    requires Resolve(t, paramset, ask, answers).Ok?
    ensures var r := Resolve(t, paramset, ask, answers).value;
      var chosen := NonEmpty(answers[..r.used]);
      && |chosen| == |r.missing|
      && (forall i :: 0 <= i < |r.missing| ==> r.entries.Get(r.missing[i]) == Some(chosen[i]) && chosen[i] != "")
      && (forall k :: k !in r.missing ==> r.entries.Get(k) == Start(paramset).Get(k))
      && (forall k :: k in t.keys ==> r.entries.Get(k).Some?)
      && r.entries.keys == Start(paramset).keys + Minus(r.missing, Start(paramset).keys)
  {
    var r := Resolve(t, paramset, ask, answers).value;
    var a := Collect(answers, |r.missing|);
    CollectKeepsNonEmptyAnswers(answers, |r.missing|);
    MissingInOrder(t, paramset, ask);
    PutAllEffect(Start(paramset), r.missing, a.chosen);
    forall i | 0 <= i < |a.chosen| ensures a.chosen[i] != "" {
      NonEmptyAreNonEmpty(answers[..a.used], i);
    }
    forall k | k in t.keys ensures r.entries.Get(k).Some? {
      if k !in r.missing {
        assert k in paramset.value.keys;
      }
    }
  }

  lemma {:induction false} NonEmptyAreNonEmpty(answers: seq<string>, i: nat)
    requires i < |NonEmpty(answers)|
    ensures NonEmpty(answers)[i] != ""
  {
    var n := |answers| - 1;
    if i < |NonEmpty(answers[..n])| {
      NonEmptyAreNonEmpty(answers[..n], i);
    }
  }

  // ---------------------------------------------------------------------
  // Saving
  // ---------------------------------------------------------------------

  /** The save step: not offered, declined, or saved (after asking for a
      name, offering the stack name as default, when the set has none). */
  datatype SaveStep = NotOffered | Declined | Saved(nameAsked: Option<string>, savedAs: string)

  /** cli.rb:127-133: saving is offered only when something was missing; a
      name is asked for only when no paramset was named. */
  function SaveDecision(missing: seq<string>, paramsetName: Option<string>, stackName: string,
                        confirm: bool, nameAnswer: string): (r: SaveStep)
    ensures r.NotOffered? <==> missing == []
    ensures r.Declined? <==> missing != [] && !confirm
    ensures r.Saved? ==> (r.nameAsked.Some? <==> paramsetName.None?)
    ensures r.Saved? && paramsetName.None? ==> r.nameAsked == Some(stackName) && r.savedAs == nameAnswer
    ensures r.Saved? && paramsetName.Some? ==> r.savedAs == paramsetName.value
  {
    if missing == [] then NotOffered
    else if !confirm then Declined
    else match paramsetName
      case Some(n) => Saved(None, n)
      case None => Saved(Some(stackName), nameAnswer)
  }

  // ---------------------------------------------------------------------
  // Worked cases
  // ---------------------------------------------------------------------

  /** A fresh create with no paramset for a template declaring `Env` (no
      default) and `Size` (default "small"): both are prompted for, in that
      order, only `Size` with a default; two non-empty answers resolve both. */
  lemma FreshCreate(env: string, size: string, dEnv: ParamDef, dSize: ParamDef, a: string, b: string)
    requires env != size && dEnv.defaultValue.None? && dSize.defaultValue == Some("small")
    requires a != "" && b != ""
    ensures var t := Template([env, size], map[env := dEnv, size := dSize]);
      && t.Valid()
      && Missing(t, None, false) == [env, size]
      && Prompts(t, None, false)[0].options.defaultAnswer == None
      && Prompts(t, None, false)[1].options.defaultAnswer == Some("small")
      && Resolve(t, None, false, [a, b]).Ok?
      && Resolve(t, None, false, [a, b]).value.entries == Entries([env, size], map[env := a, size := b])
  {
    var t := Template([env, size], map[env := dEnv, size := dSize]);
    assert t.Valid();
    FirstPromptsAt(t, [env, size], 2, false, None, 0);
    FirstPromptsAt(t, [env, size], 2, false, None, 1);
    FreshCreateAnswers(env, size, a, b);
  }

  lemma FreshCreateAnswers(env: string, size: string, a: string, b: string)
    requires env != size && a != "" && b != ""
    ensures Collect([a, b], 2) == Answered([a, b], 2)
    ensures PutAll(NoEntries, [env, size], [a, b]) == Entries([env, size], map[env := a, size := b])
  {
    TwoAnswers(a, b);
    TwoWrites(env, size, a, b);
  }

  lemma TwoAnswers(a: string, b: string)
    requires a != "" && b != ""
    ensures Collect([a, b], 2) == Answered([a, b], 2)
  {
    var answers := [a, b];
    assert Collect(answers, 0) == Answered([], 0);
    assert NextAnswer(answers, 0) == Some(0);
    CollectNext(answers, 0);
    assert Collect(answers, 1) == Answered([a], 1);
    assert NextAnswer(answers, 1) == Some(1);
    CollectNext(answers, 1);
  }

  lemma TwoWrites(env: string, size: string, a: string, b: string)
    requires env != size
    ensures PutAll(NoEntries, [env, size], [a, b]) == Entries([env, size], map[env := a, size := b])
  {
    assert [env, size][..1] == [env] && [a, b][..1] == [a];
    assert [env][..0] == [] && [a][..0] == [];
    assert PutAll(NoEntries, [], []) == NoEntries;
    var one := PutAll(NoEntries, [env], [a]);
    assert one == NoEntries.Put(env, a);
    assert one == Entries([env], map[env := a]);
  }

  /** A paramset holding `Env` and `Region` for a template declaring only
      `Env`: a notice names `Region`, nothing is prompted for, saving is not
      offered, and the paramset is left as it was (`Region` included). */
  lemma ExtraneousKey(env: string, region: string, d: ParamDef, prod: string, usWest: string, answers: seq<string>)
    requires env != region
    ensures var t := Template([env], map[env := d]);
      var ps := Entries([env, region], map[env := prod, region := usWest]);
      && t.Valid() && ps.Valid()
      && Resolve(t, Some(ps), false, answers) == Ok(Resolution(Some(NoticePrefix + region), [], [], 0, ps))
      && SaveDecision([], Some("set"), "stack", true, "") == NotOffered
  {
    var t := Template([env], map[env := d]);
    var ps := Entries([env, region], map[env := prod, region := usWest]);
    assert ps.keys[1..] == [region] && [region][1..] == [];
    assert Keep([region], t.keys) == [];
    assert Keep(ps.keys, t.keys) == [env];
    assert Minus([region], t.keys) == [region];
    assert Minus(ps.keys, t.keys) == [region];
    assert FilteredKeys(t, Some(ps)) == [region];
    assert Join([region], ", ") == region;
    assert Minus(t.keys, [env]) == [];
  }
}
