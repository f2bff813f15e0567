/** crates/ostrom-core/src/operation.rs, lines 1-391: which operations policy may declare, and what
    may flow from a caller's parameters into the actions of their steps. */
module Operations {
  import opened Wrappers
  import opened Values

  datatype Sink = Content | Command | Data

  datatype ActionParameter = ActionParameter(name: string, required: bool, sink: Sink, callerSupplied: bool)

  datatype Action = Action(uses: string, ungrantable: bool, guarded: bool, parameters: seq<ActionParameter>)

  const AGENT_PARAMETERS := [
    ActionParameter("prompt", true, Content, true),
    ActionParameter("model", false, Data, true)]
  const NOTE_PARAMETERS := [ActionParameter("note", true, Content, true)]
  const MERGE_PARAMETERS := [ActionParameter("method", false, Command, true)]
  const TAG_PARAMETERS := [
    ActionParameter("name", true, Command, true),
    ActionParameter("message", false, Content, true)]
  const COMMAND_PARAMETERS := [
    ActionParameter("script", true, Command, false),
    ActionParameter("timeout", false, Data, true)]

  // The closed catalogue; the last action is listed only to be refused.
  const CATALOGUE := [
    Action("agent/claude", false, false, AGENT_PARAMETERS),
    Action("gh/post-verdict", false, false, NOTE_PARAMETERS),
    Action("gh/merge-pr", false, true, MERGE_PARAMETERS),
    Action("git/tag", false, true, TAG_PARAMETERS),
    Action("cmd/run", false, false, COMMAND_PARAMETERS),
    Action("sys/enable-loop", true, false, [])]

  function FindAction(actions: seq<Action>, uses: string): (r: Option<Action>)
    ensures r.Some? ==> r.value in actions && r.value.uses == uses
    ensures r.None? ==> forall a :: a in actions ==> a.uses != uses
  {
    if actions == [] then None
    else if actions[0].uses == uses then Some(actions[0])
    else FindAction(actions[1..], uses)
  }

  datatype ParamType = Markdown | Semver | Enum

  datatype ParamDecl = ParamDecl(kind: ParamType, values: seq<string>, defaultValue: Option<Value>)

  datatype Step = Step(uses: string, parameters: map<string, Value>, guards: seq<string>)

  datatype Operation = Operation(params: map<string, ParamDecl>, steps: seq<Step>)

  // The action catalogue, and the tests of single values that belong to the policy types.
  datatype Rules = Rules(catalogue: seq<Action>, validDecl: ParamDecl -> bool, agentParameters: map<string, Value> -> bool)

  datatype Fault =
    | InvalidParam(name: string)
    | UnknownAction(step: nat)
    | UngrantableAction(step: nat)
    | MissingGuard(step: nat)
    | UnknownActionParameter(parameter: string)
    | MissingActionParameter(parameter: string)
    | InvalidParamReference(text: string)
    | UnknownParamReference(name: string)
    | CallerSuppliedActionParameter(parameter: string)
    | MarkdownCommandFlow(name: string, parameter: string)
    | InvalidAgentParameters(step: nat)

  // ---- What is accepted ----

  predicate ValidParamName(name: string) {
    name != "" && forall c :: c in name ==> 'a' <= c <= 'z' || '0' <= c <= '9' || c == '_'
  }

  // The param is declared, the action parameter may be supplied, and no markdown goes to a command.
  predicate MayFlow(op: Operation, parameter: ActionParameter, name: string) {
    && name in op.params
    && parameter.callerSupplied
    && !(op.params[name].kind == Markdown && parameter.sink == Command)
  }

  predicate FlowAccepted(op: Operation, parameter: ActionParameter, value: Value) {
    WellFormed(value) && forall name :: name in Refs(value) ==> MayFlow(op, parameter, name)
  }

  predicate ParametersAccepted(op: Operation, action: Action, parameters: map<string, Value>) {
    && (forall key :: key in parameters ==> exists p :: p in action.parameters && p.name == key)
    && (forall p :: p in action.parameters && p.required ==> p.name in parameters)
    && (forall p :: p in action.parameters && p.name in parameters ==> FlowAccepted(op, p, parameters[p.name]))
  }

  predicate StepAccepted(rules: Rules, op: Operation, step: Step) {
    var found := FindAction(rules.catalogue, step.uses);
    && found.Some?
    && !found.value.ungrantable
    && (found.value.guarded ==> step.guards != [])
    && ParametersAccepted(op, found.value, step.parameters)
    && (found.value.uses == "agent/claude" ==> rules.agentParameters(step.parameters))
  }

  predicate Accepted(rules: Rules, op: Operation) {
    && (forall name :: name in op.params ==> ValidParamName(name) && rules.validDecl(op.params[name]))
    && forall step :: step in op.steps ==> StepAccepted(rules, op, step)
  }

  // ---- The validators ----

  method ValidateReferences(op: Operation, parameter: ActionParameter, references: set<string>) returns (r: Result<(), Fault>)
    ensures r.Ok? <==> forall x :: x in references ==> MayFlow(op, parameter, x)
  {
    var left := references;
    while left != {}
      invariant left <= references
      invariant forall x :: x in references && x !in left ==> MayFlow(op, parameter, x)
      decreases left
    {
      var x :| x in left;
      left := left - {x};
      if x !in op.params {
        return Err(UnknownParamReference(x));
      }
      if !parameter.callerSupplied {
        return Err(CallerSuppliedActionParameter(parameter.name));
      }
      if op.params[x].kind == Markdown && parameter.sink == Command {
        return Err(MarkdownCommandFlow(x, parameter.name));
      }
    }
    r := Ok(());
  }

  method ValidateParameters(op: Operation, action: Action, parameters: map<string, Value>) returns (r: Result<(), Fault>)
    ensures r.Ok? <==> ParametersAccepted(op, action, parameters)
  {
    var left := parameters.Keys;
    while left != {}
      invariant left <= parameters.Keys
      invariant forall key :: key in parameters && key !in left ==> exists p :: p in action.parameters && p.name == key
      decreases left
    {
      var key :| key in left;
      left := left - {key};
      if !exists p :: p in action.parameters && p.name == key {
        return Err(UnknownActionParameter(key));
      }
    }
    for k := 0 to |action.parameters|
      invariant forall p :: p in action.parameters[..k] && p.required ==> p.name in parameters
      invariant forall p :: p in action.parameters[..k] && p.name in parameters ==> FlowAccepted(op, p, parameters[p.name])
    {
      var parameter := action.parameters[k];
      assert parameter in action.parameters;
      if parameter.name !in parameters {
        if parameter.required {
          return Err(MissingActionParameter(parameter.name));
        }
      } else {
        var collected, references := CollectReferences(parameters[parameter.name], {});
        if collected.Err? {
          return Err(InvalidParamReference(collected.error));
        }
        r := ValidateReferences(op, parameter, references);
        if r.Err? {
          return;
        }
      }
    }
    r := Ok(());
  }

  method ValidateParams(rules: Rules, op: Operation) returns (r: Result<(), Fault>)
    ensures r.Ok? <==> forall name :: name in op.params ==> ValidParamName(name) && rules.validDecl(op.params[name])
  {
    var left := op.params.Keys;
    while left != {}
      invariant left <= op.params.Keys
      invariant forall name :: name in op.params && name !in left ==> ValidParamName(name) && rules.validDecl(op.params[name])
      decreases left
    {
      var name :| name in left;
      left := left - {name};
      if !ValidParamName(name) || !rules.validDecl(op.params[name]) {
        return Err(InvalidParam(name));
      }
    }
    r := Ok(());
  }

  method ValidateStep(rules: Rules, op: Operation, index: nat) returns (r: Result<(), Fault>)
    requires index < |op.steps|
    ensures r.Ok? <==> StepAccepted(rules, op, op.steps[index])
  {
    var step := op.steps[index];
    var found := FindAction(rules.catalogue, step.uses);
    if found.None? {
      return Err(UnknownAction(index));
    }
    if found.value.ungrantable {
      return Err(UngrantableAction(index));
    }
    if found.value.guarded && step.guards == [] {
      return Err(MissingGuard(index));
    }
    r := ValidateParameters(op, found.value, step.parameters);
    if r.Ok? && found.value.uses == "agent/claude" && !rules.agentParameters(step.parameters) {
      return Err(InvalidAgentParameters(index));
    }
  }

  /** Accepts exactly the operations whose params and steps are in order. */
  method ValidateOperation(rules: Rules, op: Operation) returns (r: Result<(), Fault>)
    ensures r.Ok? <==> Accepted(rules, op)
  {
    r := ValidateParams(rules, op);
    if r.Err? {
      return;
    }
    for index := 0 to |op.steps|
      invariant forall k :: 0 <= k < index ==> StepAccepted(rules, op, op.steps[k])
    {
      r := ValidateStep(rules, op, index);
      if r.Err? {
        assert op.steps[index] in op.steps;
        return;
      }
    }
    r := Ok(());
  }

  // ---- What acceptance guarantees of the later substitution ----

  // The step passes this value to this parameter of its action.
  predicate Passes(rules: Rules, step: Step, parameter: ActionParameter) {
    var found := FindAction(rules.catalogue, step.uses);
    found.Some? && parameter in found.value.parameters && parameter.name in step.parameters
  }

  predicate AgreeExceptMarkdown(op: Operation, a: Supplied, b: Supplied) {
    forall n :: n in op.params && op.params[n].kind != Markdown ==> Agree({n}, a, b)
  }

  /** Free text never decides a command: two invocations that agree on all params but markdown
      resolve every command parameter alike. */
  lemma MarkdownNeverReachesCommands(rules: Rules, op: Operation, step: Step, parameter: ActionParameter, a: Supplied, b: Supplied)
    requires Accepted(rules, op) && step in op.steps && Passes(rules, step, parameter)
    requires parameter.sink == Command && Untagged(step.parameters[parameter.name])
    requires AgreeExceptMarkdown(op, a, b)
    ensures Resolve(step.parameters[parameter.name], a) == Resolve(step.parameters[parameter.name], b)
  {
    var value := step.parameters[parameter.name];
    assert StepAccepted(rules, op, step);
    assert FlowAccepted(op, parameter, value);
    UntaggedRefs(value);
    assert forall n :: n in Refs(value) ==> Agree({n}, a, b);
    assert forall n :: n in AllRefs(value) ==> n in {n};
    ResolveDependsOnRefs(value, a, b);
  }

  // What the flags of an invocation bind: exactly the declared params, each to a string or to its
  // declared default.
  predicate Invocation(params: map<string, ParamDecl>, supplied: Supplied) {
    && supplied.Keys == params.Keys
    && forall n :: n in params ==> supplied[n].String? || params[n].defaultValue == Some(supplied[n])
  }

  // Another invocation differs from `a` in markdown only and resolves the value to something else.
  ghost predicate DecidedByMarkdown(op: Operation, value: Value, a: Supplied) {
    exists b :: Invocation(op.params, b) && AgreeExceptMarkdown(op, a, b) && Resolve(value, a) != Resolve(value, b)
  }

  // Every reference is declared, and one behind a tag is to markdown.
  predicate MarkdownBehindTag(op: Operation, value: Value) {
    && AllRefs(value) <= op.params.Keys
    && exists n :: n in AllRefs(value) - Refs(value) && n in op.params && op.params[n].kind == Markdown
  }

  /** Markdown decides a command parameter only behind a tag. Where keys of mappings are plain, it
      does exactly there: for every invocation there is another that differs in that text alone. */
  lemma MarkdownDecidesExactlyBehindTags(rules: Rules, op: Operation, step: Step, parameter: ActionParameter, a: Supplied)
    requires Accepted(rules, op) && step in op.steps && Passes(rules, step, parameter)
    requires parameter.sink == Command && Invocation(op.params, a)
    ensures var value := step.parameters[parameter.name];
      && (DecidedByMarkdown(op, value, a) ==> MarkdownBehindTag(op, value))
      && (StableKeys(value) ==> (DecidedByMarkdown(op, value, a) <==> MarkdownBehindTag(op, value)))
  {
    var value := step.parameters[parameter.name];
    assert StepAccepted(rules, op, step);
    assert FlowAccepted(op, parameter, value);
    assert forall n :: n in Refs(value) ==> n in op.params && op.params[n].kind != Markdown;
    ResolveSucceeds(value, a);
    if MarkdownBehindTag(op, value) {
      var n :| n in AllRefs(value) - Refs(value) && n in op.params && op.params[n].kind == Markdown;
      if StableKeys(value) {
        OtherMarkdownDecides(op, value, a, n);
      }
    } else {
      forall b | Invocation(op.params, b) && AgreeExceptMarkdown(op, a, b)
        ensures Resolve(value, a) == Resolve(value, b)
      {
        OnlyMarkdownDecides(op, value, a, b);
      }
    }
  }

  lemma OtherMarkdownDecides(op: Operation, value: Value, a: Supplied, n: string)
    requires Invocation(op.params, a) && AllRefs(value) <= op.params.Keys && StableKeys(value)
    requires n in AllRefs(value) && n in op.params && op.params[n].kind == Markdown
    ensures DecidedByMarkdown(op, value, a)
  {
    var b := a[n := String(if a[n] == String("") then "x" else "")];
    OtherText(op, a, b, n);
    ResolveSucceeds(value, a);
    ResolveSucceeds(value, b);
    ResolveTells(value, a, b, n);
  }

  lemma OtherText(op: Operation, a: Supplied, b: Supplied, n: string)
    requires Invocation(op.params, a) && n in op.params && op.params[n].kind == Markdown
    requires n in b && b[n].String? && b == a[n := b[n]]
    ensures Invocation(op.params, b) && AgreeExceptMarkdown(op, a, b)
  {
  }

  lemma OnlyMarkdownDecides(op: Operation, value: Value, a: Supplied, b: Supplied)
    requires Invocation(op.params, a) && Invocation(op.params, b) && AgreeExceptMarkdown(op, a, b)
    requires AllRefs(value) <= op.params.Keys ==>
               forall n :: n in AllRefs(value) ==> op.params[n].kind != Markdown
    ensures Resolve(value, a) == Resolve(value, b)
  {
    ResolveSucceeds(value, a);
    if AllRefs(value) <= op.params.Keys {
      forall n | n in AllRefs(value)
        ensures Agree({n}, a, b)
      {
      }
      assert forall n :: n in AllRefs(value) ==> n in {n};
      ResolveDependsOnRefs(value, a, b);
    } else {
      SameKeysSameError(value, a, b);
    }
  }

  /** A parameter that callers may not supply resolves to exactly what policy wrote if and only if
      each tagged part is supplied as it stands. Without tags it always does, and with tags it never
      does unless a default carries the tag: flags supply plain strings. */
  lemma AuthoredParameterStaysExactly(rules: Rules, op: Operation, step: Step, parameter: ActionParameter, supplied: Supplied)
    requires Accepted(rules, op) && step in op.steps && Passes(rules, step, parameter)
    requires !parameter.callerSupplied && DistinctKeys(step.parameters[parameter.name])
    ensures var value := step.parameters[parameter.name];
      && (Resolve(value, supplied) == Ok(value) <==> SuppliedAsIs(value, supplied))
      && (Untagged(value) ==> Resolve(value, supplied) == Ok(value))
      && (Invocation(op.params, supplied) && UntaggedDefaults(op) ==> (Resolve(value, supplied) == Ok(value) <==> Untagged(value)))
  {
    var value := step.parameters[parameter.name];
    assert StepAccepted(rules, op, step);
    assert FlowAccepted(op, parameter, value);
    assert Refs(value) == {};
    AuthoredStaysExactly(value, supplied);
  }

  predicate UntaggedDefaults(op: Operation) {
    forall n :: n in op.params && op.params[n].defaultValue.Some? ==> Untagged(op.params[n].defaultValue.value)
  }

  // The check does not look behind a tag, and the substitution does.
  lemma TagHidesReference(op: Operation, parameter: ActionParameter, tag: string, name: string, supplied: Supplied)
    requires name in supplied
    ensures var value := Tagged(tag, String(PREFIX + name));
      FlowAccepted(op, parameter, value) && Resolve(value, supplied) == Ok(supplied[name])
  {
    var s := PREFIX + name;
    assert s[|PREFIX|..] == name && PREFIX <= s;
    assert Resolve(Tagged(tag, String(s)), supplied) == Resolve(String(s), supplied);
  }

  /** Once every declared param is bound, no step meets a missing one. */
  lemma AcceptedStepsResolve(rules: Rules, op: Operation, step: Step, parameter: ActionParameter, supplied: Supplied)
    requires Accepted(rules, op) && step in op.steps && Passes(rules, step, parameter)
    requires Untagged(step.parameters[parameter.name]) && op.params.Keys <= supplied.Keys
    ensures Resolve(step.parameters[parameter.name], supplied).Ok?
  {
    var value := step.parameters[parameter.name];
    assert StepAccepted(rules, op, step);
    assert FlowAccepted(op, parameter, value);
    UntaggedRefs(value);
    ResolveSucceeds(value, supplied);
  }

  /** The script of `cmd/run` is the authored one in every invocation. */
  lemma ScriptIsAuthored(rules: Rules, op: Operation, step: Step, supplied: Supplied)
    requires rules.catalogue == CATALOGUE
    requires Accepted(rules, op) && step in op.steps && step.uses == "cmd/run"
    ensures "script" in step.parameters
    ensures var script := step.parameters["script"];
      DistinctKeys(script) && Untagged(script) ==> Resolve(script, supplied) == Ok(script)
  {
    assert StepAccepted(rules, op, step);
    var script := ActionParameter("script", true, Command, false);
    FindCommand();
    assert script in COMMAND_PARAMETERS;
    if DistinctKeys(step.parameters["script"]) {
      AuthoredParameterStaysExactly(rules, op, step, script, supplied);
    }
  }

  lemma {:induction false} FindSkips(actions: seq<Action>, uses: string, n: nat)
    requires n <= |actions| && forall i :: 0 <= i < n ==> actions[i].uses != uses
    ensures FindAction(actions, uses) == FindAction(actions[n..], uses)
  {
    if n > 0 {
      FindSkips(actions[1..], uses, n - 1);
      assert actions[1..][n - 1..] == actions[n..];
    }
  }

  lemma FindCommand()
    ensures FindAction(CATALOGUE, "cmd/run") == Some(Action("cmd/run", false, false, COMMAND_PARAMETERS))
  {
    assert "agent/claude"[0] != "cmd/run"[0] && "git/tag"[0] != "cmd/run"[0];
    assert "gh/post-verdict"[0] != "cmd/run"[0] && "gh/merge-pr"[0] != "cmd/run"[0];
    FindSkips(CATALOGUE, "cmd/run", 4);
  }

  // ---- What the catalogue lets a step do ----

  lemma {:induction false} FindAt(actions: seq<Action>, uses: string, n: nat)
    requires n < |actions| && actions[n].uses == uses && forall i :: 0 <= i < n ==> actions[i].uses != uses
    ensures FindAction(actions, uses) == Some(actions[n])
  {
    FindSkips(actions, uses, n);
  }

  // Under each name the catalogue has its own action.
  lemma CatalogueFinds(uses: string)
    ensures uses == "agent/claude" ==> FindAction(CATALOGUE, uses) == Some(CATALOGUE[0])
    ensures uses == "gh/post-verdict" ==> FindAction(CATALOGUE, uses) == Some(CATALOGUE[1])
    ensures uses == "gh/merge-pr" ==> FindAction(CATALOGUE, uses) == Some(CATALOGUE[2])
    ensures uses == "git/tag" ==> FindAction(CATALOGUE, uses) == Some(CATALOGUE[3])
    ensures uses == "sys/enable-loop" ==> FindAction(CATALOGUE, uses) == Some(CATALOGUE[5])
  {
    assert "gh/post-verdict"[0] != "agent/claude"[0] && "gh/merge-pr"[0] != "agent/claude"[0];
    assert "git/tag"[0] != "agent/claude"[0] && "sys/enable-loop"[0] != "agent/claude"[0];
    assert "gh/merge-pr"[3] != "gh/post-verdict"[3] && "git/tag"[1] != "gh/post-verdict"[1] && "git/tag"[1] != "gh/merge-pr"[1];
    assert "sys/enable-loop"[0] != "gh/post-verdict"[0] && "sys/enable-loop"[0] != "gh/merge-pr"[0];
    assert "sys/enable-loop"[0] != "git/tag"[0] && "sys/enable-loop"[0] != "cmd/run"[0];
    if uses == "agent/claude" {
      FindAt(CATALOGUE, uses, 0);
    } else if uses == "gh/post-verdict" {
      FindAt(CATALOGUE, uses, 1);
    } else if uses == "gh/merge-pr" {
      FindAt(CATALOGUE, uses, 2);
    } else if uses == "git/tag" {
      FindAt(CATALOGUE, uses, 3);
    } else if uses == "sys/enable-loop" {
      FindAt(CATALOGUE, uses, 5);
    }
  }

  lemma GrantableNames(a: Action)
    requires a in CATALOGUE && !a.ungrantable
    ensures a.uses in ["agent/claude", "gh/post-verdict", "gh/merge-pr", "git/tag", "cmd/run"]
  {
  }

  // The actions that change a repository for good are guarded.
  lemma GuardedNames(uses: string)
    requires uses in ["gh/merge-pr", "git/tag"]
    ensures FindAction(CATALOGUE, uses).Some? && FindAction(CATALOGUE, uses).value.guarded
  {
    CatalogueFinds(uses);
  }

  /** At any position of an operation an action that is outside the catalogue or not grantable is refused, and merging
      and tagging need a guard. */
  lemma AcceptedActionsAreGrantable(rules: Rules, op: Operation, step: Step)
    requires rules.catalogue == CATALOGUE && Accepted(rules, op) && step in op.steps
    ensures step.uses in ["agent/claude", "gh/post-verdict", "gh/merge-pr", "git/tag", "cmd/run"]
    ensures step.uses in ["gh/merge-pr", "git/tag"] ==> step.guards != []
    ensures step.uses == "agent/claude" ==> rules.agentParameters(step.parameters)
  {
    assert StepAccepted(rules, op, step);
    GrantableNames(FindAction(CATALOGUE, step.uses).value);
    if step.uses in ["gh/merge-pr", "git/tag"] {
      GuardedNames(step.uses);
    }
  }

  // Every declared param has a plain lower-case name and a declaration in order.
  lemma AcceptedParamsAreValid(rules: Rules, op: Operation, name: string)
    requires Accepted(rules, op) && name in op.params
    ensures name != "" && rules.validDecl(op.params[name])
    ensures forall i :: 0 <= i < |name| ==> name[i] == '_' || 'a' <= name[i] <= 'z' || '0' <= name[i] <= '9'
  {
    assert forall i :: 0 <= i < |name| ==> name[i] in name;
  }

  lemma KeysExactly(op: Operation, a: Action, parameters: map<string, Value>, required: set<string>, optional: set<string>)
    requires ParametersAccepted(op, a, parameters)
    requires forall p :: p in a.parameters ==> p.name in (if p.required then required else optional)
    requires forall n :: n in required ==> exists p :: p in a.parameters && p.required && p.name == n
    ensures required <= parameters.Keys <= required + optional
  {
    forall n | n in required
      ensures n in parameters
    {
      var p :| p in a.parameters && p.required && p.name == n;
    }
    forall key | key in parameters
      ensures key in required + optional
    {
      var p :| p in a.parameters && p.name == key;
    }
  }

  lemma AgentKeys(op: Operation, a: Action, parameters: map<string, Value>)
    requires ParametersAccepted(op, a, parameters) && a.parameters == AGENT_PARAMETERS
    ensures {"prompt"} <= parameters.Keys <= {"prompt", "model"}
  {
    assert AGENT_PARAMETERS[0] in a.parameters;
    KeysExactly(op, a, parameters, {"prompt"}, {"model"});
  }

  lemma NoteKeys(op: Operation, a: Action, parameters: map<string, Value>)
    requires ParametersAccepted(op, a, parameters) && a.parameters == NOTE_PARAMETERS
    ensures parameters.Keys == {"note"}
  {
    assert NOTE_PARAMETERS[0] in a.parameters;
    KeysExactly(op, a, parameters, {"note"}, {});
  }

  lemma MergeKeys(op: Operation, a: Action, parameters: map<string, Value>)
    requires ParametersAccepted(op, a, parameters) && a.parameters == MERGE_PARAMETERS
    ensures parameters.Keys <= {"method"}
  {
    KeysExactly(op, a, parameters, {}, {"method"});
  }

  lemma TagKeys(op: Operation, a: Action, parameters: map<string, Value>)
    requires ParametersAccepted(op, a, parameters) && a.parameters == TAG_PARAMETERS
    ensures {"name"} <= parameters.Keys <= {"name", "message"}
  {
    assert TAG_PARAMETERS[0] in a.parameters;
    KeysExactly(op, a, parameters, {"name"}, {"message"});
  }

  lemma CommandKeys(op: Operation, a: Action, parameters: map<string, Value>)
    requires ParametersAccepted(op, a, parameters) && a.parameters == COMMAND_PARAMETERS
    ensures {"script"} <= parameters.Keys <= {"script", "timeout"}
  {
    assert COMMAND_PARAMETERS[0] in a.parameters;
    KeysExactly(op, a, parameters, {"script"}, {"timeout"});
  }

  /** Each action gets every parameter it requires, and none it does not know. */
  lemma AcceptedParametersAreKnown(rules: Rules, op: Operation, step: Step)
    requires rules.catalogue == CATALOGUE && Accepted(rules, op) && step in op.steps
    ensures step.uses == "agent/claude" ==> {"prompt"} <= step.parameters.Keys <= {"prompt", "model"}
    ensures step.uses == "gh/post-verdict" ==> step.parameters.Keys == {"note"}
    ensures step.uses == "gh/merge-pr" ==> step.parameters.Keys <= {"method"}
    ensures step.uses == "git/tag" ==> {"name"} <= step.parameters.Keys <= {"name", "message"}
    ensures step.uses == "cmd/run" ==> {"script"} <= step.parameters.Keys <= {"script", "timeout"}
  {
    assert StepAccepted(rules, op, step);
    CatalogueFinds(step.uses);
    FindCommand();
    var a := FindAction(CATALOGUE, step.uses).value;
    if step.uses == "agent/claude" {
      AgentKeys(op, a, step.parameters);
    }
    if step.uses == "gh/post-verdict" {
      NoteKeys(op, a, step.parameters);
    }
    if step.uses == "gh/merge-pr" {
      MergeKeys(op, a, step.parameters);
    }
    if step.uses == "git/tag" {
      TagKeys(op, a, step.parameters);
    }
    if step.uses == "cmd/run" {
      CommandKeys(op, a, step.parameters);
    }
  }

  /** A param that may be declared can be referred to: its reference is well formed and means it. */
  lemma ValidNameIsReferable(name: string)
    requires ValidParamName(name)
    ensures WellFormed(String(PREFIX + name)) && Refs(String(PREFIX + name)) == {name}
  {
    var s := PREFIX + name;
    assert PREFIX <= s && s[|PREFIX|..] == name;
  }
}
