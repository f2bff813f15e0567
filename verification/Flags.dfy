/** crates/ostrom-cli/src/operation_dispatch.rs, lines 87-154: the flags of an invocation become
    the values of the operation's params. */
module Flags {
  import opened Wrappers
  import opened Values
  import opened Operations

  datatype FlagFault =
    | UnexpectedArgument(text: string)
    | MissingFlagValue(text: string)
    | UnknownFlag(text: string)
    | DuplicateFlag(text: string)
    | UnreadableMarkdown(text: string)
    | InvalidFlag(text: string)
    | MissingFlag(text: string)

  // The declared params, the files markdown may be read from, and the version syntax.
  datatype Context = Context(params: map<string, ParamDecl>, readFile: string -> Option<string>, validSemver: string -> bool)

  const DASHES := "--"

  // The text before and after the first `=`.
  function SplitOnce(s: string): (r: Option<(string, string)>)
    ensures r.None? <==> '=' !in s
    ensures r.Some? ==> '=' !in r.value.0 && s == r.value.0 + "=" + r.value.1
  {
    if s == "" then None
    else if s[0] == '=' then Some(("", s[1..]))
    else
      var rest := SplitOnce(s[1..]);
      if rest.None? then None
      else
        HeadOfSplit(s, rest.value.0, rest.value.1);
        Some(([s[0]] + rest.value.0, rest.value.1))
  }

  lemma HeadOfSplit(s: string, name: string, value: string)
    requires s != "" && s[1..] == name + "=" + value
    ensures s == [s[0]] + name + "=" + value
  {
    assert s == [s[0]] + s[1..];
  }

  // A flag is written with dashes where its param has underscores.
  function Underscored(wire: string): (r: string)
    ensures |r| == |wire|
    ensures forall i :: 0 <= i < |wire| ==> r[i] == if wire[i] == '-' then '_' else wire[i]
  {
    if wire == "" then "" else [if wire[0] == '-' then '_' else wire[0]] + Underscored(wire[1..])
  }

  predicate ValidFor(ctx: Context, decl: ParamDecl, value: string) {
    match decl.kind
    case Markdown => true
    case Semver => ctx.validSemver(value)
    case Enum => value in decl.values
  }

  // A markdown value that starts with `@` names a file.
  function ReadValue(ctx: Context, decl: ParamDecl, raw: string): Option<string> {
    if decl.kind != Markdown || raw == "" || raw[0] != '@' then Some(raw)
    else if raw == "@" then None
    else ctx.readFile(raw[1..])
  }

  // ---- Parsing ----

  datatype Flag = Flag(wire: string, raw: string, joined: bool)

  // The flag that the arguments begin with.
  function NextFlag(arguments: seq<string>): Result<Flag, FlagFault>
    requires arguments != []
  {
    if !(DASHES <= arguments[0]) then Err(UnexpectedArgument(arguments[0]))
    else
      var flag := arguments[0][2..];
      match SplitOnce(flag)
      case Some((name, value)) => Ok(Flag(name, value, true))
      case None =>
        if |arguments| == 1 || DASHES <= arguments[1] then Err(MissingFlagValue(flag))
        else Ok(Flag(flag, arguments[1], false))
  }

  function Width(f: Flag): nat {
    if f.joined then 1 else 2
  }

  function NameOf(f: Flag): string {
    Underscored(f.wire)
  }

  // The value a flag gives its param.
  function ValueOf(ctx: Context, f: Flag): Result<Value, FlagFault> {
    if NameOf(f) !in ctx.params then Err(UnknownFlag(f.wire))
    else
      var value := ReadValue(ctx, ctx.params[NameOf(f)], f.raw);
      if value.None? then Err(UnreadableMarkdown(f.raw))
      else if !ValidFor(ctx, ctx.params[NameOf(f)], value.value) then Err(InvalidFlag(f.wire))
      else Ok(String(value.value))
  }

  // A second flag for a declared param is refused before its value is read.
  function Bind(ctx: Context, supplied: Supplied, f: Flag): Result<Value, FlagFault> {
    if NameOf(f) in ctx.params && NameOf(f) in supplied then Err(DuplicateFlag(f.wire)) else ValueOf(ctx, f)
  }

  lemma FlagWidth(arguments: seq<string>)
    requires arguments != [] && NextFlag(arguments).Ok?
    ensures Width(NextFlag(arguments).value) <= |arguments|
  {
  }

  function ParseFrom(ctx: Context, arguments: seq<string>, supplied: Supplied): Result<Supplied, FlagFault>
    decreases |arguments|
  {
    if arguments == [] then Ok(supplied)
    else
      var next := NextFlag(arguments);
      if next.Err? then Err(next.error)
      else
        var bound := Bind(ctx, supplied, next.value);
        if bound.Err? then Err(bound.error)
        else
          FlagWidth(arguments);
          ParseFrom(ctx, arguments[Width(next.value)..], supplied[NameOf(next.value) := bound.value])
  }

  predicate HasValue(ctx: Context, supplied: Supplied, name: string) {
    name in supplied || (name in ctx.params && ctx.params[name].defaultValue.Some?)
  }

  predicate BindsStrings(ctx: Context, supplied: Supplied) {
    forall name :: name in supplied ==> name in ctx.params && supplied[name].String?
  }

  function WithDefaults(ctx: Context, supplied: Supplied): Supplied {
    map name | name in supplied.Keys + ctx.params.Keys && HasValue(ctx, supplied, name) ::
      if name in supplied then supplied[name] else ctx.params[name].defaultValue.value
  }

  /** Succeeds exactly when the arguments parse and every declared param is then supplied or has a
      default; the result binds exactly those, each to a string or its default. */
  method ParseArguments(ctx: Context, arguments: seq<string>) returns (r: Result<Supplied, FlagFault>)
    ensures r.Ok? <==> ParseFrom(ctx, arguments, map[]).Ok? &&
                       forall name :: name in ctx.params ==> HasValue(ctx, ParseFrom(ctx, arguments, map[]).value, name)
    ensures r.Ok? ==> r.value == WithDefaults(ctx, ParseFrom(ctx, arguments, map[]).value) && Invocation(ctx.params, r.value)
    ensures ParseFrom(ctx, arguments, map[]).Err? ==> r == Err(ParseFrom(ctx, arguments, map[]).error)
  {
    var supplied: Supplied := map[];
    var index := 0;
    while index < |arguments|
      invariant index <= |arguments|
      invariant BindsStrings(ctx, supplied)
      invariant ParseFrom(ctx, arguments, map[]) == ParseFrom(ctx, arguments[index..], supplied)
      decreases |arguments| - index
    {
      var next := NextFlag(arguments[index..]);
      if next.Err? {
        return Err(next.error);
      }
      FlagWidth(arguments[index..]);
      var bound := Bind(ctx, supplied, next.value);
      if bound.Err? {
        return Err(bound.error);
      }
      assert arguments[index..][Width(next.value)..] == arguments[index + Width(next.value)..];
      supplied := supplied[NameOf(next.value) := bound.value];
      index := index + Width(next.value);
    }
    r := AddDefaults(ctx, supplied);
  }

  method AddDefaults(ctx: Context, parsed: Supplied) returns (r: Result<Supplied, FlagFault>)
    ensures r.Ok? <==> forall name :: name in ctx.params ==> HasValue(ctx, parsed, name)
    ensures r.Ok? ==> r.value == WithDefaults(ctx, parsed)
    ensures r.Err? ==> exists name :: name in ctx.params && !HasValue(ctx, parsed, name) && r.error == MissingFlag(name)
  {
    var supplied := parsed;
    var left := ctx.params.Keys;
    while left != {}
      invariant left <= ctx.params.Keys
      invariant forall name :: name in ctx.params && name !in left ==> HasValue(ctx, parsed, name)
      invariant parsed.Keys <= supplied.Keys <= parsed.Keys + (ctx.params.Keys - left)
      invariant ctx.params.Keys - left <= supplied.Keys
      invariant forall name :: name in supplied ==> HasValue(ctx, parsed, name)
      invariant forall name :: name in supplied ==>
        supplied[name] == if name in parsed then parsed[name] else ctx.params[name].defaultValue.value
      decreases left
    {
      var name :| name in left;
      left := left - {name};
      if name !in supplied {
        if ctx.params[name].defaultValue.None? {
          return Err(MissingFlag(name));
        }
        supplied := supplied[name := ctx.params[name].defaultValue.value];
      }
    }
    assert supplied == WithDefaults(ctx, parsed);
    r := Ok(supplied);
  }

  // ---- Printing ----

  function Print(f: Flag): seq<string> {
    if f.joined then [DASHES + f.wire + "=" + f.raw] else [DASHES + f.wire, f.raw]
  }

  function PrintAll(flags: seq<Flag>): seq<string> {
    if flags == [] then [] else Print(flags[0]) + PrintAll(flags[1..])
  }

  // The flag can be written, and it gives a declared param a valid value.
  predicate Printable(ctx: Context, f: Flag) {
    '=' !in f.wire && (f.joined || !(DASHES <= f.raw)) && ValueOf(ctx, f).Ok?
  }

  predicate AllPrintable(ctx: Context, flags: seq<Flag>) {
    forall f :: f in flags ==> Printable(ctx, f)
  }

  predicate DistinctFlags(flags: seq<Flag>) {
    forall i, j :: 0 <= i < j < |flags| ==> NameOf(flags[i]) != NameOf(flags[j])
  }

  predicate NoneBound(flags: seq<Flag>, supplied: Supplied) {
    forall f :: f in flags ==> NameOf(f) !in supplied
  }

  function Bindings(ctx: Context, flags: seq<Flag>): Supplied
    requires AllPrintable(ctx, flags)
  {
    if flags == [] then map[]
    else
      assert Printable(ctx, flags[0]);
      Bindings(ctx, flags[1..])[NameOf(flags[0]) := ValueOf(ctx, flags[0]).value]
  }

  lemma {:induction false} SplitOnceUnique(name: string, value: string)
    requires '=' !in name
    ensures SplitOnce(name + "=" + value) == Some((name, value))
    decreases |name|
  {
    var s := name + "=" + value;
    if name == "" {
      assert s[1..] == value;
    } else {
      assert s[0] == name[0] && s[1..] == name[1..] + "=" + value;
      SplitOnceUnique(name[1..], value);
      assert name == [name[0]] + name[1..];
    }
  }

  lemma NextOfPrinted(f: Flag, rest: seq<string>)
    requires '=' !in f.wire && (f.joined || !(DASHES <= f.raw))
    ensures NextFlag(Print(f) + rest) == Ok(f)
    ensures (Print(f) + rest)[Width(f)..] == rest
  {
    var arguments := Print(f) + rest;
    if f.joined {
      var text := f.wire + "=" + f.raw;
      assert arguments[0] == DASHES + text && arguments[0][2..] == text;
      SplitOnceUnique(f.wire, f.raw);
    } else {
      assert arguments[0] == DASHES + f.wire && arguments[0][2..] == f.wire;
    }
  }

  lemma ParseStep(ctx: Context, f: Flag, rest: seq<string>, supplied: Supplied)
    requires Printable(ctx, f) && NameOf(f) !in supplied
    ensures ParseFrom(ctx, Print(f) + rest, supplied) == ParseFrom(ctx, rest, supplied[NameOf(f) := ValueOf(ctx, f).value])
  {
    NextOfPrinted(f, rest);
  }

  lemma TailStaysFree(flags: seq<Flag>, supplied: Supplied, v: Value)
    requires flags != [] && DistinctFlags(flags) && NoneBound(flags, supplied)
    ensures DistinctFlags(flags[1..]) && NoneBound(flags[1..], supplied[NameOf(flags[0]) := v])
    ensures NameOf(flags[0]) !in supplied
  {
    assert flags[0] in flags;
    forall g | g in flags[1..]
      ensures NameOf(g) !in supplied[NameOf(flags[0]) := v]
    {
      var i :| 0 <= i < |flags[1..]| && flags[1..][i] == g;
      assert flags[i + 1] == g && g in flags;
    }
  }

  lemma {:induction false} BindingsAreFree(ctx: Context, flags: seq<Flag>, supplied: Supplied)
    requires AllPrintable(ctx, flags) && NoneBound(flags, supplied)
    ensures forall n :: n in Bindings(ctx, flags) ==> n !in supplied
    decreases |flags|
  {
    if flags != [] {
      assert flags[0] in flags;
      BindingsAreFree(ctx, flags[1..], supplied);
    }
  }

  // Printed flags are read off one by one, whatever follows them.
  lemma {:induction false} PrintedThenRest(ctx: Context, flags: seq<Flag>, tail: seq<string>, supplied: Supplied)
    requires AllPrintable(ctx, flags) && DistinctFlags(flags) && NoneBound(flags, supplied)
    ensures ParseFrom(ctx, PrintAll(flags) + tail, supplied) == ParseFrom(ctx, tail, supplied + Bindings(ctx, flags))
    decreases |flags|
  {
    if flags == [] {
      assert supplied + map[] == supplied && [] + tail == tail;
    } else {
      var f, rest := flags[0], flags[1..];
      assert Printable(ctx, f) && AllPrintable(ctx, rest);
      var v := ValueOf(ctx, f).value;
      TailStaysFree(flags, supplied, v);
      assert PrintAll(flags) + tail == Print(f) + (PrintAll(rest) + tail);
      ParseStep(ctx, f, PrintAll(rest) + tail, supplied);
      PrintedThenRest(ctx, rest, tail, supplied[NameOf(f) := v]);
      BindingsAreFree(ctx, rest, supplied[NameOf(f) := v]);
      assert supplied[NameOf(f) := v] + Bindings(ctx, rest) == supplied + Bindings(ctx, rest)[NameOf(f) := v];
    }
  }

  lemma PrintedParses(ctx: Context, flags: seq<Flag>, supplied: Supplied)
    requires AllPrintable(ctx, flags) && DistinctFlags(flags) && NoneBound(flags, supplied)
    ensures ParseFrom(ctx, PrintAll(flags), supplied) == Ok(supplied + Bindings(ctx, flags))
  {
    assert PrintAll(flags) + [] == PrintAll(flags);
    PrintedThenRest(ctx, flags, [], supplied);
  }

  lemma AfterDashes(s: string)
    requires DASHES <= s
    ensures s == DASHES + s[2..]
  {
  }

  lemma JoinedText(name: string, value: string)
    ensures DASHES + (name + "=" + value) == DASHES + name + "=" + value
  {
  }

  lemma JoinedWasPrinted(arguments: seq<string>, f: Flag)
    requires arguments != [] && NextFlag(arguments) == Ok(f) && f.joined
    ensures Print(f) + arguments[1..] == arguments && '=' !in f.wire
  {
    AfterDashes(arguments[0]);
    JoinedText(f.wire, f.raw);
    assert Print(f) == [arguments[0]];
  }

  lemma SpacedWasPrinted(arguments: seq<string>, f: Flag)
    requires arguments != [] && NextFlag(arguments) == Ok(f) && !f.joined
    ensures |arguments| >= 2 && Print(f) + arguments[2..] == arguments && '=' !in f.wire && !(DASHES <= f.raw)
  {
    AfterDashes(arguments[0]);
    assert arguments == [arguments[0], arguments[1]] + arguments[2..];
  }

  lemma NextWasPrinted(arguments: seq<string>)
    requires arguments != [] && NextFlag(arguments).Ok?
    ensures var f := NextFlag(arguments).value;
      && Width(f) <= |arguments|
      && Print(f) + arguments[Width(f)..] == arguments
      && '=' !in f.wire && (f.joined || !(DASHES <= f.raw))
  {
    var f := NextFlag(arguments).value;
    if f.joined {
      JoinedWasPrinted(arguments, f);
    } else {
      SpacedWasPrinted(arguments, f);
    }
  }

  lemma {:induction false} ParsedWasPrinted(ctx: Context, arguments: seq<string>, supplied: Supplied) returns (flags: seq<Flag>)
    requires ParseFrom(ctx, arguments, supplied).Ok?
    ensures PrintAll(flags) == arguments
    ensures AllPrintable(ctx, flags) && DistinctFlags(flags) && NoneBound(flags, supplied)
    decreases |arguments|
  {
    if arguments == [] {
      flags := [];
    } else {
      NextWasPrinted(arguments);
      var f := NextFlag(arguments).value;
      var v := Bind(ctx, supplied, f).value;
      var rest := ParsedWasPrinted(ctx, arguments[Width(f)..], supplied[NameOf(f) := v]);
      flags := [f] + rest;
      HeadKeepsDistinct(f, rest, supplied, v);
    }
  }

  lemma HeadKeepsDistinct(f: Flag, rest: seq<Flag>, supplied: Supplied, v: Value)
    requires DistinctFlags(rest) && NoneBound(rest, supplied[NameOf(f) := v])
    ensures DistinctFlags([f] + rest)
    ensures NoneBound(rest, supplied)
  {
    var flags := [f] + rest;
    forall i, j | 0 <= i < j < |flags|
      ensures NameOf(flags[i]) != NameOf(flags[j])
    {
      assert flags[j] == rest[j - 1] && rest[j - 1] in rest;
    }
  }

  // The arguments are the print of distinct valid flags.
  ghost predicate IsPrintOf(ctx: Context, arguments: seq<string>, flags: seq<Flag>) {
    PrintAll(flags) == arguments && DistinctFlags(flags) && AllPrintable(ctx, flags)
  }

  /** Parsing undoes printing and accepts nothing else: the arguments parse exactly when they are
      the print of distinct valid flags, in any order and either form, and then to
      exactly what those flags bind. */
  lemma ParsesExactlyWhatPrints(ctx: Context, arguments: seq<string>)
    ensures ParseFrom(ctx, arguments, map[]).Ok? <==> exists flags :: IsPrintOf(ctx, arguments, flags)
    ensures forall flags :: IsPrintOf(ctx, arguments, flags) ==>
      ParseFrom(ctx, arguments, map[]) == Ok(Bindings(ctx, flags))
  {
    if ParseFrom(ctx, arguments, map[]).Ok? {
      var flags := ParsedWasPrinted(ctx, arguments, map[]);
      assert IsPrintOf(ctx, arguments, flags);
    }
    forall flags | IsPrintOf(ctx, arguments, flags)
      ensures ParseFrom(ctx, arguments, map[]) == Ok(Bindings(ctx, flags))
    {
      PrintedParses(ctx, flags, map[]);
      assert map[] + Bindings(ctx, flags) == Bindings(ctx, flags);
    }
  }

  // ---- What an invocation binds ----

  lemma {:induction false} BoundByFlag(ctx: Context, flags: seq<Flag>, n: string)
    requires AllPrintable(ctx, flags)
    ensures n in Bindings(ctx, flags) <==> exists f :: f in flags && NameOf(f) == n
    decreases |flags|
  {
    if flags != [] {
      assert flags == [flags[0]] + flags[1..];
      BoundByFlag(ctx, flags[1..], n);
    }
  }

  lemma {:induction false} BoundValue(ctx: Context, flags: seq<Flag>, i: nat)
    requires AllPrintable(ctx, flags) && DistinctFlags(flags) && i < |flags|
    ensures NameOf(flags[i]) in Bindings(ctx, flags) && Ok(Bindings(ctx, flags)[NameOf(flags[i])]) == ValueOf(ctx, flags[i])
    decreases |flags|
  {
    assert Printable(ctx, flags[0]);
    if i > 0 {
      assert NameOf(flags[0]) != NameOf(flags[i]);
      BoundValue(ctx, flags[1..], i - 1);
    }
  }

  lemma BindingsAre(ctx: Context, flags: seq<Flag>)
    requires AllPrintable(ctx, flags) && DistinctFlags(flags)
    ensures forall n :: n in Bindings(ctx, flags) <==> exists f :: f in flags && NameOf(f) == n
    ensures forall f :: f in flags ==> NameOf(f) in Bindings(ctx, flags) && Ok(Bindings(ctx, flags)[NameOf(f)]) == ValueOf(ctx, f)
  {
    forall n
      ensures n in Bindings(ctx, flags) <==> exists f :: f in flags && NameOf(f) == n
    {
      BoundByFlag(ctx, flags, n);
    }
    forall i | 0 <= i < |flags|
      ensures NameOf(flags[i]) in Bindings(ctx, flags) && Ok(Bindings(ctx, flags)[NameOf(flags[i])]) == ValueOf(ctx, flags[i])
    {
      BoundValue(ctx, flags, i);
    }
  }

  // What a param is given for a flag's text.
  ghost predicate Gives(ctx: Context, decl: ParamDecl, raw: string, value: string) {
    match decl.kind
    case Markdown =>
      if raw != "" && raw[0] == '@' then raw != "@" && ctx.readFile(raw[1..]) == Some(value) else value == raw
    case Semver => value == raw && ctx.validSemver(raw)
    case Enum => value == raw && raw in decl.values
  }

  /** A flag gives a declared param its own text, if it is valid, or for markdown the file it names. */
  lemma ValueExactly(ctx: Context, f: Flag, value: Value)
    ensures ValueOf(ctx, f) == Ok(value) <==>
      NameOf(f) in ctx.params && value.String? && Gives(ctx, ctx.params[NameOf(f)], f.raw, value.s)
  {
  }

  // The invocation binds each flag's value to its param, and to every other declared param its default.
  ghost predicate BindsFlags(ctx: Context, flags: seq<Flag>, bound: Supplied) {
    && bound.Keys == ctx.params.Keys
    && (forall f :: f in flags ==>
          NameOf(f) in bound && bound[NameOf(f)].String? && Gives(ctx, ctx.params[NameOf(f)], f.raw, bound[NameOf(f)].s))
    && (forall n :: n in ctx.params && (forall f :: f in flags ==> NameOf(f) != n) ==> ctx.params[n].defaultValue == Some(bound[n]))
  }

  lemma PrintedBinds(ctx: Context, arguments: seq<string>, flags: seq<Flag>, bound: Supplied)
    requires IsPrintOf(ctx, arguments, flags) && ParseFrom(ctx, arguments, map[]).Ok?
    requires bound == WithDefaults(ctx, ParseFrom(ctx, arguments, map[]).value) && bound.Keys == ctx.params.Keys
    ensures BindsFlags(ctx, flags, bound)
  {
    ParsesExactlyWhatPrints(ctx, arguments);
    BindingsAre(ctx, flags);
    forall f | f in flags
      ensures NameOf(f) in bound && bound[NameOf(f)].String? && Gives(ctx, ctx.params[NameOf(f)], f.raw, bound[NameOf(f)].s)
    {
      ValueExactly(ctx, f, bound[NameOf(f)]);
    }
  }

  /** The first flag that is out of order decides the fault: one of no param, a second one for a param, a file that
      cannot be read, or a text that is not valid. */
  lemma FirstFault(ctx: Context, flags: seq<Flag>, f: Flag, tail: seq<string>)
    requires AllPrintable(ctx, flags) && DistinctFlags(flags)
    requires '=' !in f.wire && (f.joined || !(DASHES <= f.raw))
    ensures var fault := ParseFrom(ctx, PrintAll(flags) + (Print(f) + tail), map[]);
      var declared := NameOf(f) in ctx.params; var repeated := exists g :: g in flags && NameOf(g) == NameOf(f);
      && (!declared ==> fault == Err(UnknownFlag(f.wire)))
      && (declared && repeated ==> fault == Err(DuplicateFlag(f.wire)))
      && (declared && !repeated ==>
            var decl := ctx.params[NameOf(f)]; var text := ReadValue(ctx, decl, f.raw);
            && (text.None? <==> decl.kind == Markdown && f.raw != "" && f.raw[0] == '@' && (f.raw == "@" || ctx.readFile(f.raw[1..]).None?))
            && (text.None? ==> fault == Err(UnreadableMarkdown(f.raw)))
            && (text.Some? && (forall value :: !Gives(ctx, decl, f.raw, value)) ==> fault == Err(InvalidFlag(f.wire))))
  {
    PrintedThenRest(ctx, flags, Print(f) + tail, map[]);
    assert map[] + Bindings(ctx, flags) == Bindings(ctx, flags);
    BoundByFlag(ctx, flags, NameOf(f));
    NextOfPrinted(f, tail);
    if NameOf(f) in ctx.params && ReadValue(ctx, ctx.params[NameOf(f)], f.raw).Some? {
      var value := ReadValue(ctx, ctx.params[NameOf(f)], f.raw).value;
      ValueExactly(ctx, f, String(value));
    }
  }

  // Some flags, printed, are the arguments, and every param without a flag has a default.
  ghost predicate Complete(ctx: Context, arguments: seq<string>, flags: seq<Flag>) {
    && IsPrintOf(ctx, arguments, flags)
    && forall n :: n in ctx.params && (forall f :: f in flags ==> NameOf(f) != n) ==> ctx.params[n].defaultValue.Some?
  }

  /** An invocation succeeds exactly when its arguments print distinct valid flags and each param without one has a
      default. It then binds what each flag gives, and nothing else but those defaults. */
  method ParseFlags(ctx: Context, arguments: seq<string>) returns (r: Result<Supplied, FlagFault>)
    ensures r.Ok? <==> exists flags :: Complete(ctx, arguments, flags)
    ensures r.Ok? ==> Invocation(ctx.params, r.value)
    ensures forall flags :: IsPrintOf(ctx, arguments, flags) && r.Ok? ==> BindsFlags(ctx, flags, r.value)
  {
    r := ParseArguments(ctx, arguments);
    ParsesExactlyWhatPrints(ctx, arguments);
    forall flags | IsPrintOf(ctx, arguments, flags)
      ensures r.Ok? <==> Complete(ctx, arguments, flags)
      ensures r.Ok? ==> BindsFlags(ctx, flags, r.value)
    {
      BindingsAre(ctx, flags);
      if r.Ok? {
        PrintedBinds(ctx, arguments, flags, r.value);
      }
    }
  }
}
