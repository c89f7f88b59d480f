/** One command-line argument: its names and prefix, its configuration flags, its link to the command
    it was added to, and the per-parse state (usage count, type state) that the parser drives.
    Setters that Java chains on `this` become functions returning the updated record; setters that
    throw become Result (nothing changes on failure) or Outcome (earlier changes persist). */
module Arguments {
  import opened Wrappers
  import opened Ids
  import opened Sequences
  import opened Errors
  import opened ArgumentTypes
  import opened Commands
  import opened Shorts

  /** `UtlString.sanitizeName`, which is not part of this model. */
  type Sanitizer = string -> string

  datatype Argument<V> = Argument(
    argType: ArgumentType<V>,
    prefix: char,
    names: seq<string>,
    usageCount: Short,
    obligatory: bool,
    positional: bool,
    allowUnique: bool,
    defaultValue: Option<V>,
    parentCmd: Option<CmdId>,
    parentGroup: Option<GroupId>,
    hasOnErrorCallback: bool,
    hasOnCorrectCallback: bool)

  /** The configuration invariant every builder operation keeps: no name twice, and a positional
      argument accepts at least one value. */
  predicate WellConfigured<V>(a: Argument<V>)
  {
    NoDup(a.names) && (a.positional ==> a.argType.maxValues > 0)
  }

  /** The state of a freshly constructed argument before its names are added. */
  function Blank<V>(argType: ArgumentType<V>): Argument<V>
  {
    Argument(argType, '-', [], 0, false, false, false, None, None, None, false, false)
  }

  function Sanitized(names: seq<string>, sanitize: Sanitizer): seq<string>
  {
    seq(|names|, i requires 0 <= i < |names| => sanitize(names[i]))
  }

  // ------------------------------------------------------------------ names

  /** The name list after adding already sanitised names one by one, and the first name found to be
      present already, at which adding stopped. */
  datatype Appended<T> = Appended(names: seq<T>, duplicate: Option<T>)

  function AppendNames<T(==)>(existing: seq<T>, ns: seq<T>): (r: Appended<T>)
    ensures r.duplicate.None? ==> r.names == existing + ns
    ensures r.duplicate.Some? ==>
      && |existing| <= |r.names| < |existing| + |ns|
      && r.names == existing + ns[..|r.names| - |existing|]
      && r.duplicate.value == ns[|r.names| - |existing|]
      && r.duplicate.value in r.names
    ensures NoDup(existing) ==> NoDup(r.names)
    decreases |ns|
  {
    if ns == [] then Appended(existing, None)
    else if ns[0] in existing then Appended(existing, Some(ns[0]))
    else
      var e1 := existing + [ns[0]];
      NoDupSnoc(existing, ns[0]);
      var r := AppendNames(e1, ns[1..]);
      assert e1 + ns[1..] == existing + ns;
      if r.duplicate.Some? then
        var k := |r.names| - |e1|;
        assert ns[1..][..k] == ns[1..k + 1];
        assert e1 + ns[1..][..k] == existing + ns[..k + 1];
        r
      else r
  }

  /** `addNames(names...)`: each name is sanitised and appended unless it is already present, in
      which case the call throws, keeping the names added before the duplicate. */
  function AddNames<V>(a: Argument<V>, names: seq<string>, sanitize: Sanitizer): (r: Outcome<Argument<V>>)
    ensures r.state == a.(names := r.state.names)
    ensures r.error.None? ==> r.state.names == a.names + Sanitized(names, sanitize)
    ensures r.error.Some? ==>
      && |a.names| <= |r.state.names| < |a.names| + |names|
      && var k := |r.state.names| - |a.names|;
      && r.state.names == a.names + Sanitized(names[..k], sanitize)
      && sanitize(names[k]) in r.state.names
      && r.error == Some(DuplicateName(sanitize(names[k])))
    ensures WellConfigured(a) ==> WellConfigured(r.state)
  {
    var ns := Sanitized(names, sanitize);
    var app := AppendNames(a.names, ns);
    if app.duplicate.Some? then
      var k := |app.names| - |a.names|;
      assert ns[..k] == Sanitized(names[..k], sanitize);
      Outcome(a.(names := app.names), Some(DuplicateName(app.duplicate.value)))
    else Outcome(a.(names := app.names), None)
  }

  /** Adding names to a duplicate-free list succeeds exactly when the old and new sanitised names
      together are still duplicate-free. */
  lemma {:induction false} AppendNamesFailsIffDuplicate<T>(existing: seq<T>, ns: seq<T>)
    requires NoDup(existing)
    ensures AppendNames(existing, ns).duplicate.None? <==> NoDup(existing + ns)
    decreases |ns|
  {
    if ns == [] {
      assert existing + ns == existing;
    } else if ns[0] in existing {
      var i :| 0 <= i < |existing| && existing[i] == ns[0];
      assert (existing + ns)[i] == (existing + ns)[|existing|];
    } else {
      NoDupSnoc(existing, ns[0]);
      AppendNamesFailsIffDuplicate(existing + [ns[0]], ns[1..]);
      assert existing + [ns[0]] + ns[1..] == existing + ns;
    }
  }

  /** Adding names to a duplicate-free argument succeeds exactly when its names and the new sanitised
      names together are still duplicate-free. */
  lemma AddNamesFailsIffDuplicate<V>(a: Argument<V>, names: seq<string>, sanitize: Sanitizer)
    requires NoDup(a.names)
    ensures AddNames(a, names, sanitize).error.None? <==> NoDup(a.names + Sanitized(names, sanitize))
  {
    AppendNamesFailsIffDuplicate(a.names, Sanitized(names, sanitize));
  }

  /** `new Argument(type, names...)`: a blank argument with the sanitised names; the constructor
      throws, and no argument exists, when two of them coincide. */
  function NewArgument<V>(argType: ArgumentType<V>, names: seq<string>, sanitize: Sanitizer): (r: Result<Argument<V>, BuildError>)
    ensures r.Success? <==> NoDup(Sanitized(names, sanitize))
    ensures r.Success? ==> r.value == Blank(argType).(names := Sanitized(names, sanitize))
    ensures r.Success? ==> WellConfigured(r.value)
  {
    var o := AddNames(Blank(argType), names, sanitize);
    AddNamesFailsIffDuplicate(Blank(argType), names, sanitize);
    assert Blank(argType).names + Sanitized(names, sanitize) == Sanitized(names, sanitize);
    if o.error.Some? then Failure(o.error.value) else Success(o.state)
  }

  // ------------------------------------------------------------------ configuration

  /** `obligatory()`. */
  function SetObligatory<V>(a: Argument<V>): (r: Argument<V>)
    ensures r.obligatory && r == a.(obligatory := true)
    ensures WellConfigured(a) ==> WellConfigured(r)
  {
    a.(obligatory := true)
  }

  /** `positional()`: refused for a type that accepts no values. */
  function SetPositional<V>(a: Argument<V>): (r: Result<Argument<V>, BuildError>)
    ensures r.Failure? <==> a.argType.maxValues == 0
    ensures r.Failure? ==> r.error == ValuelessPositional
    ensures r.Success? ==> r.value == a.(positional := true)
    ensures r.Success? && NoDup(a.names) ==> WellConfigured(r.value)
  {
    if a.argType.maxValues == 0 then Failure(ValuelessPositional)
    else Success(a.(positional := true))
  }

  /** `prefix(c)`. */
  function SetPrefix<V>(a: Argument<V>, c: char): (r: Argument<V>)
    ensures r.prefix == c && r == a.(prefix := c)
    ensures WellConfigured(a) ==> WellConfigured(r)
  {
    a.(prefix := c)
  }

  /** `allowUnique()`. */
  function SetAllowUnique<V>(a: Argument<V>): (r: Argument<V>)
    ensures r.allowUnique && r == a.(allowUnique := true)
    ensures WellConfigured(a) ==> WellConfigured(r)
  {
    a.(allowUnique := true)
  }

  /** `defaultValue(v)`: `None` stands for Java's null, which `requireNonNull` refuses. */
  function SetDefaultValue<V>(a: Argument<V>, v: Option<V>): (r: Result<Argument<V>, BuildError>)
    ensures r.Failure? <==> v.None?
    ensures r.Failure? ==> r.error == NullDefaultValue
    ensures r.Success? ==> r.value == a.(defaultValue := v) && r.value.defaultValue.Some?
    ensures r.Success? && WellConfigured(a) ==> WellConfigured(r.value)
  {
    if v.None? then Failure(NullDefaultValue) else Success(a.(defaultValue := v))
  }

  /** `setParentCmd(cmd)`: an argument joins at most one command. */
  function SetParentCmd<V>(a: Argument<V>, c: CmdId): (r: Result<Argument<V>, BuildError>)
    ensures r.Failure? <==> a.parentCmd.Some?
    ensures r.Failure? ==> r.error == AlreadyInCommand
    ensures r.Success? ==> r.value == a.(parentCmd := Some(c))
    ensures r.Success? && WellConfigured(a) ==> WellConfigured(r.value)
  {
    if a.parentCmd.Some? then Failure(AlreadyInCommand) else Success(a.(parentCmd := Some(c)))
  }

  /** Once an argument is in a command, a second `setParentCmd` fails and the first command stays. */
  lemma SetParentCmdOnce<V>(a: Argument<V>, c1: CmdId, c2: CmdId)
    requires SetParentCmd(a, c1).Success?
    ensures SetParentCmd(SetParentCmd(a, c1).value, c2) == Failure(AlreadyInCommand)
    ensures SetParentCmd(a, c1).value.parentCmd == Some(c1)
  {
  }

  /** `setParentGroup(group)`, called by ArgumentGroup.addArgument: plain assignment, no check. */
  function SetParentGroup<V>(a: Argument<V>, g: GroupId): (r: Argument<V>)
    ensures r.parentGroup == Some(g) && r == a.(parentGroup := Some(g))
    ensures WellConfigured(a) ==> WellConfigured(r)
  {
    a.(parentGroup := Some(g))
  }

  /** `onOk(callback)`; the Consumer itself is not modelled, only whether one is set (`present` is
      false for null, which clears it). */
  function SetOnCorrectCallback<V>(a: Argument<V>, present: bool): (r: Argument<V>)
    ensures r.hasOnCorrectCallback == present && r == a.(hasOnCorrectCallback := present)
    ensures WellConfigured(a) ==> WellConfigured(r)
  {
    a.(hasOnCorrectCallback := present)
  }

  /** `onErr(callback)`; the Consumer itself is not modelled, only whether one is set (`present` is
      false for null, which clears it). */
  function SetOnErrorCallback<V>(a: Argument<V>, present: bool): (r: Argument<V>)
    ensures r.hasOnErrorCallback == present && r == a.(hasOnErrorCallback := present)
    ensures WellConfigured(a) ==> WellConfigured(r)
  {
    a.(hasOnErrorCallback := present)
  }

  // ------------------------------------------------------------------ parsing

  /** `parseValues(values, tokenIndex)`: the type is told the token index, parses the values, and the
      usage count goes up by one whatever the type made of them, wrapping like the short it is. */
  function ParseValues<V>(a: Argument<V>, values: seq<string>, tokenIndex: Short, parse: TypeParser<V>): (r: Argument<V>)
    ensures (r.usageCount as int - a.usageCount as int - 1) % 0x10000 == 0
    ensures a.usageCount < 0x7FFF ==> r.usageCount as int == a.usageCount as int + 1
    ensures r.argType == parse(a.argType.(tokenIndex := tokenIndex as int), values)
    ensures r.(argType := a.argType, usageCount := a.usageCount) == a
  {
    a.(argType := parse(a.argType.(tokenIndex := tokenIndex as int), values), usageCount := Inc(a.usageCount))
  }

  /** `parseValues()`: the same with no values at token index 0. */
  function ParseNoValues<V>(a: Argument<V>, parse: TypeParser<V>): (r: Argument<V>)
    ensures r == ParseValues(a, [], 0, parse)
    ensures a.usageCount < 0x7FFF ==> r.usageCount as int == a.usageCount as int + 1
  {
    ParseValues(a, [], 0, parse)
  }

  /** The usage count counts calls: it does not depend on how the type parses. */
  lemma UsageCountIgnoresParser<V>(a: Argument<V>, vs: seq<string>, i: Short, p1: TypeParser<V>, p2: TypeParser<V>)
    ensures ParseValues(a, vs, i, p1).usageCount == ParseValues(a, vs, i, p2).usageCount
    ensures ParseValues(a, vs, i, p1).(argType := a.argType) == ParseValues(a, vs, i, p2).(argType := a.argType)
  {
  }

  /** The 32768th use wraps the count negative, after which `checkExclusivity`, which tests for a
      positive count, no longer sees the argument as used; 65536 uses bring it back to zero, where
      `finishParsing` and `invokeCallbacks` treat it as unused. */
  lemma UsageCountWraps<V>(a: Argument<V>, p: TypeParser<V>)
    ensures a.usageCount == 0x7FFF ==> ParseNoValues(a, p).usageCount == -0x8000
    ensures a.usageCount == -1 ==> ParseNoValues(a, p).usageCount == 0
  {
  }

  /** The value `finishParsing` returns and the parsing state it leaves. */
  datatype Finished<V> = Finished(value: Option<V>, state: ParsingState)

  /** The one condition under which an unused argument reports itself. */
  predicate MissingObligatory<V>(a: Argument<V>, parent: Command)
  {
    a.usageCount == 0 && a.obligatory && !parent.uniqueArgumentReceivedValue
  }

  /** `finishParsing(parseState)` for the argument `self` of command `parent`. */
  function FinishParsing<V>(self: ArgId, a: Argument<V>, parent: Command, ps: ParsingState): (r: Finished<V>)
    // the earlier errors are kept and only appended to
    ensures |ps.errors| <= |r.state.errors| && r.state.errors[..|ps.errors|] == ps.errors
    // an unused obligatory argument reports exactly one error, at index 0, and yields nothing
    ensures MissingObligatory(a, parent) ==>
      r.value.None? && r.state.errors == ps.errors + [ParseError(ObligatoryArgumentNotUsed, self, 0)]
    // any other unused argument yields its default and reports nothing
    ensures a.usageCount == 0 && !MissingObligatory(a, parent) ==> r == Finished(a.defaultValue, ps)
    // a used argument forwards the type's display-level errors, in order, and yields the type's value
    ensures a.usageCount != 0 ==>
      && r.value == a.argType.finalValue
      && |r.state.errors| == |ps.errors| + |a.argType.displayErrors|
      && forall i :: 0 <= i < |a.argType.displayErrors| ==>
           r.state.errors[|ps.errors| + i] == FromType(a.argType.displayErrors[i])
  {
    if a.usageCount == 0 then
      if a.obligatory && !parent.uniqueArgumentReceivedValue then
        Finished(None, AddParseError(ps, ObligatoryArgumentNotUsed, self, 0))
      else Finished(a.defaultValue, ps)
    else Finished(a.argType.finalValue, AddCustomErrors(ps, a.argType.displayErrors))
  }

  /** An ObligatoryArgumentNotUsed error for `self` is added exactly when the argument is an unused
      obligatory one and no unique argument received a value; other errors are never of that kind. */
  lemma FinishParsingReportsIffMissing<V>(self: ArgId, a: Argument<V>, parent: Command, ps: ParsingState)
    ensures var r := FinishParsing(self, a, parent, ps);
      ParseError(ObligatoryArgumentNotUsed, self, 0) in r.state.errors[|ps.errors|..] <==> MissingObligatory(a, parent)
  {
    var r := FinishParsing(self, a, parent, ps);
    if a.usageCount != 0 {
      var added := r.state.errors[|ps.errors|..];
      forall i | 0 <= i < |added|
        ensures added[i].FromType?
      {
        assert added[i] == r.state.errors[|ps.errors| + i] == FromType(a.argType.displayErrors[i]);
      }
    } else if MissingObligatory(a, parent) {
      assert r.state.errors[|ps.errors|..] == [ParseError(ObligatoryArgumentNotUsed, self, 0)];
    }
  }

  /** Once an argument has been used, its default value plays no part in the result. */
  lemma FinishParsingIgnoresDefault<V>(self: ArgId, a: Argument<V>, d: Option<V>, parent: Command, ps: ParsingState)
    requires a.usageCount != 0
    ensures FinishParsing(self, a.(defaultValue := d), parent, ps) == FinishParsing(self, a, parent, ps)
  {
  }

  /** `finishParsing` never consults the type's value count: an unused argument whose type accepts
      no values still yields its default, although `defaultValue`'s documentation says the default is
      then ignored. */
  lemma DefaultKeptWithoutValues<V>(self: ArgId, a: Argument<V>, parent: Command, ps: ParsingState)
    requires a.argType.maxValues == 0 && a.usageCount == 0 && !MissingObligatory(a, parent)
    ensures FinishParsing(self, a, parent, ps) == Finished(a.defaultValue, ps)
  {
  }

  // ------------------------------------------------------------------ matching

  // Whether `token` is the doubled prefix followed by one of `names`.
  function AnyLongName(prefix: char, names: seq<string>, token: string): (r: bool)
    ensures r <==> exists i :: 0 <= i < |names| && token == [prefix, prefix] + names[i]
    decreases |names|
  {
    if names == [] then false
    else
      var rest := AnyLongName(prefix, names[1..], token);
      assert forall i :: 0 <= i < |names[1..]| ==> names[1..][i] == names[i + 1];
      token == [prefix, prefix] + names[0] || rest
  }

  /** `checkMatch(String)`: the token is the argument's prefix written twice followed by one of its
      names. */
  function CheckMatchLong<V>(a: Argument<V>, token: string): (r: bool)
    ensures r <==> exists i :: 0 <= i < |a.names| && token == [a.prefix, a.prefix] + a.names[i]
    ensures r ==> |token| >= 2 && token[0] == a.prefix && token[1] == a.prefix
  {
    AnyLongName(a.prefix, a.names, token)
  }

  /** `checkMatch(char)`: the one-character string is one of the names; the prefix is not consulted. */
  function CheckMatchShort<V>(a: Argument<V>, c: char): (r: bool)
    ensures r <==> exists i :: 0 <= i < |a.names| && a.names[i] == [c]
  {
    [c] in a.names
  }

  /** The short form of `c` matches exactly when the long form `<p><p>c` does. */
  lemma ShortMatchIsLongMatchOfOneChar<V>(a: Argument<V>, c: char)
    ensures CheckMatchShort(a, c) <==> CheckMatchLong(a, [a.prefix, a.prefix, c])
  {
    forall i | 0 <= i < |a.names|
      ensures a.names[i] == [c] <==> [a.prefix, a.prefix, c] == [a.prefix, a.prefix] + a.names[i]
    {
      if [a.prefix, a.prefix, c] == [a.prefix, a.prefix] + a.names[i] {
        assert a.names[i] == ([a.prefix, a.prefix] + a.names[i])[2..];
      }
    }
  }

  /** Every name matches in long form, and changing the prefix never changes short-form matching. */
  lemma MatchingAndPrefix<V>(a: Argument<V>, i: nat, p: char, c: char)
    requires i < |a.names|
    ensures CheckMatchLong(a, [a.prefix, a.prefix] + a.names[i])
    ensures CheckMatchShort(SetPrefix(a, p), c) == CheckMatchShort(a, c)
  {
  }

  // ------------------------------------------------------------------ error levels

  /** `getErrorsUnderExitLevel()`: the type's exit-level errors. */
  function ErrorsUnderExitLevel<V>(a: Argument<V>): seq<CustomError>
  {
    a.argType.exitErrors
  }

  /** `getErrorsUnderDisplayLevel()`: the type's display-level errors. */
  function ErrorsUnderDisplayLevel<V>(a: Argument<V>): seq<CustomError>
  {
    a.argType.displayErrors
  }

  /** `hasExitErrors()`: the type says so, or it holds some exit-level error. */
  function HasExitErrors<V>(a: Argument<V>): (r: bool)
    ensures r <==> a.argType.hasExitErrors || exists e :: e in ErrorsUnderExitLevel(a)
  {
    var es := ErrorsUnderExitLevel(a);
    assert es != [] ==> es[0] in es;
    a.argType.hasExitErrors || es != []
  }

  /** `hasDisplayErrors()`: the type says so, or it holds some display-level error. */
  function HasDisplayErrors<V>(a: Argument<V>): (r: bool)
    ensures r <==> a.argType.hasDisplayErrors || exists e :: e in ErrorsUnderDisplayLevel(a)
  {
    var es := ErrorsUnderDisplayLevel(a);
    assert es != [] ==> es[0] in es;
    a.argType.hasDisplayErrors || es != []
  }

  /** `setMinimumDisplayErrorLevel(level)`: forwarded to the type. */
  function SetMinimumDisplayErrorLevel<V>(a: Argument<V>, level: ErrorLevel): (r: Argument<V>)
    ensures r.argType.minDisplayLevel == level
    ensures r == a.(argType := a.argType.(minDisplayLevel := level))
  {
    a.(argType := a.argType.(minDisplayLevel := level))
  }

  /** `setMinimumExitErrorLevel(level)`: forwarded to the type. */
  function SetMinimumExitErrorLevel<V>(a: Argument<V>, level: ErrorLevel): (r: Argument<V>)
    ensures r.argType.minExitLevel == level
    ensures r == a.(argType := a.argType.(minExitLevel := level))
  {
    a.(argType := a.argType.(minExitLevel := level))
  }

  /** `getMinimumDisplayErrorLevel()`. */
  function MinimumDisplayErrorLevel<V>(a: Argument<V>): ErrorLevel
  {
    a.argType.minDisplayLevel
  }

  /** `getMinimumExitErrorLevel()`. */
  function MinimumExitErrorLevel<V>(a: Argument<V>): ErrorLevel
  {
    a.argType.minExitLevel
  }

  /** The two thresholds are independent: each getter returns what its setter last stored, and
      setting one leaves the other threshold, the errors and the argument itself alone. */
  lemma ErrorLevelsRoundTrip<V>(a: Argument<V>, d: ErrorLevel, e: ErrorLevel)
    ensures MinimumDisplayErrorLevel(SetMinimumDisplayErrorLevel(a, d)) == d
    ensures MinimumExitErrorLevel(SetMinimumExitErrorLevel(a, e)) == e
    ensures MinimumExitErrorLevel(SetMinimumDisplayErrorLevel(a, d)) == MinimumExitErrorLevel(a)
    ensures MinimumDisplayErrorLevel(SetMinimumExitErrorLevel(a, e)) == MinimumDisplayErrorLevel(a)
    ensures HasExitErrors(SetMinimumDisplayErrorLevel(a, d)) == HasExitErrors(a)
    ensures HasDisplayErrors(SetMinimumExitErrorLevel(a, e)) == HasDisplayErrors(a)
    ensures SetMinimumExitErrorLevel(SetMinimumDisplayErrorLevel(a, d), e)
         == SetMinimumDisplayErrorLevel(SetMinimumExitErrorLevel(a, e), d)
  {
  }

  // ------------------------------------------------------------------ callbacks

  datatype CallbackEvent<V> = ErrorCallbackFired | CorrectCallbackFired(value: V)

  /** The success callback fires when it is set, the argument was used, and either it allows unique
      use or no unique argument of the command received a value. */
  predicate OkCallbackFires<V>(a: Argument<V>, parent: Command)
  {
    !(!a.hasOnCorrectCallback || a.usageCount == 0 || (!a.allowUnique && parent.uniqueArgumentReceivedValue))
  }

  /** The error-callback condition as `invokeCallbacks()` writes it: set, and NO exit errors. */
  predicate ErrorCallbackFiresAsWritten<V>(a: Argument<V>)
  {
    !(!a.hasOnErrorCallback || HasExitErrors(a))
  }

  /** The error-callback condition as the callback's documentation promises it: set, and the
      argument has exit errors. */
  predicate ErrorCallbackFires<V>(a: Argument<V>)
  {
    a.hasOnErrorCallback && HasExitErrors(a)
  }

  function ErrorEvents<V>(fires: bool): seq<CallbackEvent<V>>
  {
    if fires then [ErrorCallbackFired] else []
  }

  function OkEvents<V>(a: Argument<V>, parent: Command, okValue: V): seq<CallbackEvent<V>>
  {
    if OkCallbackFires(a, parent) then [CorrectCallbackFired(okValue)] else []
  }

  /** `invokeCallbacks(okValue)` exactly as written: the error callback is considered first, then the
      success callback with `okValue`. */
  function InvokeCallbacksAsWritten<V>(a: Argument<V>, parent: Command, okValue: V): (r: seq<CallbackEvent<V>>)
    ensures ErrorCallbackFired in r <==> a.hasOnErrorCallback && !HasExitErrors(a)
    ensures CorrectCallbackFired(okValue) in r <==>
      a.hasOnCorrectCallback && a.usageCount != 0 && (a.allowUnique || !parent.uniqueArgumentReceivedValue)
    ensures forall e :: e in r ==> e == ErrorCallbackFired || e == CorrectCallbackFired(okValue)
    ensures NoDup(r)
    ensures |r| <= 2 && (|r| == 2 ==> r[0] == ErrorCallbackFired)
  {
    ErrorEvents(ErrorCallbackFiresAsWritten(a)) + OkEvents(a, parent, okValue)
  }

  /** `invokeCallbacks(okValue)` with the error callback reacting to errors: it fires when set and
      the argument has exit errors, whether or not it was used. */
  function InvokeCallbacks<V>(a: Argument<V>, parent: Command, okValue: V): (r: seq<CallbackEvent<V>>)
    ensures ErrorCallbackFired in r <==> a.hasOnErrorCallback && HasExitErrors(a)
    ensures CorrectCallbackFired(okValue) in r <==>
      a.hasOnCorrectCallback && a.usageCount != 0 && (a.allowUnique || !parent.uniqueArgumentReceivedValue)
    ensures forall e :: e in r ==> e == ErrorCallbackFired || e == CorrectCallbackFired(okValue)
    ensures NoDup(r)
    ensures |r| <= 2 && (|r| == 2 ==> r[0] == ErrorCallbackFired)
  {
    ErrorEvents(ErrorCallbackFires(a)) + OkEvents(a, parent, okValue)
  }

  /** As written, a set error callback fires exactly when the corrected one does not; the success
      callback is the same in both. */
  lemma ErrorCallbackInverted<V>(a: Argument<V>, parent: Command, okValue: V)
    requires a.hasOnErrorCallback
    ensures ErrorCallbackFired in InvokeCallbacksAsWritten(a, parent, okValue)
        <==> ErrorCallbackFired !in InvokeCallbacks(a, parent, okValue)
    ensures (CorrectCallbackFired(okValue) in InvokeCallbacksAsWritten(a, parent, okValue))
        == (CorrectCallbackFired(okValue) in InvokeCallbacks(a, parent, okValue))
  {
  }

  /** A concrete argument that shows the discrepancy: an error callback is set and the type holds an
      exit-level error, yet as written no callback fires. */
  lemma ErrorCallbackMissedOnError()
    ensures var t := ArgumentType(1, 0, [], [CustomError("not a number", Error, 1)], false, false,
                                  None, Error, Error);
            var a := SetOnErrorCallback(Blank(t).(names := ["number"], usageCount := 1), true);
            && HasExitErrors(a)
            && InvokeCallbacksAsWritten(a, Command(false, []), 0) == []
            && InvokeCallbacks(a, Command(false, []), 0) == [ErrorCallbackFired]
  {
  }

  // ------------------------------------------------------------------ equality

  // Whether some name of `xs` is also in `ys`.
  function ShareName(xs: seq<string>, ys: seq<string>): (r: bool)
    ensures r <==> exists i, j :: 0 <= i < |xs| && 0 <= j < |ys| && xs[i] == ys[j]
    decreases |xs|
  {
    if xs == [] then false
    else
      var rest := ShareName(xs[1..], ys);
      assert forall i :: 0 <= i < |xs[1..]| ==> xs[1..][i] == xs[i + 1];
      xs[0] in ys || rest
  }

  /** `equals(other)`: same command (both possibly absent) and at least one name in common. */
  function Equals<V>(a: Argument<V>, b: Argument<V>): (r: bool)
    ensures r <==> (a.parentCmd == b.parentCmd
                  && exists i, j :: 0 <= i < |a.names| && 0 <= j < |b.names| && a.names[i] == b.names[j])
  {
    a.parentCmd == b.parentCmd && ShareName(a.names, b.names)
  }

  /** `equals` is symmetric, and reflexive on every argument that has a name. */
  lemma EqualsSymmetricReflexive<V>(a: Argument<V>, b: Argument<V>)
    ensures Equals(a, b) == Equals(b, a)
    ensures |a.names| > 0 ==> Equals(a, a)
  {
    if |a.names| > 0 {
      assert a.names[0] == a.names[0];
    }
  }

  /** `equals` is not transitive: names "a"/"b", "b"/"c" and "c" chain without the ends sharing one. */
  lemma EqualsNotTransitive<V>(t: ArgumentType<V>)
    ensures var x := Blank(t).(names := ["a", "b"]);
            var y := Blank(t).(names := ["b", "c"]);
            var z := Blank(t).(names := ["c"]);
            Equals(x, y) && Equals(y, z) && !Equals(x, z)
  {
    var x := Blank(t).(names := ["a", "b"]);
    var y := Blank(t).(names := ["b", "c"]);
    var z := Blank(t).(names := ["c"]);
    assert x.names[1] == y.names[0];
    assert y.names[1] == z.names[0];
  }
}
