# Arguments and argument groups of the Lanat argument parser

This project models two classes of the Lanat command-line parser.

`Argument` binds names and a prefix character to an argument type. It carries the obligatory,
positional, allow-unique and default-value settings. It counts how often the parser used it. It
reports a missing obligatory use when parsing finishes, and it fires its success and error
callbacks.

`ArgumentGroup` is a named collection of arguments and nested groups. It can be exclusive. Registering
a group into a command hands the command every argument of the group and of its subgroups, and
registration refuses a group that currently has a command. That guard does not make registration
one-time: `addGroup` overwrites the child's command with the parent's, so a registered group added
to a group without a command loses its command, and the guard no longer refuses it (see Findings).
What the second registration then does depends on `Command.addArgument`, which is not part of this
model. Under the model's append-only stub the command receives the group's arguments again. If the
real `addArgument` calls `setParentCmd`, the second registration throws at the group's first
argument instead.

Java object references become ids into one arena, `ArgumentGroups.World`. The arena maps ids to
arguments, groups and commands, so reference comparisons become id comparisons. Each setter
returns the updated value instead of mutating `this`. The Java methods throw in two ways, and the
model keeps them apart:

- A method that throws before changing anything returns a `Result`.
- A method that throws part-way returns an `Outcome`, which keeps the state up to the throw.
  `addNames` keeps the names added before the duplicate. `registerGroup` keeps the groups
  registered before the refusal.

`usageCount` counts every `parseValues` call, and nothing in `Argument` resets it. It is a Java
`short`, and `Shorts.Inc` models its `++` with 16-bit wrap-around. After 32767 uses the count is
32767, and the 32768th use makes it -32768. `checkExclusivity` tests for a positive count, while
`finishParsing` and `invokeCallbacks` test for zero, so the model states each test as the code
writes it.

Registration is stated against an independent reference definition, `GroupRegistration.Walk`.
`Walk` is a pre-order walk over the group tree: a group's own arguments, then each subgroup in
order. Registration succeeds exactly when some finite walk meets each group once and only
unregistered groups. The command then receives the walk's arguments in walk order, which is what
the `Command.addArgument` stub records; the real command's own checks are not modelled. `addGroup`
does not prevent cycles, for example a group added to its own descendant. When the walk from the
group reaches a cycle, no finite walk exists and registration fails; a group whose walk avoids the
cycle registers as usual.

`Argument.java` has no `setParentGroup` or `getParentGroup`, yet `ArgumentGroup.java:30` and `:67`
call them. The model gives `Argument` a `parentGroup` field that is assigned without a check, as the
call at `ArgumentGroup.java:30` requires.

Modules: `Wrappers` (Option, Result), `Ids`, `Shorts`, `Sequences` (`NoDup`), `Errors` (error
levels, parse errors, build errors, `Outcome`), `ArgumentTypes` (what an argument reads from its
type), `Commands` (the command stub), `Arguments`, `Registries` (the part of the arena that
registration reads and writes), `ArgumentGroups` and `GroupRegistration` (registration proved
against the walk).

## Model

| member | source | states |
|---|---|---|
| Shorts.Inc | src/argparser/Argument.java:17 | incrementing a short gives x+1 modulo 2^16 as a signed value, and exactly x+1 below 32767 |
| Arguments.AppendNames | src/argparser/Argument.java:128-135 | appending stops at the first name already present and reports it; the names before it are kept; with no duplicate every name is appended in order; duplicate-freedom is kept |
| Arguments.AddNames | src/argparser/Argument.java:125-137 | names are sanitised and appended in order; on a duplicate the call fails with that name while keeping the names before it; nothing but the name list changes |
| Arguments.AppendNamesFailsIffDuplicate | src/argparser/Argument.java:128-135 | on a duplicate-free list, appending succeeds exactly when old and new names together are duplicate-free |
| Arguments.AddNamesFailsIffDuplicate | src/argparser/Argument.java:125-137 | on a duplicate-free argument, addNames succeeds exactly when the argument's names and the sanitised new names together have no duplicate |
| Arguments.NewArgument | src/argparser/Argument.java:25-28 | construction succeeds exactly when the sanitised names are distinct; the result is a blank argument with those names, and it is well configured |
| Arguments.SetObligatory | src/argparser/Argument.java:57-60 | sets only the obligatory flag and keeps the configuration invariant |
| Arguments.SetPositional | src/argparser/Argument.java:72-78 | refused exactly when the type accepts no values; otherwise only the positional flag is set, and a duplicate-free argument becomes well configured |
| Arguments.SetPrefix | src/argparser/Argument.java:89-92 | sets only the prefix |
| Arguments.SetAllowUnique | src/argparser/Argument.java:103-106 | sets only the allow-unique flag |
| Arguments.SetDefaultValue | src/argparser/Argument.java:116-119 | null is refused; otherwise only the default changes, and it is present |
| Arguments.SetParentCmd | src/argparser/Argument.java:155-160 | refused exactly when a command is already set; otherwise only the command reference changes |
| Arguments.SetParentCmdOnce | src/argparser/Argument.java:155-160 | after one successful setParentCmd a second one fails and the first command stays |
| Arguments.SetParentGroup | src/argparser/ArgumentGroup.java:30 | plain assignment of the parent group, nothing else changes |
| Arguments.SetOnCorrectCallback | src/argparser/Argument.java:173-176 | only whether a success callback is set changes; null clears it |
| Arguments.SetOnErrorCallback | src/argparser/Argument.java:181-184 | only whether an error callback is set changes; null clears it |
| Arguments.ParseValues | src/argparser/Argument.java:191-195 | the type receives the token index, then parses the values; the usage count goes up by one with short wrap-around; nothing else changes |
| Arguments.ParseNoValues | src/argparser/Argument.java:200-202 | the same as parsing no values at token index 0 |
| Arguments.UsageCountIgnoresParser | src/argparser/Argument.java:191-195 | the usage count and every field but the type do not depend on how the type parses |
| Arguments.UsageCountWraps | src/argparser/Argument.java:194 | the 32768th use makes the count -32768, and the 65536th makes it zero again |
| Arguments.FinishParsing | src/argparser/Argument.java:208-219 | earlier errors are kept; an unused obligatory argument, when no unique argument received a value, yields nothing and appends exactly one obligatory-not-used error at index 0; any other unused argument yields its default and reports nothing; a used argument forwards the type's display-level errors in order and yields the type's final value |
| Arguments.FinishParsingReportsIffMissing | src/argparser/Argument.java:209-213 | an obligatory-not-used error is added exactly when the argument is unused, obligatory, and no unique argument received a value |
| Arguments.FinishParsingIgnoresDefault | src/argparser/Argument.java:209-218 | for a used argument the default value plays no part |
| Arguments.DefaultKeptWithoutValues | src/argparser/Argument.java:209-214 | an unused argument whose type accepts no values, and which is not an obligatory miss, still yields its default and reports nothing |
| Arguments.CheckMatchLong | src/argparser/Argument.java:224-226 | a token matches exactly when it is the prefix written twice followed by one of the names; a match starts with the doubled prefix |
| Arguments.CheckMatchShort | src/argparser/Argument.java:231-233 | a character matches exactly when its one-character string is a name |
| Arguments.ShortMatchIsLongMatchOfOneChar | src/argparser/Argument.java:224-233 | the short form of c matches exactly when the long token of prefix, prefix, c does |
| Arguments.MatchingAndPrefix | src/argparser/Argument.java:224-233 | every name matches in long form, and the prefix never affects short-form matching |
| Arguments.HasExitErrors | src/argparser/Argument.java:268-281 | true exactly when the type says so or the list `ErrorsUnderExitLevel` forwards from the type holds some error |
| Arguments.HasDisplayErrors | src/argparser/Argument.java:273-286 | true exactly when the type says so or the list `ErrorsUnderDisplayLevel` forwards from the type holds some error |
| Arguments.SetMinimumDisplayErrorLevel | src/argparser/Argument.java:289-291 | only the type's display threshold changes, to the given level |
| Arguments.SetMinimumExitErrorLevel | src/argparser/Argument.java:299-301 | only the type's exit threshold changes, to the given level |
| Arguments.ErrorLevelsRoundTrip | src/argparser/Argument.java:288-306 | each getter (`MinimumDisplayErrorLevel`, `MinimumExitErrorLevel`) returns what its setter stored; setting one threshold leaves the other and the error queries alone; the two setters commute |
| Arguments.InvokeCallbacksAsWritten | src/argparser/Argument.java:237-246 | as the code writes it: the error callback fires exactly when set and there are NO exit errors; the success callback fires with the value exactly when set, the count is non-zero, and the argument allows unique use or no unique argument received a value; the error event comes first |
| Arguments.InvokeCallbacks | src/argparser/Argument.java:237-246 | corrected: the error callback fires exactly when set and there are exit errors; the success callback fires as written; no other events; the error event comes first |
| Arguments.ErrorCallbackInverted | src/argparser/Argument.java:318-322 | with an error callback set, the code fires it exactly when the corrected rule does not; the success callback is the same under both |
| Arguments.ErrorCallbackMissedOnError | src/argparser/Argument.java:318-322 | an argument with an error callback and an exit-level error fires no callback as written, and fires the error callback under the corrected rule |
| Arguments.Equals | src/argparser/Argument.java:248-253 | true exactly when both have the same command (both possibly absent) and share at least one name |
| Arguments.EqualsSymmetricReflexive | src/argparser/Argument.java:248-253 | equals is symmetric, and reflexive on arguments with a name |
| Arguments.EqualsNotTransitive | src/argparser/Argument.java:248-253 | three arguments where equals links the first to the second and the second to the third, but not the first to the third |
| ArgumentGroups.NewGroup | src/argparser/ArgumentGroup.java:17-20 | a new group has the sanitised name and the description, no parent, no command, no members and is not exclusive |
| ArgumentGroups.NewGroupIsFree | src/argparser/ArgumentGroup.java:17-20 | a new group placed in the arena can be added to any group, and has no command |
| ArgumentGroups.AddArgument | src/argparser/ArgumentGroup.java:26-31 | the argument is appended to the group's list and records the group as its parent; nothing else changes; the arena stays free of dangling ids |
| ArgumentGroups.AddGroup | src/argparser/ArgumentGroup.java:33-42 | refused exactly when the child already has a parent group; otherwise the child is adopted |
| ArgumentGroups.Adopt | src/argparser/ArgumentGroup.java:39-41 | the child records the parent and inherits its command reference, absent or not; the child is appended to the parent's subgroups; arguments and commands are unchanged |
| ArgumentGroups.AdoptFrame | src/argparser/ArgumentGroup.java:39-41 | adoption changes no name, description, argument list or exclusivity flag, no other subgroup list, and no other parent or command reference |
| ArgumentGroups.AddGroupDropsCommand | src/argparser/ArgumentGroup.java:34-41 | as written, a registered group with no parent group, added to a group with no command, is accepted and loses its command, though registration refused it before |
| ArgumentGroups.AddGroupKeepingCommand | src/argparser/ArgumentGroup.java:33-42 | corrected addGroup: refused exactly when the child has a parent group or already belongs to a command, with the matching error; otherwise the child is adopted |
| ArgumentGroups.AddGroupKeepsCommands | src/argparser/ArgumentGroup.java:54-57 | with the corrected addGroup, a group's command never changes once set, and registration keeps refusing it |
| ArgumentGroups.AddGroupOnce | src/argparser/ArgumentGroup.java:35-37 | a group that was added once cannot be added anywhere again |
| ArgumentGroups.MakeExclusive | src/argparser/ArgumentGroup.java:47-49 | only the group's exclusive flag changes, to true |
| ArgumentGroups.MakeExclusiveIdempotent | src/argparser/ArgumentGroup.java:47-49 | making a group exclusive twice is the same as once |
| ArgumentGroups.AddArgumentsInOrder | src/argparser/ArgumentGroup.java:60-62 | the command's argument list is extended by the given arguments in order, and its unique-value flag is kept |
| ArgumentGroups.RegisterGroup | src/argparser/ArgumentGroup.java:54-64 | only command references and command argument lists change; an already registered group is refused with nothing changed; the only refusal is already-registered |
| Registries.RegisterOwn | src/argparser/ArgumentGroup.java:59-62 | registering one group lowers the number of unregistered groups |
| Registries.RegisterGroupIn | src/argparser/ArgumentGroup.java:54-64 | registration never raises the number of unregistered groups; an already registered group is refused with nothing changed; the only refusal is already-registered |
| Registries.RegisterAllIn | src/argparser/ArgumentGroup.java:63 | registering a subgroup list never raises the number of unregistered groups, and refuses only for an already registered group |
| Registries.RegistersOnlyTrans | src/argparser/ArgumentGroup.java:54-64 | the registration footprint composes across successive registrations |
| Registries.RegisterGroupFootprint | src/argparser/ArgumentGroup.java:54-64 | groups that had a command keep it, groups that gain one gain this command, the received arguments are only extended, and a successful registration registers the group itself |
| Registries.RegisterAllFootprint | src/argparser/ArgumentGroup.java:63 | the same footprint for registering a subgroup list |
| GroupRegistration.WalkMonotone | src/argparser/ArgumentGroup.java:54-64 | more depth never changes a walk that already completed |
| GroupRegistration.RegisterGroupComplete | src/argparser/ArgumentGroup.java:54-64 | on a finite walk through distinct unregistered groups, registration succeeds, registers exactly the walked groups, and hands over the walk's arguments in walk order |
| GroupRegistration.RegisterAllComplete | src/argparser/ArgumentGroup.java:63 | the same for a subgroup list and the concatenation of its walks |
| GroupRegistration.RegisterGroupSound | src/argparser/ArgumentGroup.java:54-64 | if registration succeeds, the walk met no group twice, met only unregistered groups, and all of them now belong to the command |
| GroupRegistration.RegisterGroupFinite | src/argparser/ArgumentGroup.java:54-64 | a successful registration always follows a finite walk |
| GroupRegistration.RegistrationNeedsFreshWalk | src/argparser/ArgumentGroup.java:54-64 | a successful registration followed a finite walk that met each group once and only unregistered groups |
| GroupRegistration.RegistrationAcceptsFreshWalk | src/argparser/ArgumentGroup.java:54-64 | a finite walk from the group that meets each group once and only unregistered groups guarantees that registration succeeds |
| GroupRegistration.RegistrationSucceedsIff | src/argparser/ArgumentGroup.java:54-64 | registration succeeds exactly when some finite walk from the group meets each group once and only unregistered groups |
| GroupRegistration.RegistrationIsPreorder | src/argparser/ArgumentGroup.java:54-64 | after a successful registration the command's new arguments are the walk's arguments in walk order, and exactly the walked groups now have the command |
| GroupRegistration.RegistrationFootprint | src/argparser/ArgumentGroup.java:54-64 | each group is unchanged or, having had no command, now has this one; other commands and the unique-value flag are unchanged; the argument list is only extended; on success the group has the command |
| GroupRegistration.RegisteredGroupRegistersTwice | src/argparser/ArgumentGroup.java:39-63 | a registered group without subgroups is refused by registration, but after being added to a group with no command it passes the guard; under the append-only `Command.addArgument` stub the command then receives its arguments a second time |
| GroupRegistration.LateSubgroupBlocksRegistration | src/argparser/ArgumentGroup.java:39-41 | a group added to a registered group inherits its command, so any later registration whose walk reaches it is refused |
| ArgumentGroups.CheckExclusivity | src/argparser/ArgumentGroup.java:66-74 | true exactly when no other argument in the group's list that still records this group as its parent has a positive usage count |
| ArgumentGroups.ExclusivityIgnoresNonMembers | src/argparser/ArgumentGroup.java:67-69 | the usage of the queried argument itself, or of an argument whose parent group is another group, never changes the answer |
| ArgumentGroups.MovedArgumentDoesNotCompete | src/argparser/ArgumentGroup.java:67 | an argument added to another group no longer counts against its first group |
| ArgumentGroups.ExclusivityDetectsSecondUse | src/argparser/ArgumentGroup.java:66-74 | a used direct member breaks exclusivity for every other direct member |

## Left out

- Argument types: value coercion, the value-count range and the threshold filtering of errors are not modelled. `parseArgumentValues` is a function parameter, and the type is a record of what `Argument` reads from it.
- Arguments.SetMinimumExitErrorLevel: the type's exit-level error list is a stored field and is not re-filtered when the threshold changes, because the filtering belongs to the argument type, which is not part of this model. In Java, `getErrorsUnderExitLevel` reflects the last threshold set, so `HasExitErrors` may change with it.
- Arguments.SetMinimumDisplayErrorLevel: the type's display-level error list is likewise not re-filtered when the threshold changes, for the same reason.
- Arguments.CheckMatchShort: a Dafny `char` is a Unicode code point, while a Java `char` is one UTF-16 unit and a Java `String` a sequence of them. A name that is one character outside the Basic Multilingual Plane matches here, but it is two `char`s long in Java, so `checkMatch(char)` never matches it. Lone surrogates cannot be written in the model. Names and tokens in `CheckMatchLong` and `Equals` are compared as code-point sequences, which agrees with Java for strings without lone surrogates.
- Arguments.FinishParsing: the documentation of `defaultValue` (Argument.java:112-115) says the default is ignored when the argument accepts no values, but `finishParsing` returns the default for every unused argument that is not an obligatory miss, without looking at the value count. The model follows the code, and `DefaultKeptWithoutValues` states it. The documented rule is not modelled, because the caller in `Command.java`, which is not part of this model, may drop the value itself. Not executed.
- `UtlString.sanitizeName` is not part of this model. It is a function parameter.
- `Command.java` and `Command.ParsingState` are not part of this model. A command is its unique-value flag and its argument list, and `Command.addArgument` appends without the command's own checks. `addArgument` may itself call `setParentCmd`, and that is not modelled.
- The callback Consumers are not called. The model records which callbacks fire, and with which value, as a list of events.
- `getMinimumDisplayErrorLevel` and `getMinimumExitErrorLevel` return a `ModifyRecord` in Java. The model returns the stored level only.
- Error messages, `toString`, `getDisplayName` and the plain getters (`isObligatory`, `getNames`, `hasName` and the like) are field reads. They are not separate members. The four error-level proxies (`ErrorsUnderExitLevel`, `ErrorsUnderDisplayLevel`, `MinimumDisplayErrorLevel`, `MinimumExitErrorLevel`) are members, and the rows of `HasExitErrors`, `HasDisplayErrors` and `ErrorLevelsRoundTrip` state what they return.
- The convenience constructors at `Argument.java:30-50` and `ArgumentGroup(name)` only forward to the modelled constructors.
- Arrays of names passed as null are not modelled: the model's sequences cannot be null.
- A null `parentCmd` in `finishParsing` and `invokeCallbacks` is not modelled: the caller passes the command.
- ArgumentGroups.AddArgument, ArgumentGroups.AddGroup and ArgumentGroups.RegisterGroup require an arena with no dangling ids (`Valid`). Java references cannot dangle.
- `StdinArgument` and the template layer are outside the core.

## Findings

| source | as written | input that shows it | evidently intended | confidence | as-written member | corrected member |
|---|---|---|---|---|---|---|
| src/argparser/Argument.java:318-322 | `invokeCallbacks()` returns when `hasExitErrors()` is true, so the error callback runs only when there is no error | an argument with an error callback whose type holds one exit-level error: no callback runs | the error callback runs when the argument has errors, as `onErr`'s documentation at Argument.java:178-180 says | not executed | Arguments.InvokeCallbacksAsWritten, Arguments.ErrorCallbackMissedOnError | Arguments.InvokeCallbacks |
| src/argparser/ArgumentGroup.java:39-41 | `addGroup` sets the child's `parentCommand` to the parent's, even when the child already has a command and the parent has none | a group without subgroups is registered to command 7, then added to a group without a command: it loses its command, and a second registration to 7 gets past the guard at ArgumentGroup.java:55-57. Under the append-only `Command.addArgument` stub, command 7 then receives the group's arguments twice; if the real `addArgument` calls `setParentCmd`, the second registration throws at the first argument instead | a group stays in the command it was registered to, which is what the guard at ArgumentGroup.java:55-57 protects ("already registered to a command"); `addGroup` refuses a child that already belongs to a command | not executed | ArgumentGroups.AddGroupDropsCommand, GroupRegistration.RegisteredGroupRegistersTwice | ArgumentGroups.AddGroupKeepingCommand, ArgumentGroups.AddGroupKeepsCommands |
