/** Argument groups: a named collection of arguments and nested groups, optionally exclusive, whose
    registration into a command refuses a group that currently has a command. Groups, arguments and commands live in one arena, `World`, and
    refer to each other by id. */
module ArgumentGroups {
  import opened Wrappers
  import opened Ids
  import opened Errors
  import opened Commands
  import opened Arguments
  import opened Registries
  import opened Shorts

  datatype Group = Group(
    name: string,
    description: Option<string>,
    parentCommand: Option<CmdId>,
    parentGroup: Option<GroupId>,
    arguments: seq<ArgId>,
    subGroups: seq<GroupId>,
    isExclusive: bool)

  datatype World<V> = World(
    args: map<ArgId, Argument<V>>,
    groups: map<GroupId, Group>,
    cmds: map<CmdId, Command>)

  /** The arena has no dangling references: Java's object references always point somewhere. */
  predicate Valid<V>(w: World<V>)
  {
    && (forall g, s :: g in w.groups && s in w.groups[g].subGroups ==> s in w.groups)
    && (forall g, a :: g in w.groups && a in w.groups[g].arguments ==> a in w.args)
  }

  /** `new ArgumentGroup(name, description)`: a group with the sanitised name and nothing in it. */
  function NewGroup(name: string, description: Option<string>, sanitize: Sanitizer): (r: Group)
    ensures r.name == sanitize(name) && r.description == description
    ensures r.parentCommand.None? && r.parentGroup.None? && r.arguments == [] && r.subGroups == [] && !r.isExclusive
  {
    Group(sanitize(name), description, None, None, [], [], false)
  }

  /** The fields of a group that neither addGroup nor registerGroup touch. */
  predicate SameContents(x: Group, y: Group)
  {
    x.name == y.name && x.description == y.description && x.arguments == y.arguments && x.isExclusive == y.isExclusive
  }

  // ------------------------------------------------------------------ building

  /** `group.addArgument(argument)`: appended to the group's list, and the argument records the group
      as its parent group. Nothing is checked: an argument may be added twice, or moved on to another
      group while staying in this one's list. */
  function AddArgument<V>(w: World<V>, g: GroupId, a: ArgId): (r: World<V>)
    requires Valid(w) && g in w.groups && a in w.args
    ensures Valid(r)
    ensures r.groups.Keys == w.groups.Keys && r.args.Keys == w.args.Keys && r.cmds == w.cmds
    ensures r.groups[g] == w.groups[g].(arguments := w.groups[g].arguments + [a])
    ensures r.args[a] == w.args[a].(parentGroup := Some(g))
    ensures forall h :: h in w.groups && h != g ==> r.groups[h] == w.groups[h]
    ensures forall b :: b in w.args && b != a ==> r.args[b] == w.args[b]
  {
    var grp := w.groups[g];
    w.(groups := w.groups[g := grp.(arguments := grp.arguments + [a])],
       args := w.args[a := SetParentGroup(w.args[a], g)])
  }

  /** `parent.addGroup(child)`: refused when the child already has a parent group; otherwise the
      child is adopted. */
  function AddGroup<V>(w: World<V>, p: GroupId, g: GroupId): (r: Result<World<V>, BuildError>)
    requires Valid(w) && p in w.groups && g in w.groups
    ensures r.Failure? <==> w.groups[g].parentGroup.Some?
    ensures r.Failure? ==> r.error == GroupHasParent
    ensures r.Success? ==> r.value == Adopt(w, p, g)
  {
    if w.groups[g].parentGroup.Some? then Failure(GroupHasParent) else Success(Adopt(w, p, g))
  }

  /** The effect of an accepted `addGroup`: the child records the parent, inherits the parent's
      command reference (absent or not), and is appended to the parent's subgroups; nothing else
      changes. */
  function Adopt<V>(w: World<V>, p: GroupId, g: GroupId): (r: World<V>)
    requires Valid(w) && p in w.groups && g in w.groups
    ensures Valid(r) && r.args == w.args && r.cmds == w.cmds && r.groups.Keys == w.groups.Keys
    ensures r.groups[g].parentGroup == Some(p) && r.groups[g].parentCommand == w.groups[p].parentCommand
    ensures r.groups[p].subGroups == w.groups[p].subGroups + [g]
  {
    var child := w.groups[g].(parentGroup := Some(p), parentCommand := w.groups[p].parentCommand);
    var gs := w.groups[g := child];
    w.(groups := gs[p := gs[p].(subGroups := gs[p].subGroups + [g])])
  }

  /** Adoption changes no group's name, description, arguments or flag, no subgroup list but the
      parent's, and no parent or command reference but the child's. */
  lemma AdoptFrame<V>(w: World<V>, p: GroupId, g: GroupId)
    requires Valid(w) && p in w.groups && g in w.groups
    ensures var r := Adopt(w, p, g);
      && (forall h :: h in w.groups ==> SameContents(r.groups[h], w.groups[h]))
      && (forall h :: h in w.groups && h != p ==> r.groups[h].subGroups == w.groups[h].subGroups)
      && (forall h :: h in w.groups && h != g ==>
            r.groups[h].parentGroup == w.groups[h].parentGroup && r.groups[h].parentCommand == w.groups[h].parentCommand)
  {
  }

  /** A group that already has a parent cannot be added anywhere again. */
  lemma AddGroupOnce<V>(w: World<V>, p: GroupId, q: GroupId, g: GroupId)
    requires Valid(w) && p in w.groups && q in w.groups && g in w.groups
    requires AddGroup(w, p, g).Success?
    ensures AddGroup(AddGroup(w, p, g).value, q, g) == Failure(GroupHasParent)
  {
  }

  /** As written, `addGroup` overwrites the child's command with the parent's: a group registered
      on its own loses its command when it is added to a group that has none, and registration then
      no longer refuses it. */
  lemma AddGroupDropsCommand<V>(w: World<V>, p: GroupId, g: GroupId, c: CmdId)
    requires Valid(w) && p in w.groups && g in w.groups && c in w.cmds
    requires w.groups[g].parentGroup.None? && w.groups[g].parentCommand.Some? && w.groups[p].parentCommand.None?
    ensures RegisterGroup(w, g, c).error == Some(GroupAlreadyRegistered)
    ensures AddGroup(w, p, g).Success? && AddGroup(w, p, g).value.groups[g].parentCommand.None?
  {
  }

  /** `addGroup` with the one-time registration kept: a child that already belongs to a command is
      refused too, so adoption only ever gives a command to a group that had none. */
  function AddGroupKeepingCommand<V>(w: World<V>, p: GroupId, g: GroupId): (r: Result<World<V>, BuildError>)
    requires Valid(w) && p in w.groups && g in w.groups
    ensures r.Failure? <==> w.groups[g].parentGroup.Some? || w.groups[g].parentCommand.Some?
    ensures r.Failure? ==> r.error == if w.groups[g].parentGroup.Some? then GroupHasParent else GroupAlreadyRegistered
    ensures r.Success? ==> r.value == Adopt(w, p, g)
  {
    if w.groups[g].parentGroup.Some? then Failure(GroupHasParent)
    else if w.groups[g].parentCommand.Some? then Failure(GroupAlreadyRegistered)
    else Success(Adopt(w, p, g))
  }

  /** With the corrected `addGroup`, a group's command never changes once set, so a group that
      registration refuses keeps being refused. */
  lemma AddGroupKeepsCommands<V>(w: World<V>, p: GroupId, g: GroupId, h: GroupId, c: CmdId)
    requires Valid(w) && p in w.groups && g in w.groups && h in w.groups && c in w.cmds
    requires AddGroupKeepingCommand(w, p, g).Success? && w.groups[h].parentCommand.Some?
    ensures AddGroupKeepingCommand(w, p, g).value.groups[h].parentCommand == w.groups[h].parentCommand
    ensures RegisterGroup(AddGroupKeepingCommand(w, p, g).value, h, c).error == Some(GroupAlreadyRegistered)
  {
    AdoptFrame(w, p, g);
  }

  /** A freshly constructed group, once placed in the arena, can be added to any group, and
      registration does not refuse it up front. */
  lemma NewGroupIsFree<V>(w: World<V>, p: GroupId, g: GroupId, name: string, d: Option<string>, sanitize: Sanitizer)
    requires Valid(w) && p in w.groups && g !in w.groups
    ensures var w' := w.(groups := w.groups[g := NewGroup(name, d, sanitize)]);
      Valid(w') && AddGroup(w', p, g).Success? && w'.groups[g].parentCommand.None?
  {
  }

  /** `exclusive()`: only the flag changes. */
  function MakeExclusive<V>(w: World<V>, g: GroupId): (r: World<V>)
    requires g in w.groups
    ensures r.groups.Keys == w.groups.Keys
    ensures r.groups[g].isExclusive
    ensures r.groups[g].(isExclusive := w.groups[g].isExclusive) == w.groups[g]
    ensures forall h :: h in w.groups && h != g ==> r.groups[h] == w.groups[h]
    ensures r.args == w.args && r.cmds == w.cmds
    ensures Valid(w) ==> Valid(r)
  {
    w.(groups := w.groups[g := w.groups[g].(isExclusive := true)])
  }

  /** Making a group exclusive twice is the same as making it exclusive once. */
  lemma MakeExclusiveIdempotent<V>(w: World<V>, g: GroupId)
    requires g in w.groups
    ensures MakeExclusive(MakeExclusive(w, g), g) == MakeExclusive(w, g)
  {
  }

  // ------------------------------------------------------------------ registration

  /** What registration reads from each group. */
  function Shapes(groups: map<GroupId, Group>): map<GroupId, Shape>
  {
    map g | g in groups :: Shape(groups[g].arguments, groups[g].subGroups)
  }

  /** The command each group with a command belongs to. */
  function Owners(groups: map<GroupId, Group>): map<GroupId, CmdId>
  {
    map g | g in groups && groups[g].parentCommand.Some? :: groups[g].parentCommand.value
  }

  /** `parentCommand.addArgument(argument)` for each argument, in list order. */
  function AddArgumentsInOrder(cmd: Command, args: seq<ArgId>): (r: Command)
    ensures r.arguments == cmd.arguments + args
    ensures r.uniqueArgumentReceivedValue == cmd.uniqueArgumentReceivedValue
    decreases |args|
  {
    if args == [] then cmd
    else
      var r := AddArgumentsInOrder(Commands.AddArgument(cmd, args[0]), args[1..]);
      assert cmd.arguments + [args[0]] + args[1..] == cmd.arguments + args;
      r
  }

  /** The world with the registry's command references written back and the arguments it handed to
      command `c` added to it. */
  function Install<V>(w: World<V>, reg: Registry, c: CmdId): (r: World<V>)
    requires c in w.cmds
    ensures r.args == w.args && r.groups.Keys == w.groups.Keys
    ensures forall h :: h in w.groups ==>
      r.groups[h] == w.groups[h].(parentCommand := if h in reg.owner then Some(reg.owner[h]) else None)
    ensures r.cmds == w.cmds[c := AddArgumentsInOrder(w.cmds[c], reg.received)]
  {
    w.(groups := map h | h in w.groups :: w.groups[h].(parentCommand := if h in reg.owner then Some(reg.owner[h]) else None),
       cmds := w.cmds[c := AddArgumentsInOrder(w.cmds[c], reg.received)])
  }

  /** A valid arena's shapes have no dangling subgroup. */
  lemma ValidClosed<V>(w: World<V>)
    requires Valid(w)
    ensures Closed(Shapes(w.groups))
  {
  }

  /** Writing back the registry read from the world, with nothing received, changes nothing. */
  lemma InstallUnchanged<V>(w: World<V>, c: CmdId)
    requires c in w.cmds
    ensures Install(w, Registry(Owners(w.groups), []), c) == w
  {
    var r := Install(w, Registry(Owners(w.groups), []), c);
    assert r.groups == w.groups;
    assert r.cmds == w.cmds;
  }

  /** `group.registerGroup(cmd)` on the arena: registration runs on the groups' shapes and the
      registry, and its result, even a refusal part-way, is written back. */
  function RegisterGroup<V>(w: World<V>, g: GroupId, c: CmdId): (r: Outcome<World<V>>)
    requires Valid(w) && g in w.groups && c in w.cmds
    ensures r.state.args == w.args && r.state.groups.Keys == w.groups.Keys && r.state.cmds.Keys == w.cmds.Keys
    ensures forall h :: h in w.groups ==>
      r.state.groups[h] == w.groups[h].(parentCommand := r.state.groups[h].parentCommand)
    ensures w.groups[g].parentCommand.Some? ==> r == Outcome(w, Some(GroupAlreadyRegistered))
    ensures r.error.Some? ==> r.error == Some(GroupAlreadyRegistered)
  {
    ValidClosed(w);
    var o := RegisterGroupIn(Shapes(w.groups), Registry(Owners(w.groups), []), g, c);
    var r := Outcome(Install(w, o.state, c), o.error);
    if w.groups[g].parentCommand.Some? then
      InstallUnchanged(w, c);
      r
    else r
  }

  // ------------------------------------------------------------------ exclusivity

  /** Argument `x` of group `g`'s list stands against `a`: it is another argument, it still records
      `g` as its parent group, and it was used. */
  predicate Competes<V>(w: World<V>, g: GroupId, a: ArgId, x: ArgId)
  {
    x in w.args && x != a && w.args[x].parentGroup == Some(g) && w.args[x].usageCount > 0
  }

  /** No other direct member of `g` was used. */
  predicate ExclusivityHolds<V>(w: World<V>, g: GroupId, a: ArgId)
    requires g in w.groups
  {
    !exists i :: 0 <= i < |w.groups[g].arguments| && Competes(w, g, a, w.groups[g].arguments[i])
  }

  /** `checkExclusivity(argument)`: walks the group's list, keeping only arguments whose parent
      group is this group, skipping `argument` itself, and answers false at the first used one. */
  method CheckExclusivity<V>(w: World<V>, g: GroupId, a: ArgId) returns (ok: bool)
    requires Valid(w) && g in w.groups
    ensures ok <==> ExclusivityHolds(w, g, a)
  {
    var members := w.groups[g].arguments;
    var i := 0;
    while i < |members|
      invariant 0 <= i <= |members|
      invariant forall j :: 0 <= j < i ==> !Competes(w, g, a, members[j])
    {
      var x := members[i];
      if w.args[x].parentGroup == Some(g) {
        if x != a && w.args[x].usageCount > 0 {
          return false;
        }
      }
      i := i + 1;
    }
    return true;
  }

  /** Only direct members matter: the usage of the queried argument itself, of members of subgroups,
      and of arguments that have since moved to another group never changes the answer. */
  lemma ExclusivityIgnoresNonMembers<V>(w: World<V>, g: GroupId, a: ArgId, x: ArgId, n: Short)
    requires g in w.groups && x in w.args
    requires x == a || w.args[x].parentGroup != Some(g)
    ensures var w' := w.(args := w.args[x := w.args[x].(usageCount := n)]);
      ExclusivityHolds(w', g, a) == ExclusivityHolds(w, g, a)
  {
    var w' := w.(args := w.args[x := w.args[x].(usageCount := n)]);
    forall y | true
      ensures Competes(w', g, a, y) == Competes(w, g, a, y)
    {
    }
  }

  /** Once an argument is added to another group it no longer counts against its first group,
      whatever its usage. */
  lemma MovedArgumentDoesNotCompete<V>(w: World<V>, g1: GroupId, g2: GroupId, a: ArgId, x: ArgId)
    requires Valid(w) && g1 in w.groups && g2 in w.groups && x in w.args && g1 != g2
    ensures !Competes(AddArgument(w, g2, x), g1, a, x)
    ensures x in AddArgument(w, g2, x).groups[g2].arguments
  {
  }

  /** A used direct member breaks exclusivity for every other direct member of its group. */
  lemma ExclusivityDetectsSecondUse<V>(w: World<V>, g: GroupId, i: nat, j: nat)
    requires g in w.groups && i < |w.groups[g].arguments| && j < |w.groups[g].arguments|
    requires var xs := w.groups[g].arguments;
      xs[i] != xs[j] && xs[i] in w.args && xs[j] in w.args
      && w.args[xs[i]].parentGroup == Some(g) && w.args[xs[j]].parentGroup == Some(g)
      && w.args[xs[j]].usageCount > 0
    ensures !ExclusivityHolds(w, g, w.groups[g].arguments[i])
  {
    assert Competes(w, g, w.groups[g].arguments[i], w.groups[g].arguments[j]);
  }
}
