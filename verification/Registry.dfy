/** The part of the arena that `registerGroup` reads and writes when it registers groups into one
    command. Registration reads each group's own arguments and subgroups, which it never changes (the
    group's shape), and writes the groups' command references and the command's argument list (the
    registry). */
module Registries {
  import opened Wrappers
  import opened Ids
  import opened Errors

  /** What registration reads from a group and never changes. */
  datatype Shape = Shape(arguments: seq<ArgId>, subGroups: seq<GroupId>)

  /** What registration changes: the command each registered group belongs to (a group absent from
      `owner` has no command), and the arguments handed to the command so far, in order. */
  datatype Registry = Registry(owner: map<GroupId, CmdId>, received: seq<ArgId>)

  /** Every subgroup reference points at a known group. */
  predicate Closed(sh: map<GroupId, Shape>)
  {
    forall g, s {:trigger s in sh[g].subGroups} :: g in sh && s in sh[g].subGroups ==> s in sh
  }

  /** The known groups that have no command yet, and how many there are; each registration step
      lowers the count. */
  function Unregistered(sh: map<GroupId, Shape>, owner: map<GroupId, CmdId>): set<GroupId>
  {
    set g | g in sh && g !in owner
  }

  function UnregisteredCount(sh: map<GroupId, Shape>, owner: map<GroupId, CmdId>): nat
  {
    |Unregistered(sh, owner)|
  }

  /** The first step of `registerGroup`: the group takes the command and the command takes the
      group's own arguments, in list order. */
  function RegisterOwn(sh: map<GroupId, Shape>, reg: Registry, g: GroupId, c: CmdId): (r: Registry)
    requires g in sh && g !in reg.owner
    ensures UnregisteredCount(sh, r.owner) < UnregisteredCount(sh, reg.owner)
  {
    var r := Registry(reg.owner[g := c], reg.received + sh[g].arguments);
    var before, after := Unregistered(sh, reg.owner), Unregistered(sh, r.owner);
    assert before == after + {g} && g !in after;
    r
  }

  /** `group.registerGroup(cmd)`: refused when the group already has a command; otherwise the group
      takes the command, the command takes the group's arguments in order, and each subgroup is
      registered in order. A refusal deeper down propagates, keeping what was registered before it. */
  function RegisterGroupIn(sh: map<GroupId, Shape>, reg: Registry, g: GroupId, c: CmdId): (r: Outcome<Registry>)
    requires Closed(sh) && g in sh
    ensures UnregisteredCount(sh, r.state.owner) <= UnregisteredCount(sh, reg.owner)
    ensures g in reg.owner ==> r == Outcome(reg, Some(GroupAlreadyRegistered))
    ensures r.error.Some? ==> r.error == Some(GroupAlreadyRegistered)
    decreases UnregisteredCount(sh, reg.owner), 0, 0
  {
    if g in reg.owner then Outcome(reg, Some(GroupAlreadyRegistered))
    else RegisterAllIn(sh, RegisterOwn(sh, reg, g, c), sh[g].subGroups, c)
  }

  /** `subGroups.forEach(g -> g.registerGroup(cmd))`: stops at the first refusal. */
  function RegisterAllIn(sh: map<GroupId, Shape>, reg: Registry, subs: seq<GroupId>, c: CmdId): (r: Outcome<Registry>)
    requires Closed(sh) && forall s :: s in subs ==> s in sh
    ensures UnregisteredCount(sh, r.state.owner) <= UnregisteredCount(sh, reg.owner)
    ensures r.error.Some? ==> r.error == Some(GroupAlreadyRegistered)
    decreases UnregisteredCount(sh, reg.owner), 1, |subs|
  {
    if subs == [] then Outcome(reg, None)
    else
      var r0 := RegisterGroupIn(sh, reg, subs[0], c);
      if r0.error.Some? then r0
      else RegisterAllIn(sh, r0.state, subs[1..], c)
  }

  // ------------------------------------------------------------------ footprint

  /** The footprint of registration into command `c`: groups that had a command keep it, groups that
      gain one gain `c`, and the command's received arguments are only extended. */
  predicate RegistersOnly(reg: Registry, reg': Registry, c: CmdId)
  {
    && (forall g :: g in reg.owner ==> g in reg'.owner && reg'.owner[g] == reg.owner[g])
    && (forall g :: g in reg'.owner && g !in reg.owner ==> reg'.owner[g] == c)
    && |reg.received| <= |reg'.received|
    && reg'.received[..|reg.received|] == reg.received
  }

  lemma RegistersOnlyRefl(reg: Registry, c: CmdId)
    ensures RegistersOnly(reg, reg, c)
  {
    assert reg.received[..|reg.received|] == reg.received;
  }

  lemma RegistersOnlyTrans(r0: Registry, r1: Registry, r2: Registry, c: CmdId)
    requires RegistersOnly(r0, r1, c) && RegistersOnly(r1, r2, c)
    ensures RegistersOnly(r0, r2, c)
  {
    var n0, n1 := |r0.received|, |r1.received|;
    assert r2.received[..n0] == r2.received[..n1][..n0];
  }

  /** Registration touches nothing but groups without a command, which it gives `c`, and the end of
      the command's received arguments; a group it reports as registered belongs to `c`. */
  lemma {:induction false} RegisterGroupFootprint(sh: map<GroupId, Shape>, reg: Registry, g: GroupId, c: CmdId)
    requires Closed(sh) && g in sh
    ensures RegistersOnly(reg, RegisterGroupIn(sh, reg, g, c).state, c)
    ensures RegisterGroupIn(sh, reg, g, c).error.None? ==>
      g in RegisterGroupIn(sh, reg, g, c).state.owner && RegisterGroupIn(sh, reg, g, c).state.owner[g] == c
    decreases UnregisteredCount(sh, reg.owner), 0, 0
  {
    if g !in reg.owner {
      var r1 := RegisterOwn(sh, reg, g, c);
      assert r1.received[..|reg.received|] == reg.received;
      assert RegistersOnly(reg, r1, c);
      RegisterAllFootprint(sh, r1, sh[g].subGroups, c);
      RegistersOnlyTrans(reg, r1, RegisterAllIn(sh, r1, sh[g].subGroups, c).state, c);
    } else {
      RegistersOnlyRefl(reg, c);
    }
  }

  lemma {:induction false} RegisterAllFootprint(sh: map<GroupId, Shape>, reg: Registry, subs: seq<GroupId>, c: CmdId)
    requires Closed(sh) && forall s :: s in subs ==> s in sh
    ensures RegistersOnly(reg, RegisterAllIn(sh, reg, subs, c).state, c)
    decreases UnregisteredCount(sh, reg.owner), 1, |subs|
  {
    if subs == [] {
      RegistersOnlyRefl(reg, c);
    } else {
      RegisterGroupFootprint(sh, reg, subs[0], c);
      var r0 := RegisterGroupIn(sh, reg, subs[0], c);
      if r0.error.None? {
        RegisterAllFootprint(sh, r0.state, subs[1..], c);
        RegistersOnlyTrans(reg, r0.state, RegisterAllIn(sh, r0.state, subs[1..], c).state, c);
      }
    }
  }
}
