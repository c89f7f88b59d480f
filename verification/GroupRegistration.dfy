/** What `registerGroup` computes, stated against an independent definition: a pre-order walk over
    the group tree (own arguments, then each subgroup in order). Registration succeeds exactly when
    the walk from the group is finite, meets no group twice and meets only unregistered groups; the
    command then receives the walk's arguments in walk order. Groups can form a cycle (a group may be
    added to one of its own descendants, or to itself); when the walk from the group reaches a cycle,
    no finite walk exists and registration fails. */
module GroupRegistration {
  import opened Wrappers
  import opened Ids
  import opened Sequences
  import opened Errors
  import opened Commands
  import opened Registries
  import opened ArgumentGroups

  /** The groups a walk visits, in visiting order, and their own arguments in the same order. */
  datatype Visit = Visit(groups: seq<GroupId>, args: seq<ArgId>)

  /** Pre-order walk from `g` over the groups' shapes, following subgroup lists to depth `fuel`;
      absent when the depth does not suffice or a group is missing. */
  function Walk(sh: map<GroupId, Shape>, g: GroupId, fuel: nat): Option<Visit>
    decreases fuel, 0, 0
  {
    if fuel == 0 || g !in sh then None
    else match WalkAll(sh, sh[g].subGroups, fuel - 1)
      case None => None
      case Some(v) => Some(Visit([g] + v.groups, sh[g].arguments + v.args))
  }

  /** The walks from each group of `subs`, concatenated in order. */
  function WalkAll(sh: map<GroupId, Shape>, subs: seq<GroupId>, fuel: nat): Option<Visit>
    decreases fuel, 1, |subs|
  {
    if subs == [] then Some(Visit([], []))
    else
      var first := Walk(sh, subs[0], fuel);
      var rest := WalkAll(sh, subs[1..], fuel);
      if first.Some? && rest.Some? then
        Some(Visit(first.value.groups + rest.value.groups, first.value.args + rest.value.args))
      else None
  }

  /** No group of `xs` has a command. */
  predicate AllUnregistered(owner: map<GroupId, CmdId>, xs: seq<GroupId>)
  {
    forall x :: x in xs ==> x !in owner
  }

  /** Exactly the groups of `xs` gained a command, each `c`; every other group kept what it had. */
  ghost predicate Marks(owner: map<GroupId, CmdId>, owner': map<GroupId, CmdId>, xs: seq<GroupId>, c: CmdId)
  {
    && (forall x :: x in owner' <==> x in owner || x in xs)
    && (forall x :: x in owner' ==> owner'[x] == if x in xs then c else owner[x])
  }

  lemma MarksTrans(o0: map<GroupId, CmdId>, o1: map<GroupId, CmdId>, o2: map<GroupId, CmdId>,
                   xs: seq<GroupId>, ys: seq<GroupId>, c: CmdId)
    requires Marks(o0, o1, xs, c) && Marks(o1, o2, ys, c)
    ensures Marks(o0, o2, xs + ys, c)
  {
  }

  // ------------------------------------------------------------------ facts about walks

  /** A walk only visits known groups. */
  lemma {:induction false} WalkWithin(sh: map<GroupId, Shape>, g: GroupId, fuel: nat)
    requires Walk(sh, g, fuel).Some?
    ensures forall x :: x in Walk(sh, g, fuel).value.groups ==> x in sh
    decreases fuel, 0, 0
  {
    WalkAllWithin(sh, sh[g].subGroups, fuel - 1);
  }

  lemma {:induction false} WalkAllWithin(sh: map<GroupId, Shape>, subs: seq<GroupId>, fuel: nat)
    requires WalkAll(sh, subs, fuel).Some?
    ensures forall x :: x in WalkAll(sh, subs, fuel).value.groups ==> x in sh
    decreases fuel, 1, |subs|
  {
    if subs != [] {
      WalkWithin(sh, subs[0], fuel);
      WalkAllWithin(sh, subs[1..], fuel);
    }
  }

  /** More depth never changes a walk that already completed. */
  lemma {:induction false} WalkMonotone(sh: map<GroupId, Shape>, g: GroupId, f: nat, f': nat)
    requires f <= f' && Walk(sh, g, f).Some?
    ensures Walk(sh, g, f') == Walk(sh, g, f)
    decreases f, 0, 0
  {
    WalkAllMonotone(sh, sh[g].subGroups, f - 1, f' - 1);
  }

  lemma {:induction false} WalkAllMonotone(sh: map<GroupId, Shape>, subs: seq<GroupId>, f: nat, f': nat)
    requires f <= f' && WalkAll(sh, subs, f).Some?
    ensures WalkAll(sh, subs, f') == WalkAll(sh, subs, f)
    decreases f, 1, |subs|
  {
    if subs != [] {
      WalkMonotone(sh, subs[0], f, f');
      WalkAllMonotone(sh, subs[1..], f, f');
    }
  }

  // ------------------------------------------------------------------ bookkeeping

  /** Bookkeeping for one group followed by the rest of its walk. */
  lemma OwnThenRest(o0: map<GroupId, CmdId>, o1: map<GroupId, CmdId>, o2: map<GroupId, CmdId>,
                    g: GroupId, xs: seq<GroupId>, c: CmdId)
    requires NoDup([g] + xs) && AllUnregistered(o0, [g] + xs) && o1 == o0[g := c]
    ensures NoDup(xs) && AllUnregistered(o1, xs)
    ensures Marks(o1, o2, xs, c) ==> Marks(o0, o2, [g] + xs, c)
  {
    NoDupSplit([g], xs);
    forall x | x in xs
      ensures x in [g] + xs
    {
    }
    assert Marks(o0, o1, [g], c);
    if Marks(o1, o2, xs, c) {
      MarksTrans(o0, o1, o2, [g], xs, c);
    }
  }

  /** A walk through distinct unregistered groups splits into two such walks with no group in common. */
  lemma SplitReady(o0: map<GroupId, CmdId>, xs: seq<GroupId>, ys: seq<GroupId>)
    requires NoDup(xs + ys) && AllUnregistered(o0, xs + ys)
    ensures NoDup(xs) && AllUnregistered(o0, xs)
    ensures NoDup(ys) && AllUnregistered(o0, ys)
    ensures forall y :: y in ys ==> y !in xs
  {
    NoDupSplit(xs, ys);
    forall x | x in xs
      ensures x in xs + ys
    {
    }
    forall y | y in ys
      ensures y in xs + ys
    {
    }
  }

  /** Registering one walk leaves the groups of a disjoint walk unregistered. */
  lemma StillUnregistered(o0: map<GroupId, CmdId>, o1: map<GroupId, CmdId>, xs: seq<GroupId>, ys: seq<GroupId>, c: CmdId)
    requires AllUnregistered(o0, ys) && (forall y :: y in ys ==> y !in xs) && Marks(o0, o1, xs, c)
    ensures AllUnregistered(o1, ys)
  {
  }

  // ------------------------------------------------------------------ completeness

  /** The walk is finite and meets each group once, none of them registered. */
  predicate Ready(owner: map<GroupId, CmdId>, w: Option<Visit>)
  {
    w.Some? && NoDup(w.value.groups) && AllUnregistered(owner, w.value.groups)
  }

  /** The registration succeeded, registered exactly the walk's groups into `c`, and handed the
      command the walk's arguments in walk order. */
  ghost predicate Follows(reg: Registry, r: Outcome<Registry>, v: Visit, c: CmdId)
  {
    r.error.None? && r.state.received == reg.received + v.args && Marks(reg.owner, r.state.owner, v.groups, c)
  }

  /** On a finite walk through distinct unregistered groups, registration succeeds, registers exactly
      the walked groups, and hands the walk's arguments to the command in walk order. */
  lemma {:induction false} RegisterGroupComplete(sh: map<GroupId, Shape>, reg: Registry, g: GroupId, c: CmdId, fuel: nat)
    requires Closed(sh) && g in sh && Ready(reg.owner, Walk(sh, g, fuel))
    ensures Follows(reg, RegisterGroupIn(sh, reg, g, c), Walk(sh, g, fuel).value, c)
    decreases fuel, 0, 0, 0
  {
    var subs := sh[g].subGroups;
    var vs := WalkAll(sh, subs, fuel - 1).value;
    var r1 := RegisterOwn(sh, reg, g, c);
    OwnThenRest(reg.owner, r1.owner, RegisterAllIn(sh, r1, subs, c).state.owner, g, vs.groups, c);
    RegisterAllComplete(sh, r1, subs, c, fuel - 1);
    assert reg.received + sh[g].arguments + vs.args == reg.received + (sh[g].arguments + vs.args);
  }

  lemma {:induction false} RegisterAllComplete(sh: map<GroupId, Shape>, reg: Registry, subs: seq<GroupId>, c: CmdId, fuel: nat)
    requires Closed(sh) && (forall s :: s in subs ==> s in sh) && Ready(reg.owner, WalkAll(sh, subs, fuel))
    ensures Follows(reg, RegisterAllIn(sh, reg, subs, c), WalkAll(sh, subs, fuel).value, c)
    decreases fuel, 1, |subs|, 1
  {
    if subs != [] {
      var r0 := RegisterFirstComplete(sh, reg, subs, c, fuel);
      RegisterAllComplete(sh, r0, subs[1..], c, fuel);
      FollowsConcat(reg, r0, RegisterAllIn(sh, r0, subs[1..], c),
                    Walk(sh, subs[0], fuel).value, WalkAll(sh, subs[1..], fuel).value, c);
    }
  }

  /** Completeness for the first subgroup of a list, and readiness of the rest afterwards. */
  lemma {:induction false} RegisterFirstComplete(sh: map<GroupId, Shape>, reg: Registry, subs: seq<GroupId>, c: CmdId, fuel: nat)
    returns (r0: Registry)
    requires Closed(sh) && (forall s :: s in subs ==> s in sh) && subs != [] && Ready(reg.owner, WalkAll(sh, subs, fuel))
    ensures RegisterGroupIn(sh, reg, subs[0], c) == Outcome(r0, None)
    ensures Walk(sh, subs[0], fuel).Some? && Follows(reg, Outcome(r0, None), Walk(sh, subs[0], fuel).value, c)
    ensures Ready(r0.owner, WalkAll(sh, subs[1..], fuel))
    ensures forall x :: x in WalkAll(sh, subs[1..], fuel).value.groups ==> x !in Walk(sh, subs[0], fuel).value.groups
    decreases fuel, 1, |subs|, 0
  {
    var v0 := Walk(sh, subs[0], fuel).value;
    var v1 := WalkAll(sh, subs[1..], fuel).value;
    SplitReady(reg.owner, v0.groups, v1.groups);
    RegisterGroupComplete(sh, reg, subs[0], c, fuel);
    r0 := RegisterGroupIn(sh, reg, subs[0], c).state;
    StillUnregistered(reg.owner, r0.owner, v0.groups, v1.groups, c);
  }

  /** Registering the first walk and then the second registers their concatenation. */
  lemma FollowsConcat(reg: Registry, r0: Registry, r: Outcome<Registry>, v0: Visit, v1: Visit, c: CmdId)
    requires Follows(reg, Outcome(r0, None), v0, c) && Follows(r0, r, v1, c)
    requires forall x :: x in v1.groups ==> x !in v0.groups
    ensures Follows(reg, r, Visit(v0.groups + v1.groups, v0.args + v1.args), c)
  {
    MarksTrans(reg.owner, r0.owner, r.state.owner, v0.groups, v1.groups, c);
    assert reg.received + v0.args + v1.args == reg.received + (v0.args + v1.args);
  }

  // ------------------------------------------------------------------ soundness

  /** If registration succeeds, the walk met no group twice and only unregistered groups, and all of
      them end up registered to the command. */
  lemma {:induction false} RegisterGroupSound(sh: map<GroupId, Shape>, reg: Registry, g: GroupId, c: CmdId, fuel: nat)
    requires Closed(sh) && g in sh
    requires Walk(sh, g, fuel).Some?
    ensures var v := Walk(sh, g, fuel).value;
            var r := RegisterGroupIn(sh, reg, g, c);
            r.error.None? ==>
              && NoDup(v.groups)
              && AllUnregistered(reg.owner, v.groups)
              && forall x :: x in v.groups ==> x in r.state.owner && r.state.owner[x] == c
    decreases fuel, 0, 0
  {
    var r := RegisterGroupIn(sh, reg, g, c);
    if r.error.None? {
      var subs := sh[g].subGroups;
      var r1 := RegisterOwn(sh, reg, g, c);
      RegisterAllSound(sh, r1, subs, c, fuel - 1);
      RegisterAllFootprint(sh, r1, subs, c);
      OwnThenRestSound(reg.owner, r1.owner, r.state.owner, g, WalkAll(sh, subs, fuel - 1).value.groups, c);
    }
  }

  /** Soundness bookkeeping for one group followed by the rest of its walk. */
  lemma OwnThenRestSound(o0: map<GroupId, CmdId>, o1: map<GroupId, CmdId>, o2: map<GroupId, CmdId>,
                         g: GroupId, xs: seq<GroupId>, c: CmdId)
    requires g !in o0 && o1 == o0[g := c]
    requires NoDup(xs) && AllUnregistered(o1, xs)
    requires forall x :: x in xs ==> x in o2 && o2[x] == c
    requires forall x :: x in o1 ==> x in o2 && o2[x] == o1[x]
    ensures NoDup([g] + xs) && AllUnregistered(o0, [g] + xs)
    ensures forall x :: x in [g] + xs ==> x in o2 && o2[x] == c
  {
    assert g !in xs;
    NoDupConcat([g], xs);
  }

  lemma {:induction false} RegisterAllSound(sh: map<GroupId, Shape>, reg: Registry, subs: seq<GroupId>, c: CmdId, fuel: nat)
    requires Closed(sh) && forall s :: s in subs ==> s in sh
    requires WalkAll(sh, subs, fuel).Some?
    ensures var v := WalkAll(sh, subs, fuel).value;
            var r := RegisterAllIn(sh, reg, subs, c);
            r.error.None? ==>
              && NoDup(v.groups)
              && AllUnregistered(reg.owner, v.groups)
              && forall x :: x in v.groups ==> x in r.state.owner && r.state.owner[x] == c
    decreases fuel, 1, |subs|
  {
    var r := RegisterAllIn(sh, reg, subs, c);
    if subs != [] && r.error.None? {
      var v0 := Walk(sh, subs[0], fuel).value;
      var v1 := WalkAll(sh, subs[1..], fuel).value;
      var r0 := RegisterGroupIn(sh, reg, subs[0], c);
      RegisterGroupSound(sh, reg, subs[0], c, fuel);
      RegisterAllSound(sh, r0.state, subs[1..], c, fuel);
      RegisterGroupFootprint(sh, reg, subs[0], c);
      RegisterAllFootprint(sh, r0.state, subs[1..], c);
      FirstThenRestSound(reg.owner, r0.state.owner, r.state.owner, v0.groups, v1.groups, c);
    }
  }

  /** Soundness bookkeeping for the walk from the first subgroup followed by the walks from the rest. */
  lemma FirstThenRestSound(o0: map<GroupId, CmdId>, o1: map<GroupId, CmdId>, o2: map<GroupId, CmdId>,
                           xs: seq<GroupId>, ys: seq<GroupId>, c: CmdId)
    requires NoDup(xs) && AllUnregistered(o0, xs) && forall x :: x in xs ==> x in o1 && o1[x] == c
    requires NoDup(ys) && AllUnregistered(o1, ys) && forall y :: y in ys ==> y in o2 && o2[y] == c
    requires forall x :: x in o0 ==> x in o1 && o1[x] == o0[x]
    requires forall x :: x in o1 ==> x in o2 && o2[x] == o1[x]
    ensures NoDup(xs + ys) && AllUnregistered(o0, xs + ys)
    ensures forall x :: x in xs + ys ==> x in o2 && o2[x] == c
  {
    NoDupConcat(xs, ys);
  }

  // ------------------------------------------------------------------ finiteness

  /** A successful registration only ever follows a finite walk. */
  lemma {:induction false} RegisterGroupFinite(sh: map<GroupId, Shape>, reg: Registry, g: GroupId, c: CmdId) returns (fuel: nat)
    requires Closed(sh) && g in sh
    requires RegisterGroupIn(sh, reg, g, c).error.None?
    ensures Walk(sh, g, fuel).Some?
    decreases UnregisteredCount(sh, reg.owner), 0, 0
  {
    var f := RegisterAllFinite(sh, RegisterOwn(sh, reg, g, c), sh[g].subGroups, c);
    fuel := f + 1;
  }

  lemma {:induction false} RegisterAllFinite(sh: map<GroupId, Shape>, reg: Registry, subs: seq<GroupId>, c: CmdId) returns (fuel: nat)
    requires Closed(sh) && forall s :: s in subs ==> s in sh
    requires RegisterAllIn(sh, reg, subs, c).error.None?
    ensures WalkAll(sh, subs, fuel).Some?
    decreases UnregisteredCount(sh, reg.owner), 1, |subs|
  {
    if subs == [] {
      fuel := 0;
    } else {
      var r0 := RegisterGroupIn(sh, reg, subs[0], c);
      var f0 := RegisterGroupFinite(sh, reg, subs[0], c);
      var f1 := RegisterAllFinite(sh, r0.state, subs[1..], c);
      fuel := if f0 < f1 then f1 else f0;
      WalkMonotone(sh, subs[0], f0, fuel);
      WalkAllMonotone(sh, subs[1..], f1, fuel);
    }
  }

  // ------------------------------------------------------------------ on the arena

  /** No group of `xs` is registered into a command. */
  predicate NoneRegistered<V>(w: World<V>, xs: seq<GroupId>)
  {
    forall x :: x in xs ==> x in w.groups && w.groups[x].parentCommand.None?
  }

  /** For known groups, having no command in the arena is not being in its owner map. */
  lemma NoneRegisteredOwners<V>(w: World<V>, xs: seq<GroupId>)
    requires forall x :: x in xs ==> x in w.groups
    ensures NoneRegistered(w, xs) <==> AllUnregistered(Owners(w.groups), xs)
  {
  }

  /** A successful registration followed a finite pre-order walk that met each group once and only
      unregistered ones. */
  lemma RegistrationNeedsFreshWalk<V>(w: World<V>, g: GroupId, c: CmdId) returns (fuel: nat)
    requires Valid(w) && g in w.groups && c in w.cmds
    requires RegisterGroup(w, g, c).error.None?
    ensures Walk(Shapes(w.groups), g, fuel).Some?
    ensures NoDup(Walk(Shapes(w.groups), g, fuel).value.groups)
    ensures NoneRegistered(w, Walk(Shapes(w.groups), g, fuel).value.groups)
  {
    ValidClosed(w);
    var sh, reg := Shapes(w.groups), Registry(Owners(w.groups), []);
    fuel := RegisterGroupFinite(sh, reg, g, c);
    RegisterGroupSound(sh, reg, g, c, fuel);
    WalkWithin(sh, g, fuel);
    NoneRegisteredOwners(w, Walk(sh, g, fuel).value.groups);
  }

  /** Registration is accepted whenever a finite pre-order walk from the group meets each group once
      and only unregistered ones. */
  lemma RegistrationAcceptsFreshWalk<V>(w: World<V>, g: GroupId, c: CmdId, fuel: nat)
    requires Valid(w) && g in w.groups && c in w.cmds
    requires Walk(Shapes(w.groups), g, fuel).Some?
    requires NoDup(Walk(Shapes(w.groups), g, fuel).value.groups)
    requires NoneRegistered(w, Walk(Shapes(w.groups), g, fuel).value.groups)
    ensures RegisterGroup(w, g, c).error.None?
  {
    ValidClosed(w);
    var sh, reg := Shapes(w.groups), Registry(Owners(w.groups), []);
    WalkWithin(sh, g, fuel);
    NoneRegisteredOwners(w, Walk(sh, g, fuel).value.groups);
    RegisterGroupComplete(sh, reg, g, c, fuel);
  }

  /** Registration succeeds exactly when some finite pre-order walk from the group meets each group
      once and only unregistered ones. */
  lemma RegistrationSucceedsIff<V>(w: World<V>, g: GroupId, c: CmdId)
    requires Valid(w) && g in w.groups && c in w.cmds
    ensures RegisterGroup(w, g, c).error.None? <==>
      exists fuel: nat :: Walk(Shapes(w.groups), g, fuel).Some?
        && NoDup(Walk(Shapes(w.groups), g, fuel).value.groups)
        && NoneRegistered(w, Walk(Shapes(w.groups), g, fuel).value.groups)
  {
    if RegisterGroup(w, g, c).error.None? {
      var fuel := RegistrationNeedsFreshWalk(w, g, c);
    } else {
      forall fuel: nat | Walk(Shapes(w.groups), g, fuel).Some? && NoDup(Walk(Shapes(w.groups), g, fuel).value.groups)
        ensures !NoneRegistered(w, Walk(Shapes(w.groups), g, fuel).value.groups)
      {
        if NoneRegistered(w, Walk(Shapes(w.groups), g, fuel).value.groups) {
          RegistrationAcceptsFreshWalk(w, g, c, fuel);
        }
      }
    }
  }

  /** A successful registration adds the group's arguments, then each subgroup's, recursively and in
      order: the command's new arguments are the pre-order walk's arguments, and the walked groups are
      exactly the ones now registered to the command. */
  lemma RegistrationIsPreorder<V>(w: World<V>, g: GroupId, c: CmdId) returns (fuel: nat)
    requires Valid(w) && g in w.groups && c in w.cmds
    requires RegisterGroup(w, g, c).error.None?
    ensures Walk(Shapes(w.groups), g, fuel).Some?
    ensures var v := Walk(Shapes(w.groups), g, fuel).value;
            var r := RegisterGroup(w, g, c).state;
            && r.cmds[c].arguments == w.cmds[c].arguments + v.args
            && forall h :: h in w.groups ==>
                 r.groups[h].parentCommand == (if h in v.groups then Some(c) else w.groups[h].parentCommand)
  {
    ValidClosed(w);
    var sh, reg := Shapes(w.groups), Registry(Owners(w.groups), []);
    fuel := RegisterGroupFinite(sh, reg, g, c);
    RegisterGroupSound(sh, reg, g, c, fuel);
    RegisterGroupComplete(sh, reg, g, c, fuel);
    InstallFollows(w, RegisterGroupIn(sh, reg, g, c).state, Walk(sh, g, fuel).value, c);
  }

  /** Writing back a registry that followed a walk from the arena's own registry gives the walked
      groups the command and the command the walk's arguments. */
  lemma InstallFollows<V>(w: World<V>, o: Registry, v: Visit, c: CmdId)
    requires c in w.cmds && Follows(Registry(Owners(w.groups), []), Outcome(o, None), v, c)
    ensures Install(w, o, c).cmds[c].arguments == w.cmds[c].arguments + v.args
    ensures forall h :: h in w.groups ==>
      Install(w, o, c).groups[h].parentCommand == (if h in v.groups then Some(c) else w.groups[h].parentCommand)
  {
  }

  /** Registration changes nothing but groups without a command, which it registers to `c`, and the
      end of `c`'s argument list; a successful one leaves the group itself registered to `c`. */
  lemma RegistrationFootprint<V>(w: World<V>, g: GroupId, c: CmdId)
    requires Valid(w) && g in w.groups && c in w.cmds
    ensures var r := RegisterGroup(w, g, c);
      && (forall h :: h in w.groups ==>
            r.state.groups[h] == w.groups[h]
            || (w.groups[h].parentCommand.None? && r.state.groups[h] == w.groups[h].(parentCommand := Some(c))))
      && (forall d :: d in w.cmds && d != c ==> r.state.cmds[d] == w.cmds[d])
      && r.state.cmds[c].uniqueArgumentReceivedValue == w.cmds[c].uniqueArgumentReceivedValue
      && |w.cmds[c].arguments| <= |r.state.cmds[c].arguments|
      && r.state.cmds[c].arguments[..|w.cmds[c].arguments|] == w.cmds[c].arguments
      && (r.error.None? ==> r.state.groups[g].parentCommand == Some(c))
  {
    ValidClosed(w);
    var reg := Registry(Owners(w.groups), []);
    RegisterGroupFootprint(Shapes(w.groups), reg, g, c);
    var o := RegisterGroupIn(Shapes(w.groups), reg, g, c).state;
    assert (w.cmds[c].arguments + o.received)[..|w.cmds[c].arguments|] == w.cmds[c].arguments;
  }

  /** The lost command lets a group past the registration guard again: a group without subgroups,
      registered to `c` on its own, is refused again, but once added to a group with no command it
      is accepted. Under the append-only `Commands.AddArgument` stub, `c` then receives the group's
      arguments a second time. */
  lemma RegisteredGroupRegistersTwice<V>(w: World<V>, p: GroupId, g: GroupId, c: CmdId)
    requires Valid(w) && p in w.groups && g in w.groups && c in w.cmds
    requires w.groups[g].parentGroup.None? && w.groups[g].parentCommand == Some(c) && w.groups[g].subGroups == []
    requires w.groups[p].parentCommand.None?
    ensures RegisterGroup(w, g, c).error == Some(GroupAlreadyRegistered)
    ensures AddGroup(w, p, g).Success?
    ensures RegisterGroup(AddGroup(w, p, g).value, g, c).error.None?
    ensures RegisterGroup(AddGroup(w, p, g).value, g, c).state.cmds[c].arguments
         == w.cmds[c].arguments + w.groups[g].arguments
  {
    var w1 := Adopt(w, p, g);
    AdoptFrame(w, p, g);
    var sh := Shapes(w1.groups);
    assert sh[g] == Shape(w.groups[g].arguments, []);
    assert WalkAll(sh, [], 0) == Some(Visit([], []));
    var v := Visit([g], w.groups[g].arguments);
    assert [g] + [] == v.groups && w.groups[g].arguments + [] == v.args;
    assert Walk(sh, g, 1) == Some(v);
    assert NoDup(v.groups);
    RegistrationAcceptsFreshWalk(w1, g, c, 1);
    var fuel := RegistrationIsPreorder(w1, g, c);
    WalkMonotone(sh, g, 1, fuel);
  }

  /** A group added to an already registered group inherits its command, so any later registration
      whose walk reaches it fails. */
  lemma LateSubgroupBlocksRegistration<V>(w: World<V>, p: GroupId, g: GroupId, h: GroupId, c: CmdId, fuel: nat)
    requires Valid(w) && p in w.groups && g in w.groups && h in w.groups && c in w.cmds
    requires w.groups[p].parentCommand.Some?
    requires AddGroup(w, p, g).Success?
    requires Walk(Shapes(AddGroup(w, p, g).value.groups), h, fuel).Some?
    requires g in Walk(Shapes(AddGroup(w, p, g).value.groups), h, fuel).value.groups
    ensures RegisterGroup(AddGroup(w, p, g).value, h, c).error == Some(GroupAlreadyRegistered)
  {
    var w' := AddGroup(w, p, g).value;
    ValidClosed(w');
    RegisterGroupSound(Shapes(w'.groups), Registry(Owners(w'.groups), []), h, c, fuel);
  }
}
