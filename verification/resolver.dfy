/** The three set steps of `delete_devices` (compellent/delete_devices.py,
    with the same code in scripts/delete_devices.py): sibling expansion,
    protection filtering, and materialisation of every surviving alias
    into its member disks. The flush and sysfs writes that follow are not
    part of this model; the plan they would act on is. */
module Resolver {
  import opened Results
  import opened Topology

  /** What was asked for: block devices and multipath aliases. */
  datatype Selection = Selection(disks: set<string>, aliases: set<string>)

  /** What would be flushed and deleted, and the protected names the
      refusal message lists. */
  datatype Plan = Plan(disks: set<string>, aliases: set<string>, refused: set<string>)

  /** `device_groups[alias]` on an alias that is not a key raises
      `KeyError`; which of the missing aliases it names depends on set
      iteration order, so all of them are kept. */
  datatype ResolveError = MissingAliases(missing: set<string>)

  /** The aliases among `names` that have `d` as a member. */
  function Holding(groups: map<string, set<string>>, d: string): (r: set<string>)
    ensures forall g :: g in r <==> g in groups && d in groups[g]
  {
    set g | g in groups && d in groups[g]
  }

  /** The aliases with at least one member in `disks`. */
  function Containing(groups: map<string, set<string>>, disks: set<string>): (r: set<string>)
    ensures forall g :: g in r <==> g in groups && exists d :: d in disks && d in groups[g]
  {
    set g, d | g in groups && d in disks && d in groups[g] :: g
  }

  /** The members of every alias of `names` that is a key. */
  function Union(groups: map<string, set<string>>, names: set<string>): (r: set<string>)
    ensures forall x :: x in r <==> exists g :: g in names && g in groups && x in groups[g]
  {
    set g, x | g in names && g in groups && x in groups[g] :: x
  }

  /** Looking up the holders of a set of disks is looking them up one
      disk at a time: the lookup splits over a union of disks. */
  lemma ContainingSplits(groups: map<string, set<string>>, a: set<string>, b: set<string>)
    ensures Containing(groups, a + b) == Containing(groups, a) + Containing(groups, b)
  {
  }

  /** The holders of a single disk. */
  lemma ContainingOne(groups: map<string, set<string>>, d: string)
    ensures Containing(groups, {d}) == Holding(groups, d)
  {
  }

  /** Gathering members splits over a union of aliases. */
  lemma UnionSplits(groups: map<string, set<string>>, a: set<string>, b: set<string>)
    ensures Union(groups, a + b) == Union(groups, a) + Union(groups, b)
  {
  }

  /** Names that are not keys contribute nothing. */
  lemma UnionKeysOnly(groups: map<string, set<string>>, names: set<string>)
    ensures Union(groups, names) == Union(groups, names * groups.Keys)
  {
  }

  // ---------------------------------------------------------------------
  // Step 1: sibling expansion.
  // ---------------------------------------------------------------------

  /** Every alias holding an originally requested disk joins the aliases,
      and its members join the disks. Only the disks asked for are looked
      up: a sibling added here does not pull in further aliases. */
  function Expand(groups: map<string, set<string>>, sel: Selection): (r: Selection)
    ensures sel.disks <= r.disks && sel.aliases <= r.aliases
    ensures forall d, g | d in sel.disks && g in groups && d in groups[g] :: g in r.aliases && groups[g] <= r.disks
    ensures forall g | g in r.aliases && g !in sel.aliases :: g in groups && exists d :: d in sel.disks && d in groups[g]
    ensures forall x | x in r.disks && x !in sel.disks ::
              exists g, d :: g in groups && d in sel.disks && d in groups[g] && x in groups[g]
  {
    var found := Containing(groups, sel.disks);
    Selection(sel.disks + Union(groups, found), sel.aliases + found)
  }

  /** Adding one more alias to a set adds its members to their union. */
  lemma UnionAdd(groups: map<string, set<string>>, names: set<string>, g: string)
    requires g in groups
    ensures Union(groups, names + {g}) == Union(groups, names) + groups[g]
  {
  }

  /** The inner loop of lines 144-151 for one requested disk `d`: every
      alias, taken in any order, is checked for `d`. */
  method AddHolders(groups: map<string, set<string>>, d: string, disks: set<string>, aliases: set<string>)
    returns (disks': set<string>, aliases': set<string>)
    ensures aliases' == aliases + Holding(groups, d)
    ensures disks' == disks + Union(groups, Holding(groups, d))
  {
    disks', aliases' := disks, aliases;
    var keys, seen := groups.Keys, {};
    while keys != {}
      invariant keys + seen == groups.Keys && keys !! seen
      invariant aliases' == aliases + Holding(groups, d) * seen
      invariant disks' == disks + Union(groups, Holding(groups, d) * seen)
      decreases keys
    {
      var g :| g in keys;
      if d in groups[g] {
        assert Holding(groups, d) * (seen + {g}) == Holding(groups, d) * seen + {g};
        UnionAdd(groups, Holding(groups, d) * seen, g);
        aliases', disks' := aliases' + {g}, disks' + groups[g];
      } else {
        assert Holding(groups, d) * (seen + {g}) == Holding(groups, d) * seen;
      }
      keys, seen := keys - {g}, seen + {g};
    }
    assert Holding(groups, d) * seen == Holding(groups, d);
  }

  /** The loop of lines 143-151 as written: each disk of a snapshot of the
      request, taken in any order, against every alias. The order does not
      change the outcome. */
  method ExpandSiblings(groups: map<string, set<string>>, sel: Selection) returns (r: Selection)
    ensures r == Expand(groups, sel)
  {
    var disks, aliases := sel.disks, sel.aliases;
    var todo, done := sel.disks, {};
    while todo != {}
      invariant todo + done == sel.disks && todo !! done
      invariant aliases == sel.aliases + Containing(groups, done)
      invariant disks == sel.disks + Union(groups, Containing(groups, done))
      decreases todo
    {
      var d :| d in todo;
      ContainingStep(groups, done, d);
      SetAssoc(sel.aliases, Containing(groups, done), Holding(groups, d));
      SetAssoc(sel.disks, Union(groups, Containing(groups, done)), Union(groups, Holding(groups, d)));
      disks, aliases := AddHolders(groups, d, disks, aliases);
      MoveOne(sel.disks, todo, done, d);
      todo, done := todo - {d}, done + {d};
    }
    assert done == sel.disks;
    r := Selection(disks, aliases);
  }

  lemma SetAssoc<T>(a: set<T>, b: set<T>, c: set<T>)
    ensures a + b + c == a + (b + c)
  {
  }

  /** One element moves from the work list to the finished set. */
  lemma MoveOne<T>(all: set<T>, todo: set<T>, done: set<T>, d: T)
    requires todo + done == all && todo !! done && d in todo
    ensures (todo - {d}) + (done + {d}) == all && (todo - {d}) !! (done + {d})
  {
  }

  /** The aliases holding one more disk. */
  lemma ContainingStep(groups: map<string, set<string>>, done: set<string>, d: string)
    ensures Containing(groups, done + {d}) == Containing(groups, done) + Holding(groups, d)
    ensures Union(groups, Containing(groups, done + {d}))
            == Union(groups, Containing(groups, done)) + Union(groups, Holding(groups, d))
  {
    assert Containing(groups, done + {d}) == Containing(groups, done) + Holding(groups, d);
  }

  // ---------------------------------------------------------------------
  // Step 2: protection filtering.
  // ---------------------------------------------------------------------

  /** Lines 154-162: the protected names asked for are refused and both
      sets lose every protected name; the run goes on with the rest. The
      subtraction only happens when something was refused, which comes to
      the same as always subtracting. */
  function Filter(sel: Selection, protected: set<string>): (r: (Selection, set<string>))
    ensures r.0.disks == sel.disks - protected && r.0.aliases == sel.aliases - protected
    ensures r.1 == (sel.disks + sel.aliases) * protected
  {
    var refused := protected * sel.disks + protected * sel.aliases;
    if refused != {} then (Selection(sel.disks - protected, sel.aliases - protected), refused)
    else
      NothingToRemove(sel.disks, protected);
      NothingToRemove(sel.aliases, protected);
      (sel, {})
  }

  lemma NothingToRemove(names: set<string>, protected: set<string>)
    ensures protected * names == {} <==> names - protected == names
  {
    if names - protected == names {
      forall x | x in names ensures x !in protected {
        assert x in names - protected;
      }
    }
    if protected * names == {} {
      forall x | x in names ensures x in names - protected {
        assert x !in protected * names;
      }
    }
  }

  // ---------------------------------------------------------------------
  // Step 3: materialisation.
  // ---------------------------------------------------------------------

  /** Lines 164-165: the members of every surviving alias join the disks,
      whether or not they are protected. An alias that is not a key of the
      dictionary raises. */
  function Materialise(groups: map<string, set<string>>, sel: Selection): (r: Result<Selection, ResolveError>)
    ensures r.Success? <==> sel.aliases <= groups.Keys
    ensures r.Failure? ==> r.error.missing == sel.aliases - groups.Keys && r.error.missing != {}
    ensures r.Success? ==> r.value.aliases == sel.aliases && sel.disks <= r.value.disks
    ensures r.Success? ==> forall a | a in sel.aliases :: groups[a] <= r.value.disks
    ensures r.Success? ==> forall x | x in r.value.disks && x !in sel.disks ::
              exists a :: a in sel.aliases && x in groups[a]
  {
    if sel.aliases - groups.Keys != {} then Failure(MissingAliases(sel.aliases - groups.Keys))
    else
      assert forall a | a in sel.aliases :: a !in sel.aliases - groups.Keys;
      Success(Selection(sel.disks + Union(groups, sel.aliases), sel.aliases))
  }

  /** The loop as written, over the aliases in any order. */
  method MaterialiseMembers(groups: map<string, set<string>>, sel: Selection) returns (r: Result<Selection, ResolveError>)
    ensures r == Materialise(groups, sel)
  {
    var disks := sel.disks;
    var todo, done := sel.aliases, {};
    while todo != {}
      invariant todo + done == sel.aliases && todo !! done
      invariant done <= groups.Keys
      invariant disks == sel.disks + Union(groups, done)
      decreases todo
    {
      var a :| a in todo;
      if a !in groups {
        assert a in sel.aliases - groups.Keys;
        return Failure(MissingAliases(sel.aliases - groups.Keys));
      }
      UnionAdd(groups, done, a);
      disks := disks + groups[a];
      todo, done := todo - {a}, done + {a};
    }
    assert done == sel.aliases;
    return Success(Selection(disks, sel.aliases));
  }

  // ---------------------------------------------------------------------
  // The three steps together.
  // ---------------------------------------------------------------------

  /** `delete_devices` up to the point where it acts: the disks and aliases
      it would delete, and the protected names it refused. */
  function Resolve(t: Topology, sel: Selection): (r: Result<Plan, ResolveError>)
    ensures r.Success? ==> r.value.refused == (sel.disks + sel.aliases + Containing(t.groups, sel.disks)
                                              + Union(t.groups, Containing(t.groups, sel.disks))) * t.protected
    ensures r.Success? ==> r.value.aliases * t.protected == {}
    ensures r.Success? ==> forall d | d in sel.disks && d !in t.protected :: d in r.value.disks
    ensures r.Success? ==> forall a | a in sel.aliases && a !in t.protected :: a in r.value.aliases
    ensures r.Success? ==> forall d, g | d in sel.disks && g in t.groups && d in t.groups[g] && g !in t.protected ::
              g in r.value.aliases && t.groups[g] <= r.value.disks
    ensures r.Success? ==> forall a | a in r.value.aliases :: a in t.groups && t.groups[a] <= r.value.disks
  {
    var expanded := Expand(t.groups, sel);
    var (kept, refused) := Filter(expanded, t.protected);
    var m :- Materialise(t.groups, kept);
    Success(Plan(m.disks, m.aliases, refused))
  }

  /** Resolution fails exactly when an unprotected requested alias is not
      in the dictionary: expansion only adds keys, and filtering removes
      the protected ones. An alias named `protected`, popped before, is one
      such alias unless it is itself protected. */
  lemma ResolveFails(t: Topology, sel: Selection)
    ensures Resolve(t, sel).Failure? <==> exists a :: a in sel.aliases && a !in t.protected && a !in t.groups
  {
    var kept := Filter(Expand(t.groups, sel), t.protected).0;
    if exists a :: a in sel.aliases && a !in t.protected && a !in t.groups {
      var a :| a in sel.aliases && a !in t.protected && a !in t.groups;
      assert a in kept.aliases;
    }
  }

  /** Every planned disk was asked for, is a member of an alias holding a
      requested disk, or is a member of a planned alias. */
  lemma PlannedDisksAccounted(t: Topology, sel: Selection, x: string)
    requires Resolve(t, sel).Success?
    requires x in Resolve(t, sel).value.disks
    ensures || x in sel.disks
            || (exists g, d :: g in t.groups && d in sel.disks && d in t.groups[g] && x in t.groups[g])
            || (exists a :: a in Resolve(t, sel).value.aliases && x in t.groups[a])
  {
    var kept := Filter(Expand(t.groups, sel), t.protected).0;
    assert x in kept.disks || exists a :: a in kept.aliases && x in t.groups[a];
  }

  /** Every planned alias was asked for or holds a requested disk. */
  lemma PlannedAliasesRequested(t: Topology, sel: Selection)
    requires Resolve(t, sel).Success?
    ensures forall a | a in Resolve(t, sel).value.aliases ::
              a in sel.aliases || (a in t.groups && exists d :: d in sel.disks && d in t.groups[a])
  {
    var kept := Filter(Expand(t.groups, sel), t.protected).0;
    assert Resolve(t, sel).value.aliases == kept.aliases;
  }

  /** Every alias with a member in `base` is protected. */
  predicate HoldersProtected(t: Topology, base: set<string>) {
    forall g, d | g in t.groups && d in t.groups[g] && d in base :: g in t.protected
  }

  /** Every alias that has a protected member is itself protected. This
      holds when each protected disk reached the set through a mount of its
      alias, but not for a partition or an LVM physical volume on one path
      of a multipath device. */
  predicate MembershipClosed(t: Topology) {
    HoldersProtected(t, t.protected)
  }

  /** No name of `base` is planned for deletion when `base` is protected
      and every alias holding one of its names is protected too. */
  lemma DisksSafeFor(t: Topology, sel: Selection, base: set<string>)
    requires base <= t.protected && HoldersProtected(t, base)
    requires Resolve(t, sel).Success?
    ensures Resolve(t, sel).value.disks * base == {}
  {
    var kept := Filter(Expand(t.groups, sel), t.protected).0;
    var plan := Resolve(t, sel).value;
    forall x | x in plan.disks
      ensures x !in base
    {
      if x !in kept.disks {
        var a :| a in kept.aliases && x in t.groups[a];
        assert a !in t.protected;
      }
    }
  }

  /** A protected disk is never planned for deletion, provided the
      protected set is closed under membership. */
  lemma DisksSafeWhenClosed(t: Topology, sel: Selection)
    requires MembershipClosed(t)
    requires Resolve(t, sel).Success?
    ensures Resolve(t, sel).value.disks * t.protected == {}
  {
    DisksSafeFor(t, sel, t.protected);
  }

  /** Without that precondition the promise fails: the protected path
      `sdc` of the unprotected alias `mpatha` is added back in step 3. */
  lemma ProtectedMemberReadded()
    ensures var t := Topology(map["mpatha" := {"sdb", "sdc"}], {"sdc"});
            var r := Resolve(t, Selection({}, {"mpatha"}));
            && !MembershipClosed(t)
            && r.Success? && "sdc" in r.value.disks && "sdc" in t.protected
  {
    var t := Topology(map["mpatha" := {"sdb", "sdc"}], {"sdc"});
    assert "sdc" in t.groups["mpatha"];
  }

  // ---------------------------------------------------------------------
  // The guarded resolution: an alias with a protected member is treated
  // as protected itself before the three steps run.
  // ---------------------------------------------------------------------

  /** The protected set with every alias holding a protected name added. */
  function Guard(t: Topology): (g: Topology)
    ensures HoldersProtected(g, t.protected)
    ensures g.groups == t.groups && t.protected <= g.protected
    ensures forall x | x in g.protected && x !in t.protected ::
              x in t.groups && exists d :: d in t.protected && d in t.groups[x]
  {
    Topology(t.groups, t.protected + Containing(t.groups, t.protected))
  }

  /** `Resolve` on the guarded topology: neither a protected disk nor a
      protected alias is ever planned, whatever the topology. */
  function ResolveGuarded(t: Topology, sel: Selection): (r: Result<Plan, ResolveError>)
    ensures r.Success? ==> r.value.disks * t.protected == {} && r.value.aliases * t.protected == {}
  {
    GuardedSafe(t, sel);
    Resolve(Guard(t), sel)
  }

  lemma GuardedSafe(t: Topology, sel: Selection)
    ensures Resolve(Guard(t), sel).Success? ==>
              Resolve(Guard(t), sel).value.disks * t.protected == {}
              && Resolve(Guard(t), sel).value.aliases * t.protected == {}
  {
    if Resolve(Guard(t), sel).Success? {
      DisksSafeFor(Guard(t), sel, t.protected);
    }
  }

  /** The guard changes nothing when the set is already closed. */
  lemma GuardKeepsClosed(t: Topology, sel: Selection)
    requires MembershipClosed(t)
    ensures ResolveGuarded(t, sel) == Resolve(t, sel)
  {
    assert Containing(t.groups, t.protected) <= t.protected;
    assert Guard(t) == t;
  }

  /** With the guard, the alias of the counterexample is refused rather
      than flushed, and its protected path is not deleted. */
  lemma GuardRefusesHolder(t: Topology, g: string, x: string)
    requires g in t.groups && x in t.groups[g] && x in t.protected
    ensures ResolveGuarded(t, Selection({}, {g})) == Success(Plan({}, {}, {g}))
  {
    ExpandIdle(t.groups, Selection({}, {g}));
    UnionNone(t.groups);
    var p := Guard(t).protected;
    assert g in p;
    assert {g} - p == {} && ({} + {g}) * p == {g} && {} - p == {};
    var k := Filter(Selection({}, {g}), p);
    assert k == (Selection({}, {}), {g});
    assert k.0.aliases - t.groups.Keys == {};
    assert k.0.disks + Union(t.groups, k.0.aliases) == {};
  }

  // ---------------------------------------------------------------------
  // The scenarios of the sample topology, for any topology of that shape.
  // ---------------------------------------------------------------------

  /** Asking for one path of an alias such as `testvol2` flushes the
      alias and deletes all its paths, `sdg` bringing `sdh`, `sdi` and
      `sdj`. */
  lemma OnePathTakesAll(t: Topology, g: string, d: string)
    requires g in t.groups && d in t.groups[g]
    requires forall h | h in t.groups && d in t.groups[h] :: h == g
    requires t.protected * (t.groups[g] + {g}) == {}
    ensures Resolve(t, Selection({d}, {})) == Success(Plan(t.groups[g], {g}, {}))
  {
    assert Containing(t.groups, {d}) == {g};
    UnionOne(t.groups, g);
    var e := Expand(t.groups, Selection({d}, {}));
    assert e == Selection(t.groups[g], {g});
    NothingToRemove(e.disks, t.protected);
    NothingToRemove(e.aliases, t.protected);
    assert (e.disks + e.aliases) * t.protected == {};
    var k := Filter(e, t.protected);
    assert k == (e, {});
    assert k.0.aliases - t.groups.Keys == {};
    assert k.0.disks + Union(t.groups, k.0.aliases) == t.groups[g];
  }

  /** Asking for a mounted alias such as `testvol1` deletes nothing and
      reports it refused. */
  lemma MountedAliasRefused(t: Topology, a: string)
    requires a in t.protected
    ensures Resolve(t, Selection({}, {a})) == Success(Plan({}, {}, {a}))
  {
    ExpandIdle(t.groups, Selection({}, {a}));
    UnionNone(t.groups);
    assert {a} - t.protected == {} && ({} + {a}) * t.protected == {a} && {} - t.protected == {};
    var k := Filter(Selection({}, {a}), t.protected);
    assert k == (Selection({}, {}), {a});
    assert k.0.aliases - t.groups.Keys == {};
    assert k.0.disks + Union(t.groups, k.0.aliases) == {};
  }

  /** A disk such as `sdz`, in no alias and not protected, passes through
      alone. */
  lemma LoneDiskPasses(t: Topology, d: string)
    requires forall g | g in t.groups :: d !in t.groups[g]
    requires d !in t.protected
    ensures Resolve(t, Selection({d}, {})) == Success(Plan({d}, {}, {}))
  {
    ExpandIdle(t.groups, Selection({d}, {}));
    UnionNone(t.groups);
    assert {d} - t.protected == {d} && ({d} + {}) * t.protected == {};
    var k := Filter(Selection({d}, {}), t.protected);
    assert k == (Selection({d}, {}), {});
    assert k.0.aliases - t.groups.Keys == {};
    assert k.0.disks + Union(t.groups, k.0.aliases) == {d};
  }

  /** The members of one alias. */
  lemma UnionOne(groups: map<string, set<string>>, g: string)
    requires g in groups
    ensures Union(groups, {g}) == groups[g]
  {
    UnionNone(groups);
    UnionAdd(groups, {}, g);
    assert {} + {g} == {g};
  }

  /** Nothing is gathered from no aliases. */
  lemma UnionNone(groups: map<string, set<string>>)
    ensures Union(groups, {}) == {}
  {
    forall x ensures x !in Union(groups, {}) { }
  }

  /** A request of disks no alias holds is not expanded. */
  lemma ExpandIdle(groups: map<string, set<string>>, sel: Selection)
    requires forall g, d | g in groups && d in sel.disks :: d !in groups[g]
    ensures Expand(groups, sel) == sel
  {
    forall g ensures g !in Containing(groups, sel.disks) { }
    assert Containing(groups, sel.disks) == {};
    UnionNone(groups);
  }
}
