/** Setting up internal libraries: each walks its dependencies twice, the second time without its flag. */
module InternalLibraries {
  import opened Graphs
  import opened Libraries
  import opened LibraryGraphs
  import opened Wrappers

  type InternalRegistry = map<string, InternalLibrary>

  ghost function IntDepsOf(ints: InternalRegistry): Deps {
    map n | n in ints :: ints[n].intDepNames
  }

  // Libraries whose external dependencies cannot be set up.
  ghost function Broken(ints: InternalRegistry, ext: Registry): set<string> {
    set n | n in ints && AnyTroubled(DepsOf(ext), {}, ints[n].base.extDepNames)
  }

  ghost function OffersOf(ints: InternalRegistry, ext: Registry, suffix: string): map<string, set<string>> {
    map n | n in ints :: {LinkName(n, suffix)} + ints[n].Brings(ext)
  }

  // l is a link name of library x or of an external one it needs.
  ghost predicate Lists(ints: InternalRegistry, ext: Registry, x: string, l: string)
    requires x in ints
  {
    l in ints[x].base.libraries || exists d :: d in ints[x].base.extDepNames && NeedsLibrary(ext, d, l)
  }

  // l is to be linked against for the sake of library x: what it lists and, unless left out, itself.
  ghost predicate Supplies(ints: InternalRegistry, ext: Registry, suffix: string, x: string, leftOut: bool, l: string)
    requires x in ints
  {
    Lists(ints, ext, x, l) || (l == "ram_" + x + suffix && !leftOut)
  }

  // And for the sake of n and everything it depends on. Being built itself, n is not linked against.
  ghost predicate NeedsLink(ints: InternalRegistry, ext: Registry, suffix: string, n: string, buildingSelf: bool,
                            l: string) {
    exists x :: x in ints && Reaches(DepArcs(IntDepsOf(ints)), n, x)
                && Supplies(ints, ext, suffix, x, buildingSelf && x == n, l)
  }

  lemma OfferedIsSupplied(ints: InternalRegistry, ext: Registry, suffix: string, x: string, l: string)
    requires x in ints
    ensures l in OffersOf(ints, ext, suffix)[x] <==> Supplies(ints, ext, suffix, x, false, l)
    ensures l in ints[x].Brings(ext) <==> Lists(ints, ext, x, l)
  {
    GatheredAllIsNeeded(ext, ints[x].base.extDepNames);
    hide GatheredAll, NeedsLibrary;
  }

  lemma GatheredNeedsLink(ints: InternalRegistry, ext: Registry, suffix: string, n: string, l: string)
    ensures l in Gathered(IntDepsOf(ints), OffersOf(ints, ext, suffix), n) <==>
            NeedsLink(ints, ext, suffix, n, false, l)
  {
    var offers := OffersOf(ints, ext, suffix);
    forall x | x in ints ensures l in offers[x] <==> Supplies(ints, ext, suffix, x, false, l) {
      OfferedIsSupplied(ints, ext, suffix, x, l);
    }
    assert offers.Keys == ints.Keys;
    hide Reaches, DepArcs, IntDepsOf, Supplies, OffersOf;
  }

  function LinkName(name: string, suffix: string): string {
    "ram_" + name + suffix
  }

  ghost function Bases(ints: InternalRegistry): set<Library> {
    set n | n in ints :: ints[n].base
  }

  ghost function IntBegun(ints: InternalRegistry): set<string>
    reads ints.Values`addingIntDepends
  {
    set n | n in ints && ints[n].addingIntDepends
  }

  // No external library is being set up, and every cached lookup is right.
  ghost predicate Prepared(ints: InternalRegistry, ext: Registry)
    reads ints.Values`intDeps, Bases(ints)`extDeps, Bases(ints)`addingExtDepends
    reads ext.Values`extDeps, ext.Values`addingExtDepends
  {
    && Consistent(ext) && Begun(ext) == {}
    && forall n | n in ints :: ints[n].base.name == n && ints[n].Settled(ints, ext)
  }

  ghost predicate AreInternal(ints: InternalRegistry, names: seq<string>, libs: seq<InternalLibrary>) {
    |libs| == |names| && forall i | 0 <= i < |names| :: names[i] in ints && libs[i] == ints[names[i]]
  }

  // What an exit reports is so, of an internal library or of the external ones it needs.
  ghost predicate InternallyExplained(ints: InternalRegistry, ext: Registry, names: seq<string>, r: Outcome) {
    || (r.NoInternalLibrary? && r.name !in ints && ReachedFrom(IntDepsOf(ints), names, r.name))
    || (r.Cycle? && OnCycle(DepArcs(IntDepsOf(ints)), r.name) && ReachedFrom(IntDepsOf(ints), names, r.name))
    || exists n :: ReachedFrom(IntDepsOf(ints), names, n) && ExternallyExplained(ints, ext, n, r)
  }

  // What is wrong with the first of the names that cannot be set up.
  ghost predicate FirstExplained(ints: InternalRegistry, ext: Registry, names: seq<string>, r: Outcome) {
    exists i :: 0 <= i < |names| && !AnyTroubled(IntDepsOf(ints), Broken(ints, ext), names[..i])
                && InternallyExplained(ints, ext, [names[i]], r)
  }

  ghost predicate ExternallyExplained(ints: InternalRegistry, ext: Registry, n: string, r: Outcome) {
    n in ints && Explained(ext, ints[n].base.extDepNames, r)
  }

  class InternalLibrary {
    // The part inherited from Library.
    const base: Library
    const intDepNames: seq<string>
    var intDeps: Option<seq<InternalLibrary>>
    var addingIntDepends: bool

    constructor (base: Library, intDepNames: seq<string>)
      ensures this.base == base && this.intDepNames == intDepNames
      ensures intDeps == None && !addingIntDepends
    {
      this.base := base;
      this.intDepNames := intDepNames;
      intDeps := None;
      addingIntDepends := false;
    }

    // What this library adds beside its own link name and its internal dependencies.
    ghost function Brings(ext: Registry): set<string> {
      base.Links() + GatheredAll(DepsOf(ext), LinksOf(ext), base.extDepNames)
    }

    ghost predicate Settled(ints: InternalRegistry, ext: Registry)
      reads this`intDeps, base`extDeps, base`addingExtDepends
    {
      && base !in ext.Values && !base.addingExtDepends && base.Cached(ext)
      && (intDeps.Some? ==> AreInternal(ints, intDepNames, intDeps.value))
    }

    // Registered, and asked for by libraries that all depend on it.
    ghost predicate MayBeAsked(ints: InternalRegistry, begun: set<string>) {
      base.name in ints && ints[base.name] == this && AllLeadTo(IntDepsOf(ints), begun, base.name)
    }

    method MarkBegun(ints: InternalRegistry, ext: Registry)
      requires Prepared(ints, ext) && base.name in ints && ints[base.name] == this
      modifies this`addingIntDepends
      ensures Prepared(ints, ext) && IntBegun(ints) == old(IntBegun(ints)) + {base.name}
    {
      addingIntDepends := true;
    }

    method MarkDone(ints: InternalRegistry, ext: Registry, ghost begun: set<string>)
      requires Prepared(ints, ext) && base.name in ints && ints[base.name] == this
      requires IntBegun(ints) == begun + {base.name} && base.name !in begun
      modifies this`addingIntDepends
      ensures Prepared(ints, ext) && IntBegun(ints) == begun
    {
      addingIntDepends := false;
    }

    method LookUp(ints: InternalRegistry, ext: Registry) returns (r: Outcome)
      requires Prepared(ints, ext) && this in ints.Values
      modifies this`intDeps
      ensures Prepared(ints, ext) && IntBegun(ints) == old(IntBegun(ints))
      ensures r.Completed? ==> intDeps.Some? && AreInternal(ints, intDepNames, intDeps.value)
      ensures !r.Completed? ==> r.NoInternalLibrary? && FirstMissing(ints.Keys, intDepNames, r.name)
    {
      if intDeps.None? {
        var found: seq<InternalLibrary> := [];
        for i := 0 to |intDepNames|
          invariant AreInternal(ints, intDepNames[..i], found)
        {
          if intDepNames[i] !in ints {
            assert FirstMissing(ints.Keys, intDepNames, intDepNames[i]);
            return NoInternalLibrary(intDepNames[i]);
          }
          found := found + [ints[intDepNames[i]]];
        }
        assert intDepNames[..|intDepNames|] == intDepNames;
        intDeps := Some(found);
      }
      r := Completed;
    }

    // The external part: between walks over external libraries, so none is left half done.
    method SetupBase(env: Environment, ints: InternalRegistry, ext: Registry) returns (r: Outcome)
      requires Prepared(ints, ext) && base.name in ints && ints[base.name] == this
      modifies Bases(ints), ext.Values, env`libs
      ensures IntBegun(ints) == old(IntBegun(ints))
      ensures r.Completed? ==> Prepared(ints, ext) && base.name !in Broken(ints, ext)
      ensures r.Completed? ==>
                env.libs == old(env.libs) + GatheredAll(DepsOf(ext), LinksOf(ext), base.extDepNames)
      ensures !r.Completed? ==> ExternallyExplained(ints, ext, base.name, r)
    {
      r := base.SetupDependents(env, ext);
    }

    // Being built itself, a library is not linked against.
    function OwnLink(suffix: string, buildingSelf: bool): set<string> {
      if buildingSelf then {} else {LinkName(base.name, suffix)}
    }

    method AddOwnLink(env: Environment, buildingSelf: bool, ints: InternalRegistry, ext: Registry)
      modifies env`libs
      ensures env.libs == old(env.libs) + OwnLink(env.suffix, buildingSelf)
      ensures forall l :: l in env.libs <==>
                          l in old(env.libs) || (l == LinkName(base.name, env.suffix) && !buildingSelf)
      ensures Prepared(ints, ext) == old(Prepared(ints, ext)) && IntBegun(ints) == old(IntBegun(ints))
    {
      if !buildingSelf {
        env.libs := env.libs + {LinkName(base.name, env.suffix)};
      }
    }

    method AddBaseLibs(env: Environment, ints: InternalRegistry, ext: Registry)
      modifies env`libs
      ensures env.libs == old(env.libs) + base.Links()
      ensures forall l :: l in env.libs <==> l in old(env.libs) || l in base.libraries
      ensures Prepared(ints, ext) == old(Prepared(ints, ext)) && IntBegun(ints) == old(IntBegun(ints))
    {
      base.AddLibs(env);
    }

    // One pass over the internal dependencies.
    method SetupEach(libs: seq<InternalLibrary>, env: Environment, ints: InternalRegistry, ext: Registry,
                     ghost bound: set<string>)
      returns (r: Outcome)
      requires Prepared(ints, ext) && AreInternal(ints, intDepNames, libs)
      requires CanAskAll(IntDepsOf(ints), IntBegun(ints), intDepNames, bound)
      modifies ints.Values, Bases(ints), ext.Values, env`libs
      ensures r.Completed? ==> Prepared(ints, ext) && IntBegun(ints) == old(IntBegun(ints))
      ensures r.Completed? <==> !AnyTroubled(IntDepsOf(ints), Broken(ints, ext), intDepNames)
      ensures r.Completed? ==>
                env.libs == old(env.libs) + GatheredAll(IntDepsOf(ints), OffersOf(ints, ext, env.suffix), intDepNames)
      ensures !r.Completed? ==> InternallyExplained(ints, ext, intDepNames, r)
      ensures !r.Completed? ==> FirstExplained(ints, ext, intDepNames, r)
      decreases bound, 0
    {
      ghost var deps, broken, offers := IntDepsOf(ints), Broken(ints, ext), OffersOf(ints, ext, env.suffix);
      ghost var begun, before := IntBegun(ints), env.libs;
      NothingFromNothing(deps, offers);
      assert intDepNames[..0] == [];
      assert |libs| == |intDepNames| && AreInternal(ints, intDepNames, libs);
      hide *;
      for i := 0 to |libs|
        invariant Prepared(ints, ext) && IntBegun(ints) == begun
        invariant !AnyTroubled(deps, broken, intDepNames[..i])
        invariant env.libs == before + GatheredAll(deps, offers, intDepNames[..i])
      {
        GatheredPrefix(deps, offers, intDepNames, i, before);
        TroubledPrefix(deps, broken, intDepNames, i);
        DependencyMayBeAsked(ints, ext, intDepNames, libs, i, begun, bound);
        ContributesAll(ints, ext, env.suffix, intDepNames[i]);
        r := libs[i].SetupEnvironment(env, ints, ext, false);
        if !r.Completed? {
          ExplanationOfInternalMember(ints, ext, intDepNames, i, r);
          InternalExplanationIsTrouble(ints, ext, intDepNames, r);
          IsFirstExplained(ints, ext, intDepNames, i, r);
          return;
        }
      }
      assert intDepNames[..|libs|] == intDepNames;
      r := Completed;
    }

    // Both passes over the internal dependencies, the first with the flag set.
    method SetupInternalDependents(env: Environment, ints: InternalRegistry, ext: Registry) returns (r: Outcome)
      requires Prepared(ints, ext) && MayBeAsked(ints, IntBegun(ints)) && base.name !in Broken(ints, ext)
      modifies ints.Values, Bases(ints), ext.Values, env`libs
      ensures r.Completed? ==> Prepared(ints, ext) && IntBegun(ints) == old(IntBegun(ints))
      ensures r.Completed? <==> !Troubled(IntDepsOf(ints), Broken(ints, ext), base.name)
      ensures r.Completed? ==>
                env.libs == old(env.libs) + GatheredAll(IntDepsOf(ints), OffersOf(ints, ext, env.suffix), intDepNames)
      ensures !r.Completed? ==> InternallyExplained(ints, ext, [base.name], r)
      decreases Ahead(IntDepsOf(ints), IntBegun(ints), base.name), 1
    {
      ghost var n, deps, broken, begun := base.name, IntDepsOf(ints), Broken(ints, ext), IntBegun(ints);
      ghost var bound, before := Ahead(deps, begun, n), env.libs;
      assert n in deps && deps[n] == intDepNames && n in ints && ints[n] == this && AllLeadTo(deps, begun, n);
      assert addingIntDepends <==> n in begun;
      hide *;
      if addingIntDepends {
        CycleExplains(ints, ext, begun, n);
        return Cycle(base.name);
      }
      r := LookUp(ints, ext);
      if !r.Completed? {
        MissingIsUnknown(ints.Keys, intDepNames, r.name);
        UnknownExplains(ints, ext, n, r);
        return;
      }
      TroubleComesFromDependencies(deps, broken, n);
      var libs := intDeps.value;
      MarkBegun(ints, ext);
      AllCanBeAskedFirst(deps, begun, n);
      r := SetupEach(libs, env, ints, ext, bound);
      if !r.Completed? {
        InternalExplanationBehind(ints, ext, n, r);
        return;
      }
      MarkDone(ints, ext, begun);
      AllCanBeAskedAgain(deps, broken, begun, n);
      AddedTwice(before, GatheredAll(deps, OffersOf(ints, ext, env.suffix), intDepNames));
      r := SetupEach(libs, env, ints, ext, bound);
    }

    // Fails exactly when this library needs, directly or not, an internal library that is unknown, on a
    // cycle, or in need of an external library that is unknown or on a cycle.
    method SetupEnvironment(env: Environment, ints: InternalRegistry, ext: Registry, buildingSelf: bool)
      returns (r: Outcome)
      requires Prepared(ints, ext) && MayBeAsked(ints, IntBegun(ints))
      modifies ints.Values, Bases(ints), ext.Values, env`libs
      ensures r.Completed? ==> Prepared(ints, ext) && IntBegun(ints) == old(IntBegun(ints))
      ensures r.Completed? <==> !Troubled(IntDepsOf(ints), Broken(ints, ext), base.name)
      ensures r.Completed? ==> env.libs == old(env.libs) + Contributes(ints, ext, env.suffix, buildingSelf)
      ensures r.Completed? ==>
                forall l :: l in env.libs <==>
                            l in old(env.libs) || NeedsLink(ints, ext, env.suffix, base.name, buildingSelf, l)
      ensures r.Completed? && buildingSelf ==>
                var own := LinkName(base.name, env.suffix);
                own in env.libs <==> own in old(env.libs) || ListedByNeeded(ints, ext, base.name, own)
      ensures !r.Completed? ==> InternallyExplained(ints, ext, [base.name], r)
      ensures !r.Completed? && base.name in Broken(ints, ext) ==> ExternallyExplained(ints, ext, base.name, r)
      decreases Ahead(IntDepsOf(ints), IntBegun(ints), base.name), 2
    {
      ghost var before := env.libs;
      assert base.name in ints && ints[base.name] == this;
      hide *;
      AddOwnLink(env, buildingSelf, ints, ext);
      r := SetupBase(env, ints, ext);
      if !r.Completed? {
        BaseExplains(ints, ext, base.name, r);
        return;
      }
      r := SetupInternalDependents(env, ints, ext);
      if r.Completed? {
        AddBaseLibs(env, ints, ext);
        AddsUp(ints, ext, env.suffix, this, buildingSelf, before);
        SoundIsOnNoCycle(IntDepsOf(ints), Broken(ints, ext), base.name);
        ContributesLinks(ints, ext, env.suffix, base.name, buildingSelf);
        OwnNameStaysOut(ints, ext, env.suffix, base.name);
      }
    }

    // Everything one setup adds: with building_self, all but the library's own link name.
    ghost function Contributes(ints: InternalRegistry, ext: Registry, suffix: string, buildingSelf: bool): set<string> {
      OwnLink(suffix, buildingSelf) + Brings(ext)
      + GatheredAll(IntDepsOf(ints), OffersOf(ints, ext, suffix), intDepNames)
    }
  }

  // Makes an internal library, or exits because it lists itself among either kind of dependency.
  method NewInternalLibrary(name: string, intDepNames: seq<string>, extDepNames: seq<string>, libraries: seq<string>)
    returns (r: Option<InternalLibrary>)
    ensures r.None? <==> name in extDepNames || name in intDepNames
    ensures r.Some? ==>
              && fresh(r.value) && fresh(r.value.base) && r.value.base.name == name
              && r.value.base.extDepNames == extDepNames && r.value.base.libraries == libraries
              && r.value.intDepNames == intDepNames
              && r.value.intDeps == None && !r.value.addingIntDepends
              && r.value.base.extDeps == None && !r.value.base.addingExtDepends
  {
    var base := NewLibrary(name, name, extDepNames, libraries);
    if base.None? || name in intDepNames {
      return None;
    }
    var lib := new InternalLibrary(base.value, intDepNames);
    r := Some(lib);
  }

  ghost predicate CanAskAll(deps: Deps, begun: set<string>, names: seq<string>, bound: set<string>) {
    forall d | d in names :: AllLeadTo(deps, begun, d) && Ahead(deps, begun, d) < bound
  }

  lemma AllCanBeAskedFirst(deps: Deps, begun: set<string>, n: string)
    requires n in deps && n !in begun && AllLeadTo(deps, begun, n)
    ensures CanAskAll(deps, begun + {n}, deps[n], Ahead(deps, begun, n))
  {
    forall d | d in deps[n]
      ensures AllLeadTo(deps, begun + {n}, d) && Ahead(deps, begun + {n}, d) < Ahead(deps, begun, n)
    {
      BegunLeadToDependency(deps, begun, n, d);
      FewerAhead(deps, begun, n, d);
    }
  }

  // That the first pass succeeded shows that the second, unflagged one ends.
  lemma AllCanBeAskedAgain(deps: Deps, broken: set<string>, begun: set<string>, n: string)
    requires n in deps && n !in begun && AllLeadTo(deps, begun, n)
    requires !AnyTroubled(deps, broken, deps[n])
    ensures CanAskAll(deps, begun, deps[n], Ahead(deps, begun, n))
  {
    forall d | d in deps[n]
      ensures AllLeadTo(deps, begun, d) && Ahead(deps, begun, d) < Ahead(deps, begun, n)
    {
      BegunLeadToDependency(deps, begun, n, d);
      BegunLeadToAny(deps, begun + {n}, begun, d);
      SoundDependencyDoesNotReturn(deps, broken, n, d);
      FewerAhead(deps, begun, n, d);
    }
  }

  lemma DependencyMayBeAsked(ints: InternalRegistry, ext: Registry, names: seq<string>, libs: seq<InternalLibrary>,
                             i: nat, begun: set<string>, bound: set<string>)
    requires Prepared(ints, ext) && AreInternal(ints, names, libs) && i < |libs|
    requires CanAskAll(IntDepsOf(ints), begun, names, bound)
    ensures i < |names| && names[i] in ints && ints[names[i]] == libs[i] && libs[i].base.name == names[i]
    ensures libs[i].MayBeAsked(ints, begun)
    ensures Ahead(IntDepsOf(ints), begun, names[i]) < bound
  {}

  lemma AddedTwice(before: set<string>, added: set<string>)
    ensures before + added + added == before + added
  {}

  lemma AddsUp(ints: InternalRegistry, ext: Registry, suffix: string, lib: InternalLibrary, buildingSelf: bool,
               before: set<string>)
    ensures before + lib.OwnLink(suffix, buildingSelf) + GatheredAll(DepsOf(ext), LinksOf(ext), lib.base.extDepNames)
          + GatheredAll(IntDepsOf(ints), OffersOf(ints, ext, suffix), lib.intDepNames)
          + lib.base.Links()
         == before + lib.Contributes(ints, ext, suffix, buildingSelf)
  {
    hide GatheredAll;
  }

  lemma ContributesAll(ints: InternalRegistry, ext: Registry, suffix: string, n: string)
    requires n in ints && ints[n].base.name == n
    ensures ints[n].Contributes(ints, ext, suffix, false)
         == Gathered(IntDepsOf(ints), OffersOf(ints, ext, suffix), n)
  {
    GatheredSplits(IntDepsOf(ints), OffersOf(ints, ext, suffix), n);
  }

  lemma NeededAfterArc(ints: InternalRegistry, ext: Registry, suffix: string, n: string, d: string, l: string)
    requires n in ints && d in ints[n].intDepNames && NeedsLink(ints, ext, suffix, d, false, l)
    requires !OnCycle(DepArcs(IntDepsOf(ints)), n)
    ensures NeedsLink(ints, ext, suffix, n, true, l) && NeedsLink(ints, ext, suffix, n, false, l)
  {
    hide Supplies;
    var deps := IntDepsOf(ints);
    var x :| x in ints && Reaches(DepArcs(deps), d, x) && Supplies(ints, ext, suffix, x, false, l);
    ReachesAfterArc(DepArcs(deps), n, d, x);
    if x == n {
      CycleThroughArc(DepArcs(deps), n, d);
    }
  }

  lemma NeededFromArc(ints: InternalRegistry, ext: Registry, suffix: string, n: string, buildingSelf: bool, l: string)
    requires n in ints && NeedsLink(ints, ext, suffix, n, buildingSelf, l)
    requires !Supplies(ints, ext, suffix, n, buildingSelf, l)
    ensures exists d :: d in ints[n].intDepNames && NeedsLink(ints, ext, suffix, d, false, l)
  {
    hide Supplies;
    var deps := IntDepsOf(ints);
    var x :| x in ints && Reaches(DepArcs(deps), n, x) && Supplies(ints, ext, suffix, x, buildingSelf && x == n, l);
    var d := FirstArc(DepArcs(deps), n, x);
    assert Reaches(DepArcs(deps), d, x) && Supplies(ints, ext, suffix, x, false && x == d, l);
    assert NeedsLink(ints, ext, suffix, d, false, l);
  }

  // A setup adds the names that are needed and no others.
  lemma ContributesLinks(ints: InternalRegistry, ext: Registry, suffix: string, n: string, buildingSelf: bool)
    requires n in ints && ints[n].base.name == n && !OnCycle(DepArcs(IntDepsOf(ints)), n)
    ensures forall l :: l in ints[n].Contributes(ints, ext, suffix, buildingSelf) <==>
                        NeedsLink(ints, ext, suffix, n, buildingSelf, l)
  {
    var deps, offers := IntDepsOf(ints), OffersOf(ints, ext, suffix);
    var fromDeps := GatheredAll(deps, offers, ints[n].intDepNames);
    forall l ensures l in fromDeps <==>
                     exists d :: d in ints[n].intDepNames && NeedsLink(ints, ext, suffix, d, false, l) {
      GatheredFromOne(deps, offers, ints[n].intDepNames, l);
      forall d { GatheredNeedsLink(ints, ext, suffix, d, l); }
      hide *;
    }
    forall l ensures l in ints[n].OwnLink(suffix, buildingSelf) + ints[n].Brings(ext) <==>
                     Supplies(ints, ext, suffix, n, buildingSelf, l) {
      OfferedIsSupplied(ints, ext, suffix, n, l);
    }
    forall l ensures l in ints[n].Contributes(ints, ext, suffix, buildingSelf) <==>
                     NeedsLink(ints, ext, suffix, n, buildingSelf, l) {
      LinkedIffNeeded(ints, ext, suffix, n, buildingSelf, l);
    }
  }

  lemma LinkedIffNeeded(ints: InternalRegistry, ext: Registry, suffix: string, n: string, buildingSelf: bool,
                        l: string)
    requires n in ints && !OnCycle(DepArcs(IntDepsOf(ints)), n)
    ensures NeedsLink(ints, ext, suffix, n, buildingSelf, l) <==>
              || Supplies(ints, ext, suffix, n, buildingSelf, l)
              || exists d :: d in ints[n].intDepNames && NeedsLink(ints, ext, suffix, d, false, l)
  {
    hide Supplies;
    if Supplies(ints, ext, suffix, n, buildingSelf, l) {
      ReachesSelf(DepArcs(IntDepsOf(ints)), n);
    } else if NeedsLink(ints, ext, suffix, n, buildingSelf, l) {
      NeededFromArc(ints, ext, suffix, n, buildingSelf, l);
    }
    if d :| d in ints[n].intDepNames && NeedsLink(ints, ext, suffix, d, false, l) {
      NeededAfterArc(ints, ext, suffix, n, d, l);
    }
  }

  // ---------- Building a library itself ----------

  lemma LinkNamesDiffer(a: string, b: string, suffix: string)
    ensures LinkName(a, suffix) == LinkName(b, suffix) <==> a == b
    ensures |LinkName(a, suffix)| == 4 + |a| + |suffix| && LinkName(a, suffix)[..4] == "ram_"
  {
    if LinkName(a, suffix) == LinkName(b, suffix) {
      assert |a| == |b|;
      assert LinkName(a, suffix)[4..4 + |a|] == a && LinkName(b, suffix)[4..4 + |b|] == b;
    }
  }

  // Something n needs, or n itself, lists l.
  ghost predicate ListedByNeeded(ints: InternalRegistry, ext: Registry, n: string, l: string) {
    exists x :: x in ints && Reaches(DepArcs(IntDepsOf(ints)), n, x) && Lists(ints, ext, x, l)
  }

  lemma SuppliedIsListed(ints: InternalRegistry, ext: Registry, suffix: string, n: string, x: string)
    requires x in ints
    ensures Supplies(ints, ext, suffix, x, x == n, LinkName(n, suffix)) <==> Lists(ints, ext, x, LinkName(n, suffix))
  {
    LinkNamesDiffer(n, x, suffix);
  }

  // A library being built itself is linked against itself only if something it needs lists that name.
  lemma OwnNameStaysOut(ints: InternalRegistry, ext: Registry, suffix: string, n: string)
    ensures NeedsLink(ints, ext, suffix, n, true, LinkName(n, suffix)) <==>
            ListedByNeeded(ints, ext, n, LinkName(n, suffix))
  {
    var l := LinkName(n, suffix);
    forall x | x in ints ensures Supplies(ints, ext, suffix, x, x == n, l) <==> Lists(ints, ext, x, l) {
      SuppliedIsListed(ints, ext, suffix, n, x);
    }
    hide Supplies, LinkName, Reaches, DepArcs, IntDepsOf;
  }

  // Apart from that name, it makes no difference whether a library is being built itself.
  lemma OwnNameIsTheDifference(ints: InternalRegistry, ext: Registry, suffix: string, n: string, l: string)
    requires n in ints
    ensures NeedsLink(ints, ext, suffix, n, false, l) <==>
            NeedsLink(ints, ext, suffix, n, true, l) || l == LinkName(n, suffix)
  {
    ReachesSelf(DepArcs(IntDepsOf(ints)), n);
    hide Lists, Reaches, DepArcs, IntDepsOf;
    if x :| x in ints && Reaches(DepArcs(IntDepsOf(ints)), n, x) && Supplies(ints, ext, suffix, x, false, l) {
      assert Supplies(ints, ext, suffix, x, true && x == n, l) || l == LinkName(n, suffix);
    }
    if x :| x in ints && Reaches(DepArcs(IntDepsOf(ints)), n, x) && Supplies(ints, ext, suffix, x, true && x == n, l) {
      assert Supplies(ints, ext, suffix, x, false && x == n, l);
    }
    if l == LinkName(n, suffix) {
      assert Supplies(ints, ext, suffix, n, false && n == n, l);
    }
  }

  lemma BaseExplains(ints: InternalRegistry, ext: Registry, n: string, r: Outcome)
    requires ExternallyExplained(ints, ext, n, r)
    ensures InternallyExplained(ints, ext, [n], r) && Troubled(IntDepsOf(ints), Broken(ints, ext), n)
  {
    ReachesSelf(DepArcs(IntDepsOf(ints)), n);
    assert n in [n];
    OwnTrouble(ints, ext, n, r);
  }

  lemma CycleExplains(ints: InternalRegistry, ext: Registry, begun: set<string>, n: string)
    requires n in begun && AllLeadTo(IntDepsOf(ints), begun, n)
    ensures InternallyExplained(ints, ext, [n], Cycle(n)) && Troubled(IntDepsOf(ints), Broken(ints, ext), n)
  {
    LeadingToItself(IntDepsOf(ints), n);
    ReachesSelf(DepArcs(IntDepsOf(ints)), n);
    assert n in [n];
    OwnTrouble(ints, ext, n, Cycle(n));
  }

  lemma ExplanationOfInternalMember(ints: InternalRegistry, ext: Registry, names: seq<string>, i: nat, r: Outcome)
    requires i < |names| && InternallyExplained(ints, ext, [names[i]], r)
    ensures InternallyExplained(ints, ext, names, r)
  {
    forall x | ReachedFrom(IntDepsOf(ints), [names[i]], x) ensures ReachedFrom(IntDepsOf(ints), names, x) {}
    hide ReachedFrom;
  }

  lemma IsFirstExplained(ints: InternalRegistry, ext: Registry, names: seq<string>, i: nat, r: Outcome)
    requires i < |names| && InternallyExplained(ints, ext, [names[i]], r)
    requires !AnyTroubled(IntDepsOf(ints), Broken(ints, ext), names[..i])
    ensures FirstExplained(ints, ext, names, r)
  {}

  lemma InternalExplanationBehind(ints: InternalRegistry, ext: Registry, n: string, r: Outcome)
    requires n in ints && InternallyExplained(ints, ext, ints[n].intDepNames, r)
    ensures InternallyExplained(ints, ext, [n], r) && Troubled(IntDepsOf(ints), Broken(ints, ext), n)
  {
    var deps := IntDepsOf(ints);
    forall x | ReachedFrom(deps, deps[n], x) ensures ReachedFrom(deps, [n], x) {
      ReachedBehind(deps, n, x);
    }
    hide ReachedFrom;
    OwnTrouble(ints, ext, n, r);
  }

  lemma UnknownExplains(ints: InternalRegistry, ext: Registry, n: string, r: Outcome)
    requires n in ints && r.NoInternalLibrary? && r.name !in ints && r.name in ints[n].intDepNames
    ensures InternallyExplained(ints, ext, [n], r) && Troubled(IntDepsOf(ints), Broken(ints, ext), n)
  {
    ReachesSelf(DepArcs(IntDepsOf(ints)), r.name);
    InternalExplanationBehind(ints, ext, n, r);
  }

  lemma OwnTrouble(ints: InternalRegistry, ext: Registry, n: string, r: Outcome)
    requires InternallyExplained(ints, ext, [n], r)
    ensures Troubled(IntDepsOf(ints), Broken(ints, ext), n)
  {
    InternalExplanationIsTrouble(ints, ext, [n], r);
  }

  lemma InternalExplanationIsTrouble(ints: InternalRegistry, ext: Registry, names: seq<string>, r: Outcome)
    requires InternallyExplained(ints, ext, names, r)
    ensures AnyTroubled(IntDepsOf(ints), Broken(ints, ext), names)
  {
    var deps, broken := IntDepsOf(ints), Broken(ints, ext);
    forall x | ReachedFrom(deps, names, x) && Blocked(deps, broken, x) ensures AnyTroubled(deps, broken, names) {
      BlockedIsTrouble(deps, broken, names, x);
    }
    if n :| ReachedFrom(deps, names, n) && ExternallyExplained(ints, ext, n, r) {
      ExplanationIsTrouble(ext, ints[n].base.extDepNames, r);
      assert Blocked(deps, broken, n);
    } else {
      assert Blocked(deps, broken, r.name);
    }
  }
}
