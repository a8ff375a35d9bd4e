/** Setting up external libraries: a walk with in-progress flags and cached lookups. */
module Libraries {
  import opened LibraryGraphs
  import opened Graphs
  import opened Wrappers

  // How a setup ends: an exit says what is wrong with which library.
  datatype Outcome =
    | Completed
    | NoExternalLibrary(name: string)
    | NoInternalLibrary(name: string)
    | Cycle(name: string)

  // The part of the build environment the libraries extend.
  class Environment {
    var libs: set<string>
    var defines: seq<string>
    const suffix: string
    const cleaning: bool

    constructor (suffix: string, cleaning: bool)
      ensures libs == {} && defines == [] && this.suffix == suffix && this.cleaning == cleaning
    {
      libs := {};
      defines := [];
      this.suffix := suffix;
      this.cleaning := cleaning;
    }
  }

  type Registry = map<string, Library>

  ghost function DepsOf(ext: Registry): Deps {
    map n | n in ext :: ext[n].extDepNames
  }

  ghost function LinksOf(ext: Registry): map<string, set<string>> {
    map n | n in ext :: ext[n].Links()
  }

  // l is a link name of library n or of one n depends on, directly or not.
  ghost predicate NeedsLibrary(ext: Registry, n: string, l: string) {
    exists x :: x in ext && l in ext[x].libraries && Reaches(DepArcs(DepsOf(ext)), n, x)
  }

  lemma GatheredIsNeeded(ext: Registry, n: string)
    ensures forall l :: l in Gathered(DepsOf(ext), LinksOf(ext), n) <==> NeedsLibrary(ext, n, l)
  {
    hide Reaches, DepArcs, DepsOf;
    forall l | NeedsLibrary(ext, n, l) ensures l in Gathered(DepsOf(ext), LinksOf(ext), n) {
      var x :| x in ext && l in ext[x].libraries && Reaches(DepArcs(DepsOf(ext)), n, x);
      assert x in LinksOf(ext) && l in LinksOf(ext)[x];
    }
  }

  // What libraries named in a list give comes from one of them.
  lemma GatheredAllIsNeeded(ext: Registry, names: seq<string>)
    ensures forall l :: l in GatheredAll(DepsOf(ext), LinksOf(ext), names) <==>
                        exists d :: d in names && NeedsLibrary(ext, d, l)
  {
    forall l ensures l in GatheredAll(DepsOf(ext), LinksOf(ext), names) <==>
                     exists d :: d in names && l in Gathered(DepsOf(ext), LinksOf(ext), d) {
      GatheredFromOne(DepsOf(ext), LinksOf(ext), names, l);
    }
    forall d { GatheredIsNeeded(ext, d); }
    hide *;
  }

  // The registered libraries whose setup has begun and not ended.
  ghost function Begun(ext: Registry): set<string>
    reads ext.Values`addingExtDepends
  {
    set n | n in ext && ext[n].addingExtDepends
  }

  ghost predicate AreNamed(ext: Registry, names: seq<string>, libs: seq<Library>) {
    |libs| == |names| && forall i | 0 <= i < |names| :: names[i] in ext && libs[i] == ext[names[i]]
  }

  ghost predicate Consistent(ext: Registry)
    reads ext.Values`extDeps
  {
    forall n | n in ext :: ext[n].key == n && ext[n].Cached(ext)
  }

  // What an exit reports is so.
  ghost predicate Explained(ext: Registry, names: seq<string>, r: Outcome) {
    match r
    case NoExternalLibrary(x) => x !in ext && ReachedFrom(DepsOf(ext), names, x)
    case Cycle(x) =>
      exists n :: IsCalled(ext, n, x) && ReachedFrom(DepsOf(ext), names, n) && OnCycle(DepArcs(DepsOf(ext)), n)
    case _ => false
  }

  // An unknown name is reported before anything is set up, else what is wrong with the first that fails.
  ghost predicate FirstCulprit(ext: Registry, names: seq<string>, r: Outcome) {
    if AllKnown(ext, names) then
      exists i :: 0 <= i < |names| && !AnyTroubled(DepsOf(ext), {}, names[..i]) && Explained(ext, [names[i]], r)
    else
      r.NoExternalLibrary? && FirstMissing(ext.Keys, names, r.name)
  }

  ghost predicate AllKnown(ext: Registry, names: seq<string>) {
    forall d | d in names :: d in ext
  }

  ghost predicate IsCalled(ext: Registry, key: string, name: string) {
    key in ext && ext[key].name == name
  }

  class Library {
    const name: string
    // What it is registered under, which need not be its name.
    ghost const key: string
    const extDepNames: seq<string>
    const libraries: seq<string>
    var extDeps: Option<seq<Library>>
    var addingExtDepends: bool

    constructor (name: string, ghost key: string, extDepNames: seq<string>, libraries: seq<string>)
      ensures this.name == name && this.key == key && this.extDepNames == extDepNames && this.libraries == libraries
      ensures extDeps == None && !addingExtDepends
    {
      this.name := name;
      this.key := key;
      this.extDepNames := extDepNames;
      this.libraries := libraries;
      extDeps := None;
      addingExtDepends := false;
    }

    ghost function Links(): set<string> {
      set l | l in libraries
    }

    ghost predicate Cached(ext: Registry)
      reads this`extDeps
    {
      extDeps.Some? ==> AreNamed(ext, extDepNames, extDeps.value)
    }

    ghost function Own(ext: Registry): set<string> {
      if this in ext.Values then {key} else {}
    }

    method MarkAdding(adding: bool, ext: Registry)
      requires Consistent(ext)
      modifies this`addingExtDepends
      ensures addingExtDepends == adding
      ensures Begun(ext) == old(Begun(ext)) - Own(ext) + if adding then Own(ext) else {}
    {
      addingExtDepends := adding;
    }

    method AddLibs(env: Environment)
      modifies env`libs
      ensures env.libs == old(env.libs) + Links()
      ensures forall l :: l in env.libs <==> l in old(env.libs) || l in libraries
    {
      env.libs := env.libs + set l | l in libraries;
    }

    // Looks all dependencies up the first time they are asked for.
    method LookUp(ext: Registry) returns (r: Outcome)
      requires Consistent(ext) && Cached(ext)
      modifies this`extDeps
      ensures Consistent(ext) && Cached(ext)
      ensures r.Completed? ==> extDeps.Some?
      ensures !r.Completed? ==> r.NoExternalLibrary? && FirstMissing(ext.Keys, extDepNames, r.name)
    {
      if extDeps.None? {
        var found: seq<Library> := [];
        for i := 0 to |extDepNames|
          invariant AreNamed(ext, extDepNames[..i], found)
        {
          if extDepNames[i] !in ext {
            assert FirstMissing(ext.Keys, extDepNames, extDepNames[i]);
            return NoExternalLibrary(extDepNames[i]);
          }
          found := found + [ext[extDepNames[i]]];
        }
        assert extDepNames[..|extDepNames|] == extDepNames;
        extDeps := Some(found);
      }
      r := Completed;
    }

    // If registered, asked for by libraries that all depend on it; otherwise asked for between walks.
    ghost predicate MayBeAsked(ext: Registry, begun: set<string>) {
      if this in ext.Values then
        key in ext && ext[key] == this && AllLeadTo(DepsOf(ext), begun, key)
      else
        begun == {}
    }

    ghost predicate Askable(ext: Registry)
      reads this`addingExtDepends, ext.Values`addingExtDepends
    {
      MayBeAsked(ext, Begun(ext)) && (this !in ext.Values ==> !addingExtDepends)
    }

    // Fails exactly when this library depends on an unknown library or on a cycle.
    method SetupEnvironment(env: Environment, ext: Registry) returns (r: Outcome)
      requires Consistent(ext) && this in ext.Values && Askable(ext)
      modifies ext.Values, env`libs
      ensures Consistent(ext)
      ensures r.Completed? <==> !Troubled(DepsOf(ext), {}, key)
      ensures r.Completed? ==> Begun(ext) == old(Begun(ext))
      ensures r.Completed? ==> env.libs == old(env.libs) + Gathered(DepsOf(ext), LinksOf(ext), key)
      ensures r.Completed? ==> forall l :: l in env.libs <==> l in old(env.libs) || NeedsLibrary(ext, key, l)
      ensures !r.Completed? ==> Explained(ext, [key], r)
      decreases ext.Keys - Begun(ext), 2
    {
      ghost var deps, links := DepsOf(ext), LinksOf(ext);
      TroubleComesFromDependencies(deps, {}, key);
      GatheredSplits(deps, links, key);
      GatheredIsNeeded(ext, key);
      hide NeedsLibrary, Gathered, GatheredAll;
      r := SetupDependents(env, ext);
      if r.Completed? {
        AddLibs(env);
      } else {
        ExplanationIsTrouble(ext, extDepNames, r);
        ExplanationBehind(ext, key, r);
      }
    }

    method SetupDependents(env: Environment, ext: Registry) returns (r: Outcome)
      requires Consistent(ext) && Cached(ext)
      requires Askable(ext)
      modifies this, ext.Values, env`libs
      ensures Consistent(ext) && (this !in ext.Values ==> Cached(ext))
      ensures r.Completed? ==> Begun(ext) == old(Begun(ext)) && !addingExtDepends && !old(addingExtDepends)
      ensures r.Completed? ==> !AnyTroubled(DepsOf(ext), {}, extDepNames)
      ensures r.Completed? ==> env.libs == old(env.libs) + GatheredAll(DepsOf(ext), LinksOf(ext), extDepNames)
      ensures !r.Completed? ==> Explained(ext, extDepNames, r)
      ensures !r.Completed? && !old(addingExtDepends) ==> FirstCulprit(ext, extDepNames, r)
      decreases ext.Keys - Begun(ext), if this in ext.Values then 1 else 3
    {
      ghost var deps, links, begun, before := DepsOf(ext), LinksOf(ext), Begun(ext), env.libs;
      if addingExtDepends {
        OwnCycleIsExplained(ext, key);
        return Cycle(name);
      }
      r := LookUp(ext);
      if !r.Completed? {
        MissingIsUnknown(ext.Keys, extDepNames, r.name);
        UnknownIsExplained(ext, extDepNames, r.name);
        MissingIsFirstCulprit(ext, extDepNames, r);
        return;
      }
      var libs := extDeps.value;
      NothingFromNothing(deps, links);
      assert extDepNames[..0] == [];
      assert |libs| == |extDepNames| && AreNamed(ext, extDepNames, libs) && MayBeAsked(ext, begun);
      AllNamedAreKnown(ext, extDepNames, libs);
      assert if this in ext.Values then key in ext.Keys - begun && Own(ext) == {key} else Own(ext) == {};
      hide *;
      MarkAdding(true, ext);
      for i := 0 to |libs|
        invariant Consistent(ext) && (this !in ext.Values ==> Cached(ext))
        invariant Begun(ext) == begun + Own(ext)
        invariant !AnyTroubled(deps, {}, extDepNames[..i])
        invariant env.libs == before + GatheredAll(deps, links, extDepNames[..i])
      {
        DependencyIsAskable(ext, this, begun, libs, i);
        ghost var d := extDepNames[i];
        GatheredPrefix(deps, links, extDepNames, i, before);
        TroubledPrefix(deps, {}, extDepNames, i);
        r := libs[i].SetupEnvironment(env, ext);
        if !r.Completed? {
          ExplanationOfMember(ext, extDepNames, d, r);
          IsFirstCulprit(ext, extDepNames, i, r);
          return;
        }
      }
      assert extDepNames[..|libs|] == extDepNames;
      MarkAdding(false, ext);
      r := Completed;
    }
  }

  // Makes a library, or exits because it lists itself.
  method NewLibrary(name: string, ghost key: string, extDepNames: seq<string>, libraries: seq<string>)
    returns (r: Option<Library>)
    ensures r.None? <==> name in extDepNames
    ensures r.Some? ==>
              && fresh(r.value) && r.value.name == name && r.value.key == key
              && r.value.extDepNames == extDepNames && r.value.libraries == libraries
              && r.value.extDeps == None && !r.value.addingExtDepends
  {
    if name in extDepNames {
      return None;
    }
    var lib := new Library(name, key, extDepNames, libraries);
    r := Some(lib);
  }

  lemma OwnCycleIsExplained(ext: Registry, n: string)
    requires n in ext && LeadsTo(DepsOf(ext), n, n)
    ensures Explained(ext, ext[n].extDepNames, Cycle(ext[n].name))
  {
    LeadingToItself(DepsOf(ext), n);
    assert IsCalled(ext, n, ext[n].name);
  }

  lemma UnknownIsExplained(ext: Registry, names: seq<string>, x: string)
    requires x in names && x !in ext
    ensures Explained(ext, names, NoExternalLibrary(x))
  {
    ReachesSelf(DepArcs(DepsOf(ext)), x);
  }

  lemma MissingIsUnknown(known: set<string>, names: seq<string>, x: string)
    requires FirstMissing(known, names, x)
    ensures x in names && x !in known
  {}

  lemma MissingIsFirstCulprit(ext: Registry, names: seq<string>, r: Outcome)
    requires r.NoExternalLibrary? && FirstMissing(ext.Keys, names, r.name)
    ensures FirstCulprit(ext, names, r)
  {}

  lemma AllNamedAreKnown(ext: Registry, names: seq<string>, libs: seq<Library>)
    requires AreNamed(ext, names, libs)
    ensures AllKnown(ext, names)
  {}

  lemma IsFirstCulprit(ext: Registry, names: seq<string>, i: nat, r: Outcome)
    requires i < |names| && AllKnown(ext, names) && Explained(ext, [names[i]], r)
    requires !AnyTroubled(DepsOf(ext), {}, names[..i])
    ensures FirstCulprit(ext, names, r)
  {}

  lemma DependencyIsAskable(ext: Registry, lib: Library, begun: set<string>, libs: seq<Library>, i: nat)
    requires Consistent(ext) && AreNamed(ext, lib.extDepNames, libs) && i < |libs|
    requires lib.MayBeAsked(ext, begun) && Begun(ext) == begun + lib.Own(ext)
    ensures i < |lib.extDepNames| && libs[i] in ext.Values && libs[i].key == lib.extDepNames[i]
    ensures libs[i].Askable(ext)
  {
    if lib in ext.Values {
      BegunLeadToDependency(DepsOf(ext), begun, lib.key, lib.extDepNames[i]);
    }
  }

  // What an exit reports is why setting up could not succeed.
  lemma ExplanationIsTrouble(ext: Registry, names: seq<string>, r: Outcome)
    requires Explained(ext, names, r)
    ensures AnyTroubled(DepsOf(ext), {}, names)
  {
    if r.NoExternalLibrary? {
      BlockedIsTrouble(DepsOf(ext), {}, names, r.name);
    } else {
      var n :| IsCalled(ext, n, r.name) && ReachedFrom(DepsOf(ext), names, n) && OnCycle(DepArcs(DepsOf(ext)), n);
      BlockedIsTrouble(DepsOf(ext), {}, names, n);
    }
  }

  lemma ExplanationBehind(ext: Registry, n: string, r: Outcome)
    requires n in ext && Explained(ext, ext[n].extDepNames, r)
    ensures Explained(ext, [n], r)
  {
    forall x | ReachedFrom(DepsOf(ext), ext[n].extDepNames, x) ensures ReachedFrom(DepsOf(ext), [n], x) {
      ReachedBehind(DepsOf(ext), n, x);
    }
    hide ReachedFrom;
  }

  lemma ExplanationOfMember(ext: Registry, names: seq<string>, d: string, r: Outcome)
    requires d in names && Explained(ext, [d], r)
    ensures Explained(ext, names, r)
  {
    forall x | ReachedFrom(DepsOf(ext), [d], x) ensures ReachedFrom(DepsOf(ext), names, x) {}
    hide ReachedFrom;
  }
}
