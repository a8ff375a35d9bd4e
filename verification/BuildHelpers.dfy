/** Adding the libraries a program names to its build environment. */
module BuildHelpers {
  import opened Graphs
  import opened InternalLibraries
  import opened Libraries
  import opened LibraryGraphs
  import opened Sequences

  // Nothing is being set up.
  ghost predicate Idle(ints: InternalRegistry, ext: Registry)
    reads ints.Values`intDeps, ints.Values`addingIntDepends, Bases(ints)`extDeps, Bases(ints)`addingExtDepends
    reads ext.Values`extDeps, ext.Values`addingExtDepends
  {
    Prepared(ints, ext) && IntBegun(ints) == {}
  }

  // remove_item for one item: the list without its first occurrence, if there is one.
  function WithoutFirst(s: seq<string>, x: string): (r: seq<string>)
    ensures multiset(r) == multiset(s) - multiset{x}
    ensures x !in s ==> r == s
  {
    if s == [] then []
    else
      assert s == [s[0]] + s[1..];
      if s[0] == x then s[1..] else [s[0]] + WithoutFirst(s[1..], x)
  }

  lemma {:induction false} FirstIsTakenOut(before: seq<string>, x: string, after: seq<string>)
    requires x !in before
    ensures WithoutFirst(before + [x] + after, x) == before + after
  {
    hide WithoutFirst;
    Associative(before, [x], after);
    if before == [] {
      WithoutHead(x, after, x);
      NothingBefore(before, [x] + after);
      NothingBefore(before, after);
    } else {
      var rest := before[1..];
      FirstIsTakenOut(rest, x, after);
      Associative(rest, [x], after);
      HeadApart(before, [x] + after);
      HeadApart(before, after);
      WithoutHead(before[0], rest + [x] + after, x);
    }
  }

  lemma WithoutHead(head: string, t: seq<string>, x: string)
    ensures WithoutFirst([head] + t, x) == if head == x then t else [head] + WithoutFirst(t, x)
  {
    assert ([head] + t)[1..] == t;
  }

  lemma NothingBefore(s: seq<string>, t: seq<string>)
    requires s == []
    ensures s + t == t
  {}

  lemma HeadApart(s: seq<string>, t: seq<string>)
    requires s != []
    ensures s + t == [s[0]] + (s[1..] + t)
  {}

  method AddExternal(env: Environment, name: string, ext: Registry) returns (r: Outcome)
    requires Consistent(ext) && Begun(ext) == {}
    modifies ext.Values, env`libs, env`defines
    ensures r.Completed? <==> env.cleaning || !Troubled(DepsOf(ext), {}, name)
    ensures r.Completed? ==> env.defines == WithoutFirst(old(env.defines), "NDEBUG")
    ensures r.Completed? ==> Consistent(ext) && Begun(ext) == {}
    ensures r.Completed? ==>
              env.libs == old(env.libs) + if env.cleaning then {} else Gathered(DepsOf(ext), LinksOf(ext), name)
    ensures r.Completed? ==>
              forall l :: l in env.libs <==> l in old(env.libs) || (!env.cleaning && NeedsLibrary(ext, name, l))
    ensures !r.Completed? ==> Explained(ext, [name], r)
  {
    hide *;
    r := Completed;
    if !env.cleaning {
      if name !in ext {
        UnknownIsExplained(ext, [name], name);
        ExplanationIsTrouble(ext, [name], NoExternalLibrary(name));
        return NoExternalLibrary(name);
      }
      MayBeAskedFirst(ext, name);
      r := ext[name].SetupEnvironment(env, ext);
      if !r.Completed? {
        return;
      }
    }
    env.defines := WithoutFirst(env.defines, "NDEBUG");
  }

  lemma MayBeAskedFirst(ext: Registry, name: string)
    requires Consistent(ext) && Begun(ext) == {} && name in ext
    ensures ext[name] in ext.Values && ext[name].Askable(ext) && ext[name].key == name
  {}

  method AddInternal(env: Environment, name: string, ints: InternalRegistry, ext: Registry)
    returns (r: Outcome)
    requires Idle(ints, ext)
    modifies ints.Values, Bases(ints), ext.Values, env`libs
    ensures r.Completed? <==> env.cleaning || !Troubled(IntDepsOf(ints), Broken(ints, ext), name)
    ensures r.Completed? ==> Idle(ints, ext)
    ensures r.Completed? ==>
              env.libs == old(env.libs)
                + if env.cleaning then {} else Gathered(IntDepsOf(ints), OffersOf(ints, ext, env.suffix), name)
    ensures r.Completed? ==>
              forall l :: l in env.libs <==>
                          l in old(env.libs) || (!env.cleaning && NeedsLink(ints, ext, env.suffix, name, false, l))
    ensures !r.Completed? ==> InternallyExplained(ints, ext, [name], r)
  {
    if env.cleaning {
      return Completed;
    }
    if name !in ints {
      ReachesSelf(DepArcs(IntDepsOf(ints)), name);
      assert name in [name];
      OwnTrouble(ints, ext, name, NoInternalLibrary(name));
      return NoInternalLibrary(name);
    }
    ContributesAll(ints, ext, env.suffix, name);
    r := ints[name].SetupEnvironment(env, ints, ext, false);
  }

  lemma AllLinked(ints: InternalRegistry, ext: Registry, suffix: string, names: seq<string>)
    ensures forall l :: l in GatheredAll(IntDepsOf(ints), OffersOf(ints, ext, suffix), names) <==>
                        exists n :: n in names && NeedsLink(ints, ext, suffix, n, false, l)
  {
    hide *;
    forall l ensures l in GatheredAll(IntDepsOf(ints), OffersOf(ints, ext, suffix), names) <==>
                     exists n :: n in names && NeedsLink(ints, ext, suffix, n, false, l) {
      GatheredFromOne(IntDepsOf(ints), OffersOf(ints, ext, suffix), names, l);
      forall n { GatheredNeedsLink(ints, ext, suffix, n, l); }
    }
  }

  // Adds a list of internal libraries: what they need is added, all of it and nothing else.
  method AddIntDeps(env: Environment, names: seq<string>, ints: InternalRegistry, ext: Registry)
    returns (r: Outcome)
    requires Idle(ints, ext)
    modifies ints.Values, Bases(ints), ext.Values, env`libs
    ensures r.Completed? <==> env.cleaning || !AnyTroubled(IntDepsOf(ints), Broken(ints, ext), names)
    ensures r.Completed? ==> Idle(ints, ext)
    ensures r.Completed? ==>
              env.libs == old(env.libs)
                + if env.cleaning then {} else GatheredAll(IntDepsOf(ints), OffersOf(ints, ext, env.suffix), names)
    ensures r.Completed? ==>
              forall l :: l in env.libs <==>
                          || l in old(env.libs)
                          || (!env.cleaning
                              && exists n :: n in names && NeedsLink(ints, ext, env.suffix, n, false, l))
    ensures !r.Completed? ==> InternallyExplained(ints, ext, names, r) && FirstExplained(ints, ext, names, r)
  {
    ghost var deps, broken, offers := IntDepsOf(ints), Broken(ints, ext), OffersOf(ints, ext, env.suffix);
    ghost var before := env.libs;
    NothingFromNothing(deps, offers);
    assert names[..0] == [];
    hide *;
    for i := 0 to |names|
      invariant Idle(ints, ext)
      invariant env.cleaning || !AnyTroubled(deps, broken, names[..i])
      invariant env.libs == before + if env.cleaning then {} else GatheredAll(deps, offers, names[..i])
    {
      GatheredPrefix(deps, offers, names, i, before);
      TroubledPrefix(deps, broken, names, i);
      r := AddInternal(env, names[i], ints, ext);
      if !r.Completed? {
        ExplanationOfInternalMember(ints, ext, names, i, r);
        InternalExplanationIsTrouble(ints, ext, names, r);
        IsFirstExplained(ints, ext, names, i, r);
        return;
      }
    }
    assert names[..|names|] == names;
    AllLinked(ints, ext, env.suffix, names);
    r := Completed;
  }

  // Every internal library needed, directly or not, is linked against, with the libraries it brings.
  lemma NeededIsLinked(ints: InternalRegistry, ext: Registry, suffix: string, names: seq<string>, x: string)
    requires x in ints && ReachedFrom(IntDepsOf(ints), names, x)
    ensures {LinkName(x, suffix)} + ints[x].Brings(ext)
         <= GatheredAll(IntDepsOf(ints), OffersOf(ints, ext, suffix), names)
  {
    var offers := OffersOf(ints, ext, suffix);
    forall l | l in offers[x] ensures l in GatheredAll(IntDepsOf(ints), offers, names) {
      assert x in offers;
    }
  }

  // And every external library one of them needs, directly or not.
  lemma NeededExternalIsLinked(ints: InternalRegistry, ext: Registry, suffix: string, names: seq<string>,
                               x: string, e: string)
    requires x in ints && ReachedFrom(IntDepsOf(ints), names, x)
    requires e in ext && ReachedFrom(DepsOf(ext), ints[x].base.extDepNames, e)
    ensures ext[e].Links() <= GatheredAll(IntDepsOf(ints), OffersOf(ints, ext, suffix), names)
  {
    NeededIsLinked(ints, ext, suffix, names, x);
    forall l | l in LinksOf(ext)[e] ensures l in ints[x].Brings(ext) {}
  }

  // The order in which libraries are named, and naming one twice, make no difference.
  lemma OrderDoesNotMatter(deps: Deps, broken: set<string>, offers: map<string, set<string>>,
                           names: seq<string>, others: seq<string>)
    requires forall n :: n in names <==> n in others
    ensures AnyTroubled(deps, broken, names) <==> AnyTroubled(deps, broken, others)
    ensures GatheredAll(deps, offers, names) == GatheredAll(deps, offers, others)
  {
    forall x ensures ReachedFrom(deps, names, x) <==> ReachedFrom(deps, others, x) {}
    hide ReachedFrom;
  }
}
