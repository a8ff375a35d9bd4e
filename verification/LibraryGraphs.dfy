/** What setting up a library must bring in, and what makes it fail, stated on names alone. */
module LibraryGraphs {
  import opened Graphs

  type Deps = map<string, seq<string>>

  // (a, b): library a lists b among its dependencies.
  ghost function DepArcs(deps: Deps): set<(string, string)> {
    set a, b | a in deps && b in deps[a] :: (a, b)
  }

  // x cannot be set up whatever its dependencies do: unknown, broken by itself, or on a cycle.
  ghost predicate Blocked(deps: Deps, broken: set<string>, x: string) {
    x !in deps || x in broken || OnCycle(DepArcs(deps), x)
  }

  // Something n depends on, directly or not, or n itself, is blocked.
  ghost predicate Troubled(deps: Deps, broken: set<string>, n: string) {
    exists x :: Reaches(DepArcs(deps), n, x) && Blocked(deps, broken, x)
  }

  ghost predicate AnyTroubled(deps: Deps, broken: set<string>, names: seq<string>) {
    exists d :: d in names && Troubled(deps, broken, d)
  }

  // The first of the names that is not known.
  ghost predicate FirstMissing(known: set<string>, names: seq<string>, x: string) {
    x !in known && exists i :: 0 <= i < |names| && names[i] == x && forall d | d in names[..i] :: d in known
  }

  // Everything given by n and by what n depends on, directly or not.
  ghost function Gathered(deps: Deps, gives: map<string, set<string>>, n: string): set<string> {
    set x, l | x in gives && l in gives[x] && Reaches(DepArcs(deps), n, x) :: l
  }

  ghost function GatheredAll(deps: Deps, gives: map<string, set<string>>, names: seq<string>): set<string> {
    set x, l | x in gives && l in gives[x] && ReachedFrom(deps, names, x) :: l
  }

  ghost predicate ReachedFrom(deps: Deps, names: seq<string>, x: string) {
    exists d :: d in names && Reaches(DepArcs(deps), d, x)
  }

  // n depends on x, at least one step away.
  ghost predicate LeadsTo(deps: Deps, n: string, x: string) {
    n in deps && ReachedFrom(deps, deps[n], x)
  }

  // Every library whose setup has begun depends on n.
  ghost predicate AllLeadTo(deps: Deps, begun: set<string>, n: string) {
    forall f | f in begun :: LeadsTo(deps, f, n)
  }

  lemma LeadingToItself(deps: Deps, n: string)
    requires LeadsTo(deps, n, n)
    ensures OnCycle(DepArcs(deps), n)
  {
    var d :| d in deps[n] && Reaches(DepArcs(deps), d, n);
    CycleThroughArc(DepArcs(deps), n, d);
  }

  lemma BegunLeadToDependency(deps: Deps, begun: set<string>, n: string, d: string)
    requires AllLeadTo(deps, begun, n) && n in deps && d in deps[n]
    ensures AllLeadTo(deps, begun + {n}, d)
  {
    ReachesSelf(DepArcs(deps), d);
    ArcReaches(DepArcs(deps), n, d);
    forall f | f in begun ensures LeadsTo(deps, f, d) {
      assert LeadsTo(deps, f, n);
      var e :| e in deps[f] && Reaches(DepArcs(deps), e, n);
      ReachesTransitively(DepArcs(deps), e, n, d);
    }
  }

  lemma BegunLeadToAny(deps: Deps, begun: set<string>, fewer: set<string>, d: string)
    requires AllLeadTo(deps, begun, d) && fewer <= begun
    ensures AllLeadTo(deps, fewer, d)
  {}

  lemma TroubleBehind(deps: Deps, broken: set<string>, n: string, d: string)
    requires n in deps && d in deps[n] && Troubled(deps, broken, d)
    ensures Troubled(deps, broken, n)
  {
    var x :| Reaches(DepArcs(deps), d, x) && Blocked(deps, broken, x);
    ReachesAfterArc(DepArcs(deps), n, d, x);
  }

  lemma ReachedBehind(deps: Deps, n: string, x: string)
    requires n in deps && ReachedFrom(deps, deps[n], x)
    ensures ReachedFrom(deps, [n], x)
  {
    var d :| d in deps[n] && Reaches(DepArcs(deps), d, x);
    ReachesAfterArc(DepArcs(deps), n, d, x);
    assert n in [n];
  }

  lemma BlockedIsTrouble(deps: Deps, broken: set<string>, names: seq<string>, x: string)
    requires ReachedFrom(deps, names, x) && Blocked(deps, broken, x)
    ensures AnyTroubled(deps, broken, names)
  {
    var d :| d in names && Reaches(DepArcs(deps), d, x);
    assert Troubled(deps, broken, d);
  }

  // A known library that is not broken is in trouble exactly when one of its dependencies is.
  lemma TroubleComesFromDependencies(deps: Deps, broken: set<string>, n: string)
    requires n in deps && n !in broken
    ensures Troubled(deps, broken, n) <==> AnyTroubled(deps, broken, deps[n])
  {
    if Troubled(deps, broken, n) {
      var x :| Reaches(DepArcs(deps), n, x) && Blocked(deps, broken, x);
      if x == n {
        var d := CycleHasArc(DepArcs(deps), n);
        assert Troubled(deps, broken, d);
      } else {
        var d := FirstArc(DepArcs(deps), n, x);
        assert Troubled(deps, broken, d);
      }
    }
    if AnyTroubled(deps, broken, deps[n]) {
      var d :| d in deps[n] && Troubled(deps, broken, d);
      TroubleBehind(deps, broken, n, d);
    }
  }

  // A dependency that can be set up does not depend on n.
  lemma SoundDependencyDoesNotReturn(deps: Deps, broken: set<string>, n: string, d: string)
    requires n in deps && d in deps[n] && !Troubled(deps, broken, d)
    ensures !Reaches(DepArcs(deps), d, n)
  {
    if Reaches(DepArcs(deps), d, n) {
      CycleThroughArc(DepArcs(deps), n, d);
    }
  }

  lemma SoundIsOnNoCycle(deps: Deps, broken: set<string>, n: string)
    requires !Troubled(deps, broken, n)
    ensures !OnCycle(DepArcs(deps), n)
  {
    ReachesSelf(DepArcs(deps), n);
  }

  lemma GatheredSplits(deps: Deps, gives: map<string, set<string>>, n: string)
    requires n in deps && n in gives
    ensures Gathered(deps, gives, n) == gives[n] + GatheredAll(deps, gives, deps[n])
  {
    forall x ensures Reaches(DepArcs(deps), n, x) <==> x == n || ReachedFrom(deps, deps[n], x) {
      if Reaches(DepArcs(deps), n, x) && x != n {
        var d := FirstArc(DepArcs(deps), n, x);
      }
      if ReachedFrom(deps, deps[n], x) {
        var d :| d in deps[n] && Reaches(DepArcs(deps), d, x);
        ReachesAfterArc(DepArcs(deps), n, d, x);
      }
      ReachesSelf(DepArcs(deps), n);
    }
    hide Reaches, ReachedFrom, DepArcs;
  }

  // What several libraries give, one of them gives.
  lemma GatheredFromOne(deps: Deps, gives: map<string, set<string>>, names: seq<string>, l: string)
    ensures l in GatheredAll(deps, gives, names) <==> exists d :: d in names && l in Gathered(deps, gives, d)
  {
    hide Reaches, DepArcs;
    if d :| d in names && l in Gathered(deps, gives, d) {
      var x :| x in gives && l in gives[x] && Reaches(DepArcs(deps), d, x);
      assert ReachedFrom(deps, names, x);
    }
    if l in GatheredAll(deps, gives, names) {
      var x :| x in gives && l in gives[x] && ReachedFrom(deps, names, x);
      var d :| d in names && Reaches(DepArcs(deps), d, x);
      assert l in Gathered(deps, gives, d);
    }
  }

  lemma GatheredPrefix(deps: Deps, gives: map<string, set<string>>, names: seq<string>, i: nat, before: set<string>)
    requires i < |names|
    ensures before + GatheredAll(deps, gives, names[..i + 1])
         == before + GatheredAll(deps, gives, names[..i]) + Gathered(deps, gives, names[i])
  {
    assert names[..i + 1] == names[..i] + [names[i]];
    hide Reaches, DepArcs;
    forall x ensures ReachedFrom(deps, names[..i + 1], x)
                 <==> ReachedFrom(deps, names[..i], x) || Reaches(DepArcs(deps), names[i], x) {}
    hide ReachedFrom;
  }

  lemma TroubledPrefix(deps: Deps, broken: set<string>, names: seq<string>, i: nat)
    requires i < |names|
    ensures AnyTroubled(deps, broken, names[..i + 1])
       <==> AnyTroubled(deps, broken, names[..i]) || Troubled(deps, broken, names[i])
  {
    assert names[..i + 1] == names[..i] + [names[i]];
    hide Troubled;
  }

  lemma NothingFromNothing(deps: Deps, gives: map<string, set<string>>)
    ensures forall broken :: !AnyTroubled(deps, broken, [])
    ensures GatheredAll(deps, gives, []) == {}
  {}

  // Libraries n depends on whose setup has not begun: what bounds the recursion.
  ghost function Ahead(deps: Deps, begun: set<string>, n: string): set<string> {
    set x | x in deps && x !in begun && Reaches(DepArcs(deps), n, x)
  }

  lemma FewerAhead(deps: Deps, begun: set<string>, n: string, d: string)
    requires n in deps && d in deps[n] && n !in begun
    ensures Ahead(deps, begun + {n}, d) < Ahead(deps, begun, n)
    ensures !Reaches(DepArcs(deps), d, n) ==> Ahead(deps, begun, d) < Ahead(deps, begun, n)
  {
    forall x | Reaches(DepArcs(deps), d, x) ensures Reaches(DepArcs(deps), n, x) {
      ReachesAfterArc(DepArcs(deps), n, d, x);
    }
    ReachesSelf(DepArcs(deps), n);
    hide Reaches, DepArcs;
    assert n in Ahead(deps, begun, n) && n !in Ahead(deps, begun + {n}, d);
    assert !Reaches(DepArcs(deps), d, n) ==> n !in Ahead(deps, begun, d);
  }
}
