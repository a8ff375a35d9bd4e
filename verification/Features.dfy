/** Feature selection: the features a selection needs, collected in one shared set. */
module Features {
  import opened Graphs
  import opened Sequences

  datatype Feature = Feature(deps: seq<string>)

  type FeatureMap = map<string, Feature>

  // (a, b): feature a needs feature b.
  ghost function NeedArcs(features: FeatureMap): set<(string, string)> {
    set a, b | a in features && b in features[a].deps :: (a, b)
  }

  // x is one of the given features or needed by one, directly or not.
  ghost predicate Needed(features: FeatureMap, from: seq<string>, x: string) {
    exists f :: f in from && Reaches(NeedArcs(features), f, x)
  }

  // x is needed by one of the given features: at least one step away.
  ghost predicate NeededByOthers(features: FeatureMap, from: seq<string>, x: string) {
    exists f :: f in from && f in features && Needed(features, features[f].deps, x)
  }

  // The accumulator all calls share.
  class NameSet {
    var names: set<string>

    constructor ()
      ensures names == {}
    {
      names := {};
    }
  }

  ghost predicate DepsIn(features: FeatureMap, x: string, names: set<string>) {
    x in features && forall d | d in features[x].deps :: d in names
  }

  // What a completed walk over deps has added to the names of before.
  ghost predicate Collected(features: FeatureMap, deps: seq<string>, before: set<string>, after: set<string>) {
    && before <= after
    && (forall d | d in deps :: d in after)
    && forall x | x in after - before :: DepsIn(features, x, after) && Needed(features, deps, x)
  }

  // all_deps: fails on looking up an unknown feature, which raises a KeyError.
  method AllDeps(deps: seq<string>, added: NameSet, features: FeatureMap) returns (ok: bool)
    modifies added
    ensures ok ==> Collected(features, deps, old(added.names), added.names)
    ensures !ok ==> exists x :: x !in features && Needed(features, deps, x)
    ensures old(added.names) <= added.names
    decreases features.Keys - added.names
  {
    ghost var before := added.names;
    for i := 0 to |deps|
      invariant Collected(features, deps[..i], before, added.names)
    {
      var dep := deps[i];
      ghost var soFar := added.names;
      PrefixGrows(deps, i);
      var isNew := dep !in added.names;
      added.names := added.names + {dep};
      if isNew {
        if dep !in features {
          UnknownDep(features, deps, dep);
          return false;
        }
        ok := AllDeps(features[dep].deps, added, features);
        if !ok {
          UnknownBehind(features, deps, dep);
          return false;
        }
        CollectedBehind(features, deps, i, before, soFar, added.names);
      } else {
        CollectedAlready(features, deps, i, before, soFar);
      }
    }
    assert deps[..|deps|] == deps;
    ok := true;
  }

  lemma UnknownDep(features: FeatureMap, deps: seq<string>, dep: string)
    requires dep in deps
    ensures Needed(features, deps, dep)
  {
    ReachesSelf(NeedArcs(features), dep);
  }

  lemma NeededBehind(features: FeatureMap, deps: seq<string>, dep: string, x: string)
    requires dep in deps && dep in features && Needed(features, features[dep].deps, x)
    ensures Needed(features, deps, x)
  {
    var f :| f in features[dep].deps && Reaches(NeedArcs(features), f, x);
    ReachesAfterArc(NeedArcs(features), dep, f, x);
  }

  lemma UnknownBehind(features: FeatureMap, deps: seq<string>, dep: string)
    requires dep in deps && dep in features
    requires exists x :: x !in features && Needed(features, features[dep].deps, x)
    ensures exists x :: x !in features && Needed(features, deps, x)
  {
    var x :| x !in features && Needed(features, features[dep].deps, x);
    NeededBehind(features, deps, dep, x);
  }

  lemma NeededByMore(features: FeatureMap, deps: seq<string>, more: seq<string>, x: string)
    requires Needed(features, deps, x) && forall d | d in deps :: d in more
    ensures Needed(features, more, x)
  {}

  lemma CollectedAlready(features: FeatureMap, deps: seq<string>, i: nat, before: set<string>, after: set<string>)
    requires i < |deps| && Collected(features, deps[..i], before, after) && deps[i] in after
    ensures Collected(features, deps[..i + 1], before, after + {deps[i]})
  {
    PrefixGrows(deps, i);
    assert after + {deps[i]} == after;
    forall x | x in after - before ensures Needed(features, deps[..i + 1], x) {
      NeededByMore(features, deps[..i], deps[..i + 1], x);
    }
  }

  lemma CollectedBehind(features: FeatureMap, deps: seq<string>, i: nat, before: set<string>,
                        soFar: set<string>, after: set<string>)
    requires i < |deps| && deps[i] in features
    requires Collected(features, deps[..i], before, soFar)
    requires Collected(features, features[deps[i]].deps, soFar + {deps[i]}, after)
    ensures Collected(features, deps[..i + 1], before, after)
  {
    var dep := deps[i];
    PrefixGrows(deps, i);
    forall x | x in after - before
      ensures DepsIn(features, x, after) && Needed(features, deps[..i + 1], x)
    {
      if x in soFar {
        NeededByMore(features, deps[..i], deps[..i + 1], x);
      } else if x == dep {
        UnknownDep(features, deps[..i + 1], dep);
      } else {
        NeededBehind(features, deps[..i + 1], dep, x);
      }
    }
  }

  // ---------- Selecting features ----------

  datatype Selection = Selected | NotAFeature(name: string) | KeyError

  // The caller's list, extended in place.
  class FeatureList {
    var items: seq<string>

    constructor (items: seq<string>)
      ensures this.items == items
    {
      this.items := items;
    }
  }

  // The names added so far are what the features done so far need.
  ghost predicate Accumulated(features: FeatureMap, done: set<string>, names: set<string>) {
    && (forall f | f in done :: f in features && DepsIn(features, f, names))
    && (forall x | x in names :: DepsIn(features, x, names))
    && (forall x | x in names :: NeededByDone(features, done, x))
  }

  ghost predicate NeededByDone(features: FeatureMap, done: set<string>, x: string) {
    exists f :: f in done && f in features && Needed(features, features[f].deps, x)
  }

  lemma AccumulateOne(features: FeatureMap, done: set<string>, f: string, before: set<string>, after: set<string>)
    requires Accumulated(features, done, before) && f in features
    requires Collected(features, features[f].deps, before, after)
    ensures Accumulated(features, done + {f}, after)
  {
    hide Needed;
    forall x | x in after ensures NeededByDone(features, done + {f}, x) {
      if x in before {
        var g :| g in done && g in features && Needed(features, features[g].deps, x);
        assert g in done + {f};
      } else {
        assert f in done + {f};
      }
    }
    hide NeededByDone;
    forall x, names | DepsIn(features, x, names) && names <= after ensures DepsIn(features, x, after) {}
  }

  // When all selected features are done, exactly what they need has been added.
  lemma AccumulatedIsNeeded(features: FeatureMap, selected: seq<string>, names: set<string>, x: string)
    requires Accumulated(features, (set f | f in selected), names)
    ensures x in names <==> NeededByOthers(features, selected, x)
  {
    if x in names {
      assert NeededByDone(features, (set f | f in selected), x);
    }
    if NeededByOthers(features, selected, x) {
      var f :| f in selected && f in features && Needed(features, features[f].deps, x);
      var d :| d in features[f].deps && Reaches(NeedArcs(features), d, x);
      forall a, b | a in names && (a, b) in NeedArcs(features) ensures b in names {
        assert DepsIn(features, a, names);
      }
      assert DepsIn(features, f, names);
      ClosedSetKeepsReach(NeedArcs(features), names, d, x);
    }
  }

  lemma NeededSplits(features: FeatureMap, selected: seq<string>, x: string)
    ensures Needed(features, selected, x) <==> x in selected || NeededByOthers(features, selected, x)
  {
    if Needed(features, selected, x) && x !in selected {
      var f :| f in selected && Reaches(NeedArcs(features), f, x);
      var d := FirstArc(NeedArcs(features), f, x);
      assert Needed(features, features[f].deps, x);
    }
    if x in selected {
      UnknownDep(features, selected, x);
    }
    if NeededByOthers(features, selected, x) {
      var f :| f in selected && f in features && Needed(features, features[f].deps, x);
      NeededBehind(features, selected, f, x);
    }
  }

  // The elements of a set, in whatever order it yields them.
  method Listed(names: set<string>) returns (list: seq<string>)
    ensures forall x :: x in list <==> x in names
    ensures Distinct(list)
  {
    list := [];
    var rest := names;
    while rest != {}
      invariant rest <= names && forall x :: x in list <==> x in names - rest
      invariant Distinct(list)
      decreases |rest|
    {
      var x :| x in rest;
      assert x !in list;
      list := list + [x];
      rest := rest - {x};
    }
  }

  // The loop over the selected features, in any order.
  method AllDepsOfAll(selected: seq<string>, current: set<string>, added: NameSet, features: FeatureMap)
    returns (ok: bool)
    requires (forall f | f in selected :: f in features) && current == (set f | f in selected)
    requires added.names == {}
    modifies added
    ensures ok ==> Accumulated(features, current, added.names)
    ensures !ok ==> exists x :: x !in features && Needed(features, selected, x)
  {
    var rest := current;
    hide Accumulated, Collected, Needed;
    NothingAccumulated(features);
    assert current - rest == {};
    while rest != {}
      invariant rest <= current && Accumulated(features, current - rest, added.names)
      decreases |rest|
    {
      var f :| f in rest;
      ghost var before := added.names;
      ok := AllDeps(features[f].deps, added, features);
      if !ok {
        UnknownBehind(features, selected, f);
        return;
      }
      AccumulateOne(features, current - rest, f, before, added.names);
      assert current - (rest - {f}) == (current - rest) + {f};
      rest := rest - {f};
    }
    assert current - rest == current;
    ok := true;
  }

  lemma NothingAccumulated(features: FeatureMap)
    ensures Accumulated(features, {}, {})
  {}

  // The first of the selected names that is no feature.
  ghost predicate FirstUnknown(features: FeatureMap, selected: seq<string>, name: string) {
    exists i :: 0 <= i < |selected| && selected[i] == name && name !in features
                && forall f | f in selected[..i] :: f in features
  }

  // What is appended: everything needed that is not selected, once.
  ghost predicate Extends(features: FeatureMap, selected: seq<string>, list: seq<string>)
    requires selected <= list
  {
    var extra := list[|selected|..];
    && Distinct(extra)
    && forall x :: x in extra <==> Needed(features, selected, x) && x !in selected
  }

  // Nothing is listed twice that was not selected twice, and a closed selection stays as it is.
  lemma ExtendedOnce(features: FeatureMap, selected: seq<string>, list: seq<string>)
    requires selected <= list && Extends(features, selected, list)
    ensures Distinct(selected) ==> Distinct(list)
    ensures IsClosed(features, selected) ==> list == selected
  {
    var extra := list[|selected|..];
    assert list == selected + extra;
    assert forall k | 0 <= k < |extra| :: extra[k] in extra;
    hide Needed;
    if extra != [] {
      assert Needed(features, selected, extra[0]) && extra[0] !in selected;
    }
  }

  // Everything the selected features need is selected.
  ghost predicate IsClosed(features: FeatureMap, selected: seq<string>) {
    forall x | Needed(features, selected, x) :: x in selected
  }

  ghost predicate AreFeatures(features: FeatureMap, names: seq<string>) {
    forall f | f in names :: f in features
  }

  // Extends the selection by everything it needs.
  method CloseSelection(list: FeatureList, features: FeatureMap) returns (result: Selection)
    modifies list
    ensures result.NotAFeature? <==> !AreFeatures(features, old(list.items))
    ensures result.NotAFeature? ==> FirstUnknown(features, old(list.items), result.name)
    ensures result.KeyError? <==>
              && AreFeatures(features, old(list.items))
              && exists x :: x !in features && Needed(features, old(list.items), x)
    ensures !result.Selected? ==> list.items == old(list.items)
    ensures result.Selected? ==>
              && old(list.items) <= list.items
              && Extends(features, old(list.items), list.items)
              && forall x :: x in list.items <==> Needed(features, old(list.items), x)
    ensures result.Selected? && Distinct(old(list.items)) ==> Distinct(list.items)
    ensures result.Selected? && IsClosed(features, old(list.items)) ==> list.items == old(list.items)
  {
    var selected := list.items;
    hide Needed, Extends, Accumulated, NeededByOthers, Distinct, IsClosed;
    for i := 0 to |selected|
      invariant list.items == selected
      invariant forall f | f in selected[..i] :: f in features
    {
      if selected[i] !in features {
        assert FirstUnknown(features, selected, selected[i]);
        return NotAFeature(selected[i]);
      }
      PrefixGrows(selected, i);
    }
    assert selected[..|selected|] == selected;
    hide FirstUnknown;
    var current := set f | f in selected;
    var added := new NameSet();
    var ok := AllDepsOfAll(selected, current, added, features);
    if !ok {
      return KeyError;
    }
    AllIsKnown(features, selected, added.names);
    var extra := Listed(added.names - current);
    Appended(features, selected, added.names, extra);
    list.items := selected + extra;
    result := Selected;
  }

  lemma NeededOrSelected(features: FeatureMap, selected: seq<string>, names: set<string>, x: string)
    requires Accumulated(features, (set f | f in selected), names)
    ensures Needed(features, selected, x) <==> x in selected || x in names
  {
    AccumulatedIsNeeded(features, selected, names, x);
    NeededSplits(features, selected, x);
  }

  lemma AllIsKnown(features: FeatureMap, selected: seq<string>, names: set<string>)
    requires AreFeatures(features, selected) && Accumulated(features, (set f | f in selected), names)
    ensures forall x | Needed(features, selected, x) :: x in features
  {
    forall x | Needed(features, selected, x) ensures x in features {
      NeededOrSelected(features, selected, names, x);
      assert x in names ==> DepsIn(features, x, names);
    }
  }

  lemma AppendedIsExtended(features: FeatureMap, selected: seq<string>, extra: seq<string>)
    requires Distinct(extra) && forall x :: x in extra <==> Needed(features, selected, x) && x !in selected
    requires forall x | x in selected :: Needed(features, selected, x)
    ensures Extends(features, selected, selected + extra)
    ensures forall x :: x in selected + extra <==> Needed(features, selected, x)
  {
    hide Needed, Distinct;
    assert (selected + extra)[|selected|..] == extra;
  }

  lemma Appended(features: FeatureMap, selected: seq<string>, names: set<string>, extra: seq<string>)
    requires Accumulated(features, (set f | f in selected), names) && Distinct(extra)
    requires forall x :: x in extra <==> x in names - set f | f in selected
    ensures Extends(features, selected, selected + extra)
    ensures forall x :: x in selected + extra <==> Needed(features, selected, x)
    ensures Distinct(selected) ==> Distinct(selected + extra)
    ensures IsClosed(features, selected) ==> selected + extra == selected
  {
    hide *;
    forall x ensures x in extra <==> Needed(features, selected, x) && x !in selected {
      NeededOrSelected(features, selected, names, x);
    }
    forall x | x in selected ensures Needed(features, selected, x) {
      UnknownDep(features, selected, x);
    }
    AppendedIsExtended(features, selected, extra);
    ExtendedOnce(features, selected, selected + extra);
  }

  // The closure of a selection is the least set that contains it and everything its members need.
  lemma ClosureIsLeast(features: FeatureMap, selected: seq<string>, s: set<string>, x: string)
    requires forall f | f in selected :: f in s
    requires forall a | a in s && a in features :: forall b | b in features[a].deps :: b in s
    requires Needed(features, selected, x)
    ensures x in s
  {
    var f :| f in selected && Reaches(NeedArcs(features), f, x);
    ClosedSetKeepsReach(NeedArcs(features), s, f, x);
  }

  lemma ClosureIsClosed(features: FeatureMap, selected: seq<string>, a: string, b: string)
    requires Needed(features, selected, a) && a in features && b in features[a].deps
    ensures Needed(features, selected, b)
  {
    var f :| f in selected && Reaches(NeedArcs(features), f, a);
    ArcReaches(NeedArcs(features), a, b);
    ReachesTransitively(NeedArcs(features), f, a, b);
  }
}
