/** Resolving all sections: an order in which every section comes after the ones it refers to,
then each section in place. */
module SectionResolvers {
  import opened ConfigValues
  import opened Graphs
  import opened Replacements
  import opened Resolutions
  import opened Sequences
  import opened TopologicalSorts
  import opened Wrappers
  import opened OptionResolvers

  // Some option of the section refers to a section of that name.
  ghost predicate RefersTo(sections: Sections, s: string, name: string) {
    s in sections && exists k :: k in sections[s] && NamesSection(sections[s][k], name)
  }

  ghost predicate NamesSection(v: Value, name: string) {
    exists t :: t in Tokens(v) && Interpret(t).namespace == Section(name)
  }

  // The places among the first i tokens that name a section.
  ghost function PlacesNaming(tokens: seq<string>, i: nat, name: string): set<nat> {
    set m: nat | m < i && m < |tokens| && Interpret(tokens[m]).namespace == Section(name)
  }

  lemma OneNamingMore(tokens: seq<string>, i: nat, name: string)
    requires i < |tokens|
    ensures |PlacesNaming(tokens, i + 1, name)|
         == |PlacesNaming(tokens, i, name)| + if Interpret(tokens[i]).namespace == Section(name) then 1 else 0
  {
    assert PlacesNaming(tokens, i + 1, name)
        == PlacesNaming(tokens, i, name) + if Interpret(tokens[i]).namespace == Section(name) then {i} else {};
  }

  lemma NoneNamedYet(tokens: seq<string>)
    ensures forall name :: PlacesNaming(tokens, 0, name) == {}
  {}

  // The places in the options with the given keys that name a section: option and token.
  ghost function PlacesIn(options: Options, keys: set<string>, name: string): set<(string, nat)> {
    set k, m | k in keys && k in options && m in PlacesNaming(Tokens(options[k]), |Tokens(options[k])|, name) :: (k, m)
  }

  // How many references to the section of that name a section holds.
  ghost function SectionCount(sections: Sections, s: string, name: string): nat {
    if s in sections then |PlacesIn(sections[s], sections[s].Keys, name)| else 0
  }

  ghost function AtOption(k: string, places: set<nat>): set<(string, nat)> {
    set m | m in places :: (k, m)
  }

  lemma {:induction false} SameSize(k: string, places: set<nat>)
    ensures |AtOption(k, places)| == |places|
  {
    if places == {} {
      assert AtOption(k, places) == {};
    } else {
      var m :| m in places;
      SameSize(k, places - {m});
      assert AtOption(k, places) == AtOption(k, places - {m}) + {(k, m)};
    }
  }

  lemma PlacesOfMore(options: Options, keys: set<string>, k: string, name: string)
    requires k in options && k !in keys
    ensures var here := AtOption(k, PlacesNaming(Tokens(options[k]), |Tokens(options[k])|, name));
            PlacesIn(options, keys + {k}, name) == PlacesIn(options, keys, name) + here
            && PlacesIn(options, keys, name) !! here
  {
    hide PlacesNaming;
  }

  lemma OneOptionMore(options: Options, keys: set<string>, k: string, name: string)
    requires k in options && k !in keys
    ensures |PlacesIn(options, keys + {k}, name)|
         == |PlacesIn(options, keys, name)| + |PlacesNaming(Tokens(options[k]), |Tokens(options[k])|, name)|
  {
    hide *;
    PlacesOfMore(options, keys, k, name);
    SameSize(k, PlacesNaming(Tokens(options[k]), |Tokens(options[k])|, name));
  }

  lemma CountedIffNaming(sections: Sections, s: string, name: string)
    ensures SectionCount(sections, s, name) > 0 <==> RefersTo(sections, s, name)
  {
    if s in sections {
      var places := PlacesIn(sections[s], sections[s].Keys, name);
      if RefersTo(sections, s, name) {
        var k :| k in sections[s] && NamesSection(sections[s][k], name);
        var t :| t in Tokens(sections[s][k]) && Interpret(t).namespace == Section(name);
        var m :| 0 <= m < |Tokens(sections[s][k])| && Tokens(sections[s][k])[m] == t;
        assert (k, m) in places;
      }
      if |places| > 0 {
        var place :| place in places;
        assert Tokens(sections[s][place.0])[place.1] in Tokens(sections[s][place.0]);
        assert NamesSection(sections[s][place.0], name);
      }
    }
  }

  // Every section a cyclic error lists is listed once for each of its references.
  ghost predicate CountsSections(sections: Sections, dependents: map<string, seq<string>>) {
    forall n, b | n in dependents :: multiset(dependents[n])[b] == SectionCount(sections, b, n)
  }

  // The pairs one value adds for its section.
  method CollectFromValue(v: Value, s: string, order0: seq<Pair>) returns (order: seq<Pair>)
    ensures forall name, j :: multiset(order)[(name, j)]
              == multiset(order0)[(name, j)] + if j == s then |PlacesNaming(Tokens(v), |Tokens(v)|, name)| else 0
  {
    order := order0;
    var tokens := FindTokens(v);
    hide PlacesNaming;
    NoneNamedYet(tokens);
    for i := 0 to |tokens|
      invariant forall name, j :: multiset(order)[(name, j)]
                  == multiset(order0)[(name, j)] + if j == s then |PlacesNaming(tokens, i, name)| else 0
    {
      forall name { OneNamingMore(tokens, i, name); }
      var reference := Interpret(tokens[i]);
      if reference.namespace.Section? {
        order := order + [(reference.namespace.name, s)];
      }
    }
  }

  // The pairs one section adds.
  method CollectFromSection(sections: Sections, s: string, order0: seq<Pair>) returns (order: seq<Pair>)
    requires s in sections
    ensures forall name, j :: multiset(order)[(name, j)]
              == multiset(order0)[(name, j)] + if j == s then SectionCount(sections, s, name) else 0
  {
    order := order0;
    var keys, options := sections[s].Keys, sections[s].Keys;
    assert keys - options == {} && forall name :: PlacesIn(sections[s], {}, name) == {};
    hide PlacesIn, PlacesNaming;
    while options != {}
      invariant options <= keys
      invariant forall name, j :: multiset(order)[(name, j)]
                  == multiset(order0)[(name, j)] + if j == s then |PlacesIn(sections[s], keys - options, name)| else 0
      decreases |options|
    {
      var k :| k in options;
      order := CollectFromValue(sections[s][k], s, order);
      forall name { OneOptionMore(sections[s], keys - options, k, name); }
      assert keys - (options - {k}) == (keys - options) + {k};
      options := options - {k};
    }
    assert keys - options == keys;
  }

  // The section names and the pairs (name, section referring to it), in any order.
  method CollectSectionReferences(sections: Sections) returns (items: seq<string>, order: seq<Pair>)
    ensures forall s :: s in items <==> s in sections
    ensures forall name, s :: (name, s) in order <==> RefersTo(sections, s, name)
    ensures forall name, s :: multiset(order)[(name, s)] == SectionCount(sections, s, name)
  {
    items, order := [], [];
    var rest := sections.Keys;
    assert forall name, s | s !in sections :: SectionCount(sections, s, name) == 0;
    hide SectionCount, RefersTo;
    while rest != {}
      invariant rest <= sections.Keys
      invariant forall s :: s in items <==> s in sections.Keys - rest
      invariant forall name, s :: multiset(order)[(name, s)]
                  == if s in sections.Keys - rest then SectionCount(sections, s, name) else 0
      decreases |rest|
    {
      var s :| s in rest;
      items := items + [s];
      order := CollectFromSection(sections, s, order);
      rest := rest - {s};
    }
    forall name, s ensures (name, s) in order <==> RefersTo(sections, s, name) {
      CountedIffNaming(sections, s, name);
      assert (name, s) in order <==> multiset(order)[(name, s)] > 0;
    }
  }

  lemma CollectedSectionArcs(sections: Sections, items: seq<string>, order: seq<Pair>)
    requires forall s :: s in items <==> s in sections
    requires forall name, s :: (name, s) in order <==> RefersTo(sections, s, name)
    ensures KnownArcs(items, order) == SectionArcs(sections)
    ensures forall pair | pair in order :: pair.1 in items
  {
    forall pair | pair in order ensures pair.1 in items && RefersTo(sections, pair.1, pair.0) {
      assert (pair.0, pair.1) in order;
    }
    forall name, s ensures (name, s) in KnownArcs(items, order) <==> (name, s) in SectionArcs(sections) {
      if (name, s) in SectionArcs(sections) {
        var k, t :| k in sections[s] && t in Tokens(sections[s][k]) && Interpret(t).namespace == Section(name);
        assert NamesSection(sections[s][k], name);
      }
      if RefersTo(sections, s, name) && name in sections {
        var k :| k in sections[s] && NamesSection(sections[s][k], name);
      }
    }
    assert forall pair :: pair in KnownArcs(items, order) ==> (pair.0, pair.1) in SectionArcs(sections);
    assert forall pair :: pair in SectionArcs(sections) ==> (pair.0, pair.1) in KnownArcs(items, order);
  }

  // Every section is listed after the existing sections it refers to.
  ghost predicate OrdersSections(sections: Sections, ordered: seq<string>) {
    && Distinct(ordered)
    && (forall s | s in sections :: s in ordered)
    && (forall s | s in ordered && s !in sections :: exists j :: RefersTo(sections, j, s))
    && forall i, name | 0 <= i < |ordered| && name in sections && RefersTo(sections, ordered[i], name) ::
         name in ordered[..i]
  }

  method SectionResolutionOrder(sections: Sections) returns (result: SortResult)
    ensures result.Sorted? <==> Acyclic(SectionArcs(sections))
    ensures result.Sorted? ==> OrdersSections(sections, result.order)
    ensures result.CyclicDependencies? ==>
              ReportsCycles(SectionArcs(sections), result.dependents) && CountsSections(sections, result.dependents)
  {
    hide SectionCount, SectionArcs, KnownArcs, Recorded, Successors;
    var items, order := CollectSectionReferences(sections);
    CollectedSectionArcs(sections, items, order);
    RecordedCycles(items, order);
    RecordedNodes(items, order);
    result := TopologicalSort(items, order);
    if result.CyclicDependencies? {
      CyclesReported(items, order, result.dependents);
    } else {
      SortedOrdersSections(sections, items, order, result.order);
    }
  }

  lemma SortedOrdersSections(sections: Sections, items: seq<string>, order: seq<Pair>, ordered: seq<string>)
    requires forall s :: s in items <==> s in sections
    requires forall name, s :: (name, s) in order <==> RefersTo(sections, s, name)
    requires forall n :: n in Recorded(items, order).nodes <==> n in items || IsFirst(order, n)
    requires IsTopologicalOrder(ordered, Recorded(items, order))
    ensures OrdersSections(sections, ordered)
  {
    RecordedItems(items, order);
    hide Recorded;
    forall s | s in ordered && s !in sections ensures exists j :: RefersTo(sections, j, s) {
      var j :| (s, j) in order;
      assert RefersTo(sections, j, s);
    }
    forall i, name | 0 <= i < |ordered| && name in sections && RefersTo(sections, ordered[i], name)
      ensures name in ordered[..i]
    {
      PrecedingIsDone(ordered, i, name);
    }
  }

  ghost predicate NamesIn(sections: Sections, s: string, done: seq<string>) {
    forall name | RefersTo(sections, s, name) :: name in done
  }

  ghost predicate AllReplaced(base: Options, sections: Sections, defaults: Options, s: string, options: Options) {
    && options.Keys == base.Keys
    && forall k | k in options :: ReplacedBy(base[k], sections, defaults, s, options[k])
  }

  // Some sections are done, the others untouched.
  ghost predicate SectionsInProgress(base: Sections, defaults: Options, done: seq<string>, current: Sections) {
    && SameShape(base, current)
    && (forall s | s in base && s !in done :: current[s] == base[s])
    && (forall s | s in done :: FinePlace(base, defaults, s, done))
    && (forall s | s in done && s in base :: AllReplaced(base[s], current, defaults, s, current[s]))
  }

  ghost predicate FinePlace(base: Sections, defaults: Options, s: string, done: seq<string>) {
    s in base && NamesIn(base, s, done) && Acyclic(LocalArcs(base[s])) && AllDefined(base, defaults, s)
  }

  // Whether references of a section are defined does not change along the way.
  lemma SameAllDefined(base: Sections, current: Sections, defaults: Options, s: string)
    requires SameShape(base, current) && s in base && current[s] == base[s]
    ensures AllDefined(base, defaults, s) <==> AllDefined(current, defaults, s)
  {
    forall k | k in base[s] ensures DefinedAt(base, defaults, s, k) <==> DefinedAt(current, defaults, s, k) {
      forall t ensures Lookup(base, defaults, s, t).Some? <==> Lookup(current, defaults, s, t).Some? {
        SameDefinedness(base, current, defaults, s, t);
      }
    }
  }

  // The sections a fully defined section names exist, and come before it.
  lemma NamedComeFirst(base: Sections, defaults: Options, ordered: seq<string>, i: nat)
    requires OrdersSections(base, ordered) && i < |ordered| && ordered[i] in base
    requires AllDefined(base, defaults, ordered[i])
    ensures NamesIn(base, ordered[i], ordered[..i])
    ensures ordered[i] !in ordered[..i]
  {
    var s := ordered[i];
    forall name | RefersTo(base, s, name) ensures name in ordered[..i] {
      var k :| k in base[s] && NamesSection(base[s][k], name);
      var t :| t in Tokens(base[s][k]) && Interpret(t).namespace == Section(name);
      assert DefinedAt(base, defaults, s, k);
      assert Lookup(base, defaults, s, t).Some?;
    }
  }

  lemma NamedByToken(sections: Sections, s: string, k: string, t: string)
    requires s in sections && k in sections[s] && t in Tokens(sections[s][k])
    requires Interpret(t).namespace.Section?
    ensures RefersTo(sections, s, Interpret(t).namespace.name)
  {
    assert NamesSection(sections[s][k], Interpret(t).namespace.name);
  }

  // When a section comes up, every section it refers to is another one and done.
  lemma SectionIsReady(base: Sections, defaults: Options, done: seq<string>, current: Sections, s: string)
    requires SectionsInProgress(base, defaults, done, current)
    requires s in base && s !in done && NamesIn(base, s, done)
    ensures Ready(current, s)
    ensures forall k, t | k in current[s] && t in Tokens(current[s][k]) && Interpret(t).namespace.Section? ::
              Interpret(t).namespace.name in done
  {
    forall k, t | k in current[s] && t in Tokens(current[s][k]) && Interpret(t).namespace.Section?
      ensures Interpret(t).namespace.name in done
    {
      NamedByToken(base, s, k, t);
    }
  }

  lemma SectionStaysDone(base: Sections, defaults: Options, done: seq<string>, current: Sections,
                         s: string, options: Options, j: string, k: string)
    requires SectionsInProgress(base, defaults, done, current) && s in base && s !in done
    requires j in done && j in base && k in base[j]
    ensures ReplaceEach(base[j][k], Tokens(base[j][k]), current[s := options], defaults, j)
         == ReplaceEach(base[j][k], Tokens(base[j][k]), current, defaults, j)
  {
    hide AllReplaced, ReplacedBy, AllDefined, LocalArcs, Acyclic, RefersTo;
    forall t | t in Tokens(base[j][k])
      ensures Found(current[s := options], defaults, j, t) == Found(current, defaults, j, t)
    {
      if Interpret(t).namespace.Section? {
        NamedByToken(base, j, k, t);
      }
    }
    hide SectionsInProgress, Found, ReplaceEach;
    ReplaceEachSameLookups(base[j][k], Tokens(base[j][k]), current[s := options], current, defaults, j);
  }

  lemma SectionStaysReplaced(base: Sections, defaults: Options, done: seq<string>, current: Sections,
                             s: string, options: Options, j: string)
    requires SectionsInProgress(base, defaults, done, current)
    requires s in base && s !in done && j in done && j in base
    ensures AllReplaced(base[j], current[s := options], defaults, j, current[j])
  {
    assert AllReplaced(base[j], current, defaults, j, current[j]);
    hide SectionsInProgress, ReplaceEach;
    forall k | k in current[j] ensures ReplacedBy(base[j][k], current[s := options], defaults, j, current[j][k]) {
      assert ReplacedBy(base[j][k], current, defaults, j, current[j][k]);
      SectionStaysDone(base, defaults, done, current, s, options, j, k);
    }
  }

  lemma SectionDone(base: Sections, defaults: Options, ordered: seq<string>, i: nat, current: Sections,
                    options: Options)
    requires i < |ordered| && ordered[i] in base && OrdersSections(base, ordered)
    requires SectionsInProgress(base, defaults, ordered[..i], current)
    requires ordered[i] in current && OptionsOutcome(current, defaults, ordered[i], Done(options))
    ensures SectionsInProgress(base, defaults, ordered[..i + 1], current[ordered[i] := options])
  {
    var s, done := ordered[i], ordered[..i];
    var after := current[s := options];
    UntouchedSection(base, defaults, ordered, i, current);
    SameAllDefined(base, current, defaults, s);
    NamedComeFirst(base, defaults, ordered, i);
    PrefixGrows(ordered, i);
    SectionIsReady(base, defaults, done, current, s);
    var order :| OrdersLocals(current[s], order) && InTurn(current, defaults, s, order, options);
    forall k | k in options ensures ReplacedBy(base[s][k], after, defaults, s, options[k]) {
      InTurnIsForGood(current, defaults, s, order, options, k);
    }
    forall j | j in done && j in base ensures AllReplaced(base[j], after, defaults, j, current[j]) {
      SectionStaysReplaced(base, defaults, done, current, s, options, j);
    }
    forall j | j in done + [s] ensures FinePlace(base, defaults, j, done + [s]) {
      assert j in done ==> FinePlace(base, defaults, j, done);
    }
    hide *;
    ShapeKept(base, current, s, options);
    InProgressAgain(base, defaults, done, current, s, options);
  }

  lemma ShapeKept(base: Sections, current: Sections, s: string, options: Options)
    requires SameShape(base, current) && s in base && options.Keys == base[s].Keys
    ensures SameShape(base, current[s := options])
  {}

  lemma InProgressAgain(base: Sections, defaults: Options, done: seq<string>, current: Sections,
                        s: string, options: Options)
    requires SectionsInProgress(base, defaults, done, current)
    requires SameShape(base, current[s := options]) && s in base
    requires forall j | j in done + [s] :: FinePlace(base, defaults, j, done + [s])
    requires AllReplaced(base[s], current[s := options], defaults, s, options)
    requires forall j | j in done && j in base && j != s && j in current ::
               AllReplaced(base[j], current[s := options], defaults, j, current[j])
    ensures SectionsInProgress(base, defaults, done + [s], current[s := options])
  {
    hide FinePlace, AllReplaced;
  }

  lemma UntouchedSection(base: Sections, defaults: Options, ordered: seq<string>, i: nat, current: Sections)
    requires i < |ordered| && ordered[i] in base && OrdersSections(base, ordered)
    requires SectionsInProgress(base, defaults, ordered[..i], current)
    ensures ordered[i] !in ordered[..i] && current[ordered[i]] == base[ordered[i]]
  {}

  // What resolving all sections comes to: which error, on which condition, naming what.
  ghost predicate SectionsOutcome(base: Sections, defaults: Options, result: Outcome<Sections>) {
    match result
    case Done(sections) =>
      Resolvable(base, defaults) && Replaced(base, defaults, sections)
    case CyclicDependency(None, dependents) =>
      && !Acyclic(SectionArcs(base))
      && ReportsCycles(SectionArcs(base), dependents) && CountsSections(base, dependents)
    case CyclicDependency(Some(s), dependents) =>
      && Acyclic(SectionArcs(base)) && s in base && !Acyclic(LocalArcs(base[s]))
      && ReportsCycles(LocalArcs(base[s]), dependents) && CountsLocals(base[s], dependents)
    case MissingDependency(s, option, source, offender) =>
      && Acyclic(SectionArcs(base)) && s in base && !AllDefined(base, defaults, s)
      && NamesUndefined(base, defaults, s, option, source, offender)
    case KeyError(key) =>
      Acyclic(SectionArcs(base)) && key !in base && exists s :: RefersTo(base, s, key)
  }

  // An error of one section ends the whole.
  function Raised(result: Outcome<Options>): Outcome<Sections>
    requires !result.Done?
  {
    match result
    case KeyError(key) => KeyError(key)
    case CyclicDependency(scope, dependents) => CyclicDependency(scope, dependents)
    case MissingDependency(section, option, source, offender) =>
      MissingDependency(section, option, source, offender)
  }

  // Exactly the errors are the outcomes of sections that cannot be resolved.
  lemma OnlyDoneIsResolvable(base: Sections, defaults: Options, result: Outcome<Sections>)
    requires SectionsOutcome(base, defaults, result)
    ensures result.Done? <==> Resolvable(base, defaults)
    ensures result.CyclicDependency? && result.scope == None <==> !Acyclic(SectionArcs(base))
  {
    if result.KeyError? {
      var s :| RefersTo(base, s, result.key);
      UnknownSection(base, defaults, s, result.key);
    }
  }

  lemma UnknownSection(base: Sections, defaults: Options, s: string, name: string)
    requires RefersTo(base, s, name) && name !in base
    ensures s in base && !AllDefined(base, defaults, s)
  {
    var k :| k in base[s] && NamesSection(base[s][k], name);
    var t :| t in Tokens(base[s][k]) && Interpret(t).namespace == Section(name);
    assert Lookup(base, defaults, s, t).None?;
    assert !DefinedAt(base, defaults, s, k);
  }

  lemma SameUndefined(base: Sections, current: Sections, defaults: Options, s: string, option: string,
                      source: Value, offender: string)
    requires SameShape(base, current) && s in base && current[s] == base[s]
    requires NamesUndefined(current, defaults, s, option, source, offender)
    ensures NamesUndefined(base, defaults, s, option, source, offender)
  {
    forall t ensures Lookup(base, defaults, s, t).Some? <==> Lookup(current, defaults, s, t).Some? {
      SameDefinedness(base, current, defaults, s, t);
    }
    hide Lookup, RefersLocally;
  }

  // If a section fails, so does the whole, for a reason that holds of the sections to begin with.
  lemma SectionFails(base: Sections, defaults: Options, ordered: seq<string>, i: nat, current: Sections,
                     result: Outcome<Options>)
    requires i < |ordered| && OrdersSections(base, ordered) && Acyclic(SectionArcs(base))
    requires SectionsInProgress(base, defaults, ordered[..i], current)
    requires ordered[i] in current ==> OptionsOutcome(current, defaults, ordered[i], result)
    requires ordered[i] !in current ==> result == KeyError(ordered[i])
    requires !result.Done?
    ensures !Raised(result).Done? && SectionsOutcome(base, defaults, Raised(result))
  {
    var s := ordered[i];
    if s in current {
      UntouchedSection(base, defaults, ordered, i, current);
      SameAllDefined(base, current, defaults, s);
      if result.MissingDependency? {
        SameUndefined(base, current, defaults, s, result.option, result.source, result.offender);
      }
    }
    hide AllDefined, LocalArcs, SectionArcs, Acyclic, RefersTo, NamesUndefined, ReportsCycles, CountsLocals;
  }

  lemma AllSectionsDone(base: Sections, defaults: Options, ordered: seq<string>, current: Sections)
    requires Acyclic(SectionArcs(base)) && OrdersSections(base, ordered)
    requires SectionsInProgress(base, defaults, ordered[..|ordered|], current)
    ensures Resolvable(base, defaults) && Replaced(base, defaults, current)
    ensures SectionsOutcome(base, defaults, Done(current))
  {
    assert ordered[..|ordered|] == ordered;
    hide ReplacedBy;
    forall s, k | s in base && k in base[s] ensures ReplacedBy(base[s][k], current, defaults, s, current[s][k]) {
      assert AllReplaced(base[s], current, defaults, s, current[s]);
    }
  }

  // The part of resolve after the overrides.
  method ResolveSections(sections: Sections, defaults: Options) returns (result: Outcome<Sections>)
    ensures SectionsOutcome(sections, defaults, result)
    ensures result.Done? <==> Resolvable(sections, defaults)
    ensures result.Done? ==> Replaced(sections, defaults, result.value)
    ensures result.CyclicDependency? && result.scope == None <==> !Acyclic(SectionArcs(sections))
  {
    hide *;
    var sectionsCopy := sections;
    var sorting := SectionResolutionOrder(sections);
    if sorting.CyclicDependencies? {
      SectionCycle(sections, defaults, sorting.dependents);
      result := CyclicDependency(None, sorting.dependents);
      OnlyDoneIsResolvable(sections, defaults, result);
      return;
    }
    var ordered := sorting.order;
    StartSections(sections, defaults, ordered);
    for i := 0 to |ordered|
      invariant SectionsInProgress(sections, defaults, ordered[..i], sectionsCopy)
    {
      var sectionName := ordered[i];
      NoOverrides(sectionsCopy, sectionName);
      var options := ResolveOptions(sectionName, sectionsCopy, defaults, map[]);
      if !options.Done? {
        SectionFails(sections, defaults, ordered, i, sectionsCopy, options);
        result := Raised(options);
        OnlyDoneIsResolvable(sections, defaults, result);
        return;
      }
      KeysRemain(sections, defaults, ordered, i, sectionsCopy, sectionName);
      SectionDone(sections, defaults, ordered, i, sectionsCopy, options.value);
      sectionsCopy := sectionsCopy[sectionName := options.value];
    }
    AllSectionsDone(sections, defaults, ordered, sectionsCopy);
    result := Done(sectionsCopy);
    OnlyDoneIsResolvable(sections, defaults, result);
  }

  lemma SectionCycle(sections: Sections, defaults: Options, dependents: map<string, seq<string>>)
    requires !Acyclic(SectionArcs(sections))
    requires ReportsCycles(SectionArcs(sections), dependents) && CountsSections(sections, dependents)
    ensures SectionsOutcome(sections, defaults, CyclicDependency(None, dependents))
  {}

  lemma StartSections(sections: Sections, defaults: Options, ordered: seq<string>)
    ensures SectionsInProgress(sections, defaults, ordered[..0], sections)
  {}

  lemma NoOverrides(sections: Sections, s: string)
    ensures s in sections ==> Overridden(sections, s, map[]) == sections
  {
    assert s in sections ==> sections[s] + map[] == sections[s];
  }

  lemma KeysRemain(base: Sections, defaults: Options, ordered: seq<string>, i: nat, current: Sections, s: string)
    requires i < |ordered| && SectionsInProgress(base, defaults, ordered[..i], current)
    ensures s in base <==> s in current
  {}

  // ---------- The whole resolver ----------

  // The caller's dictionaries of options, which overrides are written through to.
  class OptionDict {
    var entries: Options

    constructor (options: Options)
      ensures entries == options
    {
      entries := options;
    }
  }

  ghost function Snapshot(sections: map<string, OptionDict>): Sections
    reads sections.Values
  {
    map s | s in sections :: sections[s].entries
  }

  // The sections with their overrides.
  ghost function WithOverrides(sections: Sections, overrides: Sections): Sections {
    map s | s in sections :: if s in overrides then sections[s] + overrides[s] else sections[s]
  }

  ghost predicate Unshared(sections: map<string, OptionDict>) {
    forall s, t | s in sections && t in sections && s != t :: sections[s] != sections[t]
  }

  // Section n shares its dictionary with s and has its option k overridden.
  ghost predicate Overrides(sections: map<string, OptionDict>, overrides: Sections, s: string, k: string, n: string)
    requires s in sections
  {
    n in sections && sections[n] == sections[s] && n in overrides && k in overrides[n]
  }

  ghost predicate IsOverridden(sections: map<string, OptionDict>, overrides: Sections, s: string, k: string)
    requires s in sections
  {
    exists n :: Overrides(sections, overrides, s, k, n)
  }

  ghost predicate IsOverride(sections: map<string, OptionDict>, overrides: Sections, s: string, k: string, v: Value)
    requires s in sections
  {
    exists n :: Overrides(sections, overrides, s, k, n) && overrides[n][k] == v
  }

  // Option k of section s after overriding: an override if there is one, else as before.
  ghost predicate OverriddenAt(sections: map<string, OptionDict>, overrides: Sections, s: string,
                               before: Options, after: Options, k: string)
    requires s in sections
  {
    if IsOverridden(sections, overrides, s, k) then
      k in after && IsOverride(sections, overrides, s, k, after[k])
    else
      (k in after <==> k in before) && (k in after ==> after[k] == before[k])
  }

  ghost predicate WrittenThrough(sections: map<string, OptionDict>, overrides: Sections, before: Sections,
                                 after: Sections) {
    && before.Keys == after.Keys == sections.Keys
    && forall s, k | s in sections :: OverriddenAt(sections, overrides, s, before[s], after[s], k)
  }

  // The entries of section s once the overrides of section n have been written.
  ghost function Overlaid(sections: map<string, OptionDict>, entries: Sections, overrides: Sections, n: string,
                          s: string): Options
    requires s in sections && s in entries && n in overrides
  {
    if n in sections && sections[n] == sections[s] then entries[s] + overrides[n] else entries[s]
  }

  // One more section's overrides.
  lemma OverrideOne(sections: map<string, OptionDict>, overrides: Sections, more: Sections, n: string,
                    s: string, before: Options, after: Options, k: string)
    requires s in sections && n in more && (forall m :: m in more <==> m in overrides || m == n)
    requires forall m | m in overrides :: more[m] == overrides[m]
    requires OverriddenAt(sections, overrides, s, before, after, k)
    ensures n in sections && sections[n] == sections[s] ==>
              OverriddenAt(sections, more, s, before, after + more[n], k)
    ensures !(n in sections && sections[n] == sections[s]) ==>
              OverriddenAt(sections, more, s, before, after, k)
  {
    forall m | m != n || !(n in sections && sections[n] == sections[s])
      ensures Overrides(sections, more, s, k, m) <==> Overrides(sections, overrides, s, k, m)
    {}
    if n in sections && sections[n] == sections[s] && k in more[n] {
      assert Overrides(sections, more, s, k, n);
    }
  }

  // The overrides are written into the dictionaries of the sections, which may be shared. If none
  // is, every section gets its own.
  method ApplyOverrides(sections: map<string, OptionDict>, overrides: Sections)
    modifies sections.Values
    ensures WrittenThrough(sections, overrides, old(Snapshot(sections)), Snapshot(sections))
    ensures Unshared(sections) ==> Snapshot(sections) == WithOverrides(old(Snapshot(sections)), overrides)
  {
    ghost var before := Snapshot(sections);
    var rest := overrides.Keys;
    NothingWritten(sections, overrides, before);
    hide WrittenThrough, WithOverrides;
    while rest != {}
      invariant rest <= overrides.Keys
      invariant WrittenThrough(sections, overrides - rest, before, Snapshot(sections))
      decreases |rest|
    {
      var n :| n in rest;
      WriteOneMore(sections, overrides - rest, overrides - (rest - {n}), n, before, Snapshot(sections));
      ghost var after := OverlaidAll(sections, Snapshot(sections), overrides - (rest - {n}), n);
      rest := rest - {n};
      if n in sections {
        assert sections[n] in sections.Values;
        sections[n].entries := sections[n].entries + overrides[n];
      }
      assert Snapshot(sections) == after;
    }
    assert overrides - rest == overrides;
    if Unshared(sections) {
      OwnOverrides(sections, overrides, before, Snapshot(sections));
    }
  }

  lemma NothingWritten(sections: map<string, OptionDict>, overrides: Sections, before: Sections)
    requires before.Keys == sections.Keys
    ensures WrittenThrough(sections, overrides - overrides.Keys, before, before)
  {}

  ghost function OverlaidAll(sections: map<string, OptionDict>, entries: Sections, overrides: Sections, n: string)
    : Sections
    requires entries.Keys == sections.Keys && n in overrides
  {
    map s | s in sections :: Overlaid(sections, entries, overrides, n, s)
  }

  lemma WriteOneMore(sections: map<string, OptionDict>, overrides: Sections, more: Sections, n: string,
                     before: Sections, entries: Sections)
    requires WrittenThrough(sections, overrides, before, entries)
    requires n in more && (forall m :: m in more <==> m in overrides || m == n)
    requires forall m | m in overrides :: more[m] == overrides[m]
    ensures WrittenThrough(sections, more, before, OverlaidAll(sections, entries, more, n))
  {
    forall s, k | s in sections
      ensures OverriddenAt(sections, more, s, before[s], Overlaid(sections, entries, more, n, s), k)
    {
      OverrideOne(sections, overrides, more, n, s, before[s], entries[s], k);
    }
    hide OverriddenAt, Overlaid;
  }

  lemma OwnOverrides(sections: map<string, OptionDict>, overrides: Sections, before: Sections, after: Sections)
    requires Unshared(sections) && WrittenThrough(sections, overrides, before, after)
    ensures after == WithOverrides(before, overrides)
  {
    forall s | s in sections ensures after[s] == WithOverrides(before, overrides)[s] {
      forall k
        ensures k in after[s] <==> k in WithOverrides(before, overrides)[s]
        ensures k in after[s] ==> after[s][k] == WithOverrides(before, overrides)[s][k]
      {
        assert OverriddenAt(sections, overrides, s, before[s], after[s], k);
        assert s in overrides && k in overrides[s] ==> Overrides(sections, overrides, s, k, s);
      }
    }
  }

  // Resolves all sections. It succeeds exactly if no references form a cycle, between sections or
  // within one, and none is undefined. Each value is then the one it had with its tokens replaced by
  // what they stand for in the result; with referable defaults free of references this is the one resolution.
  method Resolve(sections: map<string, OptionDict>, defaults: Options, overrides: Sections)
    returns (result: Outcome<Sections>)
    modifies sections.Values
    ensures WrittenThrough(sections, overrides, old(Snapshot(sections)), Snapshot(sections))
    ensures Unshared(sections) ==> Snapshot(sections) == WithOverrides(old(Snapshot(sections)), overrides)
    ensures SectionsOutcome(Snapshot(sections), defaults, result)
    ensures result.Done? <==> Resolvable(Snapshot(sections), defaults)
    ensures result.Done? ==> Replaced(Snapshot(sections), defaults, result.value)
    ensures result.Done? && ClosedDefaults(defaults) ==> Solved(Snapshot(sections), defaults, result.value)
    ensures result.CyclicDependency? && result.scope == None <==> !Acyclic(SectionArcs(Snapshot(sections)))
  {
    ApplyOverrides(sections, overrides);
    var sectionsCopy := map s | s in sections :: sections[s].entries;
    result := ResolveSections(sectionsCopy, defaults);
    if result.Done? && ClosedDefaults(defaults) {
      ReplacedIsResolution(sectionsCopy, defaults, result.value);
    }
  }

  // Whatever orders the two runs iterate their dictionaries in, they agree; and with referable
  // defaults free of references, resolving what has been resolved changes nothing.
  method ResolveAgain(sections: Sections, defaults: Options)
    returns (first: Outcome<Sections>, second: Outcome<Sections>, third: Outcome<Sections>)
    ensures first.Done? <==> second.Done?
    ensures first.Done? ==> second == first
    ensures first.Done? && ClosedDefaults(defaults) ==> third == first
  {
    first := ResolveSections(sections, defaults);
    second := ResolveSections(sections, defaults);
    third := first;
    hide *;
    if first.Done? {
      ReplacedOnce(sections, defaults, first.value, second);
      third := ResolveSections(first.value, defaults);
      ReplacedAgain(sections, defaults, first.value, third);
    }
  }

  lemma ReplacedOnce(sections: Sections, defaults: Options, result: Sections, other: Outcome<Sections>)
    requires Resolvable(sections, defaults) && Replaced(sections, defaults, result)
    requires other.Done? ==> Replaced(sections, defaults, other.value)
    ensures other.Done? ==> other.value == result
  {
    if other.Done? {
      ReplacementIsUnique(sections, defaults, result, other.value);
    }
  }

  lemma ReplacedAgain(sections: Sections, defaults: Options, result: Sections, other: Outcome<Sections>)
    requires Resolvable(sections, defaults) && Replaced(sections, defaults, result)
    requires other.Done? <==> Resolvable(result, defaults)
    requires other.Done? ==> Replaced(result, defaults, other.value)
    ensures ClosedDefaults(defaults) ==> other.Done? && other.value == result
  {
    if ClosedDefaults(defaults) {
      ReplacedIsResolution(sections, defaults, result);
      ResolutionIsFixed(sections, defaults, result);
      ResolutionIsReplaced(result, defaults, result);
      ReplacedOnce(result, defaults, result, other);
    }
  }
}
