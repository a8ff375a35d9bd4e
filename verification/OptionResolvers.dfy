/** Resolving the options of one section: an order in which every option comes after the local
options it refers to, then replacing the references of each value in place. */
module OptionResolvers {
  import opened ConfigValues
  import opened Graphs
  import opened Resolutions
  import opened Sequences
  import opened TopologicalSorts
  import opened Wrappers

  // A call's result or the error it raises.
  datatype Outcome<+T> =
    | Done(value: T)
    | MissingDependency(section: string, option: string, source: Value, offender: string)
    | CyclicDependency(scope: Option<string>, dependents: map<string, seq<string>>)
    | KeyError(key: string)

  method FindTokens(v: Value) returns (tokens: seq<string>)
    ensures tokens == Tokens(v)
  {
    tokens := [];
    for i := 0 to |v|
      invariant Tokens(v) == tokens + Tokens(v[i..])
    {
      assert v[i..][1..] == v[i + 1..];
      if v[i].Token? {
        tokens := tokens + [v[i].token];
      }
    }
  }

  // The first of the tokens that stands for nothing has that name.
  ghost predicate FirstUndefined(tokens: seq<string>, sections: Sections, defaults: Options, section: string,
                                 name: string) {
    exists i :: 0 <= i < |tokens| && Interpret(tokens[i]).name == name
                && Lookup(sections, defaults, section, tokens[i]).None?
                && forall t | t in tokens[..i] :: Lookup(sections, defaults, section, t).Some?
  }

  // A value is resolved exactly if all its references exist, by replacing them one after the
  // other; else the error names the first that does not.
  ghost predicate ValueOutcome(value: Value, sectionName: string, sections: Sections, defaults: Options,
                               optionName: string, result: Outcome<Value>) {
    match result
    case Done(v) =>
      && (forall t | t in Tokens(value) :: Lookup(sections, defaults, sectionName, t).Some?)
      && ReplacedBy(value, sections, defaults, sectionName, v)
    case MissingDependency(section, option, source, offender) =>
      && section == sectionName && option == optionName && source == value
      && FirstUndefined(Tokens(value), sections, defaults, sectionName, offender)
    case _ => false
  }

  method ResolveValue(value: Value, sectionName: string, sections: Sections, defaults: Options,
                      optionName: string)
    returns (result: Outcome<Value>)
    ensures ValueOutcome(value, sectionName, sections, defaults, optionName, result)
  {
    var tokens := FindTokens(value);
    var v := value;
    hide ReplaceEach, Replace, Lookup, Tokens;
    ReplaceNone(value, tokens, sections, defaults, sectionName);
    for i := 0 to |tokens|
      invariant forall t | t in tokens[..i] :: Lookup(sections, defaults, sectionName, t).Some?
      invariant v == ReplaceEach(value, tokens[..i], sections, defaults, sectionName)
    {
      var found := Lookup(sections, defaults, sectionName, tokens[i]);
      if found.None? {
        assert tokens[i] in Tokens(value);
        return MissingDependency(sectionName, optionName, value, Interpret(tokens[i]).name);
      }
      ReplaceOneMore(value, tokens, i, sections, defaults, sectionName);
      PrefixGrows(tokens, i);
      v := Replace(v, tokens[i], found.value);
    }
    assert tokens[..|tokens|] == tokens;
    return Done(v);
  }

  lemma ReplaceNone(v: Value, tokens: seq<string>, sections: Sections, defaults: Options, s: string)
    ensures ReplaceEach(v, tokens[..0], sections, defaults, s) == v
  {}

  lemma ReplaceOneMore(v: Value, tokens: seq<string>, i: nat, sections: Sections, defaults: Options, s: string)
    requires i < |tokens|
    ensures ReplaceEach(v, tokens[..i + 1], sections, defaults, s)
         == Replace(ReplaceEach(v, tokens[..i], sections, defaults, s), tokens[i],
                    Found(sections, defaults, s, tokens[i]))
  {
    assert tokens[..i + 1][..i] == tokens[..i];
    hide Found, Replace;
  }

  // ---------- Within a section ----------

  ghost predicate RefersLocally(options: Options, k: string, name: string) {
    k in options && exists t :: t in Tokens(options[k]) && Interpret(t) == Reference(Local, name)
  }

  // The places among the first i tokens that hold a reference.
  ghost function PlacesOf(tokens: seq<string>, i: nat, reference: Reference): set<nat> {
    set m: nat | m < i && m < |tokens| && Interpret(tokens[m]) == reference
  }

  lemma OnePlaceMore(tokens: seq<string>, i: nat, reference: Reference)
    requires i < |tokens|
    ensures |PlacesOf(tokens, i + 1, reference)|
         == |PlacesOf(tokens, i, reference)| + if Interpret(tokens[i]) == reference then 1 else 0
  {
    assert PlacesOf(tokens, i + 1, reference)
        == PlacesOf(tokens, i, reference) + if Interpret(tokens[i]) == reference then {i} else {};
  }

  lemma NoPlacesYet(tokens: seq<string>)
    ensures forall reference :: PlacesOf(tokens, 0, reference) == {}
  {}

  // How many references to the local option of that name an option holds.
  ghost function LocalCount(options: Options, k: string, name: string): nat {
    if k in options then |PlacesOf(Tokens(options[k]), |Tokens(options[k])|, Reference(Local, name))| else 0
  }

  lemma CountedIffReferring(options: Options, k: string, name: string)
    ensures LocalCount(options, k, name) > 0 <==> RefersLocally(options, k, name)
  {
    if k in options {
      var tokens := Tokens(options[k]);
      var places := PlacesOf(tokens, |tokens|, Reference(Local, name));
      if RefersLocally(options, k, name) {
        var t :| t in tokens && Interpret(t) == Reference(Local, name);
        var m :| 0 <= m < |tokens| && tokens[m] == t;
        assert m in places;
      }
      if |places| > 0 {
        var m :| m in places;
        assert tokens[m] in tokens;
      }
    }
  }

  // Every option a cyclic error lists is listed once for each of its references.
  ghost predicate CountsLocals(options: Options, dependents: map<string, seq<string>>) {
    forall n, b | n in dependents :: multiset(dependents[n])[b] == LocalCount(options, b, n)
  }

  // Names with, for each, the options referring to it and their values.
  type Index = map<string, seq<(string, Value)>>

  ghost predicate IndexOf(options: Options, order: seq<Pair>, index: Index) {
    && (forall name, k | (name, k) in order :: name in index)
    && forall name | name in index :: IndexEntries(options, name, index[name])
  }

  ghost predicate IndexEntries(options: Options, name: string, entries: seq<(string, Value)>) {
    && entries != []
    && forall entry | entry in entries :: RefersLocally(options, entry.0, name) && entry.1 == options[entry.0]
  }

  lemma IndexOneMore(options: Options, order: seq<Pair>, index: Index, name: string, k: string)
    requires IndexOf(options, order, index) && RefersLocally(options, k, name)
    ensures var known := if name in index then index[name] else [];
            IndexOf(options, order + [(name, k)], index[name := known + [(k, options[k])]])
  {
    var known := if name in index then index[name] else [];
    assert IndexEntries(options, name, known + [(k, options[k])]);
    hide IndexEntries;
  }

  // What one option adds.
  method CollectFromOption(options: Options, k: string, order0: seq<Pair>, index0: Index)
    returns (order: seq<Pair>, index: Index)
    requires k in options && IndexOf(options, order0, index0)
    ensures forall name, j :: (name, j) in order <==>
              (name, j) in order0 || (j == k && RefersLocally(options, k, name))
    ensures forall name, j :: multiset(order)[(name, j)]
              == multiset(order0)[(name, j)] + if j == k then LocalCount(options, k, name) else 0
    ensures IndexOf(options, order, index)
  {
    order, index := order0, index0;
    var tokens := FindTokens(options[k]);
    hide IndexOf, PlacesOf;
    NoPlacesYet(tokens);
    for i := 0 to |tokens|
      invariant forall name, j :: multiset(order)[(name, j)]
                  == multiset(order0)[(name, j)] + if j == k then |PlacesOf(tokens, i, Reference(Local, name))| else 0
      invariant IndexOf(options, order, index)
    {
      forall name { OnePlaceMore(tokens, i, Reference(Local, name)); }
      var reference := Interpret(tokens[i]);
      if reference.namespace == Local {
        assert tokens[i] in Tokens(options[k]);
        IndexOneMore(options, order, index, reference.name, k);
        order := order + [(reference.name, k)];
        var known := if reference.name in index then index[reference.name] else [];
        index := index[reference.name := known + [(k, options[k])]];
      }
    }
    forall name { CountedIffReferring(options, k, name); }
    forall name, j ensures (name, j) in order <==> multiset(order)[(name, j)] > 0 {}
    forall name, j ensures (name, j) in order0 <==> multiset(order0)[(name, j)] > 0 {}
  }

  // The option names, in any order; the pairs (name, option referring to it); and the index.
  method CollectLocalReferences(options: Options)
    returns (items: seq<string>, order: seq<Pair>, index: Index)
    ensures forall k :: k in items <==> k in options
    ensures forall name, k :: (name, k) in order <==> RefersLocally(options, k, name)
    ensures forall name, k :: multiset(order)[(name, k)] == LocalCount(options, k, name)
    ensures IndexOf(options, order, index)
  {
    items, order, index := [], [], map[];
    var rest := options.Keys;
    assert forall name, k | k !in options :: LocalCount(options, k, name) == 0;
    hide RefersLocally, IndexEntries, LocalCount;
    while rest != {}
      invariant rest <= options.Keys
      invariant forall k :: k in items <==> k in options.Keys - rest
      invariant forall name, k :: (name, k) in order <==> k in options.Keys - rest && RefersLocally(options, k, name)
      invariant forall name, k :: multiset(order)[(name, k)]
                  == if k in options.Keys - rest then LocalCount(options, k, name) else 0
      invariant IndexOf(options, order, index)
      decreases |rest|
    {
      var k :| k in rest;
      items := items + [k];
      order, index := CollectFromOption(options, k, order, index);
      rest := rest - {k};
    }
    forall name, k | RefersLocally(options, k, name) ensures k in options {
      ReferrerIsOption(options, k, name);
    }
  }

  // No option refers to its own section by the section's name.
  ghost predicate Ready(sections: Sections, section: string)
    requires section in sections
  {
    forall k, t | k in sections[section] && t in Tokens(sections[section][k]) ::
      Interpret(t).namespace != Section(section)
  }

  // The options of a section when those in done are resolved and the others are as they were.
  ghost function Moment(base: Options, options: Options, done: seq<string>): Options {
    map x | x in base :: if x in done && x in options then options[x] else base[x]
  }

  // Option k comes out with its tokens replaced by what they stand for once those in done are resolved.
  ghost predicate ReplacedAfter(sections: Sections, defaults: Options, section: string, done: seq<string>,
                                options: Options, k: string)
    requires section in sections
  {
    var base := sections[section];
    && k in base && k in options
    && ReplacedBy(base[k], sections[section := Moment(base, options, done)], defaults, section, options[k])
  }

  // The listed options come out as if resolved one after the other.
  ghost predicate InTurn(sections: Sections, defaults: Options, section: string, order: seq<string>,
                         options: Options)
    requires section in sections
  {
    forall i | 0 <= i < |order| :: ReplacedAfter(sections, defaults, section, order[..i], options, order[i])
  }

  // What a token in k stands for in its turn is what it stands for at the end.
  lemma SettledInTurn(sections: Sections, defaults: Options, section: string, order: seq<string>,
                      i: nat, options: Options, t: string)
    requires section in sections && Ready(sections, section) && options.Keys == sections[section].Keys
    requires OrdersLocals(sections[section], order) && i < |order| && order[i] in sections[section]
    requires t in Tokens(sections[section][order[i]])
    ensures var moment := Moment(sections[section], options, order[..i]);
            Found(sections[section := moment], defaults, section, t)
            == Found(sections[section := options], defaults, section, t)
  {
    var name := Interpret(t).name;
    if Interpret(t).namespace == Local {
      assert RefersLocally(sections[section], order[i], name);
      assert name in options ==> name in order[..i];
    }
  }

  // The turn matters only for references to the section by its own name.
  lemma InTurnIsForGood(sections: Sections, defaults: Options, section: string, order: seq<string>,
                        options: Options, k: string)
    requires section in sections && Ready(sections, section) && options.Keys == sections[section].Keys
    requires OrdersLocals(sections[section], order) && InTurn(sections, defaults, section, order, options)
    requires k in options
    ensures ReplacedBy(sections[section][k], sections[section := options], defaults, section, options[k])
  {
    var base := sections[section];
    var i :| 0 <= i < |order| && order[i] == k;
    hide Found, ReplaceEach, Moment, Ready, OrdersLocals;
    assert ReplacedAfter(sections, defaults, section, order[..i], options, k);
    var moment := Moment(base, options, order[..i]);
    forall t | t in Tokens(base[k])
      ensures Found(sections[section := moment], defaults, section, t)
           == Found(sections[section := options], defaults, section, t)
    {
      SettledInTurn(sections, defaults, section, order, i, options, t);
    }
    ReplaceEachSameLookups(base[k], Tokens(base[k]), sections[section := moment], sections[section := options],
                           defaults, section);
  }

  // Some options of a section are done, the others untouched.
  ghost predicate InProgress(sections: Sections, defaults: Options, section: string,
                             done: seq<string>, current: Options) {
    && section in sections
    && Touched(sections[section], done, current)
    && (forall k | k in done && k in sections[section] :: DefinedAt(sections, defaults, section, k))
    && InTurn(sections, defaults, section, done, current)
  }

  ghost predicate Touched(base: Options, done: seq<string>, current: Options) {
    && current.Keys == base.Keys
    && (forall k | k in done :: k in base)
    && (forall k | k in base && k !in done :: current[k] == base[k])
  }

  lemma SameDefinedness(s1: Sections, s2: Sections, defaults: Options, section: string, t: string)
    requires SameShape(s1, s2)
    ensures Lookup(s1, defaults, section, t).Some? <==> Lookup(s2, defaults, section, t).Some?
  {}

  lemma MomentStays(base: Options, current: Options, k: string, v: Value, done: seq<string>)
    requires k !in done
    ensures Moment(base, current[k := v], done) == Moment(base, current, done)
  {}

  lemma MomentIsCurrent(base: Options, current: Options, k: string, v: Value, done: seq<string>)
    requires Touched(base, done, current) && k !in done
    ensures Moment(base, current[k := v], done) == current
  {}

  // Resolving one more option keeps what the options done so far were resolved from.
  lemma InTurnGrows(sections: Sections, defaults: Options, section: string, done: seq<string>,
                    current: Options, k: string, v: Value)
    requires section in sections && Touched(sections[section], done, current)
    requires InTurn(sections, defaults, section, done, current)
    requires k in sections[section] && k !in done
    requires ReplacedBy(sections[section][k], sections[section := current], defaults, section, v)
    ensures InTurn(sections, defaults, section, done + [k], current[k := v])
  {
    var base := sections[section];
    hide ReplacedBy, Moment, Touched;
    forall i | 0 <= i < |done + [k]|
      ensures ReplacedAfter(sections, defaults, section, (done + [k])[..i], current[k := v], (done + [k])[i])
    {
      if i < |done| {
        assert (done + [k])[..i] == done[..i];
        assert ReplacedAfter(sections, defaults, section, done[..i], current, done[i]);
        MomentStays(base, current, k, v, done[..i]);
      } else {
        assert (done + [k])[..i] == done;
        MomentIsCurrent(base, current, k, v, done);
      }
    }
  }

  // Resolving the next option with what is there keeps the progress.
  lemma OptionDone(sections: Sections, defaults: Options, section: string, done: seq<string>,
                   current: Options, k: string, v: Value)
    requires InProgress(sections, defaults, section, done, current)
    requires k in sections[section] && k !in done
    requires forall t | t in Tokens(current[k]) ::
               Lookup(sections[section := current], defaults, section, t).Some?
    requires ReplacedBy(current[k], sections[section := current], defaults, section, v)
    ensures InProgress(sections, defaults, section, done + [k], current[k := v])
  {
    var before := sections[section := current];
    assert SameShape(sections, before);
    hide ReplacedBy, InTurn, Lookup;
    forall t | t in Tokens(current[k]) ensures Lookup(sections, defaults, section, t).Some? {
      SameDefinedness(sections, before, defaults, section, t);
    }
    hide SameShape;
    InTurnGrows(sections, defaults, section, done, current, k, v);
  }

  // The pairs collected from a section are its local references.
  lemma CollectedArcs(options: Options, items: seq<string>, order: seq<Pair>)
    requires forall k :: k in items <==> k in options
    requires forall name, k :: (name, k) in order <==> RefersLocally(options, k, name)
    ensures KnownArcs(items, order) == LocalArcs(options)
    ensures forall pair | pair in order :: pair.1 in items
  {
    forall pair | pair in order ensures pair.1 in items && RefersLocally(options, pair.1, pair.0) {
      assert (pair.0, pair.1) in order;
    }
    forall name, k ensures (name, k) in KnownArcs(items, order) <==> (name, k) in LocalArcs(options) {
      if (name, k) in LocalArcs(options) {
        assert RefersLocally(options, k, name);
      }
    }
    assert forall pair :: pair in KnownArcs(items, order) ==> (pair.0, pair.1) in LocalArcs(options);
    assert forall pair :: pair in LocalArcs(options) ==> (pair.0, pair.1) in KnownArcs(items, order);
  }

  lemma PrecedingIsDone(ordered: seq<string>, i: nat, a: string)
    requires Distinct(ordered) && i < |ordered| && Precedes(ordered, a, ordered[i])
    ensures a in ordered[..i] && a != ordered[i]
  {
    var m, n :| 0 <= m < n < |ordered| && ordered[m] == a && ordered[n] == ordered[i];
    assert n == i;
    assert ordered[..i][m] == a;
  }

  // Every option is listed after the defined local options it refers to.
  ghost predicate OrdersLocals(base: Options, ordered: seq<string>) {
    && Distinct(ordered)
    && (forall k | k in base :: k in ordered)
    && forall i, name | 0 <= i < |ordered| && name in base && RefersLocally(base, ordered[i], name) ::
         name in ordered[..i]
  }

  // index knows who refers to a name, for all listed names that are no options.
  ghost predicate IndexesMissing(base: Options, ordered: seq<string>,
                                 index: Index) {
    forall name | name in ordered && name !in base ::
      && name in index && index[name] != []
      && RefersLocally(base, index[name][0].0, name) && index[name][0].1 == base[index[name][0].0]
  }

  method OptionResolutionOrder(options: Options)
    returns (index: Index, result: SortResult)
    ensures result.Sorted? <==> Acyclic(LocalArcs(options))
    ensures result.Sorted? ==>
              OrdersLocals(options, result.order) && IndexesMissing(options, result.order, index)
    ensures result.CyclicDependencies? ==>
              ReportsCycles(LocalArcs(options), result.dependents) && CountsLocals(options, result.dependents)
  {
    hide LocalCount, LocalArcs, KnownArcs, Recorded, Successors;
    var items, order;
    items, order, index := CollectLocalReferences(options);
    CollectedArcs(options, items, order);
    RecordedCycles(items, order);
    RecordedNodes(items, order);
    result := TopologicalSort(items, order);
    if result.CyclicDependencies? {
      CyclesReported(items, order, result.dependents);
    } else {
      SortedOrdersLocals(options, items, order, result.order);
      forall name | name in result.order && name !in options ensures name in index {
        assert IsFirst(order, name);
      }
    }
  }

  lemma SortedOrdersLocals(options: Options, items: seq<string>, order: seq<Pair>, ordered: seq<string>)
    requires forall k :: k in items <==> k in options
    requires forall name, k :: (name, k) in order <==> RefersLocally(options, k, name)
    requires IsTopologicalOrder(ordered, Recorded(items, order))
    ensures OrdersLocals(options, ordered)
  {
    RecordedItems(items, order);
    hide RefersLocally, Recorded;
    forall i, name | 0 <= i < |ordered| && name in options && RefersLocally(options, ordered[i], name)
      ensures name in ordered[..i]
    {
      assert ordered[i] in options by { ReferrerIsOption(options, ordered[i], name); }
      PrecedingIsDone(ordered, i, name);
    }
  }

  lemma ReferrerIsOption(options: Options, k: string, name: string)
    requires RefersLocally(options, k, name)
    ensures k in options
  {}

  // A local reference to a name that is no option is an undefined one.
  lemma UndefinedLocal(sections: Sections, defaults: Options, section: string, k: string, name: string)
    requires section in sections && name !in sections[section]
    requires RefersLocally(sections[section], k, name)
    ensures !AllDefined(sections, defaults, section)
  {
    var t :| t in Tokens(sections[section][k]) && Interpret(t) == Reference(Local, name);
    assert Lookup(sections, defaults, section, t).None?;
    assert !DefinedAt(sections, defaults, section, k);
  }

  // The error names an undefined reference: of option to offender, or, found while ordering,
  // of offender to option.
  ghost predicate NamesUndefined(sections: Sections, defaults: Options, section: string, option: string,
                                 source: Value, offender: string)
  {
    && section in sections
    && var base := sections[section];
       if option in base then
         && source == base[option]
         && FirstUndefined(Tokens(source), sections, defaults, section, offender)
       else
         && RefersLocally(base, offender, option)
         && source == base[offender]
  }

  // The working copy of all sections holds the working copy of the section being resolved.
  ghost predicate Holds(copy: Sections, env: Sections, section: string, current: Options) {
    copy == env[section := current]
  }

  lemma HoldsUpdated(copy: Sections, env: Sections, section: string, current: Options, next: Options)
    requires Holds(copy, env, section, current)
    ensures Holds(copy[section := next], env, section, next)
  {}

  lemma StartOptions(env: Sections, defaults: Options, section: string, ordered: seq<string>)
    requires section in env
    ensures InProgress(env, defaults, section, ordered[..0], env[section])
  {}

  lemma MissingOption(env: Sections, defaults: Options, section: string, ordered: seq<string>, i: nat,
                      current: Options, index: Index)
    requires i < |ordered| && InProgress(env, defaults, section, ordered[..i], current)
    requires IndexesMissing(env[section], ordered, index) && ordered[i] !in current
    requires Acyclic(LocalArcs(env[section]))
    ensures section in env && ordered[i] in index && index[ordered[i]] != []
    ensures OptionsOutcome(env, defaults, section,
              MissingDependency(section, ordered[i], index[ordered[i]][0].1, index[ordered[i]][0].0))
  {
    UndefinedLocal(env, defaults, section, index[ordered[i]][0].0, ordered[i]);
  }

  lemma OptionResolved(env: Sections, defaults: Options, section: string, ordered: seq<string>, i: nat,
                       current: Options, copy: Sections, v: Value)
    requires i < |ordered| && InProgress(env, defaults, section, ordered[..i], current)
    requires Holds(copy, env, section, current)
    requires OrdersLocals(env[section], ordered) && ordered[i] in current
    requires ValueOutcome(current[ordered[i]], section, copy, defaults, ordered[i], Done(v))
    ensures InProgress(env, defaults, section, ordered[..i + 1], current[ordered[i] := v])
  {
    NotBefore(ordered, i);
    PrefixGrows(ordered, i);
    hide ReplacedBy, InTurn, Lookup, OrdersLocals;
    OptionDone(env, defaults, section, ordered[..i], current, ordered[i], v);
  }

  lemma OptionFails(env: Sections, defaults: Options, section: string, ordered: seq<string>, i: nat,
                    current: Options, copy: Sections, failed: Outcome<Value>)
    requires i < |ordered| && InProgress(env, defaults, section, ordered[..i], current)
    requires Holds(copy, env, section, current)
    requires OrdersLocals(env[section], ordered) && ordered[i] in current && Acyclic(LocalArcs(env[section]))
    requires ValueOutcome(current[ordered[i]], section, copy, defaults, ordered[i], failed)
    requires !failed.Done?
    ensures section in env && failed.MissingDependency?
    ensures OptionsOutcome(env, defaults, section,
              MissingDependency(failed.section, failed.option, failed.source, failed.offender))
  {
    var k := ordered[i];
    NotBefore(ordered, i);
    hide RefersLocally, ReplacedBy, InTurn, OrdersLocals;
    forall t ensures Lookup(env, defaults, section, t).Some? <==> Lookup(copy, defaults, section, t).Some? {
      SameDefinedness(env, copy, defaults, section, t);
    }
    assert current[k] == env[section][k];
    assert !DefinedAt(env, defaults, section, k);
  }

  lemma FinishOptions(env: Sections, defaults: Options, section: string, ordered: seq<string>,
                      current: Options)
    requires InProgress(env, defaults, section, ordered[..|ordered|], current)
    requires OrdersLocals(env[section], ordered) && Acyclic(LocalArcs(env[section]))
    ensures section in env && OptionsOutcome(env, defaults, section, Done(current))
  {
    assert ordered[..|ordered|] == ordered;
  }

  // The options of one section with the given overrides.
  ghost function Overridden(sections: Sections, section: string, overrides: Options): Sections
    requires section in sections
  {
    sections[section := sections[section] + overrides]
  }

  // Overrides win over what the section holds, and touch no other section.
  lemma OverridesWin(sections: Sections, section: string, overrides: Options, s: string)
    requires section in sections
    ensures var all := Overridden(sections, section, overrides);
            && all.Keys == sections.Keys && all[section].Keys == sections[section].Keys + overrides.Keys
            && (forall k | k in overrides :: all[section][k] == overrides[k])
            && (forall k | k in sections[section] && k !in overrides :: all[section][k] == sections[section][k])
            && (s in sections && s != section ==> all[s] == sections[s])
  {}

  // The three outcomes of resolving an existing section, each with the condition under which it,
  // and no other, arises; and what the resolved options are.
  ghost predicate OptionsOutcome(env: Sections, defaults: Options, section: string,
                                 result: Outcome<Options>)
    requires section in env
  {
    match result
    case KeyError(_) => false
    case CyclicDependency(scope, dependents) =>
      && !Acyclic(LocalArcs(env[section]))
      && scope == Some(section)
      && ReportsCycles(LocalArcs(env[section]), dependents) && CountsLocals(env[section], dependents)
    case MissingDependency(s, option, source, offender) =>
      && Acyclic(LocalArcs(env[section])) && !AllDefined(env, defaults, section)
      && s == section && NamesUndefined(env, defaults, section, option, source, offender)
    case Done(options) =>
      && Acyclic(LocalArcs(env[section])) && AllDefined(env, defaults, section)
      && options.Keys == env[section].Keys
      && exists order :: OrdersLocals(env[section], order) && InTurn(env, defaults, section, order, options)
  }

  // Resolves one section.
  method ResolveOptions(sectionName: string, sections: Sections, defaults: Options, overrides: Options)
    returns (result: Outcome<Options>)
    ensures sectionName !in sections ==> result == KeyError(sectionName)
    ensures sectionName in sections ==>
              OptionsOutcome(Overridden(sections, sectionName, overrides), defaults, sectionName, result)
  {
    if sectionName !in sections {
      return KeyError(sectionName);
    }
    var optionsCopy := sections[sectionName] + overrides;
    var sectionsCopy := sections[sectionName := optionsCopy];
    ghost var env := Overridden(sections, sectionName, overrides);
    assert Holds(sectionsCopy, env, sectionName, optionsCopy) && optionsCopy == env[sectionName];
    hide *;
    var index, sorting := OptionResolutionOrder(optionsCopy);
    if sorting.CyclicDependencies? {
      CyclicOutcome(env, defaults, sectionName, sorting.dependents);
      return CyclicDependency(Some(sectionName), sorting.dependents);
    }
    var ordered := sorting.order;
    StartOptions(env, defaults, sectionName, ordered);
    for i := 0 to |ordered|
      invariant InProgress(env, defaults, sectionName, ordered[..i], optionsCopy)
      invariant Holds(sectionsCopy, env, sectionName, optionsCopy)
    {
      var optionName := ordered[i];
      if optionName !in optionsCopy {
        MissingOption(env, defaults, sectionName, ordered, i, optionsCopy, index);
        var (value, offender) := index[optionName][0];
        return MissingDependency(sectionName, optionName, offender, value);
      }
      var resolved := ResolveValue(optionsCopy[optionName], sectionName, sectionsCopy, defaults, optionName);
      if !resolved.Done? {
        OptionFails(env, defaults, sectionName, ordered, i, optionsCopy, sectionsCopy, resolved);
        return MissingDependency(resolved.section, resolved.option, resolved.source, resolved.offender);
      }
      OptionResolved(env, defaults, sectionName, ordered, i, optionsCopy, sectionsCopy, resolved.value);
      HoldsUpdated(sectionsCopy, env, sectionName, optionsCopy, optionsCopy[optionName := resolved.value]);
      optionsCopy := optionsCopy[optionName := resolved.value];
      sectionsCopy := sectionsCopy[sectionName := optionsCopy];
    }
    FinishOptions(env, defaults, sectionName, ordered, optionsCopy);
    return Done(optionsCopy);
  }

  lemma CyclicOutcome(env: Sections, defaults: Options, section: string,
                      dependents: map<string, seq<string>>)
    requires section in env && !Acyclic(LocalArcs(env[section]))
    requires ReportsCycles(LocalArcs(env[section]), dependents) && CountsLocals(env[section], dependents)
    ensures OptionsOutcome(env, defaults, section, CyclicDependency(Some(section), dependents))
  {}
}
