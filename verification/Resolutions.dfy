/** What it means for sections to be resolved, and that there is only one way to do it. */
module Resolutions {
  import opened ConfigValues
  import opened Graphs
  import opened Wrappers

  // (n, s): some option of section s refers to a defined section n.
  ghost function SectionArcs(sections: Sections): set<(string, string)> {
    set s, k, t | s in sections && k in sections[s] && t in Tokens(sections[s][k])
                  && Interpret(t).namespace.Section? && Interpret(t).namespace.name in sections
      :: (Interpret(t).namespace.name, s)
  }

  // (n, k): option k refers to the local, defined option n.
  ghost function LocalArcs(options: Options): set<(string, string)> {
    set k, t | k in options && t in Tokens(options[k])
               && Interpret(t).namespace == Local && Interpret(t).name in options
      :: (Interpret(t).name, k)
  }

  // Every reference of the option is to something that exists.
  ghost predicate DefinedAt(sections: Sections, defaults: Options, section: string, k: string)
    requires section in sections && k in sections[section]
  {
    forall t | t in Tokens(sections[section][k]) :: Lookup(sections, defaults, section, t).Some?
  }

  ghost predicate AllDefined(sections: Sections, defaults: Options, section: string)
    requires section in sections
  {
    forall k | k in sections[section] :: DefinedAt(sections, defaults, section, k)
  }

  ghost predicate Resolvable(sections: Sections, defaults: Options) {
    && Acyclic(SectionArcs(sections))
    && forall s | s in sections :: Acyclic(LocalArcs(sections[s])) && AllDefined(sections, defaults, s)
  }

  ghost predicate AllClosed(options: Options) {
    forall k | k in options :: Closed(options[k])
  }

  // Every default that can be referred to is free of references; a name with a slash cannot.
  ghost predicate ClosedDefaults(defaults: Options) {
    forall d | d in defaults && '/' !in d :: Closed(defaults[d])
  }

  ghost predicate SameShape(s: Sections, t: Sections) {
    s.Keys == t.Keys && forall n | n in s :: s[n].Keys == t[n].Keys
  }

  // result has the options of sections, reference-free, each one the expansion of the
  // original by the others.
  ghost predicate ResolutionOf(sections: Sections, defaults: Options, result: Sections) {
    && SameShape(sections, result)
    && (forall s | s in result :: AllClosed(result[s]))
    && forall s, k | s in sections && k in sections[s] ::
         result[s][k] == Expand(sections[s][k], result, defaults, s)
  }

  // Expanding a value on demand, following references at most depth levels deep.
  function Evaluate(depth: nat, sections: Sections, defaults: Options, section: string, v: Value)
    : Option<Value>
    decreases depth, |v|
  {
    if v == [] then Some([])
    else
      var head := if v[0].Text? then Some([v[0]])
                  else EvaluateToken(depth, sections, defaults, section, v[0].token);
      var tail := Evaluate(depth, sections, defaults, section, v[1..]);
      if head.Some? && tail.Some? then Some(head.value + tail.value) else None
  }

  function EvaluateToken(depth: nat, sections: Sections, defaults: Options, section: string, token: string)
    : Option<Value>
    decreases depth, 0
  {
    var found := Lookup(sections, defaults, section, token);
    if depth == 0 || found.None? then None
    else
      match Interpret(token).namespace
      case Defaults => found
      case Local => Evaluate(depth - 1, sections, defaults, section, found.value)
      case Section(name) => Evaluate(depth - 1, sections, defaults, name, found.value)
  }

  lemma {:induction false} DeeperIsSame(d: nat, e: nat, sections: Sections, defaults: Options,
                                        section: string, v: Value)
    requires d <= e && Evaluate(d, sections, defaults, section, v).Some?
    ensures Evaluate(e, sections, defaults, section, v) == Evaluate(d, sections, defaults, section, v)
    decreases d, |v|
  {
    if v != [] {
      DeeperIsSame(d, e, sections, defaults, section, v[1..]);
      if v[0].Token? {
        DeeperTokenIsSame(d, e, sections, defaults, section, v[0].token);
      }
    }
  }

  lemma {:induction false} DeeperTokenIsSame(d: nat, e: nat, sections: Sections, defaults: Options,
                                             section: string, t: string)
    requires d <= e && EvaluateToken(d, sections, defaults, section, t).Some?
    ensures EvaluateToken(e, sections, defaults, section, t)
         == EvaluateToken(d, sections, defaults, section, t)
    decreases d, 0
  {
    var found := Lookup(sections, defaults, section, t);
    match Interpret(t).namespace
    case Defaults =>
    case Local => DeeperIsSame(d - 1, e - 1, sections, defaults, section, found.value);
    case Section(name) => DeeperIsSame(d - 1, e - 1, sections, defaults, name, found.value);
  }

  // ---------- A resolution is what evaluation gives ----------

  ghost predicate Solved(sections: Sections, defaults: Options, result: Sections) {
    Resolvable(sections, defaults) && ResolutionOf(sections, defaults, result)
  }

  // In a resolvable configuration the option a token refers to is nearer to the start of
  // the dependency order.
  lemma ReferenceIsEarlier(sections: Sections, defaults: Options, s: string, k: string, t: string)
    requires Resolvable(sections, defaults)
    requires s in sections && k in sections[s] && t in Tokens(sections[s][k])
    ensures Lookup(sections, defaults, s, t).Some?
    ensures Interpret(t).namespace == Local ==>
              var name := Interpret(t).name;
              name in sections[s] &&
              Ancestors(LocalArcs(sections[s]), sections[s].Keys, name)
                < Ancestors(LocalArcs(sections[s]), sections[s].Keys, k)
    ensures Interpret(t).namespace.Section? ==>
              var n := Interpret(t).namespace.name;
              n in sections && Interpret(t).name in sections[n] &&
              Ancestors(SectionArcs(sections), sections.Keys, n)
                < Ancestors(SectionArcs(sections), sections.Keys, s)
  {
    assert DefinedAt(sections, defaults, s, k);
    if Interpret(t).namespace == Local {
      EarlierInAcyclic(LocalArcs(sections[s]), sections[s].Keys, Interpret(t).name, k);
    } else if Interpret(t).namespace.Section? {
      assert (Interpret(t).namespace.name, s) in SectionArcs(sections);
      EarlierInAcyclic(SectionArcs(sections), sections.Keys, Interpret(t).namespace.name, s);
    }
  }

  lemma EarlierInAcyclic(arcs: set<(string, string)>, keys: set<string>, a: string, b: string)
    requires Acyclic(arcs) && (a, b) in arcs && b in keys
    ensures Ancestors(arcs, keys, a) < Ancestors(arcs, keys, b)
  {
    if Reaches(arcs, b, a) {
      CycleThroughArc(arcs, a, b);
    }
    FewerAncestors(arcs, keys, a, b);
  }

  lemma FoundInResolution(sections: Sections, defaults: Options, result: Sections, s: string, t: string)
    requires SameShape(sections, result) && Lookup(sections, defaults, s, t).Some?
    ensures match Interpret(t)
            case Reference(Defaults, name) =>
              && Lookup(sections, defaults, s, t) == Some(defaults[name])
              && Found(result, defaults, s, t) == defaults[name]
            case Reference(Local, name) =>
              && s in sections && name in sections[s] && name in result[s]
              && Lookup(sections, defaults, s, t) == Some(sections[s][name])
              && Found(result, defaults, s, t) == result[s][name]
            case Reference(Section(n), name) =>
              && n in sections && name in sections[n] && name in result[n]
              && Lookup(sections, defaults, s, t) == Some(sections[n][name])
              && Found(result, defaults, s, t) == result[n][name]
  {}

  lemma {:induction false} OptionEvaluates(sections: Sections, defaults: Options, result: Sections,
                                           s: string, k: string) returns (depth: nat)
    requires Solved(sections, defaults, result) && s in sections && k in sections[s]
    ensures s in result && k in result[s]
    ensures Evaluate(depth, sections, defaults, s, sections[s][k]) == Some(result[s][k])
    decreases Ancestors(SectionArcs(sections), sections.Keys, s),
              Ancestors(LocalArcs(sections[s]), sections[s].Keys, k), |sections[s][k]| + 1
  {
    depth := ValueEvaluates(sections, defaults, result, s, k, sections[s][k]);
  }

  lemma {:induction false} ValueEvaluates(sections: Sections, defaults: Options, result: Sections,
                                          s: string, k: string, v: Value) returns (depth: nat)
    requires Solved(sections, defaults, result) && s in sections && k in sections[s]
    requires forall t | t in Tokens(v) :: t in Tokens(sections[s][k])
    ensures Evaluate(depth, sections, defaults, s, v) == Some(Expand(v, result, defaults, s))
    decreases Ancestors(SectionArcs(sections), sections.Keys, s),
              Ancestors(LocalArcs(sections[s]), sections[s].Keys, k), |v|
  {
    hide Solved, Ancestors, LocalArcs, SectionArcs, EvaluateToken, Lookup, Found;
    if v == [] {
      depth := 0;
    } else {
      assert forall t | t in Tokens(v[1..]) :: t in Tokens(v);
      depth := ValueEvaluates(sections, defaults, result, s, k, v[1..]);
      if v[0].Token? {
        assert v[0].token in Tokens(v);
        var d := TokenEvaluates(sections, defaults, result, s, k, v[0].token, |v|);
        DeeperIsSame(depth, depth + d, sections, defaults, s, v[1..]);
        DeeperTokenIsSame(d, depth + d, sections, defaults, s, v[0].token);
        depth := depth + d;
      }
    }
  }

  lemma {:induction false} TokenEvaluates(sections: Sections, defaults: Options, result: Sections,
                                          s: string, k: string, t: string, size: nat)
    returns (depth: nat)
    requires Solved(sections, defaults, result) && s in sections && k in sections[s]
    requires t in Tokens(sections[s][k]) && size >= 1
    ensures EvaluateToken(depth, sections, defaults, s, t) == Some(Found(result, defaults, s, t))
    decreases Ancestors(SectionArcs(sections), sections.Keys, s),
              Ancestors(LocalArcs(sections[s]), sections[s].Keys, k), size, 0
  {
    ReferenceIsEarlier(sections, defaults, s, k, t);
    FoundInResolution(sections, defaults, result, s, t);
    hide Solved, Ancestors, LocalArcs, SectionArcs, Lookup, Found, Evaluate;
    var name := Interpret(t).name;
    match Interpret(t).namespace
    case Defaults =>
      depth := 1;
    case Local =>
      depth := OptionEvaluates(sections, defaults, result, s, name);
      depth := depth + 1;
    case Section(n) =>
      depth := OptionEvaluates(sections, defaults, result, n, name);
      depth := depth + 1;
  }

  // There is only one resolution.
  lemma ResolutionIsUnique(sections: Sections, defaults: Options, r1: Sections, r2: Sections)
    requires Solved(sections, defaults, r1) && Solved(sections, defaults, r2)
    ensures r1 == r2
  {
    forall s | s in sections ensures r1[s] == r2[s] {
      forall k | k in sections[s] ensures r1[s][k] == r2[s][k] {
        var d1 := OptionEvaluates(sections, defaults, r1, s, k);
        var d2 := OptionEvaluates(sections, defaults, r2, s, k);
        DeeperIsSame(d1, d1 + d2, sections, defaults, s, sections[s][k]);
        DeeperIsSame(d2, d1 + d2, sections, defaults, s, sections[s][k]);
      }
    }
  }

  // A resolution needs no more resolving: it is its own resolution.
  lemma ResolutionIsFixed(sections: Sections, defaults: Options, result: Sections)
    requires ResolutionOf(sections, defaults, result)
    ensures Resolvable(result, defaults) && ResolutionOf(result, defaults, result)
  {
    forall s, k | s in result && k in result[s]
      ensures Tokens(result[s][k]) == []
      ensures result[s][k] == Expand(result[s][k], result, defaults, s)
    {
      ClosedHasNoTokens(result[s][k]);
      ExpandOfClosed(result[s][k], result, defaults, s);
    }
    assert SectionArcs(result) == {};
    NoArcsNoCycles(SectionArcs(result));
    forall s | s in result ensures Acyclic(LocalArcs(result[s])) {
      assert LocalArcs(result[s]) == {};
      NoArcsNoCycles(LocalArcs(result[s]));
    }
  }

  lemma NoArcsNoCycles(arcs: set<(string, string)>)
    requires arcs == {}
    ensures Acyclic(arcs)
  {
    forall x ensures !OnCycle(arcs, x) {
      if OnCycle(arcs, x) {
        var b := CycleHasArc(arcs, x);
      }
    }
  }

  // Ordering whole sections is stricter than it has to be: two sections that refer to each other
  // are rejected although every reference is defined and every option can be evaluated.
  ghost predicate Mutual(sections: Sections) {
    sections == map["a" := map["x" := [Token("b/y")]], "b" := map["y" := [Text("1")], "z" := [Token("a/x")]]]
  }

  lemma MutualReferences()
    ensures Interpret("b/y") == Reference(Section("b"), "y")
    ensures Interpret("a/x") == Reference(Section("a"), "x")
  {
    InterpretReadsBack("b", "y");
    InterpretReadsBack("a", "x");
    assert "b" + "/" + "y" == "b/y" && "a" + "/" + "x" == "a/x";
  }

  lemma MutualSectionsAreRejected(sections: Sections, defaults: Options)
    requires Mutual(sections)
    ensures !Resolvable(sections, defaults)
    ensures Evaluate(1, sections, defaults, "a", sections["a"]["x"]) == Some([Text("1")])
    ensures Evaluate(2, sections, defaults, "b", sections["b"]["z"]) == Some([Text("1")])
  {
    MutualArcs(sections);
    MutualEvaluation(sections, defaults);
    hide Evaluate, SectionArcs, Interpret;
    ArcReaches(SectionArcs(sections), "b", "a");
    CycleThroughArc(SectionArcs(sections), "a", "b");
  }

  lemma MutualArcs(sections: Sections)
    requires Mutual(sections)
    ensures ("b", "a") in SectionArcs(sections) && ("a", "b") in SectionArcs(sections)
  {
    MutualReferences();
    assert "b/y" in Tokens(sections["a"]["x"]);
    assert "a/x" in Tokens(sections["b"]["z"]);
    hide Interpret, Tokens;
  }

  lemma MutualEvaluation(sections: Sections, defaults: Options)
    requires Mutual(sections)
    ensures Evaluate(1, sections, defaults, "a", sections["a"]["x"]) == Some([Text("1")])
    ensures Evaluate(2, sections, defaults, "b", sections["b"]["z"]) == Some([Text("1")])
  {
    MutualReferences();
    hide Interpret;
    assert [Text("1")][1..] == [] && [Token("b/y")][1..] == [] && [Token("a/x")][1..] == [];
    assert [Text("1")] + [] == [Text("1")];
    assert Evaluate(0, sections, defaults, "b", [Text("1")]) == Some([Text("1")]);
    assert EvaluateToken(1, sections, defaults, "a", "b/y") == Some([Text("1")]);
    assert Evaluate(1, sections, defaults, "a", [Token("b/y")]) == Some([Text("1")]);
    assert EvaluateToken(2, sections, defaults, "b", "a/x") == Some([Text("1")]);
  }
}
