/** What references in defaults do: exactly when results are free of references, and exactly when
resolving them again changes nothing. */
module OpenDefaults {
  import opened ConfigValues
  import opened Graphs
  import opened Replacements
  import opened Resolutions
  import opened Sequences

  ghost predicate ClosedResult(result: Sections) {
    forall s | s in result :: AllClosed(result[s])
  }

  // The sections with one option, a reference to a default.
  ghost predicate RefersToDefault(sections: Sections, d: string) {
    sections.Keys == {"a"} && sections["a"] == map["x" := [Token(d)]]
  }

  // Such a reference is replaced by the default as it stands.
  lemma DefaultIsCopied(sections: Sections, defaults: Options, result: Sections, d: string)
    requires RefersToDefault(sections, d) && d in defaults && '/' !in d
    requires result == map["a" := map["x" := defaults[d]]]
    ensures Resolvable(sections, defaults) && Replaced(sections, defaults, result)
  {
    InterpretReadsBack("", d);
    hide Interpret;
    OneToken(d, result, defaults, "a");
    OpenIsResolvable(sections, defaults, d);
    hide ReplaceEach, Tokens, Resolvable;
  }

  // Results are free of references, whatever the sections, exactly if the defaults are.
  lemma DefaultsDecide(defaults: Options)
    ensures ClosedDefaults(defaults) <==>
              forall sections, result ::
                Resolvable(sections, defaults) && Replaced(sections, defaults, result) ==> ClosedResult(result)
  {
    if ClosedDefaults(defaults) {
      forall sections, result | Resolvable(sections, defaults) && Replaced(sections, defaults, result)
        ensures ClosedResult(result)
      {
        forall s, k | s in sections && k in sections[s] ensures Closed(result[s][k]) {
          ReplacementIsClosed(sections, defaults, result, s, k);
        }
        hide ReplacedBy, Closed;
      }
    }
    hide Resolvable, Replaced;
    if d :| d in defaults && '/' !in d && !Closed(defaults[d]) {
      var sections, result := map["a" := map["x" := [Token(d)]]], map["a" := map["x" := defaults[d]]];
      DefaultIsCopied(sections, defaults, result, d);
      assert !Closed(result["a"]["x"]);
      assert !ClosedResult(result);
    }
  }

  // A default that itself holds a reference.
  ghost predicate OpenDefault(sections: Sections, defaults: Options) {
    && sections == map["a" := map["x" := [Token("d")]]]
    && defaults == map["d" := [Token("e")], "e" := [Text("1")]]
  }

  // Its reference is left in the result, which then is not its own resolution.
  lemma OpenDefaultIsLeft(sections: Sections, defaults: Options, result: Sections)
    requires OpenDefault(sections, defaults) && Replaced(sections, defaults, result)
    ensures Resolvable(sections, defaults) && Resolvable(result, defaults)
    ensures !Closed(result["a"]["x"]) && !Replaced(result, defaults, result)
  {
    OpenTokens();
    hide Interpret;
    assert ReplacedBy([Token("d")], result, defaults, "a", result["a"]["x"]);
    OneToken("d", result, defaults, "a");
    assert result["a"]["x"] == [Token("e")];
    OneToken("e", result, defaults, "a");
    assert !Closed(result["a"]["x"]) by {
      assert result["a"]["x"][0].Token? && result["a"]["x"][0] in result["a"]["x"];
    }
    assert [Token("e")][0] != [Text("1")][0];
    assert !ReplacedBy(result["a"]["x"], result, defaults, "a", result["a"]["x"]);
    hide ReplaceEach, Tokens, ReplacedBy;
    OpenIsResolvable(sections, defaults, "d");
    OpenIsResolvable(result, defaults, "e");
    OneNotReplaced(result, defaults, "a", "x");
  }

  lemma OneNotReplaced(result: Sections, defaults: Options, s: string, k: string)
    requires s in result && k in result[s] && !ReplacedBy(result[s][k], result, defaults, s, result[s][k])
    ensures !Replaced(result, defaults, result)
  {
    hide ReplacedBy;
  }

  lemma OpenTokens()
    ensures Interpret("d") == Reference(Defaults, "d") && Interpret("e") == Reference(Defaults, "e")
  {
    InterpretReadsBack("", "d");
    InterpretReadsBack("", "e");
  }

  lemma OneToken(t: string, sections: Sections, defaults: Options, s: string)
    ensures Tokens([Token(t)]) == [t]
    ensures ReplaceEach([Token(t)], [t], sections, defaults, s) == Found(sections, defaults, s, t)
  {
    assert [Token(t)][1..] == [] && [t][..0] == [];
    assert ReplaceEach([Token(t)], [], sections, defaults, s) == [Token(t)];
    assert Replace([Token(t)], t, Found(sections, defaults, s, t)) == Found(sections, defaults, s, t) + [];
  }

  lemma OpenIsResolvable(sections: Sections, defaults: Options, t: string)
    requires sections.Keys == {"a"} && sections["a"].Keys == {"x"} && sections["a"]["x"] == [Token(t)]
    requires Interpret(t) == Reference(Defaults, t) && t in defaults
    ensures Resolvable(sections, defaults)
  {
    OneToken(t, sections, defaults, "a");
    hide Interpret;
    assert SectionArcs(sections) == {} && LocalArcs(sections["a"]) == {};
    NoArcsNoCycles(SectionArcs(sections));
    NoArcsNoCycles(LocalArcs(sections["a"]));
  }

  // ---------- Which references remain ----------

  lemma {:induction false} TokensConcat(a: Value, b: Value)
    ensures Tokens(a + b) == Tokens(a) + Tokens(b)
  {
    if a == [] {
      assert a + b == b;
    } else {
      assert (a + b)[1..] == a[1..] + b;
      TokensConcat(a[1..], b);
    }
  }

  lemma {:induction false} TokensOfReplaced(v: Value, t: string, replacement: Value, u: string)
    ensures u in Tokens(Replace(v, t, replacement)) <==>
              (u in Tokens(v) && u != t) || (t in Tokens(v) && u in Tokens(replacement))
  {
    if v != [] {
      TokensOfReplaced(v[1..], t, replacement, u);
      TokensConcat(if v[0] == Token(t) then replacement else [v[0]], Replace(v[1..], t, replacement));
    }
  }

  // The m-th token brings u in, and u is none of those replaced after it.
  ghost predicate BringsIn(tokens: seq<string>, m: nat, sections: Sections, defaults: Options, section: string,
                           u: string)
    requires m < |tokens|
  {
    u in Tokens(Found(sections, defaults, section, tokens[m])) && u !in tokens[m + 1..]
  }

  ghost predicate BroughtIn(tokens: seq<string>, sections: Sections, defaults: Options, section: string, u: string) {
    exists m :: 0 <= m < |tokens| && BringsIn(tokens, m, sections, defaults, section, u)
  }

  // One that was not replaced before.
  ghost predicate BroughtInFirst(tokens: seq<string>, sections: Sections, defaults: Options, section: string,
                                 u: string) {
    exists m :: 0 <= m < |tokens| && BringsIn(tokens, m, sections, defaults, section, u) && tokens[m] !in tokens[..m]
  }

  lemma BringsInAmongMore(tokens: seq<string>, t: string, m: nat, sections: Sections, defaults: Options,
                          section: string, u: string)
    requires m <= |tokens|
    ensures BringsIn(tokens + [t], m, sections, defaults, section, u) <==>
            if m == |tokens| then u in Tokens(Found(sections, defaults, section, t))
            else BringsIn(tokens, m, sections, defaults, section, u) && u != t
    ensures (tokens + [t])[..m] == tokens[..m]
  {
    assert m < |tokens| ==> (tokens + [t])[m + 1..] == tokens[m + 1..] + [t];
    hide Tokens, Found;
  }

  lemma BroughtInByMore(tokens: seq<string>, t: string, sections: Sections, defaults: Options, section: string,
                        u: string)
    ensures (BroughtIn(tokens, sections, defaults, section, u) && u != t)
            || u in Tokens(Found(sections, defaults, section, t))
            ==> BroughtIn(tokens + [t], sections, defaults, section, u)
    ensures BroughtInFirst(tokens + [t], sections, defaults, section, u) ==>
              || (BroughtInFirst(tokens, sections, defaults, section, u) && u != t)
              || (u in Tokens(Found(sections, defaults, section, t)) && t !in tokens)
  {
    forall m: nat | m <= |tokens|
      ensures BringsIn(tokens + [t], m, sections, defaults, section, u) <==>
              if m == |tokens| then u in Tokens(Found(sections, defaults, section, t))
              else BringsIn(tokens, m, sections, defaults, section, u) && u != t
      ensures (tokens + [t])[..m] == tokens[..m]
    {
      BringsInAmongMore(tokens, t, m, sections, defaults, section, u);
    }
    hide Tokens, Found, BringsIn;
    if m :| 0 <= m < |tokens| && BringsIn(tokens, m, sections, defaults, section, u) && u != t {
      assert BringsIn(tokens + [t], m, sections, defaults, section, u);
    }
    assert u in Tokens(Found(sections, defaults, section, t)) ==>
             BringsIn(tokens + [t], |tokens|, sections, defaults, section, u);
  }

  lemma {:induction false} RemainingTokens(v: Value, tokens: seq<string>, sections: Sections, defaults: Options,
                                           section: string, u: string)
    requires forall t | t in tokens :: t in Tokens(v)
    ensures u in Tokens(ReplaceEach(v, tokens, sections, defaults, section)) ==>
              (u in Tokens(v) && u !in tokens) || BroughtIn(tokens, sections, defaults, section, u)
    ensures (u in Tokens(v) && u !in tokens) || BroughtInFirst(tokens, sections, defaults, section, u) ==>
              u in Tokens(ReplaceEach(v, tokens, sections, defaults, section))
  {
    if tokens != [] {
      var m := |tokens| - 1;
      var t := tokens[m];
      assert tokens == tokens[..m] + [t];
      RemainingTokens(v, tokens[..m], sections, defaults, section, u);
      RemainingTokens(v, tokens[..m], sections, defaults, section, t);
      BroughtInByMore(tokens[..m], t, sections, defaults, section, u);
      TokensOfReplaced(ReplaceEach(v, tokens[..m], sections, defaults, section), t,
                       Found(sections, defaults, section, t), u);
      hide Tokens, Replace, Found, BroughtIn, BroughtInFirst;
    }
  }

  // Tokens are replaced from left to right: what one brings in is followed if the value itself refers
  // to it further on, and remains otherwise.
  lemma WhatRemains(base: Value, sections: Sections, defaults: Options, section: string, v: Value, u: string)
    requires ReplacedBy(base, sections, defaults, section, v)
    ensures u in Tokens(v) ==> BroughtIn(Tokens(base), sections, defaults, section, u)
    ensures BroughtInFirst(Tokens(base), sections, defaults, section, u) ==> u in Tokens(v)
    ensures Distinct(Tokens(base)) ==>
              (BroughtIn(Tokens(base), sections, defaults, section, u) <==>
               BroughtInFirst(Tokens(base), sections, defaults, section, u))
  {
    RemainingTokens(base, Tokens(base), sections, defaults, section, u);
    hide Tokens, ReplaceEach, BringsIn;
  }

  // ---------- Resolving again ----------

  // Resolving the result leaves it as it is.
  ghost predicate StaysTheSame(result: Sections, defaults: Options) {
    Resolvable(result, defaults) && Replaced(result, defaults, result)
  }

  lemma ClosedStaysTheSame(sections: Sections, defaults: Options, result: Sections)
    requires ClosedDefaults(defaults) && Resolvable(sections, defaults) && Replaced(sections, defaults, result)
    ensures StaysTheSame(result, defaults)
  {
    hide *;
    ReplacedIsResolution(sections, defaults, result);
    ResolutionIsFixed(sections, defaults, result);
    ResolutionIsReplaced(result, defaults, result);
    BothIsTheSame(result, defaults);
  }

  lemma BothIsTheSame(result: Sections, defaults: Options)
    requires Resolvable(result, defaults) && Replaced(result, defaults, result)
    ensures StaysTheSame(result, defaults)
  {}

  // (n, d): default d refers to the default n.
  ghost function DefaultArcs(defaults: Options): set<(string, string)> {
    set d, t | d in defaults && t in Tokens(defaults[d])
               && Interpret(t).namespace == Defaults && Interpret(t).name in defaults
      :: (Interpret(t).name, d)
  }

  // d holds references, and the defaults it refers to hold none.
  ghost predicate LastOpen(defaults: Options, d: string) {
    && d in defaults && '/' !in d && !Closed(defaults[d])
    && forall t | t in Tokens(defaults[d]) && Interpret(t).namespace == Defaults && Interpret(t).name in defaults ::
         Closed(defaults[Interpret(t).name])
  }

  lemma {:induction false} FindLastOpen(defaults: Options, d: string) returns (e: string)
    requires Acyclic(DefaultArcs(defaults)) && d in defaults && '/' !in d && !Closed(defaults[d])
    ensures LastOpen(defaults, e)
    decreases Ancestors(DefaultArcs(defaults), defaults.Keys, d)
  {
    if t :| t in Tokens(defaults[d]) && Interpret(t).namespace == Defaults && Interpret(t).name in defaults
            && !Closed(defaults[Interpret(t).name]) {
      var n := Interpret(t).name;
      DefaultHasNoSlash(t);
      assert (n, d) in DefaultArcs(defaults);
      hide Acyclic, DefaultArcs, Ancestors, Closed, Interpret;
      EarlierInAcyclic(DefaultArcs(defaults), defaults.Keys, n, d);
      e := FindLastOpen(defaults, n);
    } else {
      e := d;
    }
  }

  // A section whose one option is a copy of such a default does not stay the same.
  lemma CopyChanges(defaults: Options, result: Sections, d: string)
    requires LastOpen(defaults, d) && result == map["a" := map["x" := defaults[d]]]
    ensures !StaysTheSame(result, defaults)
  {
    var v := defaults[d];
    if StaysTheSame(result, defaults) {
      forall t | t in Tokens(v) ensures Closed(Found(result, defaults, "a", t)) {
        OnlyDefaultsLeft(result, defaults, t);
      }
      assert ReplacedBy(result["a"]["x"], result, defaults, "a", result["a"]["x"]);
      hide Closed, Found, ReplaceEach, Expand, Resolvable, Replaced;
      ReplacedIsExpanded(v, result, defaults, "a");
      assert false;
    }
  }

  // A section with one option that can be resolved refers to defaults only.
  lemma OnlyDefaultsLeft(sections: Sections, defaults: Options, t: string)
    requires sections.Keys == {"a"} && sections["a"].Keys == {"x"}
    requires Resolvable(sections, defaults) && t in Tokens(sections["a"]["x"])
    ensures Interpret(t).namespace == Defaults && Interpret(t).name in defaults
  {
    ReferenceIsEarlier(sections, defaults, "a", "x", t);
    hide Resolvable, Ancestors, LocalArcs, SectionArcs, Interpret;
  }

  // For defaults whose references form no cycle: results stay the same when resolved again, whatever
  // the sections, exactly if every default that can be referred to is free of references.
  lemma DefaultsDecideFixedPoints(defaults: Options)
    requires Acyclic(DefaultArcs(defaults))
    ensures ClosedDefaults(defaults) <==>
              forall sections, result ::
                Resolvable(sections, defaults) && Replaced(sections, defaults, result)
                ==> StaysTheSame(result, defaults)
  {
    hide Resolvable, Replaced, StaysTheSame, Acyclic, DefaultArcs, LastOpen, Closed;
    if ClosedDefaults(defaults) {
      forall sections, result | Resolvable(sections, defaults) && Replaced(sections, defaults, result)
        ensures StaysTheSame(result, defaults)
      {
        ClosedStaysTheSame(sections, defaults, result);
      }
    } else {
      var open :| open in defaults && '/' !in open && !Closed(defaults[open]);
      var d := FindLastOpen(defaults, open);
      LastOpenIsOpen(defaults, d);
      var sections, result := map["a" := map["x" := [Token(d)]]], map["a" := map["x" := defaults[d]]];
      DefaultIsCopied(sections, defaults, result, d);
      CopyChanges(defaults, result, d);
    }
  }

  lemma LastOpenIsOpen(defaults: Options, d: string)
    requires LastOpen(defaults, d)
    ensures d in defaults && '/' !in d && !Closed(defaults[d])
  {}

  // ---------- Why cycles are left out ----------

  // A default that is a reference to itself.
  ghost predicate SelfReferring(defaults: Options) {
    defaults == map["d" := [Token("d")]]
  }

  // All references are to the default d.
  ghost predicate OnlyToD(v: Value) {
    forall t | t in Tokens(v) :: t == "d"
  }

  // Tokens that have been replaced by values that refer only to d are gone, d apart.
  lemma {:induction false} TokensAfterReplaceEach(v: Value, tokens: seq<string>, sections: Sections,
                                                  defaults: Options, s: string, t: string)
    requires forall u | u in tokens :: OnlyToD(Found(sections, defaults, s, u))
    requires t in Tokens(ReplaceEach(v, tokens, sections, defaults, s))
    ensures t == "d" || (t in Tokens(v) && t !in tokens)
  {
    if tokens != [] {
      var m := |tokens| - 1;
      assert tokens == tokens[..m] + [tokens[m]];
      TokensOfReplaced(ReplaceEach(v, tokens[..m], sections, defaults, s), tokens[m],
                       Found(sections, defaults, s, tokens[m]), t);
      if t in Tokens(ReplaceEach(v, tokens[..m], sections, defaults, s)) {
        TokensAfterReplaceEach(v, tokens[..m], sections, defaults, s, t);
      }
    }
  }

  lemma {:induction false} ResultRefersOnlyToD(sections: Sections, defaults: Options, result: Sections, s: string,
                                               k: string)
    requires SelfReferring(defaults) && Resolvable(sections, defaults) && s in sections && k in sections[s]
    requires Replaced(sections, defaults, result)
    ensures OnlyToD(result[s][k])
    decreases Ancestors(SectionArcs(sections), sections.Keys, s),
              Ancestors(LocalArcs(sections[s]), sections[s].Keys, k)
  {
    var v := sections[s][k];
    assert ReplacedBy(v, result, defaults, s, result[s][k]);
    forall t | t in Tokens(v) ensures OnlyToD(Found(result, defaults, s, t)) {
      ReferenceIsEarlier(sections, defaults, s, k, t);
      FoundInResolution(sections, defaults, result, s, t);
      DRefersToD();
      hide Replaced, Resolvable, Ancestors, LocalArcs, SectionArcs, Found, ReplacedBy, OnlyToD;
      match Interpret(t).namespace
      case Defaults =>
      case Local => ResultRefersOnlyToD(sections, defaults, result, s, Interpret(t).name);
      case Section(n) => ResultRefersOnlyToD(sections, defaults, result, n, Interpret(t).name);
    }
    hide Replaced, Resolvable, ReplaceEach, Found;
    forall t | t in Tokens(result[s][k]) ensures t == "d" {
      TokensAfterReplaceEach(v, Tokens(v), result, defaults, s, t);
    }
  }

  lemma DRefersToD()
    ensures Interpret("d") == Reference(Defaults, "d") && OnlyToD([Token("d")])
  {
    InterpretReadsBack("", "d");
    assert [Token("d")][1..] == [];
  }

  lemma {:induction false} ReplaceBySame(v: Value, token: string)
    ensures Replace(v, token, [Token(token)]) == v
  {
    if v != [] {
      ReplaceBySame(v[1..], token);
    }
  }

  lemma {:induction false} ReplaceEachBySame(v: Value, tokens: seq<string>, sections: Sections, defaults: Options,
                                             s: string)
    requires forall t | t in tokens :: Found(sections, defaults, s, t) == [Token(t)]
    ensures ReplaceEach(v, tokens, sections, defaults, s) == v
  {
    if tokens != [] {
      var m := |tokens| - 1;
      assert tokens == tokens[..m] + [tokens[m]];
      ReplaceEachBySame(v, tokens[..m], sections, defaults, s);
      ReplaceBySame(v, tokens[m]);
    }
  }

  // Every result stays the same although the default is not free of references.
  lemma SelfReferringStaysTheSame(sections: Sections, defaults: Options, result: Sections)
    requires SelfReferring(defaults) && Resolvable(sections, defaults) && Replaced(sections, defaults, result)
    ensures !ClosedDefaults(defaults) && StaysTheSame(result, defaults)
  {
    DRefersToD();
    assert !Closed(defaults["d"]) by {
      assert [Token("d")][0] in [Token("d")];
    }
    forall s, k | s in result && k in result[s] ensures OnlyToD(result[s][k]) {
      ResultRefersOnlyToD(sections, defaults, result, s, k);
    }
    OnlyToDStaysTheSame(result, defaults);
  }

  lemma OnlyToDStaysTheSame(result: Sections, defaults: Options)
    requires SelfReferring(defaults) && forall s, k | s in result && k in result[s] :: OnlyToD(result[s][k])
    ensures StaysTheSame(result, defaults)
  {
    DRefersToD();
    hide Interpret;
    forall s, k | s in result && k in result[s]
      ensures ReplacedBy(result[s][k], result, defaults, s, result[s][k])
    {
      assert forall t | t in Tokens(result[s][k]) :: Found(result, defaults, s, t) == [Token(t)];
      ReplaceEachBySame(result[s][k], Tokens(result[s][k]), result, defaults, s);
    }
    hide ReplacedBy, ReplaceEach;
    assert SectionArcs(result) == {};
    NoArcsNoCycles(SectionArcs(result));
    forall s | s in result ensures Acyclic(LocalArcs(result[s])) {
      assert LocalArcs(result[s]) == {};
      NoArcsNoCycles(LocalArcs(result[s]));
    }
  }
}
