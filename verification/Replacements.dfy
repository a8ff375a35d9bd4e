/** What the resolver computes for any defaults: each value with its tokens replaced one after the
other by what they stand for in the result; and that with referable defaults free of references this is
the one resolution. */
module Replacements {
  import opened ConfigValues
  import opened Graphs
  import opened Resolutions

  ghost predicate Replaced(sections: Sections, defaults: Options, result: Sections) {
    && SameShape(sections, result)
    && forall s, k | s in sections && k in sections[s] ::
         ReplacedBy(sections[s][k], result, defaults, s, result[s][k])
  }

  // ---------- Only one result ----------

  lemma {:induction false} SameReplacement(sections: Sections, defaults: Options, r1: Sections, r2: Sections,
                                           s: string, k: string)
    requires Resolvable(sections, defaults) && s in sections && k in sections[s]
    requires Replaced(sections, defaults, r1) && Replaced(sections, defaults, r2)
    ensures r1[s][k] == r2[s][k]
    decreases Ancestors(SectionArcs(sections), sections.Keys, s),
              Ancestors(LocalArcs(sections[s]), sections[s].Keys, k)
  {
    var v := sections[s][k];
    assert ReplacedBy(v, r1, defaults, s, r1[s][k]) && ReplacedBy(v, r2, defaults, s, r2[s][k]);
    forall t | t in Tokens(v) ensures Found(r1, defaults, s, t) == Found(r2, defaults, s, t) {
      ReferenceIsEarlier(sections, defaults, s, k, t);
      FoundInResolution(sections, defaults, r1, s, t);
      FoundInResolution(sections, defaults, r2, s, t);
      hide Replaced, Resolvable, Ancestors, LocalArcs, SectionArcs, Lookup, Found, ReplacedBy;
      match Interpret(t).namespace
      case Defaults =>
      case Local => SameReplacement(sections, defaults, r1, r2, s, Interpret(t).name);
      case Section(n) => SameReplacement(sections, defaults, r1, r2, n, Interpret(t).name);
    }
    hide Replaced, Resolvable, ReplaceEach, Found;
    ReplaceEachSameLookups(v, Tokens(v), r1, r2, defaults, s);
  }

  // Whatever the defaults, there is only one such result.
  lemma ReplacementIsUnique(sections: Sections, defaults: Options, r1: Sections, r2: Sections)
    requires Resolvable(sections, defaults)
    requires Replaced(sections, defaults, r1) && Replaced(sections, defaults, r2)
    ensures r1 == r2
  {
    forall s | s in sections ensures r1[s] == r2[s] {
      forall k | k in sections[s] ensures r1[s][k] == r2[s][k] {
        SameReplacement(sections, defaults, r1, r2, s, k);
      }
    }
  }

  // ---------- With closed defaults ----------

  lemma {:induction false} ReplacementIsClosed(sections: Sections, defaults: Options, result: Sections,
                                               s: string, k: string)
    requires Resolvable(sections, defaults) && ClosedDefaults(defaults) && s in sections && k in sections[s]
    requires Replaced(sections, defaults, result)
    ensures Closed(result[s][k]) && result[s][k] == Expand(sections[s][k], result, defaults, s)
    decreases Ancestors(SectionArcs(sections), sections.Keys, s),
              Ancestors(LocalArcs(sections[s]), sections[s].Keys, k)
  {
    var v := sections[s][k];
    assert ReplacedBy(v, result, defaults, s, result[s][k]);
    forall t | t in Tokens(v) ensures Closed(Found(result, defaults, s, t)) {
      ReferenceIsEarlier(sections, defaults, s, k, t);
      FoundInResolution(sections, defaults, result, s, t);
      DefaultHasNoSlash(t);
      hide Replaced, Resolvable, Ancestors, LocalArcs, SectionArcs, Found, Closed, ReplacedBy;
      match Interpret(t).namespace
      case Defaults =>
      case Local => ReplacementIsClosed(sections, defaults, result, s, Interpret(t).name);
      case Section(n) => ReplacementIsClosed(sections, defaults, result, n, Interpret(t).name);
    }
    hide Replaced, Resolvable, ReplaceEach, Found, Expand, Closed;
    ReplacedIsExpanded(v, result, defaults, s);
  }

  lemma DefaultHasNoSlash(t: string)
    ensures Interpret(t).namespace == Defaults ==> '/' !in Interpret(t).name
  {}

  // Replacing token by token, in order, gives the resolution.
  lemma ReplacedIsResolution(sections: Sections, defaults: Options, result: Sections)
    requires Resolvable(sections, defaults) && ClosedDefaults(defaults) && Replaced(sections, defaults, result)
    ensures ResolutionOf(sections, defaults, result)
  {
    forall s, k | s in sections && k in sections[s]
      ensures Closed(result[s][k]) && result[s][k] == Expand(sections[s][k], result, defaults, s)
    {
      ReplacementIsClosed(sections, defaults, result, s, k);
    }
    hide Closed, Expand, ReplacedBy;
  }

  lemma ResolutionIsReplaced(sections: Sections, defaults: Options, result: Sections)
    requires ClosedDefaults(defaults) && ResolutionOf(sections, defaults, result)
    ensures Replaced(sections, defaults, result)
  {
    forall s, k | s in sections && k in sections[s]
      ensures ReplacedBy(sections[s][k], result, defaults, s, result[s][k])
    {
      forall t | t in Tokens(sections[s][k]) ensures Closed(Found(result, defaults, s, t)) {
        FoundIsClosed(defaults, result, s, t);
      }
      hide Closed, Expand, ReplaceEach;
      ReplacedIsExpanded(sections[s][k], result, defaults, s);
    }
  }

  lemma FoundIsClosed(defaults: Options, result: Sections, s: string, t: string)
    requires ClosedDefaults(defaults) && forall n | n in result :: AllClosed(result[n])
    ensures Closed(Found(result, defaults, s, t))
  {
    DefaultHasNoSlash(t);
  }
}
