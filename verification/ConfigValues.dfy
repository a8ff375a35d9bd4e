/** Configuration values with references, and what they mean. */
module ConfigValues {
  import opened Sequences
  import opened Wrappers

  // A value as the tokeniser splits it: literal text and ${...} tokens.
  datatype Segment = Text(text: string) | Token(token: string)

  type Value = seq<Segment>
  type Options = map<string, Value>
  type Sections = map<string, Options>

  datatype Namespace = Defaults | Local | Section(name: string)

  datatype Reference = Reference(namespace: Namespace, name: string)

  function SlashAt(token: string): (k: nat)
    ensures k <= |token| && '/' !in token[..k] && (k < |token| ==> token[k] == '/')
  {
    if token == [] || token[0] == '/' then 0 else 1 + SlashAt(token[1..])
  }

  // ${foo} names a default, ${./foo} a local option, ${foo/bar} option bar of section foo.
  // Only the first slash separates.
  function Interpret(token: string): Reference {
    var k := SlashAt(token);
    if k == |token| then Reference(Defaults, token)
    else
      Reference(if token[..k] == "." then Local else Section(token[..k]), token[k + 1..])
  }

  lemma {:induction false} SlashAtFirst(before: string, after: string)
    requires '/' !in before
    ensures SlashAt(before + "/" + after) == |before|
  {
    if before == [] {
      assert before + "/" + after == "/" + after;
    } else {
      assert (before + "/" + after)[1..] == before[1..] + "/" + after;
      SlashAtFirst(before[1..], after);
    }
  }

  // Every reference the syntax can express is read back from how it is written.
  lemma InterpretReadsBack(namespace: string, name: string)
    requires '/' !in namespace
    ensures Interpret(namespace + "/" + name)
         == Reference(if namespace == "." then Local else Section(namespace), name)
    ensures '/' !in name ==> Interpret(name) == Reference(Defaults, name)
  {
    SlashAtFirst(namespace, name);
    var token := namespace + "/" + name;
    assert token[..|namespace|] == namespace && token[|namespace| + 1..] == name;
  }

  function Tokens(v: Value): seq<string> {
    if v == [] then []
    else (if v[0].Token? then [v[0].token] else []) + Tokens(v[1..])
  }

  predicate Closed(v: Value) {
    forall segment | segment in v :: segment.Text?
  }

  lemma ClosedTail(v: Value)
    requires v != []
    ensures Closed(v) <==> v[0].Text? && Closed(v[1..])
  {
    assert v == [v[0]] + v[1..];
  }

  lemma {:induction false} ClosedHasNoTokens(v: Value)
    ensures Closed(v) <==> Tokens(v) == []
  {
    if v != [] {
      ClosedHasNoTokens(v[1..]);
      ClosedTail(v);
    }
  }

  // value.replace(token, replacement): every occurrence, at once.
  function Replace(v: Value, token: string, replacement: Value): Value {
    if v == [] then []
    else (if v[0] == Token(token) then replacement else [v[0]]) + Replace(v[1..], token, replacement)
  }

  lemma {:induction false} ReplaceConcat(a: Value, b: Value, token: string, replacement: Value)
    ensures Replace(a + b, token, replacement)
         == Replace(a, token, replacement) + Replace(b, token, replacement)
  {
    if a == [] {
      assert a + b == b;
    } else {
      assert (a + b)[1..] == a[1..] + b;
      ReplaceConcat(a[1..], b, token, replacement);
      Associative(if a[0] == Token(token) then replacement else [a[0]],
                  Replace(a[1..], token, replacement), Replace(b, token, replacement));
    }
  }

  lemma {:induction false} ReplaceInClosed(v: Value, token: string, replacement: Value)
    requires Closed(v)
    ensures Replace(v, token, replacement) == v
  {
    if v != [] {
      ClosedTail(v);
      ReplaceInClosed(v[1..], token, replacement);
    }
  }

  // ---------- Looking references up ----------

  // The value a token stands for, seen from a section.
  function Lookup(sections: Sections, defaults: Options, section: string, token: string): Option<Value> {
    match Interpret(token)
    case Reference(Defaults, name) =>
      if name in defaults then Some(defaults[name]) else None
    case Reference(Local, name) =>
      if section in sections && name in sections[section] then Some(sections[section][name]) else None
    case Reference(Section(namespace), name) =>
      if namespace in sections && name in sections[namespace] then Some(sections[namespace][name]) else None
  }

  // What the three ways to write a reference find. There is no falling back from one to another.
  lemma TokenFinds(sections: Sections, defaults: Options, section: string, namespace: string, name: string)
    requires '/' !in namespace && namespace != "."
    ensures '/' !in name ==> Lookup(sections, defaults, section, name) == OptionIn(defaults, name)
    ensures Lookup(sections, defaults, section, "." + "/" + name) ==
            if section in sections then OptionIn(sections[section], name) else None
    ensures Lookup(sections, defaults, section, namespace + "/" + name) ==
            if namespace in sections then OptionIn(sections[namespace], name) else None
  {
    InterpretReadsBack(namespace, name);
    InterpretReadsBack(".", name);
    hide Interpret;
  }

  function OptionIn(options: Options, name: string): Option<Value> {
    if name in options then Some(options[name]) else None
  }

  // What a lookup gives, nothing if undefined.
  function Found(sections: Sections, defaults: Options, section: string, token: string): Value {
    var found := Lookup(sections, defaults, section, token);
    if found.Some? then found.value else []
  }

  // The tokens replaced one after the other, each in what the earlier ones left.
  function ReplaceEach(v: Value, tokens: seq<string>, sections: Sections, defaults: Options,
                       section: string): Value
  {
    if tokens == [] then v
    else
      var m := |tokens| - 1;
      Replace(ReplaceEach(v, tokens[..m], sections, defaults, section), tokens[m],
              Found(sections, defaults, section, tokens[m]))
  }

  // v is the base value with its tokens replaced, one after the other.
  ghost predicate ReplacedBy(base: Value, sections: Sections, defaults: Options, section: string, v: Value) {
    v == ReplaceEach(base, Tokens(base), sections, defaults, section)
  }

  // Only what the tokens are looked up as matters.
  lemma {:induction false} ReplaceEachSameLookups(v: Value, tokens: seq<string>, s: Sections, t: Sections,
                                                  defaults: Options, section: string)
    requires forall u | u in tokens :: Found(s, defaults, section, u) == Found(t, defaults, section, u)
    ensures ReplaceEach(v, tokens, s, defaults, section) == ReplaceEach(v, tokens, t, defaults, section)
  {
    if tokens != [] {
      var m := |tokens| - 1;
      assert forall u | u in tokens[..m] :: u in tokens;
      ReplaceEachSameLookups(v, tokens[..m], s, t, defaults, section);
      assert tokens[m] in tokens;
    }
  }

  // All tokens of v replaced simultaneously.
  function Expand(v: Value, sections: Sections, defaults: Options, section: string): Value {
    if v == [] then []
    else
      (if v[0].Token? then Found(sections, defaults, section, v[0].token) else [v[0]])
      + Expand(v[1..], sections, defaults, section)
  }

  // v with only the tokens in the given list replaced.
  function ExpandSome(v: Value, tokens: seq<string>, sections: Sections, defaults: Options,
                      section: string): Value {
    if v == [] then []
    else
      (if v[0].Token? && v[0].token in tokens then Found(sections, defaults, section, v[0].token)
       else [v[0]])
      + ExpandSome(v[1..], tokens, sections, defaults, section)
  }

  lemma {:induction false} ExpandNone(v: Value, sections: Sections, defaults: Options, section: string)
    ensures ExpandSome(v, [], sections, defaults, section) == v
  {
    if v != [] {
      ExpandNone(v[1..], sections, defaults, section);
    }
  }

  lemma {:induction false} ExpandAll(v: Value, tokens: seq<string>, sections: Sections,
                                     defaults: Options, section: string)
    requires forall t | t in Tokens(v) :: t in tokens
    ensures ExpandSome(v, tokens, sections, defaults, section) == Expand(v, sections, defaults, section)
  {
    if v != [] {
      assert forall t | t in Tokens(v[1..]) :: t in Tokens(v);
      ExpandAll(v[1..], tokens, sections, defaults, section);
      assert v[0].Token? ==> v[0].token in Tokens(v);
    }
  }

  lemma {:induction false} ExpandOneMore(v: Value, tokens: seq<string>, t: string, sections: Sections,
                                         defaults: Options, section: string)
    requires forall u | u in tokens + [t] :: Closed(Found(sections, defaults, section, u))
    ensures Replace(ExpandSome(v, tokens, sections, defaults, section), t,
                    Found(sections, defaults, section, t))
         == ExpandSome(v, tokens + [t], sections, defaults, section)
  {
    if v != [] {
      ExpandOneMore(v[1..], tokens, t, sections, defaults, section);
      var head := if v[0].Token? && v[0].token in tokens then
                    Found(sections, defaults, section, v[0].token)
                  else [v[0]];
      ReplaceConcat(head, ExpandSome(v[1..], tokens, sections, defaults, section), t,
                    Found(sections, defaults, section, t));
      if v[0].Token? && v[0].token in tokens {
        ReplaceInClosed(head, t, Found(sections, defaults, section, t));
      }
    }
  }

  // When everything looked up is closed, replacing token by token is simultaneous replacement.
  lemma {:induction false} ReplaceEachIsExpansion(v: Value, tokens: seq<string>, sections: Sections,
                                                  defaults: Options, section: string)
    requires forall t | t in tokens :: Closed(Found(sections, defaults, section, t))
    ensures ReplaceEach(v, tokens, sections, defaults, section)
         == ExpandSome(v, tokens, sections, defaults, section)
  {
    if tokens == [] {
      ExpandNone(v, sections, defaults, section);
    } else {
      var m := |tokens| - 1;
      ReplaceEachIsExpansion(v, tokens[..m], sections, defaults, section);
      assert tokens == tokens[..m] + [tokens[m]];
      ExpandOneMore(v, tokens[..m], tokens[m], sections, defaults, section);
    }
  }

  lemma {:induction false} ExpandIsClosed(v: Value, sections: Sections, defaults: Options, section: string)
    requires forall t | t in Tokens(v) :: Closed(Found(sections, defaults, section, t))
    ensures Closed(Expand(v, sections, defaults, section))
  {
    if v != [] {
      assert forall t | t in Tokens(v[1..]) :: t in Tokens(v);
      ExpandIsClosed(v[1..], sections, defaults, section);
      assert v[0].Token? ==> v[0].token in Tokens(v);
    }
  }

  lemma {:induction false} ExpandOfClosed(v: Value, sections: Sections, defaults: Options, section: string)
    requires Closed(v)
    ensures Expand(v, sections, defaults, section) == v
  {
    if v != [] {
      ClosedTail(v);
      ExpandOfClosed(v[1..], sections, defaults, section);
    }
  }

  // So then resolving a value is expanding it, and leaves no reference.
  lemma ReplacedIsExpanded(v: Value, sections: Sections, defaults: Options, section: string)
    requires forall t | t in Tokens(v) :: Closed(Found(sections, defaults, section, t))
    ensures ReplaceEach(v, Tokens(v), sections, defaults, section) == Expand(v, sections, defaults, section)
    ensures Closed(Expand(v, sections, defaults, section))
  {
    hide Expand, ReplaceEach, Closed, Found;
    ReplaceEachIsExpansion(v, Tokens(v), sections, defaults, section);
    ExpandAll(v, Tokens(v), sections, defaults, section);
    ExpandIsClosed(v, sections, defaults, section);
  }
}
