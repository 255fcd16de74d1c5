/** The behaviours the repository's own tests describe, derived from the
    general laws of the model. */
module Scenarios {
  import opened Errors
  import opened OrderedMaps
  import opened TokenLists
  import opened Paths
  import opened CompiledRuleSets
  import opened RuleSets
  import opened Flattening
  import opened DataTransferRequests

  /** Two single-level keys, one given a string and one an array:
      `add('key1', 'integer')` and `add('key2', ['bool', 'integer'])`, with
      the keys and tokens left open. */
  function FlatExample(k1: string, k2: string, t: string, u: string, v: string): (rs: RuleSet)
    ensures WellFormed(rs)
  {
    Add(Add(NewRuleSet(), k1, Single(t)), k2, Many([Single(u), Single(v)]))
  }

  /** The rule tree the two `add` calls build. */
  lemma FlatExampleSlots(k1: string, k2: string, t: string, u: string, v: string)
    requires k1 != k2
    ensures FlatExample(k1, k2, t, u, v).slots == [Slot(k1, [Token(t)]), Slot(k2, [Token(u), Token(v)])]
  {
    var rs := FlatExample(k1, k2, t, u, v);
    FlatExampleEntries(k1, k2, t, u, v);
    EntriesOfSlot(rs, 0);
    EntriesOfSlot(rs, 1);
    assert rs.slots[0] == Slot(k1, [Token(t)]);
    assert rs.slots[1] == Slot(k2, [Token(u), Token(v)]);
  }

  lemma FlatExampleEntries(k1: string, k2: string, t: string, u: string, v: string)
    requires k1 != k2
    ensures Keys(FlatExample(k1, k2, t, u, v)) == [k1, k2]
    ensures Entries(FlatExample(k1, k2, t, u, v), k1) == [Token(t)]
    ensures Entries(FlatExample(k1, k2, t, u, v), k2) == [Token(u), Token(v)]
  {
    var one := Add(NewRuleSet(), k1, Single(t));
    assert Entries(NewRuleSet(), k1) == [] && Entries(NewRuleSet(), k2) == [];
    ExpandTwo(u, v);
  }

  lemma ExpandTwo(u: string, v: string)
    ensures ExpandEach([Single(u), Single(v)]) == [Token(u), Token(v)]
  {
    assert [Single(u), Single(v)][1..] == [Single(v)];
    assert [Single(v)][1..] == [];
    assert ExpandEach([Single(v)]) == [Token(v)] + ExpandEach([]);
  }

  /** The single-level example compiles to its two keys, each with its
      tokens in the order given. */
  lemma FlatExampleRules(k1: string, k2: string, t: string, u: string, v: string)
    requires DotFree(k1) && DotFree(k2) && k1 != k2 && u != v
    ensures ToRules(FlatExample(k1, k2, t, u, v)).Ok?
    ensures ToRules(FlatExample(k1, k2, t, u, v)).value.values == map[k1 := [t], k2 := [u, v]]
  {
    var rs := FlatExample(k1, k2, t, u, v);
    FlatExampleSlots(k1, k2, t, u, v);
    TokenSlotsShaped(rs);
    FlatTwo(rs);
    TokensOfTokens(t, u, v);
    Pair(u, v);
    DeduplicateDistinct([t]);
    var out := ToRules(rs).value.values;
    assert rs.slots[0] == Slot(k1, [Token(t)]) && rs.slots[1] == Slot(k2, [Token(u), Token(v)]);
    assert out.Keys == {k1, k2};
    assert out[k1] == [t];
    assert out[k2] == [u, v];
    MapOfTwo(out, k1, k2, [t], [u, v]);
  }

  /** A map with two keys is the display of its two entries. */
  lemma MapOfTwo<V>(m: map<string, V>, a: string, b: string, x: V, y: V)
    requires a != b && m.Keys == {a, b} && m[a] == x && m[b] == y
    ensures m == map[a := x, b := y]
  {
  }

  lemma TokensOfTokens(t: string, u: string, v: string)
    ensures TokensOf([Token(t)]) == [t]
    ensures TokensOf([Token(u), Token(v)]) == [u, v]
  {
    assert [Token(u), Token(v)][1..] == [Token(v)];
    assert TokensOf([Token(v)]) == [v];
  }

  /** A shaped tree of two keys without nesting compiles to those two keys,
      each with its tokens without repeats. */
  lemma FlatTwo(rs: RuleSet)
    requires Shaped(rs) && |rs.slots| == 2
    requires forall i, n :: 0 <= i < |rs.slots| && 0 <= n < |rs.slots[i].entries| ==> rs.slots[i].entries[n].Token?
    ensures ToRules(rs).Ok?
    ensures ToRules(rs).value.values.Keys == {rs.slots[0].key, rs.slots[1].key}
    ensures ToRules(rs).value.values[rs.slots[0].key] == Deduplicate(TokensOf(rs.slots[0].entries))
    ensures ToRules(rs).value.values[rs.slots[1].key] == Deduplicate(TokensOf(rs.slots[1].entries))
  {
    FlatTwoKeys(rs);
    FlatToRules(rs);
  }

  lemma FlatTwoKeys(rs: RuleSet)
    requires Shaped(rs) && |rs.slots| == 2
    requires forall i, n :: 0 <= i < |rs.slots| && 0 <= n < |rs.slots[i].entries| ==> rs.slots[i].entries[n].Token?
    ensures ToRules(rs).Ok?
    ensures ToRules(rs).value.values.Keys == {rs.slots[0].key, rs.slots[1].key}
  {
    FlatDomain(rs);
    var out := ToRules(rs).value.values;
    assert Keys(rs) == [rs.slots[0].key, rs.slots[1].key];
    DomainOfTwo(out, Keys(rs));
  }

  /** A map whose keys are those of a two-element list has that domain. */
  lemma DomainOfTwo(m: map<string, seq<string>>, ks: seq<string>)
    requires |ks| == 2
    requires forall p :: p in m <==> p in ks
    ensures m.Keys == {ks[0], ks[1]}
  {
    assert forall p :: p in ks <==> p == ks[0] || p == ks[1];
  }

  /** Distinct dot-free keys whose entries are non-empty token lists form a
      shaped tree without nesting. */
  lemma TokenSlotsShaped(rs: RuleSet)
    requires forall i, j :: 0 <= i < j < |rs.slots| ==> rs.slots[i].key != rs.slots[j].key
    requires forall i :: 0 <= i < |rs.slots| ==> DotFree(rs.slots[i].key) && rs.slots[i].entries != []
    requires forall i, n :: 0 <= i < |rs.slots| && 0 <= n < |rs.slots[i].entries| ==> rs.slots[i].entries[n].Token?
    ensures Shaped(rs)
  {
    forall i | 0 <= i < |rs.slots|
      ensures ShapedSlot(rs.slots[i])
    {
      ShapedEntriesTokens(rs.slots[i].entries);
    }
  }

  /** A list of two different values is its own deduplication. */
  lemma Pair(a: string, b: string)
    requires a != b
    ensures Deduplicate([a, b]) == [a, b]
  {
    DeduplicateDistinct([a, b]);
  }

  /** A non-null built-in scalar without attributes: its path holds its
      token and `required`. */
  lemma RequiredScalar(fields: seq<Field>, i: nat, token: string)
    requires PlainProperties(fields) && i < |fields| && RequestRules(fields).Ok?
    requires fields[i].ty.Builtin? && !fields[i].ty.nullable && fields[i].attributes == []
    requires BuiltinToken(fields[i].ty.name) == Some(token) && token != "required"
    ensures fields[i].name in RequestRules(fields).value.values
    ensures RequestRules(fields).value.values[fields[i].name] == [token, "required"]
  {
    ScalarOwnTokens(fields[i], token);
    OwnTokensOfEntries(fields[i]);
    PropertyPath(fields, i);
    Pair(token, "required");
  }

  /** The tokens of a built-in scalar property without attributes. */
  lemma ScalarOwnTokens(f: Field, token: string)
    requires f.ty.Builtin? && f.attributes == [] && BuiltinToken(f.ty.name) == Some(token)
    ensures TypeRules(f.ty).Ok?
    ensures OwnTokens(f) == [token, if f.ty.nullable then "nullable" else "required"] + (if f.ty.nullable then ["nullable"] else [])
  {
    assert AttributeTokens([]) == [];
  }

  /** A nullable built-in scalar without attributes: `nullable` comes from
      the type mapping and again from `allowsNull`, and appears once. */
  lemma NullableScalar(fields: seq<Field>, i: nat, token: string)
    requires PlainProperties(fields) && i < |fields| && RequestRules(fields).Ok?
    requires fields[i].ty.Builtin? && fields[i].ty.nullable && fields[i].attributes == []
    requires BuiltinToken(fields[i].ty.name) == Some(token) && token != "nullable"
    ensures fields[i].name in RequestRules(fields).value.values
    ensures RequestRules(fields).value.values[fields[i].name] == [token, "nullable"]
  {
    ScalarOwnTokens(fields[i], token);
    OwnTokensOfEntries(fields[i]);
    PropertyPath(fields, i);
    DeduplicateSnoc([token, "nullable"], "nullable");
    Pair(token, "nullable");
  }

  /** `int $requiredInt` and `?string $optionalString`. */
  function BasicFields(requiredInt: string, optionalString: string): seq<Field> {
    [Field(requiredInt, Builtin("int", false), []), Field(optionalString, Builtin("string", true), [])]
  }

  /** The flat rules of the basic request: the non-null integer is
      required, and the nullable string's two `nullable` tokens collapse into
      one. */
  lemma BasicRequestRules(requiredInt: string, optionalString: string)
    requires DotFree(requiredInt) && DotFree(optionalString) && requiredInt != optionalString
    ensures RequestRules(BasicFields(requiredInt, optionalString)).Ok?
    ensures
      var out := RequestRules(BasicFields(requiredInt, optionalString)).value.values;
      && requiredInt in out && out[requiredInt] == ["integer", "required"]
      && optionalString in out && out[optionalString] == ["string", "nullable"]
  {
    var fs := BasicFields(requiredInt, optionalString);
    assert PlainProperties(fs);
    BuildFieldsOk(NewRuleSet(), fs);
    RequestRulesOk(fs);
    RequiredScalar(fs, 0, "integer");
    NullableScalar(fs, 1, "string");
  }

  /** `int $requiredInt` and `bool $requiredBool`. */
  function MultiKeyFields(requiredInt: string, requiredBool: string): seq<Field> {
    [Field(requiredInt, Builtin("int", false), []), Field(requiredBool, Builtin("bool", false), [])]
  }

  /** A property typed as a transfer request whose own tokens hold
      `nullable`: each required scalar below it becomes `required_with` the
      property. */
  lemma RequiredWithinOptional(fields: seq<Field>, i: nat, j: nat, token: string)
    requires PlainProperties(fields) && i < |fields| && fields[i].ty.Dto? && fields[i].ty.nullable
    requires PlainProperties(fields[i].ty.fields) && j < |fields[i].ty.fields|
    requires RequestRules(fields).Ok?
    requires
      var g := fields[i].ty.fields[j];
      g.ty.Builtin? && !g.ty.nullable && g.attributes == [] && BuiltinToken(g.ty.name) == Some(token) && token != "required"
    ensures Join(fields[i].name, fields[i].ty.fields[j].name) in RequestRules(fields).value.values
    ensures RequestRules(fields).value.values[Join(fields[i].name, fields[i].ty.fields[j].name)]
      == [token, RequiredWith(fields[i].name)]
  {
    var g := fields[i].ty.fields[j];
    ScalarOwnTokens(g, token);
    OwnTokensOfEntries(g);
    NestedPropertyPath(fields, i, j);
    Pair(token, "required");
    RewriteSecond(token, RequiredWith(fields[i].name));
  }

  lemma RewriteSecond(token: string, replacement: string)
    requires token != "required"
    ensures ReplaceValue("required", replacement, [token, "required"]) == [token, replacement]
  {
    assert [token, "required"][1..] == ["required"];
  }

  /** A nullable property typed as the multi-key request. */
  function OptionalNestedFields(outer: string, requiredInt: string, requiredBool: string): seq<Field> {
    [Field(outer, Dto(MultiKeyFields(requiredInt, requiredBool), true), [])]
  }

  /** A nullable property typed as a transfer request, without attributes:
      its own path says it is an array that may be null. */
  lemma OptionalRequestKey(fields: seq<Field>, i: nat)
    requires PlainProperties(fields) && i < |fields| && RequestRules(fields).Ok?
    requires fields[i].ty.Dto? && fields[i].ty.nullable && fields[i].attributes == []
    ensures fields[i].name in RequestRules(fields).value.values
    ensures RequestRules(fields).value.values[fields[i].name] == ["array", "nullable"]
  {
    PropertyPath(fields, i);
    OptionalRequestTokens(fields[i]);
    Pair("array", "nullable");
  }

  lemma OptionalRequestTokens(f: Field)
    requires f.ty.Dto? && f.ty.nullable && f.attributes == [] && TypeRules(f.ty).Ok?
    ensures Contributed(f) != []
    ensures OwnTokens(f) == ["array", "nullable"]
  {
    var tail := SchemaContribution(f);
    assert AttributeTokens([]) == [];
  }

  /** The multi-key request builds. */
  lemma MultiKeyBuilds(requiredInt: string, requiredBool: string)
    requires DotFree(requiredInt) && DotFree(requiredBool) && requiredInt != requiredBool
    ensures PlainProperties(MultiKeyFields(requiredInt, requiredBool))
    ensures BuildRuleSet(MultiKeyFields(requiredInt, requiredBool)).Ok?
  {
    assert BuiltinToken("int") == Some("integer");
    assert BuiltinToken("bool") == Some("boolean");
    ScalarPairBuilds(MultiKeyFields(requiredInt, requiredBool));
  }

  /** Its required boolean is only required when the outer key is present,
      and the outer key is an array that may be null. */
  lemma OptionalNestedRules(outer: string, requiredInt: string, requiredBool: string)
    requires DotFree(outer) && DotFree(requiredInt) && DotFree(requiredBool) && requiredInt != requiredBool
    ensures RequestRules(OptionalNestedFields(outer, requiredInt, requiredBool)).Ok?
    ensures
      var out := RequestRules(OptionalNestedFields(outer, requiredInt, requiredBool)).value.values;
      && outer in out && out[outer] == ["array", "nullable"]
      && outer + "." + requiredBool in out && out[outer + "." + requiredBool] == ["boolean", "required_with:" + outer]
      && outer + "." + requiredInt in out && out[outer + "." + requiredInt] == ["integer", "required_with:" + outer]
  {
    var fs := OptionalNestedFields(outer, requiredInt, requiredBool);
    var inner := MultiKeyFields(requiredInt, requiredBool);
    assert fs[0] == Field(outer, Dto(inner, true), []);
    assert inner[0] == Field(requiredInt, Builtin("int", false), []);
    assert inner[1] == Field(requiredBool, Builtin("bool", false), []);
    assert BuiltinToken("int") == Some("integer");
    assert BuiltinToken("bool") == Some("boolean");
    MultiKeyBuilds(requiredInt, requiredBool);
    OptionalNestedBuilds(outer, requiredInt, requiredBool);
    OptionalRequestKey(fs, 0);
    RequiredWithinOptional(fs, 0, 0, "integer");
    RequiredWithinOptional(fs, 0, 1, "boolean");
  }

  /** The optional nested request builds and compiles. */
  lemma OptionalNestedBuilds(outer: string, requiredInt: string, requiredBool: string)
    requires DotFree(outer) && DotFree(requiredInt) && DotFree(requiredBool) && requiredInt != requiredBool
    ensures PlainProperties(OptionalNestedFields(outer, requiredInt, requiredBool))
    ensures RequestRules(OptionalNestedFields(outer, requiredInt, requiredBool)).Ok?
  {
    var fs := OptionalNestedFields(outer, requiredInt, requiredBool);
    MultiKeyBuilds(requiredInt, requiredBool);
    assert PlainProperties(fs);
    BuildFieldsOk(NewRuleSet(), fs);
    RequestRulesOk(fs);
  }

  /** A nullable property typed as a request that itself holds the optional
      nested request: two levels of nullable nesting. */
  function TwoLevelFields(outer: string, middle: string, requiredInt: string, requiredBool: string): seq<Field> {
    [Field(outer, Dto(OptionalNestedFields(middle, requiredInt, requiredBool), true), [])]
  }

  /** Two levels below a nullable key, a required boolean is
      `required_with` its immediate parent's name within the nested request
      (`middle`), not the full path `outer.middle`: each nested request is
      compiled on its own before its paths are placed under the outer key. */
  lemma TwoLevelRules(outer: string, middle: string, requiredInt: string, requiredBool: string)
    requires DotFree(outer) && DotFree(middle) && DotFree(requiredInt) && DotFree(requiredBool)
    requires requiredInt != requiredBool
    ensures RequestRules(TwoLevelFields(outer, middle, requiredInt, requiredBool)).Ok?
    ensures
      var out := RequestRules(TwoLevelFields(outer, middle, requiredInt, requiredBool)).value.values;
      var path := outer + "." + middle + "." + requiredBool;
      path in out && out[path] == ["boolean", "required_with:" + middle]
  {
    var fs := TwoLevelFields(outer, middle, requiredInt, requiredBool);
    TwoLevelBuilds(outer, middle, requiredInt, requiredBool);
    OptionalNestedRules(middle, requiredInt, requiredBool);
    var sub := middle + "." + requiredBool;
    KeptBelow(fs, 0, sub, "boolean", "required_with:" + middle);
    assert Join(outer, sub) == outer + "." + middle + "." + requiredBool;
  }

  lemma TwoLevelBuilds(outer: string, middle: string, requiredInt: string, requiredBool: string)
    requires DotFree(outer) && DotFree(middle) && DotFree(requiredInt) && DotFree(requiredBool)
    requires requiredInt != requiredBool
    ensures PlainProperties(TwoLevelFields(outer, middle, requiredInt, requiredBool))
    ensures RequestRules(TwoLevelFields(outer, middle, requiredInt, requiredBool)).Ok?
  {
    var inner := OptionalNestedFields(middle, requiredInt, requiredBool);
    var fs := TwoLevelFields(outer, middle, requiredInt, requiredBool);
    OptionalNestedBuilds(middle, requiredInt, requiredBool);
    assert PlainProperties(fs);
    BuildFieldsOk(NewRuleSet(), inner);
    BuildFieldsOk(NewRuleSet(), fs);
    RequestRulesOk(fs);
  }

  /** A nested path whose two tokens hold no `required` keeps them as the
      nested request compiled them. */
  lemma KeptBelow(fields: seq<Field>, i: nat, sub: string, a: string, b: string)
    requires PlainProperties(fields) && i < |fields| && fields[i].ty.Dto?
    requires RequestRules(fields).Ok?
    requires RequestRules(fields[i].ty.fields).Ok?
    requires sub in RequestRules(fields[i].ty.fields).value.values
    requires RequestRules(fields[i].ty.fields).value.values[sub] == [a, b]
    requires a != b && a != "required" && b != "required"
    ensures Join(fields[i].name, sub) in RequestRules(fields).value.values
    ensures RequestRules(fields).value.values[Join(fields[i].name, sub)] == [a, b]
  {
    DeepPropertyPath(fields, i, sub);
    Pair(a, b);
  }

  /** A non-null property typed as the basic request. */
  function RequiredNestedFields(outer: string, requiredInt: string, optionalString: string): seq<Field> {
    [Field(outer, Dto(BasicFields(requiredInt, optionalString), false), [])]
  }

  /** A non-null property typed as a transfer request, without attributes:
      each required scalar below it stays required. */
  lemma RequiredWithinRequired(fields: seq<Field>, i: nat, j: nat, token: string)
    requires PlainProperties(fields) && i < |fields| && fields[i].ty.Dto? && !fields[i].ty.nullable
    requires fields[i].attributes == []
    requires PlainProperties(fields[i].ty.fields) && j < |fields[i].ty.fields|
    requires RequestRules(fields).Ok?
    requires
      var g := fields[i].ty.fields[j];
      g.ty.Builtin? && !g.ty.nullable && g.attributes == [] && BuiltinToken(g.ty.name) == Some(token) && token != "required"
    ensures Join(fields[i].name, fields[i].ty.fields[j].name) in RequestRules(fields).value.values
    ensures RequestRules(fields).value.values[Join(fields[i].name, fields[i].ty.fields[j].name)] == [token, "required"]
  {
    var g := fields[i].ty.fields[j];
    ScalarOwnTokens(g, token);
    OwnTokensOfEntries(g);
    assert AttributeTokens([]) == [];
    NestedPropertyPath(fields, i, j);
    Pair(token, "required");
  }

  /** The basic request builds. */
  lemma BasicBuilds(requiredInt: string, optionalString: string)
    requires DotFree(requiredInt) && DotFree(optionalString) && requiredInt != optionalString
    ensures PlainProperties(BasicFields(requiredInt, optionalString))
    ensures BuildRuleSet(BasicFields(requiredInt, optionalString)).Ok?
  {
    assert BuiltinToken("int") == Some("integer");
    assert BuiltinToken("string") == Some("string");
    ScalarPairBuilds(BasicFields(requiredInt, optionalString));
  }

  /** Two differently named built-in properties from the table build. */
  lemma ScalarPairBuilds(fields: seq<Field>)
    requires |fields| == 2 && fields[0].name != fields[1].name
    requires forall i :: 0 <= i < 2 ==> DotFree(fields[i].name) && fields[i].ty.Builtin? && BuiltinToken(fields[i].ty.name).Some?
    ensures PlainProperties(fields)
    ensures BuildRuleSet(fields).Ok?
  {
    ScalarPairPlain(fields);
    ScalarPairMaps(fields);
    BuildFieldsOk(NewRuleSet(), fields);
  }

  lemma ScalarPairPlain(fields: seq<Field>)
    requires |fields| == 2 && fields[0].name != fields[1].name
    requires forall i :: 0 <= i < 2 ==> DotFree(fields[i].name) && fields[i].ty.Builtin?
    ensures PlainProperties(fields)
  {
    assert PropertyNames(fields) by {
      forall i | 0 <= i < |fields|
        ensures DotFree(fields[i].name) && PropertyTypeNames(fields[i].ty)
      {
      }
    }
  }

  lemma ScalarPairMaps(fields: seq<Field>)
    requires |fields| == 2
    requires forall i :: 0 <= i < 2 ==> fields[i].ty.Builtin? && BuiltinToken(fields[i].ty.name).Some?
    ensures forall i :: 0 <= i < |fields| ==> !fields[i].ty.Absent? && TypeRules(fields[i].ty).Ok?
  {
    forall i | 0 <= i < |fields|
      ensures !fields[i].ty.Absent? && TypeRules(fields[i].ty).Ok?
    {
      BuiltinMaps(fields[i].ty);
    }
  }

  /** A built-in type from the table maps without error. */
  lemma BuiltinMaps(t: TypeDesc)
    requires t.Builtin? && BuiltinToken(t.name).Some?
    ensures !t.Absent? && TypeRules(t).Ok? && PropertyTypeNames(t)
  {
  }

  /** Below a non-null outer key, `required` stays as it is. */
  lemma RequiredNestedRules(outer: string, requiredInt: string, optionalString: string)
    requires DotFree(outer) && DotFree(requiredInt) && DotFree(optionalString) && requiredInt != optionalString
    ensures RequestRules(RequiredNestedFields(outer, requiredInt, optionalString)).Ok?
    ensures
      var out := RequestRules(RequiredNestedFields(outer, requiredInt, optionalString)).value.values;
      outer + "." + requiredInt in out && out[outer + "." + requiredInt] == ["integer", "required"]
  {
    var fs := RequiredNestedFields(outer, requiredInt, optionalString);
    BasicBuilds(requiredInt, optionalString);
    assert PlainProperties(fs);
    BuildFieldsOk(NewRuleSet(), fs);
    RequestRulesOk(fs);
    RequiredWithinRequired(fs, 0, 0, "integer");
  }

  /** `#[Rules('integer', 'max:10')] public mixed $name`. */
  function MixedFields(name: string): seq<Field> {
    [Field(name, Builtin("mixed", true), [["integer", "max:10"]])]
  }

  /** The tokens of the `mixed` property before deduplication. */
  lemma MixedOwnTokens(f: Field)
    requires f.ty == Builtin("mixed", true) && f.attributes == [["integer", "max:10"]]
    ensures TypeRules(f.ty).Ok?
    ensures OwnTokens(f) == ["nullable", "nullable", "nullable", "integer", "max:10"]
  {
    assert AttributeTokens([["integer", "max:10"]]) == ["integer", "max:10"] by {
      assert [["integer", "max:10"]][1..] == [];
    }
  }

  /** `mixed` maps to `nullable` twice and allows null; the three `nullable`
      tokens collapse into one ahead of the attribute's tokens. */
  lemma MixedRules(name: string)
    requires DotFree(name)
    ensures RequestRules(MixedFields(name)).Ok?
    ensures name in RequestRules(MixedFields(name)).value.values
    ensures RequestRules(MixedFields(name)).value.values[name] == ["nullable", "integer", "max:10"]
  {
    var fs := MixedFields(name);
    assert PlainProperties(fs);
    BuildFieldsOk(NewRuleSet(), fs);
    RequestRulesOk(fs);
    MixedOwnTokens(fs[0]);
    OwnTokensOfEntries(fs[0]);
    PropertyPath(fs, 0);
    ThreeThenTwo("nullable", "integer", "max:10");
  }

  lemma {:induction false} Twice(x: string)
    ensures Deduplicate([x, x]) == [x]
  {
    DeduplicateDistinct([x]);
    DeduplicateSnoc([x], x);
    assert [x] + [x] == [x, x];
  }

  lemma {:induction false} Thrice(x: string)
    ensures Deduplicate([x, x, x]) == [x]
  {
    Twice(x);
    DeduplicateSnoc([x, x], x);
    assert [x, x] + [x] == [x, x, x];
  }

  lemma {:induction false} ThriceThenOne(x: string, y: string)
    requires x != y
    ensures Deduplicate([x, x, x, y]) == [x, y]
  {
    Thrice(x);
    DeduplicateSnoc([x, x, x], y);
    assert [x, x, x] + [y] == [x, x, x, y];
  }

  /** A value repeated three times, then two others: the repeats go. */
  lemma {:induction false} ThreeThenTwo(x: string, y: string, z: string)
    requires x != y && x != z && y != z
    ensures Deduplicate([x, x, x, y, z]) == [x, y, z]
  {
    ThriceThenOne(x, y);
    DeduplicateSnoc([x, x, x, y], z);
    assert [x, x, x, y] + [z] == [x, x, x, y, z];
  }

  /** A property without a declared type makes the whole build fail. */
  lemma UntypedProperty(name: string)
    ensures BuildRuleSet([Field(name, Absent, [])]) == Err(MissingType(name))
  {
  }

  /** A union holding a transfer request is an error. */
  lemma UnionHoldingRequest(fields: seq<Field>)
    ensures TypeRules(Union([Builtin("int", false), Dto(fields, false)], false)).Err?
  {
    UnionWithRequest([Builtin("int", false), Dto(fields, false)], 1);
  }

  /** A key that already has a dot can clash with a nested path: `a` with a
      nested `b`, then `a.b` on its own. */
  function ClashExample(a: string, b: string): (rs: RuleSet) {
    RuleSet([
      Slot(a, [Token("array"), Nested(RuleSet([Slot(b, [Token("integer")])]))]),
      Slot(Join(a, b), [Token("string")])])
  }

  lemma {:induction false} ClashExampleFails(a: string, b: string)
    requires DotFree(b)
    ensures ToRules(ClashExample(a, b)) == Err(DuplicateKey(Join(a, b)))
  {
    var rs := ClashExample(a, b);
    var next := ClashFirstSlot(a, b);
    assert rs.slots[1..] == [Slot(Join(a, b), [Token("string")])];
    ClashSecondSlot(next, Join(a, b), [Token("string")]);
  }

  /** Registering `a` with its nested `b` registers the path `a.b`. */
  lemma {:induction false} ClashFirstSlot(a: string, b: string) returns (next: Registry)
    requires DotFree(b)
    ensures next.Valid() && Join(a, b) in next.compiled.values
    ensures CompileSlots(ClashExample(a, b).slots, NewRegistry()) == CompileSlots(ClashExample(a, b).slots[1..], next)
  {
    var rs := ClashExample(a, b);
    var fam := ClashFamily(a, b);
    var empty := NewRegistry();
    assert FreshKeys(empty, fam.keys, fam.values);
    RegisterKeysAppends(empty, fam.keys, fam.values);
    next := RegisterKeys(empty, fam.keys, fam.values).value;
  }

  /** The first key of `ClashExample` translates to a family holding `a.b`. */
  lemma ClashFamily(a: string, b: string) returns (fam: OrderedMap<seq<string>>)
    requires DotFree(b)
    ensures TranslateFrom(a, ClashExample(a, b).slots[0].entries, Empty()) == Ok(fam)
    ensures fam.Valid() && Join(a, b) in fam.values
  {
    var inner := RuleSet([Slot(b, [Token("integer")])]);
    var es0 := [Token("array"), Nested(inner)];
    assert ClashExample(a, b).slots[0].entries == es0;
    ClashInner(b);
    ChildrenCompileOk(es0);
    TranslateLaw(a, es0, Join(a, b));
    JoinIsNew(a, b);
    assert NestedHas(es0, b) by {
      assert es0[1..][0] == Nested(inner);
    }
    fam := Translate(a, es0).value;
  }

  /** The nested tree of `ClashExample`: well shaped, and compiling to `b`. */
  lemma ClashInner(b: string)
    requires DotFree(b)
    ensures ShapedEntries([Token("array"), Nested(RuleSet([Slot(b, [Token("integer")])]))])
    ensures ToRules(RuleSet([Slot(b, [Token("integer")])])).Ok?
    ensures b in ToRules(RuleSet([Slot(b, [Token("integer")])])).value.values
  {
    var inner := RuleSet([Slot(b, [Token("integer")])]);
    assert Shaped(inner) by {
      assert Keys(inner) == [b];
      ShapedEntriesTokens([Token("integer")]);
    }
    FlatToRules(inner);
    assert Keys(inner) == [b];
    var es0 := [Token("array"), Nested(inner)];
    assert ShapedEntries(es0) by {
      assert es0[1..][1..] == [];
    }
  }

  /** A key whose own path is already registered fails with `DuplicateKey`. */
  lemma {:induction false} ClashSecondSlot(reg: Registry, key: string, entries: seq<Entry>)
    requires reg.Valid() && key in reg.compiled.values
    requires entries != [] && entries[0].Token? && ChildrenCompile(entries)
    ensures CompileSlots([Slot(key, entries)], reg) == Err(DuplicateKey(key))
  {
    TranslateLaw(key, entries, key);
    TranslateOwnKeyFirst(key, entries);
    var fam := Translate(key, entries).value;
    assert Register(reg, key, fam.values[key]) == Err(DuplicateKey(key));
    assert RegisterKeys(reg, fam.keys, fam.values) == Err(DuplicateKey(key));
  }
}
