/** The schema side of `DataTransferRequest`: how each public property's
    declared type and rule attributes become entries of a rule tree
    (`reflectionTypeToValidationRule` and `getRuleSet`), with the rule tree
    memoised per request object.

    Reflection is replaced by descriptors: a field is its name, its declared
    type and the token lists of its rule attributes, in declaration order.
 */
module DataTransferRequests {
  import opened Errors
  import opened Paths
  import opened OrderedMaps
  import opened TokenLists
  import opened CompiledRuleSets
  import opened RuleSets
  import opened Flattening

  /** A declared property type, as reflection reports it. */
  datatype TypeDesc =
    | Absent
      /** A built-in named type such as `int` or `?string`. PHP reports
          `mixed` as allowing null, so a declaration never yields
          `Builtin("mixed", false)`; the model still accepts that value and
          maps it as the source would. */
    | Builtin(name: string, nullable: bool)
      /** A named type that is itself a transfer request, with that class's
          public properties. */
    | Dto(fields: seq<Field>, nullable: bool)
      /** Any other class or interface name. */
    | OtherNamed(name: string, nullable: bool)
    | Union(members: seq<TypeDesc>, nullable: bool)
      /** A type that is neither named nor a union (an intersection type). */
    | Other(nullable: bool)

  /** A public property: its name, its declared type and, per rule attribute,
      the tokens that attribute adds. */
  datatype Field = Field(name: string, ty: TypeDesc, attributes: seq<seq<string>>)

  /** What a type maps to: a token list, or the rule tree of a nested
      transfer request. */
  datatype Mapped = Tokens(tokens: seq<string>) | Schema(tree: RuleSet)

  /** The token of a built-in type name; names outside the table (`null`,
      `iterable`, ...) have none. */
  function BuiltinToken(name: string): (r: Option<string>)
    ensures r.Some? ==> r.value in {"integer", "string", "numeric", "array", "nullable", "boolean"}
  {
    match name
    case "int" => Some("integer")
    case "string" => Some("string")
    case "float" => Some("numeric")
    case "array" => Some("array")
    case "object" => Some("array")
    case "mixed" => Some("nullable")
    case "bool" => Some("boolean")
    case _ => None
  }

  /** `allowsNull()` of a present type. */
  function AllowsNull(t: TypeDesc): bool
    requires !t.Absent?
  {
    t.nullable
  }

  /** The argument `add` receives for a list of string tokens. */
  function Singles(ts: seq<string>): (r: seq<Rules>)
    ensures |r| == |ts|
    ensures forall i :: 0 <= i < |ts| ==> r[i] == Single(ts[i])
  {
    seq(|ts|, i requires 0 <= i < |ts| => Single(ts[i]))
  }

  /** The argument `add` receives for a mapped type. */
  function AsRules(m: Mapped): Rules {
    match m
    case Tokens(ts) => Many(Singles(ts))
    case Schema(t) => Tree(t)
  }

  /** `reflectionTypeToValidationRule`. */
  function TypeRules(t: TypeDesc): (r: Result<Mapped>)
    decreases t
    ensures t.Absent? ==> r == Ok(Tokens([]))
    ensures t.Builtin? ==> (r.Ok? <==> BuiltinToken(t.name).Some?)
    ensures t.Builtin? && r.Ok? ==>
      r.value == Tokens([BuiltinToken(t.name).value, if t.nullable then "nullable" else "required"])
    ensures t.Builtin? && r.Err? ==> r.error == UnsupportedBuiltin(t.name)
    ensures t.Dto? ==> (r.Ok? <==> BuildFields(NewRuleSet(), t.fields).Ok?)
    ensures t.Dto? && r.Ok? ==> r.value == Schema(BuildFields(NewRuleSet(), t.fields).value)
    ensures t.OtherNamed? ==> r == Ok(Tokens(["array"]))
    ensures t.Union? ==> (r.Ok? <==> UnionRules(t.members).Ok?)
    ensures t.Union? && r.Ok? ==> r.value == Tokens(UnionRules(t.members).value)
    ensures t.Union? && r.Err? ==> r.error == UnionRules(t.members).error
    ensures t.Other? ==> r == Ok(Tokens([""]))
  {
    match t
    case Absent => Ok(Tokens([]))
    case Builtin(name, nullable) =>
      var token := BuiltinToken(name);
      if token.None? then Err(UnsupportedBuiltin(name))
      else Ok(Tokens([token.value, if nullable then "nullable" else "required"]))
    case Dto(fields, _) =>
      var tree :- BuildFields(NewRuleSet(), fields);
      Ok(Schema(tree))
    case OtherNamed(_, _) => Ok(Tokens(["array"]))
    case Union(members, _) =>
      var tokens :- UnionRules(members);
      Ok(Tokens(tokens))
    case Other(_) => Ok(Tokens([""]))
  }

  /** The `flatMap` over a union's members: their token lists concatenated
      in member order; a member that maps to a rule tree is an error. */
  function UnionRules(members: seq<TypeDesc>): (r: Result<seq<string>>)
    decreases members
  {
    if members == [] then Ok([])
    else
      var first :- TypeRules(members[0]);
      if first.Schema? then Err(NestedInUnion)
      else
        var rest :- UnionRules(members[1..]);
        Ok(first.tokens + rest)
  }

  /** The body of `getRuleSet` for a fresh request: each field added in
      declaration order to a new rule tree. */
  function BuildRuleSet(fields: seq<Field>): (r: Result<RuleSet>)
    ensures r.Ok? ==> WellFormed(r.value)
  {
    BuildFields(NewRuleSet(), fields)
  }

  function BuildFields(rs: RuleSet, fields: seq<Field>): (r: Result<RuleSet>)
    decreases fields
    ensures r.Ok? && WellFormed(rs) ==> WellFormed(r.value)
  {
    if fields == [] then Ok(rs)
    else
      var next :- AddField(rs, fields[0]);
      BuildFields(next, fields[1..])
  }

  /** One iteration of the `foreach` in `getRuleSet`: the type's rules, then
      `nullable` when the type allows null, then each attribute's tokens. A
      property without a declared type fails at `allowsNull()`. */
  function AddField(rs: RuleSet, f: Field): (r: Result<RuleSet>)
    decreases f
    ensures r.Err? <==> f.ty.Absent? || TypeRules(f.ty).Err?
    ensures f.ty.Absent? ==> r == Err(MissingType(f.name))
    ensures !f.ty.Absent? && TypeRules(f.ty).Err? ==> r == Err(TypeRules(f.ty).error)
    ensures r.Ok? ==> Entries(r.value, f.name) == Entries(rs, f.name) + FieldEntries(f, TypeRules(f.ty).value)
    ensures r.Ok? ==> forall k :: k != f.name ==> Entries(r.value, k) == Entries(rs, k)
    ensures r.Ok? ==>
      Keys(r.value) == Keys(rs) + (if f.name !in Keys(rs) && FieldEntries(f, TypeRules(f.ty).value) != [] then [f.name] else [])
    ensures r.Ok? && WellFormed(rs) ==> WellFormed(r.value)
  {
    if f.ty.Absent? then Err(MissingType(f.name))
    else
      var m :- TypeRules(f.ty);
      var typed := Add(rs, f.name, AsRules(m));
      var withNull := if AllowsNull(f.ty) then Add(typed, f.name, Single("nullable")) else typed;
      var r := AddAttributes(withNull, f.name, f.attributes);
      var nullEntries := if AllowsNull(f.ty) then [Token("nullable")] else [];
      AppendsCompose(rs, typed, withNull, f.name, Expand(AsRules(m)), nullEntries);
      AppendsCompose(rs, withNull, r, f.name, Expand(AsRules(m)) + nullEntries, AttributeEntries(f.attributes));
      Ok(r)
  }

  /** The entries one property contributes under its name: what `add` makes
      of its mapped type, then `nullable` when the type allows null, then
      the attribute tokens. */
  function FieldEntries(f: Field, m: Mapped): seq<Entry>
    requires !f.ty.Absent?
  {
    Expand(AsRules(m)) + (if AllowsNull(f.ty) then [Token("nullable")] else []) + AttributeEntries(f.attributes)
  }

  /** The inner `foreach` over the rule attributes. */
  function AddAttributes(rs: RuleSet, name: string, attributes: seq<seq<string>>): (r: RuleSet)
    decreases attributes
    ensures Entries(r, name) == Entries(rs, name) + AttributeEntries(attributes)
    ensures forall k :: k != name ==> Entries(r, k) == Entries(rs, k)
    ensures Keys(r) == Keys(rs) + (if name !in Keys(rs) && AttributeEntries(attributes) != [] then [name] else [])
    ensures WellFormed(rs) ==> WellFormed(r)
  {
    if attributes == [] then rs
    else
      var first := Add(rs, name, Many(Singles(attributes[0])));
      ExpandSingles(attributes[0]);
      var r := AddAttributes(first, name, attributes[1..]);
      AppendsCompose(rs, first, r, name, TokenEntries(attributes[0]), AttributeEntries(attributes[1..]));
      r
  }

  /** Tokens as entries. */
  function TokenEntries(ts: seq<string>): (r: seq<Entry>)
    ensures |r| == |ts|
    ensures forall i :: 0 <= i < |ts| ==> r[i] == Token(ts[i])
  {
    seq(|ts|, i requires 0 <= i < |ts| => Token(ts[i]))
  }

  /** The entries the rule attributes contribute, attribute by attribute. */
  function AttributeEntries(attributes: seq<seq<string>>): seq<Entry> {
    if attributes == [] then [] else TokenEntries(attributes[0]) + AttributeEntries(attributes[1..])
  }

  /** The tokens the rule attributes contribute. */
  function AttributeTokens(attributes: seq<seq<string>>): seq<string> {
    if attributes == [] then [] else attributes[0] + AttributeTokens(attributes[1..])
  }

  /** Adding a list of strings appends them as tokens, in order. */
  lemma {:induction false} ExpandSingles(ts: seq<string>)
    ensures ExpandEach(Singles(ts)) == TokenEntries(ts)
    decreases ts
  {
    if ts != [] {
      ExpandSingles(ts[1..]);
      assert Singles(ts)[1..] == Singles(ts[1..]);
      assert TokenEntries(ts) == [Token(ts[0])] + TokenEntries(ts[1..]);
    }
  }

  /** The token entries of a list carry exactly that list. */
  lemma {:induction false} TokensOfTokenEntries(ts: seq<string>)
    ensures TokensOf(TokenEntries(ts)) == ts
    decreases ts
  {
    if ts != [] {
      TokensOfTokenEntries(ts[1..]);
      assert TokenEntries(ts)[1..] == TokenEntries(ts[1..]);
    }
  }

  /** The attribute entries carry the attribute tokens, in order. */
  lemma {:induction false} TokensOfAttributeEntries(attributes: seq<seq<string>>)
    ensures TokensOf(AttributeEntries(attributes)) == AttributeTokens(attributes)
    decreases attributes
  {
    if attributes != [] {
      TokensOfAttributeEntries(attributes[1..]);
      TokensOfTokenEntries(attributes[0]);
      TokensOfConcat(TokenEntries(attributes[0]), AttributeEntries(attributes[1..]));
    }
  }

  /** Every property name is a plain name without a dot, here and in every
      nested transfer request. */
  ghost predicate PropertyNames(fields: seq<Field>)
    decreases fields
  {
    forall i :: 0 <= i < |fields| ==> DotFree(fields[i].name) && PropertyTypeNames(fields[i].ty)
  }

  ghost predicate PropertyTypeNames(t: TypeDesc)
    decreases t
  {
    t.Dto? ==> PropertyNames(t.fields)
  }

  /** The entries a field adds: those of its mapped type, `nullable`, and its
      attribute tokens, when the field maps without error. */
  ghost function Contributed(f: Field): seq<Entry> {
    if f.ty.Absent? || TypeRules(f.ty).Err? then [] else FieldEntries(f, TypeRules(f.ty).value)
  }

  /** The entries all fields named `k` add, in declaration order. */
  ghost function ContributedUnder(fields: seq<Field>, k: string): seq<Entry> {
    if fields == [] then []
    else (if fields[0].name == k then Contributed(fields[0]) else []) + ContributedUnder(fields[1..], k)
  }

  /** `getRuleSet` succeeds exactly when every property has a declared type
      that maps without error. */
  lemma {:induction false} BuildFieldsOk(rs: RuleSet, fields: seq<Field>)
    ensures BuildFields(rs, fields).Ok? <==>
      forall i :: 0 <= i < |fields| ==> !fields[i].ty.Absent? && TypeRules(fields[i].ty).Ok?
    decreases fields
  {
    if fields != [] {
      if AddField(rs, fields[0]).Ok? {
        var next := ProgressStep(rs, fields);
        BuildFieldsOk(next, fields[1..]);
        TypedCons(fields);
      } else {
        assert BuildFields(rs, fields).Err?;
      }
    }
  }

  lemma TypedCons(fields: seq<Field>)
    requires fields != []
    ensures (forall i :: 0 <= i < |fields| ==> !fields[i].ty.Absent? && TypeRules(fields[i].ty).Ok?) <==>
      (!fields[0].ty.Absent? && TypeRules(fields[0].ty).Ok? &&
       forall i :: 0 <= i < |fields[1..]| ==> !fields[1..][i].ty.Absent? && TypeRules(fields[1..][i].ty).Ok?)
  {
    assert forall i :: 1 <= i < |fields| ==> fields[i] == fields[1..][i - 1];
  }

  /** Each name's entries are the entries of the fields with that name, in
      declaration order, after those already present. */
  lemma {:induction false} BuildFieldsEntries(rs: RuleSet, fields: seq<Field>, k: string)
    ensures BuildFields(rs, fields).Ok? ==>
      Entries(BuildFields(rs, fields).value, k) == Entries(rs, k) + ContributedUnder(fields, k)
    decreases fields
  {
    if fields != [] && BuildFields(rs, fields).Ok? {
      var own := if fields[0].name == k then Contributed(fields[0]) else [];
      var next := BuildFieldsStep(rs, fields, k);
      BuildFieldsEntries(next, fields[1..], k);
      ContributedUnderStep(fields, k);
      calc {
        Entries(BuildFields(rs, fields).value, k);
        Entries(BuildFields(next, fields[1..]).value, k);
        Entries(next, k) + ContributedUnder(fields[1..], k);
        (Entries(rs, k) + own) + ContributedUnder(fields[1..], k);
        { ConcatAssoc(Entries(rs, k), own, ContributedUnder(fields[1..], k)); }
        Entries(rs, k) + (own + ContributedUnder(fields[1..], k));
      }
    }
  }

  lemma ConcatAssoc(a: seq<Entry>, b: seq<Entry>, c: seq<Entry>)
    ensures (a + b) + c == a + (b + c)
  {
  }

  /** One step of the build: the first property is added, and its entries
      land under its own name only. */
  lemma BuildFieldsStep(rs: RuleSet, fields: seq<Field>, k: string) returns (next: RuleSet)
    requires fields != [] && BuildFields(rs, fields).Ok?
    ensures BuildFields(rs, fields) == BuildFields(next, fields[1..])
    ensures Entries(next, k) == Entries(rs, k) + (if fields[0].name == k then Contributed(fields[0]) else [])
  {
    next := AddField(rs, fields[0]).value;
  }

  lemma ContributedUnderStep(fields: seq<Field>, k: string)
    requires fields != []
    ensures ContributedUnder(fields, k) == (if fields[0].name == k then Contributed(fields[0]) else []) + ContributedUnder(fields[1..], k)
  {
  }

  /** With distinct property names, a property's entries in the rule tree are
      exactly the ones it contributes. */
  lemma {:induction false} ContributedUnderDistinct(fields: seq<Field>, i: nat)
    requires i < |fields|
    requires forall a, b :: 0 <= a < b < |fields| ==> fields[a].name != fields[b].name
    ensures ContributedUnder(fields, fields[i].name) == Contributed(fields[i])
    decreases fields
  {
    if i == 0 {
      ContributedUnderAbsent(fields[1..], fields[0].name);
    } else {
      ContributedUnderDistinct(fields[1..], i - 1);
    }
  }

  lemma {:induction false} ContributedUnderAbsent(fields: seq<Field>, k: string)
    requires forall a :: 0 <= a < |fields| ==> fields[a].name != k
    ensures ContributedUnder(fields, k) == []
    decreases fields
  {
    if fields != [] {
      ContributedUnderAbsent(fields[1..], k);
    }
  }

  /** The rule tree of a request with distinct property names gives each
      property the entries it contributes. */
  lemma RuleSetEntries(fields: seq<Field>, i: nat)
    requires i < |fields|
    requires forall a, b :: 0 <= a < b < |fields| ==> fields[a].name != fields[b].name
    requires BuildRuleSet(fields).Ok?
    ensures Entries(BuildRuleSet(fields).value, fields[i].name) == Contributed(fields[i])
  {
    BuildFieldsEntries(NewRuleSet(), fields, fields[i].name);
    ContributedUnderDistinct(fields, i);
  }

  /** The rule tree of a request whose property names have no dots is one
      `toRules` always compiles. */
  lemma {:induction false} BuildFieldsShaped(rs: RuleSet, fields: seq<Field>)
    requires ShapedByKeys(rs)
    requires PropertyNames(fields)
    requires BuildFields(rs, fields).Ok?
    ensures ShapedByKeys(BuildFields(rs, fields).value)
    decreases fields
  {
    if fields != [] {
      var f := fields[0];
      var next := AddField(rs, f).value;
      FieldEntriesShaped(f);
      forall k | k in Keys(next)
        ensures DotFree(k) && ShapedEntries(Entries(next, k))
      {
        if k == f.name {
          ShapedEntriesConcat(Entries(rs, k), FieldEntries(f, TypeRules(f.ty).value));
        }
      }
      assert PropertyNames(fields[1..]) by {
        forall i | 0 <= i < |fields[1..]|
          ensures DotFree(fields[1..][i].name) && PropertyTypeNames(fields[1..][i].ty)
        {
          assert fields[1..][i] == fields[i + 1];
        }
      }
      BuildFieldsShaped(next, fields[1..]);
    }
  }

  lemma {:induction false} FieldEntriesShaped(f: Field)
    requires DotFree(f.name) && PropertyTypeNames(f.ty)
    requires !f.ty.Absent? && TypeRules(f.ty).Ok?
    ensures ShapedEntries(FieldEntries(f, TypeRules(f.ty).value))
    decreases f
  {
    var m := TypeRules(f.ty).value;
    var tail := (if AllowsNull(f.ty) then [Token("nullable")] else []) + AttributeEntries(f.attributes);
    AttributeEntriesTokens(f.attributes);
    ShapedEntriesTokens(tail);
    assert FieldEntries(f, m) == Expand(AsRules(m)) + tail;
    if m.Schema? {
      var empty := NewRuleSet();
      BuildFieldsShaped(empty, f.ty.fields);
      ShapedByKeysShaped(m.tree);
      assert ShapedEntries([Nested(m.tree)]);
      assert Expand(AsRules(m)) == [Token("array")] + [Nested(m.tree)];
      ShapedEntriesConcat([Token("array")], [Nested(m.tree)]);
    } else {
      ExpandSingles(m.tokens);
      ShapedEntriesTokens(Expand(AsRules(m)));
    }
    ShapedEntriesConcat(Expand(AsRules(m)), tail);
  }

  /** Attribute entries are all tokens. */
  lemma {:induction false} AttributeEntriesTokens(attributes: seq<seq<string>>)
    ensures forall i :: 0 <= i < |AttributeEntries(attributes)| ==> AttributeEntries(attributes)[i].Token?
    decreases attributes
  {
    if attributes != [] {
      AttributeEntriesTokens(attributes[1..]);
    }
  }

  /** A request whose property names have no dots compiles. */
  lemma RequestCompiles(fields: seq<Field>)
    requires PropertyNames(fields)
    requires BuildRuleSet(fields).Ok?
    ensures Shaped(BuildRuleSet(fields).value)
    ensures ToRules(BuildRuleSet(fields).value).Ok?
  {
    var empty := NewRuleSet();
    BuildFieldsShaped(empty, fields);
    ShapedByKeysShaped(BuildRuleSet(fields).value);
    ShapedCompiles(BuildRuleSet(fields).value);
  }

  /** A union of one member maps like that member, when it maps to tokens. */
  lemma UnionSingle(t: TypeDesc)
    requires TypeRules(t).Ok? && TypeRules(t).value.Tokens?
    ensures UnionRules([t]) == Ok(TypeRules(t).value.tokens)
  {
    assert [t][1..] == [];
    assert UnionRules([]) == Ok([]);
    assert TypeRules(t).value.tokens + [] == TypeRules(t).value.tokens;
  }

  /** Splitting a union's members splits its tokens: the union maps without
      error exactly when both parts do, to the concatenation of their
      tokens. */
  lemma {:induction false} UnionConcat(a: seq<TypeDesc>, b: seq<TypeDesc>)
    ensures UnionRules(a + b).Ok? <==> UnionRules(a).Ok? && UnionRules(b).Ok?
    ensures UnionRules(a + b).Ok? ==> UnionRules(a + b).value == UnionRules(a).value + UnionRules(b).value
    decreases a
  {
    if a == [] {
      assert a + b == b;
    } else {
      assert (a + b)[0] == a[0];
      assert (a + b)[1..] == a[1..] + b;
      UnionConcat(a[1..], b);
    }
  }

  /** A union maps without error exactly when each member maps to tokens. */
  lemma {:induction false} UnionOkMemberwise(members: seq<TypeDesc>)
    ensures UnionRules(members).Ok? <==>
      forall i :: 0 <= i < |members| ==> TypeRules(members[i]).Ok? && TypeRules(members[i]).value.Tokens?
    decreases members
  {
    if members != [] {
      UnionOkMemberwise(members[1..]);
      assert forall i :: 1 <= i < |members| ==> members[i] == members[1..][i - 1];
    }
  }

  /** A nested transfer request inside a union is an error. */
  lemma UnionWithRequest(members: seq<TypeDesc>, i: nat)
    requires i < |members| && members[i].Dto?
    ensures UnionRules(members).Err?
  {
    UnionOkMemberwise(members);
  }

  /** A built-in scalar maps to its table token followed by exactly one of
      `nullable` and `required`, and `required` appears exactly when the type
      does not allow null. */
  lemma BuiltinRequiredness(t: TypeDesc)
    requires t.Builtin? && TypeRules(t).Ok?
    ensures |TypeRules(t).value.tokens| == 2
    ensures "required" in TypeRules(t).value.tokens <==> !AllowsNull(t)
    ensures "nullable" in TypeRules(t).value.tokens <==> AllowsNull(t) || t.name == "mixed"
  {
  }

  /** The tokens a property contributes under its own name, written out
      independently of the entry list: the mapped tokens (or `array` for a
      nested request), `nullable` when the type allows null, then the
      attribute tokens. */
  ghost function OwnTokens(f: Field): seq<string>
    requires !f.ty.Absent? && TypeRules(f.ty).Ok?
  {
    var m := TypeRules(f.ty).value;
    (if m.Tokens? then m.tokens else ["array"])
      + (if f.ty.nullable then ["nullable"] else [])
      + AttributeTokens(f.attributes)
  }

  /** The tokens among a property's entries are its `OwnTokens`. */
  lemma OwnTokensOfEntries(f: Field)
    requires !f.ty.Absent? && TypeRules(f.ty).Ok?
    ensures TokensOf(Contributed(f)) == OwnTokens(f)
  {
    var m := TypeRules(f.ty).value;
    assert Contributed(f) == FieldEntries(f, m);
    FieldEntriesTokens(f, m);
  }

  /** The tokens among the entries one mapped type and its attributes add. */
  lemma FieldEntriesTokens(f: Field, m: Mapped)
    requires !f.ty.Absent?
    ensures TokensOf(FieldEntries(f, m)) ==
      (if m.Tokens? then m.tokens else ["array"])
        + (if f.ty.nullable then ["nullable"] else [])
        + AttributeTokens(f.attributes)
  {
    var e := Expand(AsRules(m));
    var n := if AllowsNull(f.ty) then [Token("nullable")] else [];
    var a := AttributeEntries(f.attributes);
    TokensOfConcat(e + n, a);
    TokensOfConcat(e, n);
    TokensOfAttributeEntries(f.attributes);
    MappedTokens(m);
    assert TokensOf(n) == (if f.ty.nullable then ["nullable"] else []);
  }

  /** The tokens among the entries a mapped type adds: its own tokens, or
      `array` for a nested schema. */
  lemma MappedTokens(m: Mapped)
    ensures TokensOf(Expand(AsRules(m))) == if m.Tokens? then m.tokens else ["array"]
  {
    if m.Tokens? {
      ExpandSingles(m.tokens);
      TokensOfTokenEntries(m.tokens);
    } else {
      var es := [Token("array"), Nested(m.tree)];
      assert Expand(AsRules(m)) == es;
      assert es[1..][1..] == [];
      assert TokensOf(es[1..]) == [];
    }
  }

  /** `getRuleSet()->toRules()` for a fresh request. */
  function RequestRules(fields: seq<Field>): (r: Result<OrderedMap<seq<string>>>)
    ensures r.Ok? ==> r.value.Valid()
  {
    var rs :- BuildRuleSet(fields);
    ToRules(rs)
  }

  /** Property names without dots, distinct at the top level. */
  ghost predicate PlainProperties(fields: seq<Field>) {
    && PropertyNames(fields)
    && (forall a, b :: 0 <= a < b < |fields| ==> fields[a].name != fields[b].name)
  }

  /** Compiling a request fails only where building its rule tree fails:
      with plain property names, no path is ever registered twice. */
  lemma RequestRulesOk(fields: seq<Field>)
    requires PropertyNames(fields)
    ensures RequestRules(fields).Ok? <==> BuildRuleSet(fields).Ok?
  {
    if BuildRuleSet(fields).Ok? {
      RequestCompiles(fields);
    }
  }

  /** A property's own path: present exactly when the property contributes
      something, holding its tokens with repeats dropped. */
  lemma PropertyPath(fields: seq<Field>, i: nat)
    requires PlainProperties(fields)
    requires i < |fields|
    requires RequestRules(fields).Ok?
    ensures !fields[i].ty.Absent? && TypeRules(fields[i].ty).Ok?
    ensures fields[i].name in RequestRules(fields).value.values <==> Contributed(fields[i]) != []
    ensures Contributed(fields[i]) != [] ==>
      RequestRules(fields).value.values[fields[i].name] == Deduplicate(OwnTokens(fields[i]))
  {
    var f := fields[i];
    var rs := BuildRuleSet(fields).value;
    BuildFieldsOk(NewRuleSet(), fields);
    RequestCompiles(fields);
    RuleSetEntries(fields, i);
    OwnTokensOfEntries(f);
    OwnPath(rs, f.name);
  }

  /** In a compiled tree, a dot-free key's own path exists exactly when the
      key has entries, and holds their tokens with repeats dropped. */
  lemma OwnPath(rs: RuleSet, k: string)
    requires Shaped(rs) && WellFormed(rs) && DotFree(k)
    ensures ToRules(rs).Ok?
    ensures k in ToRules(rs).value.values <==> Entries(rs, k) != []
    ensures Entries(rs, k) != [] ==> ToRules(rs).value.values[k] == Deduplicate(TokensOf(Entries(rs, k)))
  {
    ShapedCompiles(rs);
    var out := ToRules(rs).value.values;
    if k in out {
      var j := ToRulesOrigin(rs, k);
      assert Keys(rs)[j] == k;
    }
    if k in Keys(rs) {
      var j := SlotIndex(rs, k).value;
      EntriesOfSlot(rs, j);
      ToRulesAt(rs, j, "");
    }
  }

  /** The nested paths of a property typed as a transfer request are those
      of that request's own compiled rules. */
  lemma NestedOfSchema(tree: RuleSet, tail: seq<Entry>, sub: string)
    requires forall i :: 0 <= i < |tail| ==> tail[i].Token?
    ensures NestedHas([Token("array"), Nested(tree)] + tail, sub) <==>
      ToRules(tree).Ok? && sub in ToRules(tree).value.values
    ensures NestedConcat([Token("array"), Nested(tree)] + tail, sub) == NestedPart(Nested(tree), sub)
  {
    var es := [Token("array"), Nested(tree)] + tail;
    assert es[1..][1..] == tail;
    NestedOfTokens(tail, sub);
    assert NestedConcat(es[1..], sub) == NestedPart(Nested(tree), sub) + [];
  }

  /** A property typed as a transfer request contributes `array`, that
      request's rule tree, and then tokens only. */
  lemma SchemaContribution(f: Field) returns (tail: seq<Entry>)
    requires f.ty.Dto? && TypeRules(f.ty).Ok?
    ensures forall i :: 0 <= i < |tail| ==> tail[i].Token?
    ensures Contributed(f) == [Token("array"), Nested(TypeRules(f.ty).value.tree)] + tail
    ensures TypeRules(f.ty).value.tree == BuildRuleSet(f.ty.fields).value
    ensures "nullable" in TokensOf(Contributed(f)) <==> f.ty.nullable || "nullable" in AttributeTokens(f.attributes)
  {
    OwnTokensOfEntries(f);
    var nulls := if AllowsNull(f.ty) then [Token("nullable")] else [];
    tail := nulls + AttributeEntries(f.attributes);
    AttributeEntriesTokens(f.attributes);
    assert Expand(AsRules(TypeRules(f.ty).value)) == [Token("array"), Nested(TypeRules(f.ty).value.tree)];
  }

  /** One slot of a compiled tree whose entries are `array`, a nested tree
      and tokens: its direct child paths are the nested tree's paths, with
      the `required_with` rewrite when the slot's tokens hold `nullable`. */
  lemma SchemaSlotPaths(rs: RuleSet, k: nat, tree: RuleSet, tail: seq<Entry>, sub: string)
    requires Shaped(rs) && k < |rs.slots|
    requires forall i :: 0 <= i < |tail| ==> tail[i].Token?
    requires rs.slots[k].entries == [Token("array"), Nested(tree)] + tail
    requires ToRules(tree).Ok?
    ensures ToRules(rs).Ok?
    ensures
      var out := ToRules(rs).value.values;
      var inner := ToRules(tree).value.values;
      var key := rs.slots[k].key;
      && (Join(key, sub) in out <==> sub in inner)
      && (DotFree(sub) && sub in inner ==>
            out[Join(key, sub)] ==
              var d := Deduplicate(inner[sub]);
              if "nullable" in TokensOf(rs.slots[k].entries) then ReplaceValue("required", RequiredWith(key), d) else d)
  {
    NestedOfSchema(tree, tail, sub);
    ToRulesAt(rs, k, sub);
  }

  /** The `required_with` rewrite across one level of nesting: a path
      `outer.inner` holds the inner property's tokens without repeats, and
      its first `required` becomes `required_with:outer` exactly when the
      outer property's own list contains `nullable` (its type allows null,
      or an attribute adds `nullable`). */
  lemma NestedPropertyPath(fields: seq<Field>, i: nat, j: nat)
    requires PlainProperties(fields)
    requires i < |fields| && fields[i].ty.Dto?
    requires PlainProperties(fields[i].ty.fields)
    requires j < |fields[i].ty.fields|
    requires RequestRules(fields).Ok?
    ensures !fields[i].ty.fields[j].ty.Absent? && TypeRules(fields[i].ty.fields[j].ty).Ok?
    ensures
      var f := fields[i];
      var g := f.ty.fields[j];
      var out := RequestRules(fields).value.values;
      && (Join(f.name, g.name) in out <==> Contributed(g) != [])
      && (Contributed(g) != [] ==>
            out[Join(f.name, g.name)] ==
              var d := Deduplicate(OwnTokens(g));
              if f.ty.nullable || "nullable" in AttributeTokens(f.attributes)
              then ReplaceValue("required", RequiredWith(f.name), d)
              else d)
  {
    var f := fields[i];
    var gs := f.ty.fields;
    var g := gs[j];
    var k, tail := SchemaSlot(fields, i);
    var rs := BuildRuleSet(fields).value;
    var tree := BuildRuleSet(gs).value;
    RequestCompiles(gs);
    PropertyPath(gs, j);
    SchemaSlotPaths(rs, k, tree, tail, g.name);
    if Contributed(g) != [] {
      DeduplicateIdempotent(OwnTokens(g));
    }
  }

  /** Paths two or more levels deep: a property typed as a transfer request
      passes on that request's compiled paths under its own name, and a list
      the nested compilation left without `required` (a `required` already
      rewritten to `required_with:<inner>`, say) keeps its tokens, without
      repeats. The rewrite is therefore relative to the schema that compiled
      it. */
  lemma DeepPropertyPath(fields: seq<Field>, i: nat, sub: string)
    requires PlainProperties(fields)
    requires i < |fields| && fields[i].ty.Dto?
    requires RequestRules(fields).Ok?
    ensures RequestRules(fields[i].ty.fields).Ok?
    ensures
      var out := RequestRules(fields).value.values;
      var inner := RequestRules(fields[i].ty.fields).value.values;
      var name := fields[i].name;
      && (Join(name, sub) in out <==> sub in inner)
      && (sub in inner && "required" !in inner[sub] ==> out[Join(name, sub)] == Deduplicate(inner[sub]))
  {
    var k, tail := SchemaSlot(fields, i);
    DeepSlot(fields, i, k, tail, sub);
  }

  lemma DeepSlot(fields: seq<Field>, i: nat, k: nat, tail: seq<Entry>, sub: string)
    requires PlainProperties(fields)
    requires i < |fields| && fields[i].ty.Dto?
    requires RequestRules(fields).Ok?
    requires Shaped(BuildRuleSet(fields).value)
    requires BuildRuleSet(fields[i].ty.fields).Ok?
    requires
      var rs := BuildRuleSet(fields).value;
      && k < |rs.slots|
      && rs.slots[k].key == fields[i].name
      && (forall n :: 0 <= n < |tail| ==> tail[n].Token?)
      && rs.slots[k].entries == [Token("array"), Nested(BuildRuleSet(fields[i].ty.fields).value)] + tail
    ensures RequestRules(fields[i].ty.fields).Ok?
    ensures
      var out := RequestRules(fields).value.values;
      var inner := RequestRules(fields[i].ty.fields).value.values;
      var name := fields[i].name;
      && (Join(name, sub) in out <==> sub in inner)
      && (sub in inner && "required" !in inner[sub] ==> out[Join(name, sub)] == Deduplicate(inner[sub]))
  {
    var rs := BuildRuleSet(fields).value;
    var tree := BuildRuleSet(fields[i].ty.fields).value;
    assert PropertyTypeNames(fields[i].ty);
    RequestCompiles(fields[i].ty.fields);
    NestedOfSchema(tree, tail, sub);
    SchemaSlotPaths(rs, k, tree, tail, sub);
    if sub in ToRules(tree).value.values && "required" !in ToRules(tree).value.values[sub] {
      ToRulesDeep(rs, k, sub);
    }
  }

  /** Where a property typed as a transfer request sits in its request's
      rule tree, and what its slot holds. */
  lemma SchemaSlot(fields: seq<Field>, i: nat) returns (k: nat, tail: seq<Entry>)
    requires PlainProperties(fields)
    requires i < |fields| && fields[i].ty.Dto?
    requires RequestRules(fields).Ok?
    ensures Shaped(BuildRuleSet(fields).value)
    ensures BuildRuleSet(fields[i].ty.fields).Ok?
    ensures
      var rs := BuildRuleSet(fields).value;
      var f := fields[i];
      && k < |rs.slots|
      && rs.slots[k].key == f.name
      && (forall n :: 0 <= n < |tail| ==> tail[n].Token?)
      && rs.slots[k].entries == [Token("array"), Nested(BuildRuleSet(f.ty.fields).value)] + tail
      && ("nullable" in TokensOf(rs.slots[k].entries) <==> f.ty.nullable || "nullable" in AttributeTokens(f.attributes))
  {
    var f := fields[i];
    var rs := BuildRuleSet(fields).value;
    BuildFieldsOk(NewRuleSet(), fields);
    RequestCompiles(fields);
    RuleSetEntries(fields, i);
    tail := SchemaContribution(f);
    k := SlotIndex(rs, f.name).value;
    EntriesOfSlot(rs, k);
  }

  /** A request object: its public properties and the rule tree memoised in
      its `ruleSet` property, if any. */
  datatype Request = Request(fields: seq<Field>, cache: Option<RuleSet>)

  /** The tree the `foreach` of `getRuleSet` has built when it stops: all of
      it on success, and on failure everything added before the failing
      property (that property adds nothing before it fails). */
  function Progress(rs: RuleSet, fields: seq<Field>): (r: RuleSet)
    decreases fields
  {
    if fields == [] then rs
    else
      var next := AddField(rs, fields[0]);
      if next.Err? then rs else Progress(next.value, fields[1..])
  }

  /** On success the tree where the loop stops is the built tree. */
  lemma {:induction false} ProgressOfOk(rs: RuleSet, fields: seq<Field>)
    ensures BuildFields(rs, fields).Ok? ==> Progress(rs, fields) == BuildFields(rs, fields).value
    decreases fields
  {
    if fields != [] && BuildFields(rs, fields).Ok? {
      ProgressOfOk(AddField(rs, fields[0]).value, fields[1..]);
    }
  }

  /** On failure the loop stops after a prefix of the properties, all of
      which were added. */
  lemma {:induction false} ProgressOfErr(rs: RuleSet, fields: seq<Field>) returns (n: nat)
    ensures BuildFields(rs, fields).Err? ==> n < |fields|
    ensures BuildFields(rs, fields).Err? ==> BuildFields(rs, fields[..n]).Ok?
    ensures BuildFields(rs, fields).Err? ==> Progress(rs, fields) == BuildFields(rs, fields[..n]).value
    ensures BuildFields(rs, fields).Err? ==>
      && AddField(Progress(rs, fields), fields[n]).Err?
      && BuildFields(rs, fields).error == AddField(Progress(rs, fields), fields[n]).error
    decreases fields
  {
    n := 0;
    if BuildFields(rs, fields).Err? {
      if AddField(rs, fields[0]).Err? {
        ProgressStopsHere(rs, fields);
      } else {
        var next := ProgressStep(rs, fields);
        var m := ProgressOfErr(next, fields[1..]);
        n := m + 1;
        ProgressShift(rs, fields, next, m);
      }
    }
  }

  /** Past a first property that was added, the prefixes and positions of
      the remaining properties are those of the whole list shifted by one. */
  lemma ProgressShift(rs: RuleSet, fields: seq<Field>, next: RuleSet, m: nat)
    requires fields != [] && AddField(rs, fields[0]) == Ok(next)
    requires m < |fields| - 1
    ensures BuildFields(rs, fields[..m + 1]) == BuildFields(next, fields[1..][..m])
    ensures fields[m + 1] == fields[1..][m]
  {
    PrefixShift(fields, m);
    var again := ProgressStep(rs, fields[..m + 1]);
  }

  lemma PrefixShift(fields: seq<Field>, m: nat)
    requires m < |fields| - 1
    ensures fields[..m + 1] != [] && fields[..m + 1][0] == fields[0]
    ensures fields[..m + 1][1..] == fields[1..][..m]
    ensures fields[m + 1] == fields[1..][m]
  {
  }

  lemma ProgressStopsHere(rs: RuleSet, fields: seq<Field>)
    requires fields != [] && AddField(rs, fields[0]).Err?
    ensures Progress(rs, fields) == rs
    ensures BuildFields(rs, fields) == Err(AddField(rs, fields[0]).error)
    ensures fields[..0] == [] && BuildFields(rs, fields[..0]) == Ok(rs)
  {
  }

  lemma ProgressStep(rs: RuleSet, fields: seq<Field>) returns (next: RuleSet)
    requires fields != [] && AddField(rs, fields[0]).Ok?
    ensures AddField(rs, fields[0]) == Ok(next)
    ensures Progress(rs, fields) == Progress(next, fields[1..])
    ensures BuildFields(rs, fields) == BuildFields(next, fields[1..])
  {
    next := AddField(rs, fields[0]).value;
  }

  /** `getRuleSet`: the memoised tree when there is one; otherwise the tree
      is built and stored first, so that on failure the partial tree stays
      stored. */
  function GetRuleSet(req: Request): (r: (Result<RuleSet>, Request))
    ensures r.1.fields == req.fields && r.1.cache.Some?
    ensures r.0.Ok? ==> r.1.cache == Some(r.0.value)
    ensures req.cache.None? ==> r.0 == BuildRuleSet(req.fields)
    ensures req.cache.Some? ==> r == (Ok(req.cache.value), req)
  {
    if req.cache.Some? then (Ok(req.cache.value), req)
    else
      var tree := Progress(NewRuleSet(), req.fields);
      var built := BuildRuleSet(req.fields);
      if built.Ok? then
        ProgressOfOk(NewRuleSet(), req.fields);
        (Ok(tree), req.(cache := Some(tree)))
      else (Err(built.error), req.(cache := Some(tree)))
  }

  /** The memo is sticky: a second call returns the same tree as the first
      successful one and changes nothing. */
  lemma GetRuleSetMemo(req: Request)
    requires GetRuleSet(req).0.Ok?
    ensures GetRuleSet(GetRuleSet(req).1) == (GetRuleSet(req).0, GetRuleSet(req).1)
  {
  }

  /** A request whose memo, if any, is the tree its properties build. */
  ghost predicate Coherent(req: Request) {
    req.cache.Some? ==> BuildRuleSet(req.fields) == Ok(req.cache.value)
  }

  /** On a coherent request `getRuleSet` answers like a fresh build and
      keeps the request coherent when it succeeds. */
  lemma GetRuleSetCoherent(req: Request)
    requires Coherent(req)
    ensures GetRuleSet(req).0 == BuildRuleSet(req.fields)
    ensures GetRuleSet(req).0.Ok? ==> Coherent(GetRuleSet(req).1)
  {
  }

  /** After a failed build the partial tree stays memoised: a second call
      succeeds with the properties added before the failing one. */
  lemma RetryAfterFailure(req: Request) returns (n: nat)
    requires req.cache.None?
    requires GetRuleSet(req).0.Err?
    ensures n < |req.fields|
    ensures GetRuleSet(GetRuleSet(req).1).0 == BuildRuleSet(req.fields[..n])
    ensures !Coherent(GetRuleSet(req).1)
  {
    n := ProgressOfErr(NewRuleSet(), req.fields);
  }
}
