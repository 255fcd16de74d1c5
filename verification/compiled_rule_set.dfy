/** The path registry (`CompiledRuleSet`): each dot-addressed path is
    registered once with its token list, which is deduplicated and, when the
    path's parent was registered as nullable, has its `required` token turned
    into the conditional `required_with:<parent>`.
 */
module CompiledRuleSets {
  import opened Errors
  import opened OrderedMaps
  import opened TokenLists
  import opened Paths

  /** The registry's two fields: the compiled rules in registration order and
      the list of registered paths whose tokens contain `nullable`. */
  datatype Registry = Registry(compiled: OrderedMap<seq<string>>, nullableKeys: seq<string>) {

    ghost predicate Valid() {
      && compiled.Valid()
      && (forall k :: k in nullableKeys ==> k in compiled.values)
    }
  }

  /** `new CompiledRuleSet()`. */
  function NewRegistry(): (r: Registry)
    ensures r.Valid()
    ensures r.compiled.keys == [] && r.compiled.values == map[]
    ensures r.nullableKeys == []
  {
    Registry(Empty(), [])
  }

  /** `getParentKey`: everything before the last dot, or nothing when the
      key has no dot. */
  function ParentKey(key: string): (r: Option<string>)
    ensures r.None? <==> DotFree(key)
    ensures r.Some? ==> |r.value| < |key|
    ensures r.Some? ==> key == Join(r.value, key[|r.value| + 1..])
    ensures r.Some? ==> DotFree(key[|r.value| + 1..])
  {
    var d := LastDot(key);
    if d.None? then None
    else
      assert key == key[..d.value] + "." + key[d.value + 1..];
      Some(key[..d.value])
  }

  /** The parent of `key.sub` is `key` whenever `sub` has no dot, whatever
      dots `key` itself holds. */
  lemma ParentOfJoin(key: string, sub: string)
    requires DotFree(sub)
    ensures ParentKey(Join(key, sub)) == Some(key)
  {
  }

  /** `isParentKeyNullable`: the key has a parent and that parent is in the
      nullable list. */
  predicate IsParentKeyNullable(nullableKeys: seq<string>, key: string) {
    ParentKey(key).Some? && ParentKey(key).value in nullableKeys
  }

  /** `replaceValueInArray`: overwrite the first occurrence of `original`,
      if any, with `replacement`. */
  function ReplaceValue(original: string, replacement: string, a: seq<string>): (r: seq<string>)
    ensures |r| == |a|
    ensures original !in a ==> r == a
    ensures original in a ==> r[FirstIndex(a, original)] == replacement
    ensures original in a ==>
      forall j :: 0 <= j < |a| && j != FirstIndex(a, original) ==> r[j] == a[j]
  {
    if a == [] then []
    else if a[0] == original then [replacement] + a[1..]
    else
      var rest := ReplaceValue(original, replacement, a[1..]);
      assert original in a ==> original in a[1..] && FirstIndex(a, original) == 1 + FirstIndex(a[1..], original);
      [a[0]] + rest
  }

  /** The conditional token that replaces `required` under a nullable parent. */
  function RequiredWith(parent: string): string {
    "required_with:" + parent
  }

  /** `defineRequirebility`: a `required` token becomes
      `required_with:<parent>`, in place, exactly when the parent path is
      already registered as nullable; every other list is kept as it is. */
  function DefineRequiredness(nullableKeys: seq<string>, key: string, rules: seq<string>): (r: seq<string>)
    ensures |r| == |rules|
    ensures !("required" in rules && IsParentKeyNullable(nullableKeys, key)) ==> r == rules
    ensures "required" in rules && IsParentKeyNullable(nullableKeys, key) ==>
      r == rules[FirstIndex(rules, "required") := RequiredWith(ParentKey(key).value)]
  {
    if "required" !in rules then rules
    else if IsParentKeyNullable(nullableKeys, key) then
      ReplaceValue("required", RequiredWith(ParentKey(key).value), rules)
    else rules
  }

  /** The rewrite never adds or removes `nullable`. */
  lemma NullableSurvivesRewrite(nullableKeys: seq<string>, key: string, rules: seq<string>)
    ensures "nullable" in DefineRequiredness(nullableKeys, key, rules) <==> "nullable" in rules
  {
    var r := DefineRequiredness(nullableKeys, key, rules);
    if "required" in rules && IsParentKeyNullable(nullableKeys, key) {
      var i := FirstIndex(rules, "required");
      assert RequiredWith(ParentKey(key).value)[..9] == "required_";
      if "nullable" in rules {
        var j :| 0 <= j < |rules| && rules[j] == "nullable";
        assert r[j] == "nullable";
      }
    }
  }

  /** The tokens `register` stores for `key`. */
  function Stored(nullableKeys: seq<string>, key: string, rules: seq<string>): seq<string> {
    DefineRequiredness(nullableKeys, key, Deduplicate(rules))
  }

  /** The stored list of a direct child path `key.sub`: its tokens without
      repeats, with the first `required` turned into `required_with:<key>`
      exactly when `key` is in the nullable list. */
  lemma StoredUnderParent(nullableKeys: seq<string>, key: string, sub: string, rules: seq<string>)
    requires DotFree(sub)
    ensures Stored(nullableKeys, Join(key, sub), rules) ==
      if key in nullableKeys then ReplaceValue("required", RequiredWith(key), Deduplicate(rules))
      else Deduplicate(rules)
  {
    ParentOfJoin(key, sub);
    var d := Deduplicate(rules);
    if key in nullableKeys && "required" in d {
      assert ReplaceValue("required", RequiredWith(key), d) == d[FirstIndex(d, "required") := RequiredWith(key)];
    }
  }

  /** `register`: a path already present is a `DuplicateKey` error; otherwise
      the path is appended with its deduplicated, rewritten tokens and joins
      the nullable list when those tokens contain `nullable`. Nothing else
      changes. */
  function Register(reg: Registry, key: string, rules: seq<string>): (r: Result<Registry>)
    requires reg.Valid()
    ensures r.Err? <==> key in reg.compiled.values
    ensures r.Err? ==> r.error == DuplicateKey(key)
    ensures r.Ok? ==> r.value.Valid()
    ensures r.Ok? ==> r.value.compiled.keys == reg.compiled.keys + [key]
    ensures r.Ok? ==> r.value.compiled.values == reg.compiled.values[key := Stored(reg.nullableKeys, key, rules)]
    ensures r.Ok? ==>
      r.value.nullableKeys == reg.nullableKeys + (if "nullable" in r.value.compiled.values[key] then [key] else [])
  {
    if key in reg.compiled.values then Err(DuplicateKey(key))
    else
      var stored := DefineRequiredness(reg.nullableKeys, key, Deduplicate(rules));
      var compiled := Put(reg.compiled, key, stored);
      var nullableKeys := if "nullable" in stored then reg.nullableKeys + [key] else reg.nullableKeys;
      Ok(Registry(compiled, nullableKeys))
  }

  /** What `register` does to the tokens, in terms of its input: the stored
      list is the input without repeats, except that `required` turns into
      `required_with:<parent>` exactly when the parent is a registered
      nullable path; a dot-free key is never rewritten. */
  lemma RegisterRewriteLaw(reg: Registry, key: string, rules: seq<string>)
    requires reg.Valid()
    requires key !in reg.compiled.values
    ensures Register(reg, key, rules).Ok?
    ensures
      var stored := Register(reg, key, rules).value.compiled.values[key];
      && |stored| == |Deduplicate(rules)|
      && ("required" !in rules ==> stored == Deduplicate(rules))
      && (DotFree(key) ==> stored == Deduplicate(rules))
      && ("required" in rules ==>
            ("required" !in stored <==> IsParentKeyNullable(reg.nullableKeys, key)))
      && ("required" in rules && IsParentKeyNullable(reg.nullableKeys, key) ==>
            RequiredWith(ParentKey(key).value) in stored)
      && ("nullable" in stored <==> "nullable" in rules)
  {
    var d := Deduplicate(rules);
    var stored := Register(reg, key, rules).value.compiled.values[key];
    assert stored == DefineRequiredness(reg.nullableKeys, key, d);
    NullableSurvivesRewrite(reg.nullableKeys, key, d);
    if "required" in rules && IsParentKeyNullable(reg.nullableKeys, key) {
      var i := FirstIndex(d, "required");
      assert stored[i] == RequiredWith(ParentKey(key).value);
      assert RequiredWith(ParentKey(key).value) != "required" by {
        assert |RequiredWith(ParentKey(key).value)| >= 14;
      }
    }
  }

  /** The loop of `toRules` that registers one translated key family, key by
      key, in order. */
  function RegisterKeys(reg: Registry, keys: seq<string>, values: map<string, seq<string>>): (r: Result<Registry>)
    requires reg.Valid()
    requires forall k :: k in keys ==> k in values
    ensures r.Ok? ==> r.value.Valid()
    ensures r.Ok? ==> r.value.compiled.keys == reg.compiled.keys + keys
    ensures r.Ok? ==> forall p :: p in reg.compiled.values ==>
      p in r.value.compiled.values && r.value.compiled.values[p] == reg.compiled.values[p]
    ensures r.Ok? ==> forall k :: k in keys ==> k in r.value.compiled.values
    decreases keys
  {
    if keys == [] then Ok(reg)
    else
      var next :- Register(reg, keys[0], values[keys[0]]);
      RegisterKeys(next, keys[1..], values)
  }

  /** Registering a family that holds an already registered path throws
      `DuplicateKey`, whichever of the family's paths comes first. */
  lemma {:induction false} RegisterKeysClash(reg: Registry, keys: seq<string>, values: map<string, seq<string>>, p: string)
    requires reg.Valid()
    requires forall k :: k in keys ==> k in values
    requires p in keys && p in reg.compiled.values
    ensures RegisterKeys(reg, keys, values).Err? && RegisterKeys(reg, keys, values).error.DuplicateKey?
    decreases keys
  {
    var first := Register(reg, keys[0], values[keys[0]]);
    if first.Ok? {
      assert keys[0] != p;
      assert p in keys[1..];
      RegisterKeysClash(first.value, keys[1..], values, p);
    }
  }

  /** The paths a `RegisterKeys` call may add: distinct and all fresh. */
  ghost predicate FreshKeys(reg: Registry, keys: seq<string>, values: map<string, seq<string>>) {
    && reg.Valid()
    && (forall k :: k in keys ==> k in values)
    && (forall i, j :: 0 <= i < j < |keys| ==> keys[i] != keys[j])
    && (forall k :: k in keys ==> k !in reg.compiled.values)
  }

  /** Registering distinct fresh paths never hits the duplicate-key error. */
  lemma {:induction false} RegisterKeysAppends(reg: Registry, keys: seq<string>, values: map<string, seq<string>>)
    requires FreshKeys(reg, keys, values)
    ensures RegisterKeys(reg, keys, values).Ok?
    decreases keys
  {
    if keys != [] {
      var next := Register(reg, keys[0], values[keys[0]]).value;
      FreshTail(reg, keys, values);
      RegisterKeysAppends(next, keys[1..], values);
    }
  }

  /** After registering the first of a family of fresh paths, the rest are
      still fresh. */
  lemma FreshTail(reg: Registry, keys: seq<string>, values: map<string, seq<string>>)
    requires FreshKeys(reg, keys, values)
    requires keys != []
    ensures Register(reg, keys[0], values[keys[0]]).Ok?
    ensures FreshKeys(Register(reg, keys[0], values[keys[0]]).value, keys[1..], values)
  {
    var next := Register(reg, keys[0], values[keys[0]]).value;
    forall k | k in keys[1..]
      ensures k !in next.compiled.values
    {
      var j :| 0 <= j < |keys[1..]| && keys[1..][j] == k;
      assert keys[j + 1] == k;
    }
  }

  /** Registering fresh paths adds to the nullable list exactly the new paths
      whose stored tokens contain `nullable`. */
  lemma {:induction false} RegisterKeysNullable(reg: Registry, keys: seq<string>, values: map<string, seq<string>>, x: string)
    requires FreshKeys(reg, keys, values)
    ensures RegisterKeys(reg, keys, values).Ok?
    ensures var after := RegisterKeys(reg, keys, values).value;
      x in after.nullableKeys <==>
        (x in reg.nullableKeys || (x in keys && "nullable" in after.compiled.values[x]))
    decreases keys
  {
    RegisterKeysAppends(reg, keys, values);
    if keys != [] {
      var next := Register(reg, keys[0], values[keys[0]]).value;
      FreshTail(reg, keys, values);
      RegisterKeysNullable(next, keys[1..], values, x);
      RegisterKeysAppends(next, keys[1..], values);
      assert keys == [keys[0]] + keys[1..];
    }
  }

  /** A fresh path whose parent is not among the paths registered with it is
      stored as `register` would store it against the registry's original
      nullable list. */
  lemma {:induction false} RegisterKeysStored(reg: Registry, keys: seq<string>, values: map<string, seq<string>>, k: string)
    requires FreshKeys(reg, keys, values)
    requires k in keys
    requires !(ParentKey(k).Some? && ParentKey(k).value in keys)
    ensures RegisterKeys(reg, keys, values).Ok?
    ensures RegisterKeys(reg, keys, values).value.compiled.values[k] == Stored(reg.nullableKeys, k, values[k])
    decreases keys
  {
    RegisterKeysAppends(reg, keys, values);
    var next := Register(reg, keys[0], values[keys[0]]).value;
    FreshTail(reg, keys, values);
    RegisterKeysAppends(next, keys[1..], values);
    var after := RegisterKeys(next, keys[1..], values).value;
    assert RegisterKeys(reg, keys, values).value == after;
    if k == keys[0] {
      assert after.compiled.values[k] == next.compiled.values[k];
    } else {
      assert k in keys[1..];
      assert !(ParentKey(k).Some? && ParentKey(k).value in keys[1..]);
      RegisterKeysStored(next, keys[1..], values, k);
      if ParentKey(k).Some? {
        assert ParentKey(k).value != keys[0];
        assert ParentKey(k).value in next.nullableKeys <==> ParentKey(k).value in reg.nullableKeys;
      }
      assert IsParentKeyNullable(next.nullableKeys, k) == IsParentKeyNullable(reg.nullableKeys, k);
    }
  }

  /** A fresh path whose tokens hold no `required` is stored as its tokens
      without repeats, whatever was registered before it. */
  lemma {:induction false} RegisterKeysPlain(reg: Registry, keys: seq<string>, values: map<string, seq<string>>, k: string)
    requires FreshKeys(reg, keys, values)
    requires k in keys
    requires "required" !in values[k]
    ensures RegisterKeys(reg, keys, values).Ok?
    ensures RegisterKeys(reg, keys, values).value.compiled.values[k] == Deduplicate(values[k])
    decreases keys
  {
    RegisterKeysAppends(reg, keys, values);
    var next := Register(reg, keys[0], values[keys[0]]).value;
    FreshTail(reg, keys, values);
    RegisterKeysAppends(next, keys[1..], values);
    var after := RegisterKeys(next, keys[1..], values).value;
    assert RegisterKeys(reg, keys, values).value == after;
    if k == keys[0] {
      assert "required" !in Deduplicate(values[k]);
      assert after.compiled.values[k] == next.compiled.values[k];
    } else {
      assert k in keys[1..];
      RegisterKeysPlain(next, keys[1..], values, k);
    }
  }

  /** `toArray`: the registered paths, in registration order, with their
      stored tokens. */
  function ToArray(reg: Registry): (r: OrderedMap<seq<string>>)
    requires reg.Valid()
    ensures r.Valid()
    ensures r.keys == reg.compiled.keys
    ensures forall p :: p in r.values <==> p in reg.compiled.keys
    ensures r.values == reg.compiled.values
  {
    reg.compiled
  }
}
