/** Laws of the flattening done by `RuleSet::toRules` and
    `translateRuleForKey`: which paths one key stands for and what each gets,
    when compilation can fail, and how the conditional-requiredness rewrite
    shows up in the flat output.
 */
module Flattening {
  import opened Errors
  import opened OrderedMaps
  import opened TokenLists
  import opened Paths
  import opened CompiledRuleSets
  import opened RuleSets

  /** The tokens among `entries`, in order, skipping nested trees. */
  function TokensOf(entries: seq<Entry>): seq<string> {
    if entries == [] then []
    else (if entries[0].Token? then [entries[0].token] else []) + TokensOf(entries[1..])
  }

  /** The tokens of a concatenation are the concatenated tokens. */
  lemma {:induction false} TokensOfConcat(a: seq<Entry>, b: seq<Entry>)
    ensures TokensOf(a + b) == TokensOf(a) + TokensOf(b)
    decreases a
  {
    if a != [] {
      assert (a + b)[1..] == a[1..] + b;
      TokensOfConcat(a[1..], b);
    } else {
      assert a + b == b;
    }
  }

  /** Every nested tree among `entries` compiles without error. */
  ghost predicate ChildrenCompile(entries: seq<Entry>) {
    entries != [] ==>
      && (entries[0].Nested? ==> ToRules(entries[0].child).Ok?)
      && ChildrenCompile(entries[1..])
  }

  /** The list a single entry gives to the nested path `sub`. */
  ghost function NestedPart(e: Entry, sub: string): seq<string> {
    if e.Nested? && ToRules(e.child).Ok? && sub in ToRules(e.child).value.values
    then ToRules(e.child).value.values[sub]
    else []
  }

  /** The lists the nested trees among `entries` give to their path `sub`,
      concatenated in entry order. */
  ghost function NestedConcat(entries: seq<Entry>, sub: string): seq<string> {
    if entries == [] then [] else NestedPart(entries[0], sub) + NestedConcat(entries[1..], sub)
  }

  /** Some nested tree among `entries` compiles to a path `sub`. */
  ghost predicate NestedHas(entries: seq<Entry>, sub: string) {
    entries != [] &&
      ((entries[0].Nested? && ToRules(entries[0].child).Ok? && sub in ToRules(entries[0].child).value.values)
       || NestedHas(entries[1..], sub))
  }

  /** The paths a key with these entries stands for: the key itself when it
      has a token, and `key.sub` for each path `sub` of a nested tree. */
  ghost predicate Produces(key: string, entries: seq<Entry>, p: string) {
    if p == key then TokensOf(entries) != []
    else IsChildPath(key, p) && NestedHas(entries, ChildSuffix(key, p))
  }

  /** The list each produced path receives. */
  ghost function PathRules(key: string, entries: seq<Entry>, p: string): seq<string> {
    if p == key then TokensOf(entries)
    else if IsChildPath(key, p) then NestedConcat(entries, ChildSuffix(key, p))
    else []
  }

  /** The list already stored under `p`, or none. */
  function Existing(acc: OrderedMap<seq<string>>, p: string): seq<string> {
    if p in acc.values then acc.values[p] else []
  }

  /** Merging one nested tree's output: `key.sub` gains that output's list
      for `sub`; every other path is left alone; earlier keys keep their
      places. */
  lemma {:induction false} MergeNestedAt(acc: OrderedMap<seq<string>>, key: string, subKeys: seq<string>,
                                         subValues: map<string, seq<string>>, p: string)
    requires acc.Valid()
    requires forall s :: s in subKeys ==> s in subValues
    requires forall i, j :: 0 <= i < j < |subKeys| ==> subKeys[i] != subKeys[j]
    ensures
      var r := MergeNested(acc, key, subKeys, subValues);
      var hit := IsChildPath(key, p) && ChildSuffix(key, p) in subKeys;
      && (p in r.values <==> p in acc.values || hit)
      && (p in r.values ==>
            r.values[p] == Existing(acc, p) + (if hit then subValues[ChildSuffix(key, p)] else []))
      && acc.keys <= r.keys
  {
    MergeNestedDomain(acc, key, subKeys, subValues, p);
    MergeNestedValue(acc, key, subKeys, subValues, p);
  }

  lemma {:induction false} MergeNestedDomain(acc: OrderedMap<seq<string>>, key: string, subKeys: seq<string>,
                                             subValues: map<string, seq<string>>, p: string)
    requires acc.Valid()
    requires forall s :: s in subKeys ==> s in subValues
    ensures
      var r := MergeNested(acc, key, subKeys, subValues);
      && (p in r.values <==> p in acc.values || (IsChildPath(key, p) && ChildSuffix(key, p) in subKeys))
      && acc.keys <= r.keys
    decreases subKeys
  {
    if subKeys != [] {
      var s0 := subKeys[0];
      var acc1 := Extend(acc, Join(key, s0), subValues[s0]);
      MergeNestedDomain(acc1, key, subKeys[1..], subValues, p);
      MergeNestedStep(acc, key, s0, subValues[s0], p);
      assert subKeys == [s0] + subKeys[1..];
    }
  }

  lemma {:induction false} MergeNestedValue(acc: OrderedMap<seq<string>>, key: string, subKeys: seq<string>,
                                            subValues: map<string, seq<string>>, p: string)
    requires acc.Valid()
    requires forall s :: s in subKeys ==> s in subValues
    requires forall i, j :: 0 <= i < j < |subKeys| ==> subKeys[i] != subKeys[j]
    ensures
      var hit := IsChildPath(key, p) && ChildSuffix(key, p) in subKeys;
      Existing(MergeNested(acc, key, subKeys, subValues), p) ==
        Existing(acc, p) + (if hit then subValues[ChildSuffix(key, p)] else [])
    decreases subKeys
  {
    if subKeys != [] {
      var s0 := subKeys[0];
      var acc1 := Extend(acc, Join(key, s0), subValues[s0]);
      DistinctSplit(subKeys);
      MergeNestedValue(acc1, key, subKeys[1..], subValues, p);
      MergeNestedStep(acc, key, s0, subValues[s0], p);
    }
  }

  /** A list without repeats splits into its head and a tail without repeats
      that does not hold the head. */
  lemma DistinctSplit(s: seq<string>)
    requires s != []
    requires forall i, j :: 0 <= i < j < |s| ==> s[i] != s[j]
    ensures forall i, j :: 0 <= i < j < |s[1..]| ==> s[1..][i] != s[1..][j]
    ensures s[0] !in s[1..]
    ensures forall x :: x in s <==> x == s[0] || x in s[1..]
  {
    assert s == [s[0]] + s[1..];
  }

  /** One merged path: it is `p` exactly when `p` is `key.s0`. */
  lemma MergeNestedStep(acc: OrderedMap<seq<string>>, key: string, s0: string, v: seq<string>, p: string)
    requires acc.Valid()
    ensures
      var acc1 := Extend(acc, Join(key, s0), v);
      var here := IsChildPath(key, p) && ChildSuffix(key, p) == s0;
      && (p in acc1.values <==> p in acc.values || here)
      && Existing(acc1, p) == Existing(acc, p) + (if here then v else [])
      && acc.keys <= acc1.keys
  {
    JoinIsNew(key, s0);
    if IsChildPath(key, p) && ChildSuffix(key, p) == s0 {
      assert p == Join(key, s0);
    } else {
      assert p != Join(key, s0);
    }
  }

  /** The fold of `translateRuleForKey` fails exactly when a nested tree
      fails to compile. */
  lemma {:induction false} TranslateFromOk(key: string, entries: seq<Entry>, acc: OrderedMap<seq<string>>)
    requires acc.Valid()
    ensures TranslateFrom(key, entries, acc).Ok? <==> ChildrenCompile(entries)
    decreases entries
  {
    if entries != [] {
      var e := entries[0];
      if e.Token? {
        TranslateFromOk(key, entries[1..], Extend(acc, key, [e.token]));
      } else if ToRules(e.child).Ok? {
        var sub := ToRules(e.child).value;
        TranslateFromOk(key, entries[1..], MergeNested(acc, key, sub.keys, sub.values));
      }
    }
  }

  /** The fold only ever appends paths after those already accumulated. */
  lemma {:induction false} TranslateFromPrefix(key: string, entries: seq<Entry>, acc: OrderedMap<seq<string>>)
    requires acc.Valid()
    requires TranslateFrom(key, entries, acc).Ok?
    ensures acc.keys <= TranslateFrom(key, entries, acc).value.keys
    decreases entries
  {
    if entries != [] {
      var e := entries[0];
      if e.Token? {
        TranslateFromPrefix(key, entries[1..], Extend(acc, key, [e.token]));
      } else {
        var sub := ToRules(e.child).value;
        MergeNestedAt(acc, key, sub.keys, sub.values, key);
        TranslateFromPrefix(key, entries[1..], MergeNested(acc, key, sub.keys, sub.values));
      }
    }
  }

  /** What the fold of `translateRuleForKey` leaves at path `p`, started
      from the accumulated array `acc`: `p` is present when it was already
      or when the entries produce it, and it gains the list they give it. */
  ghost predicate FoldsTo(key: string, entries: seq<Entry>, acc: OrderedMap<seq<string>>, r: OrderedMap<seq<string>>, p: string) {
    && (p in r.values <==> p in acc.values || Produces(key, entries, p))
    && (p in r.values ==> r.values[p] == Existing(acc, p) + PathRules(key, entries, p))
  }

  lemma {:induction false} TranslateFromAt(key: string, entries: seq<Entry>, acc: OrderedMap<seq<string>>, p: string)
    requires acc.Valid()
    requires TranslateFrom(key, entries, acc).Ok?
    ensures FoldsTo(key, entries, acc, TranslateFrom(key, entries, acc).value, p)
    decreases entries, 1
  {
    if entries != [] {
      if entries[0].Token? {
        TranslateTokenStep(key, entries, acc, p);
      } else {
        TranslateNestedStep(key, entries, acc, p);
      }
    }
  }

  lemma {:induction false} TranslateTokenStep(key: string, entries: seq<Entry>, acc: OrderedMap<seq<string>>, p: string)
    requires acc.Valid()
    requires entries != [] && entries[0].Token?
    requires TranslateFrom(key, entries, acc).Ok?
    ensures FoldsTo(key, entries, acc, TranslateFrom(key, entries, acc).value, p)
    decreases entries, 0
  {
    var t := entries[0].token;
    var rest := entries[1..];
    var acc1 := Extend(acc, key, [t]);
    assert TranslateFrom(key, entries, acc) == TranslateFrom(key, rest, acc1);
    TranslateFromAt(key, rest, acc1, p);
    if p == key {
      TokenStepOwn(key, entries, acc, acc1);
    } else {
      TokenStepOther(key, entries, acc, acc1, p);
    }
  }

  lemma {:induction false} TokenStepOwn(key: string, entries: seq<Entry>, acc: OrderedMap<seq<string>>, acc1: OrderedMap<seq<string>>)
    requires acc.Valid()
    requires entries != [] && entries[0].Token?
    requires acc1 == Extend(acc, key, [entries[0].token])
    ensures key in acc1.values
    ensures Produces(key, entries, key)
    ensures Existing(acc1, key) + PathRules(key, entries[1..], key) == Existing(acc, key) + PathRules(key, entries, key)
  {
    assert TokensOf(entries) == [entries[0].token] + TokensOf(entries[1..]);
  }

  lemma {:induction false} TokenStepOther(key: string, entries: seq<Entry>, acc: OrderedMap<seq<string>>, acc1: OrderedMap<seq<string>>, p: string)
    requires acc.Valid()
    requires entries != [] && entries[0].Token?
    requires acc1 == Extend(acc, key, [entries[0].token])
    requires p != key
    ensures p in acc1.values <==> p in acc.values
    ensures Existing(acc1, p) == Existing(acc, p)
    ensures Produces(key, entries, p) == Produces(key, entries[1..], p)
    ensures PathRules(key, entries, p) == PathRules(key, entries[1..], p)
  {
  }

  lemma {:induction false} TranslateNestedStep(key: string, entries: seq<Entry>, acc: OrderedMap<seq<string>>, p: string)
    requires acc.Valid()
    requires entries != [] && entries[0].Nested?
    requires TranslateFrom(key, entries, acc).Ok?
    ensures FoldsTo(key, entries, acc, TranslateFrom(key, entries, acc).value, p)
    decreases entries, 0
  {
    var rest := entries[1..];
    var sub := NestedStepFold(key, entries, acc);
    var acc1 := MergeNested(acc, key, sub.keys, sub.values);
    var r := TranslateFrom(key, rest, acc1).value;
    MergeNestedAt(acc, key, sub.keys, sub.values, p);
    TranslateFromAt(key, rest, acc1, p);
    NestedStepUnfold(key, entries, p);
    var hit := IsChildPath(key, p) && ChildSuffix(key, p) in sub.keys;
    FoldCompose(acc, acc1, r, p, hit, if hit then sub.values[ChildSuffix(key, p)] else [],
                Produces(key, entries, p), Produces(key, rest, p), PathRules(key, entries, p), PathRules(key, rest, p));
  }

  /** A leading nested entry is compiled and merged before the rest. */
  lemma {:induction false} NestedStepFold(key: string, entries: seq<Entry>, acc: OrderedMap<seq<string>>) returns (sub: OrderedMap<seq<string>>)
    requires acc.Valid()
    requires entries != [] && entries[0].Nested?
    requires TranslateFrom(key, entries, acc).Ok?
    ensures ToRules(entries[0].child) == Ok(sub)
    ensures sub.Valid()
    ensures TranslateFrom(key, entries, acc) == TranslateFrom(key, entries[1..], MergeNested(acc, key, sub.keys, sub.values))
  {
    sub := ToRules(entries[0].child).value;
  }

  /** One step of the fold followed by the rest is the fold over all
      entries, at a single path. */
  lemma {:induction false} FoldCompose(acc: OrderedMap<seq<string>>, acc1: OrderedMap<seq<string>>, r: OrderedMap<seq<string>>, p: string,
                    hit: bool, gained: seq<string>, produces: bool, producesRest: bool,
                    rules: seq<string>, rulesRest: seq<string>)
    requires p in acc1.values <==> p in acc.values || hit
    requires p in acc1.values ==> acc1.values[p] == Existing(acc, p) + gained
    requires !hit ==> gained == []
    requires p in r.values <==> p in acc1.values || producesRest
    requires p in r.values ==> r.values[p] == Existing(acc1, p) + rulesRest
    requires produces <==> hit || producesRest
    requires rules == gained + rulesRest
    ensures p in r.values <==> p in acc.values || produces
    ensures p in r.values ==> r.values[p] == Existing(acc, p) + rules
  {
    if p in r.values {
      assert Existing(acc1, p) == Existing(acc, p) + gained;
    }
  }

  /** How a leading nested entry contributes to the produced paths. */
  lemma {:induction false} NestedStepUnfold(key: string, entries: seq<Entry>, p: string)
    requires entries != [] && entries[0].Nested?
    requires ToRules(entries[0].child).Ok?
    ensures
      var sub := ToRules(entries[0].child).value;
      var hit := IsChildPath(key, p) && ChildSuffix(key, p) in sub.keys;
      && (Produces(key, entries, p) <==> hit || Produces(key, entries[1..], p))
      && PathRules(key, entries, p) ==
           (if hit then sub.values[ChildSuffix(key, p)] else []) + PathRules(key, entries[1..], p)
  {
    assert TokensOf(entries) == TokensOf(entries[1..]);
  }

  /** `translateRuleForKey` as a whole: it fails exactly when a nested tree
      fails; otherwise it holds exactly the produced paths with their lists. */
  lemma {:induction false} TranslateLaw(key: string, entries: seq<Entry>, p: string)
    ensures Translate(key, entries).Ok? <==> ChildrenCompile(entries)
    ensures Translate(key, entries).Ok? ==>
      && (p in Translate(key, entries).value.values <==> Produces(key, entries, p))
      && (p in Translate(key, entries).value.values ==>
            Translate(key, entries).value.values[p] == PathRules(key, entries, p))
  {
    TranslateFromOk(key, entries, Empty());
    if Translate(key, entries).Ok? {
      TranslateFromAt(key, entries, Empty(), p);
    }
  }

  /** A key's own path collects its tokens in insertion order, skipping the
      nested trees between them, and exists exactly when there is a token. */
  lemma {:induction false} TranslateOwnKey(key: string, entries: seq<Entry>)
    requires Translate(key, entries).Ok?
    ensures key in Translate(key, entries).value.values <==> TokensOf(entries) != []
    ensures key in Translate(key, entries).value.values ==>
      Translate(key, entries).value.values[key] == TokensOf(entries)
  {
    TranslateLaw(key, entries, key);
  }

  /** Every other path is `key.sub` for a path `sub` of some nested tree. */
  lemma {:induction false} TranslatePathShape(key: string, entries: seq<Entry>, p: string)
    requires Translate(key, entries).Ok?
    requires p in Translate(key, entries).value.values
    requires p != key
    ensures IsChildPath(key, p)
    ensures NestedHas(entries, ChildSuffix(key, p))
  {
    TranslateLaw(key, entries, p);
  }

  /** A nested path `key.sub` exists exactly when some nested tree has `sub`,
      and when several do, their lists are concatenated in entry order rather
      than rejected. */
  lemma {:induction false} TranslateNestedPath(key: string, entries: seq<Entry>, sub: string)
    requires Translate(key, entries).Ok?
    ensures Join(key, sub) in Translate(key, entries).value.values <==> NestedHas(entries, sub)
    ensures Join(key, sub) in Translate(key, entries).value.values ==>
      Translate(key, entries).value.values[Join(key, sub)] == NestedConcat(entries, sub)
  {
    JoinIsNew(key, sub);
    TranslateLaw(key, entries, Join(key, sub));
  }

  /** When the first entry is a token, as `add` guarantees, the key's own
      path comes first, before all of its `key.*` paths. */
  lemma {:induction false} TranslateOwnKeyFirst(key: string, entries: seq<Entry>)
    requires entries != [] && entries[0].Token?
    requires Translate(key, entries).Ok?
    ensures Translate(key, entries).value.keys != []
    ensures Translate(key, entries).value.keys[0] == key
  {
    var acc1 := Extend(Empty(), key, [entries[0].token]);
    assert Translate(key, entries) == TranslateFrom(key, entries[1..], acc1);
    TranslateFromPrefix(key, entries[1..], acc1);
    assert acc1.keys == [key];
  }

  /** The rule tree of a transfer request: slots well formed, every key a
      dot-free property name, every nested tree of the same kind. */
  ghost predicate Shaped(rs: RuleSet)
    decreases rs
  {
    ShapedSlots(rs.slots)
  }

  ghost predicate ShapedSlots(slots: seq<Slot>)
    decreases slots
  {
    && (forall i, j :: 0 <= i < j < |slots| ==> slots[i].key != slots[j].key)
    && (forall i :: 0 <= i < |slots| ==> ShapedSlot(slots[i]))
  }

  ghost predicate ShapedSlot(slot: Slot)
    decreases slot
  {
    && DotFree(slot.key)
    && slot.entries != []
    && slot.entries[0].Token?
    && ShapedEntries(slot.entries)
  }

  ghost predicate ShapedEntries(entries: seq<Entry>)
    decreases entries
  {
    entries != [] ==>
      && (entries[0].Nested? ==> assert entries[0].child < entries[0]; Shaped(entries[0].child))
      && ShapedEntries(entries[1..])
  }

  /** `ShapedEntries` distributes over concatenation. */
  lemma {:induction false} ShapedEntriesConcat(a: seq<Entry>, b: seq<Entry>)
    ensures ShapedEntries(a + b) <==> ShapedEntries(a) && ShapedEntries(b)
    decreases a
  {
    if a != [] {
      assert (a + b)[1..] == a[1..] + b;
      ShapedEntriesConcat(a[1..], b);
    } else {
      assert a + b == b;
    }
  }

  /** Entries without nested trees are trivially shaped. */
  lemma {:induction false} ShapedEntriesTokens(es: seq<Entry>)
    requires forall i :: 0 <= i < |es| ==> es[i].Token?
    ensures ShapedEntries(es)
    decreases es
  {
    if es != [] {
      ShapedEntriesTokens(es[1..]);
    }
  }

  /** `Shaped` stated key by key rather than slot by slot. */
  ghost predicate ShapedByKeys(rs: RuleSet) {
    && WellFormed(rs)
    && (forall k :: k in Keys(rs) ==> DotFree(k) && ShapedEntries(Entries(rs, k)))
  }

  lemma {:induction false} ShapedByKeysShaped(rs: RuleSet)
    requires ShapedByKeys(rs)
    ensures Shaped(rs)
  {
    forall i | 0 <= i < |rs.slots|
      ensures ShapedSlot(rs.slots[i])
    {
      assert Keys(rs)[i] == rs.slots[i].key;
      EntriesOfSlot(rs, i);
    }
  }

  /** No registered path lies under any of the remaining slots' keys. */
  ghost predicate Apart(reg: Registry, slots: seq<Slot>) {
    forall p, i :: p in reg.compiled.values && 0 <= i < |slots| ==> !UnderKey(slots[i].key, p)
  }

  /** A transfer request's rule tree always compiles: distinct dot-free keys
      can never produce the same path twice. */
  lemma {:induction false} ShapedCompiles(rs: RuleSet)
    requires Shaped(rs)
    ensures ToRules(rs).Ok?
    decreases rs
  {
    var empty := NewRegistry();
    CompileSlotsOk(rs.slots, empty);
  }

  lemma {:induction false} ChildrenCompileOk(entries: seq<Entry>)
    requires ShapedEntries(entries)
    ensures ChildrenCompile(entries)
    decreases entries
  {
    if entries != [] {
      var e := entries[0];
      if e.Nested? {
        assert e.child < e;
        ShapedCompiles(e.child);
      }
      ChildrenCompileOk(entries[1..]);
    }
  }

  lemma {:induction false} CompileSlotsOk(slots: seq<Slot>, reg: Registry)
    requires reg.Valid()
    requires ShapedSlots(slots)
    requires Apart(reg, slots)
    ensures CompileSlots(slots, reg).Ok?
    decreases slots
  {
    if slots != [] {
      var fam, next := FirstSlotStep(slots, reg);
      CompileSlotsOk(slots[1..], next);
    }
  }

  /** Compiling the first slot: its paths all lie under its key, register
      without clashing, and leave the registry apart from the other slots. */
  lemma {:induction false} FirstSlotStep(slots: seq<Slot>, reg: Registry) returns (fam: OrderedMap<seq<string>>, next: Registry)
    requires reg.Valid()
    requires slots != []
    requires ShapedSlots(slots)
    requires Apart(reg, slots)
    ensures Translate(slots[0].key, slots[0].entries) == Ok(fam)
    ensures FreshKeys(reg, fam.keys, fam.values)
    ensures RegisterKeys(reg, fam.keys, fam.values) == Ok(next)
    ensures next.Valid()
    ensures Apart(next, slots[1..])
    ensures ShapedSlots(slots[1..])
    ensures CompileSlots(slots, reg) == CompileSlots(slots[1..], next)
    decreases slots, 0
  {
    var k := slots[0].key;
    var es := slots[0].entries;
    assert ShapedSlot(slots[0]);
    ChildrenCompileOk(es);
    TranslateLaw(k, es, k);
    fam := Translate(k, es).value;
    FamilyUnderKey(k, es);
    FamilyFresh(reg, slots, fam);
    RegisterKeysAppends(reg, fam.keys, fam.values);
    next := RegisterKeys(reg, fam.keys, fam.values).value;
    ApartAfterFirst(slots, reg, fam, next);
    ShapedTail(slots);
  }

  /** Every path of a key's family lies under the key. */
  lemma {:induction false} FamilyUnderKey(k: string, es: seq<Entry>)
    requires Translate(k, es).Ok?
    ensures forall p :: p in Translate(k, es).value.values ==> UnderKey(k, p)
  {
    forall p | p in Translate(k, es).value.values
      ensures UnderKey(k, p)
    {
      TranslateLaw(k, es, p);
    }
  }

  /** The first slot's family is new to a registry apart from the slots. */
  lemma FamilyFresh(reg: Registry, slots: seq<Slot>, fam: OrderedMap<seq<string>>)
    requires reg.Valid() && fam.Valid()
    requires slots != [] && Apart(reg, slots)
    requires forall p :: p in fam.values ==> UnderKey(slots[0].key, p)
    ensures FreshKeys(reg, fam.keys, fam.values)
  {
  }

  /** After the first slot's family is registered, the registry is still
      apart from the remaining slots. */
  lemma ApartAfterFirst(slots: seq<Slot>, reg: Registry, fam: OrderedMap<seq<string>>, next: Registry)
    requires reg.Valid() && fam.Valid()
    requires slots != [] && ShapedSlots(slots) && Apart(reg, slots)
    requires forall p :: p in fam.values ==> UnderKey(slots[0].key, p)
    requires RegisterKeys(reg, fam.keys, fam.values) == Ok(next)
    ensures Apart(next, slots[1..])
  {
    forall p, i | p in next.compiled.values && 0 <= i < |slots[1..]|
      ensures !UnderKey(slots[1..][i].key, p)
    {
      assert slots[1..][i] == slots[i + 1];
      assert ShapedSlot(slots[i + 1]);
      if p !in reg.compiled.values {
        assert p in fam.keys;
        DistinctRootsDisjoint(slots[0].key, slots[i + 1].key, p);
      }
    }
  }

  lemma ShapedTail(slots: seq<Slot>)
    requires slots != [] && ShapedSlots(slots)
    ensures ShapedSlots(slots[1..])
  {
    forall i | 0 <= i < |slots[1..]|
      ensures ShapedSlot(slots[1..][i])
    {
      assert slots[1..][i] == slots[i + 1];
    }
  }

  /** The list `toRules` stores for the nested path `k.sub` of a slot with
      key `k` and entries `es`: the nested lists without repeats, with the
      first `required` turned into `required_with:<k>` when `es` holds the
      token `nullable`. */
  ghost function NestedStored(k: string, es: seq<Entry>, sub: string): seq<string> {
    var d := Deduplicate(NestedConcat(es, sub));
    if "nullable" in TokensOf(es) then ReplaceValue("required", RequiredWith(k), d) else d
  }

  /** What the flat output `out` holds for a slot with key `k` and entries
      `es`, at its own path and at the nested path `k.sub`. */
  ghost predicate SlotCompiled(out: map<string, seq<string>>, k: string, es: seq<Entry>, sub: string) {
    && k in out
    && out[k] == Deduplicate(TokensOf(es))
    && (Join(k, sub) in out <==> NestedHas(es, sub))
    && (DotFree(sub) && NestedHas(es, sub) ==> out[Join(k, sub)] == NestedStored(k, es, sub))
  }

  /** What the flat output holds for one slot of a transfer request's rule
      tree: the key's own path gets its tokens without repeats, and a nested
      path `key.sub` (with `sub` a direct child) gets `NestedStored`. */
  lemma {:induction false} CompileSlotsAt(slots: seq<Slot>, reg: Registry, i: nat, sub: string)
    requires reg.Valid()
    requires ShapedSlots(slots)
    requires Apart(reg, slots)
    requires i < |slots|
    ensures CompileSlots(slots, reg).Ok?
    ensures SlotCompiled(CompileSlots(slots, reg).value.compiled.values, slots[i].key, slots[i].entries, sub)
    decreases slots
  {
    var fam, next := FirstSlotStep(slots, reg);
    CompileSlotsOk(slots[1..], next);
    if i == 0 {
      FirstSlotAt(slots, reg, fam, next, sub);
    } else {
      assert slots[1..][i - 1] == slots[i];
      CompileSlotsAt(slots[1..], next, i - 1, sub);
    }
  }

  lemma {:induction false} FirstSlotAt(slots: seq<Slot>, reg: Registry, fam: OrderedMap<seq<string>>, next: Registry, sub: string)
    requires reg.Valid() && next.Valid()
    requires slots != []
    requires ShapedSlots(slots)
    requires Apart(reg, slots)
    requires ShapedSlots(slots[1..])
    requires Apart(next, slots[1..])
    requires Translate(slots[0].key, slots[0].entries) == Ok(fam)
    requires FreshKeys(reg, fam.keys, fam.values)
    requires RegisterKeys(reg, fam.keys, fam.values) == Ok(next)
    requires CompileSlots(slots, reg) == CompileSlots(slots[1..], next)
    requires CompileSlots(slots[1..], next).Ok?
    ensures SlotCompiled(CompileSlots(slots, reg).value.compiled.values, slots[0].key, slots[0].entries, sub)
  {
    var out := CompileSlots(slots, reg).value.compiled.values;
    var k := slots[0].key;
    var es := slots[0].entries;
    assert ShapedSlot(slots[0]);
    FirstSlotOwn(slots, reg, fam, next);
    TranslateNestedPath(k, es, sub);
    JoinIsNew(k, sub);
    var c := Join(k, sub);
    if DotFree(sub) && NestedHas(es, sub) {
      FirstSlotNested(slots, reg, fam, next, sub);
    }
    if c in out && c !in next.compiled.values {
      assert forall j :: 1 <= j < |slots| ==> slots[j].key != slots[0].key;
      FirstSlotKeysOnly(slots, reg, fam, next, c);
    }
    if c in next.compiled.values && c !in reg.compiled.values {
      assert c in fam.keys;
    }
    assert c in reg.compiled.values ==> !UnderKey(slots[0].key, c);
  }

  /** Registering the first path of a slot's family: the slot's key, stored
      without rewrite since it has no parent. */
  lemma {:induction false} FirstRegistration(reg: Registry, k: string, fam: OrderedMap<seq<string>>) returns (reg1: Registry)
    requires FreshKeys(reg, fam.keys, fam.values)
    requires fam.keys != [] && fam.keys[0] == k
    requires DotFree(k)
    ensures Register(reg, k, fam.values[k]) == Ok(reg1)
    ensures RegisterKeys(reg, fam.keys, fam.values) == RegisterKeys(reg1, fam.keys[1..], fam.values)
    ensures FreshKeys(reg1, fam.keys[1..], fam.values)
    ensures k in reg1.compiled.values && reg1.compiled.values[k] == Deduplicate(fam.values[k])
    ensures k in reg1.nullableKeys <==> "nullable" in fam.values[k]
    ensures k !in fam.keys[1..]
  {
    FreshTail(reg, fam.keys, fam.values);
    reg1 := Register(reg, k, fam.values[k]).value;
    RegisterRewriteLaw(reg, k, fam.values[k]);
    assert k !in reg.nullableKeys;
    forall m | 0 <= m < |fam.keys[1..]|
      ensures fam.keys[1..][m] != k
    {
      assert fam.keys[1..][m] == fam.keys[m + 1];
    }
  }

  /** The first slot's own path, as registered and kept to the end. */
  lemma {:induction false} FirstSlotOwn(slots: seq<Slot>, reg: Registry, fam: OrderedMap<seq<string>>, next: Registry)
    requires reg.Valid()
    requires slots != []
    requires ShapedSlots(slots)
    requires Translate(slots[0].key, slots[0].entries) == Ok(fam)
    requires FreshKeys(reg, fam.keys, fam.values)
    requires RegisterKeys(reg, fam.keys, fam.values) == Ok(next)
    ensures slots[0].key in next.compiled.values
    ensures next.compiled.values[slots[0].key] == Deduplicate(TokensOf(slots[0].entries))
  {
    assert ShapedSlot(slots[0]);
    FamilyOwn(reg, slots[0].key, slots[0].entries, fam, next);
  }

  /** A nested path of the first slot, as registered and kept to the end. */
  lemma {:induction false} FirstSlotNested(slots: seq<Slot>, reg: Registry, fam: OrderedMap<seq<string>>, next: Registry, sub: string)
    requires reg.Valid()
    requires slots != []
    requires ShapedSlots(slots)
    requires Translate(slots[0].key, slots[0].entries) == Ok(fam)
    requires FreshKeys(reg, fam.keys, fam.values)
    requires RegisterKeys(reg, fam.keys, fam.values) == Ok(next)
    requires DotFree(sub) && NestedHas(slots[0].entries, sub)
    ensures Join(slots[0].key, sub) in next.compiled.values
    ensures next.compiled.values[Join(slots[0].key, sub)] == NestedStored(slots[0].key, slots[0].entries, sub)
  {
    assert ShapedSlot(slots[0]);
    FamilyNested(reg, slots[0].key, slots[0].entries, fam, next, sub);
  }

  /** The family of one key, led by the key itself. */
  lemma {:induction false} FamilyShape(k: string, es: seq<Entry>, fam: OrderedMap<seq<string>>)
    requires es != [] && es[0].Token?
    requires Translate(k, es) == Ok(fam)
    ensures fam.Valid()
    ensures fam.keys != [] && fam.keys[0] == k
    ensures k in fam.values && fam.values[k] == TokensOf(es)
  {
    TranslateOwnKey(k, es);
    TranslateOwnKeyFirst(k, es);
  }

  lemma {:induction false} FamilyOwn(reg: Registry, k: string, es: seq<Entry>, fam: OrderedMap<seq<string>>, next: Registry)
    requires DotFree(k)
    requires es != [] && es[0].Token?
    requires Translate(k, es) == Ok(fam)
    requires FreshKeys(reg, fam.keys, fam.values)
    requires RegisterKeys(reg, fam.keys, fam.values) == Ok(next)
    ensures k in next.compiled.values
    ensures next.compiled.values[k] == Deduplicate(TokensOf(es))
  {
    FamilyShape(k, es, fam);
    var reg1 := FirstRegistration(reg, k, fam);
  }

  lemma {:induction false} FamilyNested(reg: Registry, k: string, es: seq<Entry>, fam: OrderedMap<seq<string>>, next: Registry, sub: string)
    requires DotFree(k)
    requires es != [] && es[0].Token?
    requires Translate(k, es) == Ok(fam)
    requires FreshKeys(reg, fam.keys, fam.values)
    requires RegisterKeys(reg, fam.keys, fam.values) == Ok(next)
    requires DotFree(sub) && NestedHas(es, sub)
    ensures Join(k, sub) in next.compiled.values
    ensures next.compiled.values[Join(k, sub)] == NestedStored(k, es, sub)
  {
    FamilyShape(k, es, fam);
    var c := Join(k, sub);
    TranslateNestedPath(k, es, sub);
    var reg1 := FirstRegistration(reg, k, fam);
    FamilyTail(fam.keys, c);
    ParentOfJoin(k, sub);
    RegisterKeysStored(reg1, fam.keys[1..], fam.values, c);
    StoredUnderParent(reg1.nullableKeys, k, sub, NestedConcat(es, sub));
  }

  lemma FamilyTail(keys: seq<string>, c: string)
    requires keys != [] && c in keys && c != keys[0]
    ensures c in keys[1..]
  {
    assert keys == [keys[0]] + keys[1..];
  }

  /** A path that appears only after the first slot's registration lies
      under another slot's key, never under the first one. */
  lemma {:induction false} FirstSlotKeysOnly(slots: seq<Slot>, reg: Registry, fam: OrderedMap<seq<string>>, next: Registry, p: string)
    requires reg.Valid() && next.Valid()
    requires slots != []
    requires ShapedSlots(slots[1..])
    requires Apart(next, slots[1..])
    requires CompileSlots(slots, reg) == CompileSlots(slots[1..], next)
    requires CompileSlots(slots[1..], next).Ok?
    requires ShapedSlot(slots[0])
    requires forall j :: 1 <= j < |slots| ==> slots[j].key != slots[0].key
    requires p in CompileSlots(slots, reg).value.compiled.values
    requires p !in next.compiled.values
    ensures !UnderKey(slots[0].key, p)
  {
    var j := CompileSlotsOrigin(slots[1..], next, p);
    assert slots[1..][j] == slots[j + 1];
    DistinctRootsDisjoint(slots[0].key, slots[j + 1].key, p);
  }

  /** Every path a slot fold adds lies under one of its slots' keys. */
  lemma {:induction false} CompileSlotsOrigin(slots: seq<Slot>, reg: Registry, p: string) returns (j: nat)
    requires reg.Valid()
    requires ShapedSlots(slots)
    requires Apart(reg, slots)
    requires CompileSlots(slots, reg).Ok?
    requires p in CompileSlots(slots, reg).value.compiled.values
    requires p !in reg.compiled.values
    ensures j < |slots| && UnderKey(slots[j].key, p)
    ensures ShapedSlot(slots[j])
    decreases slots
  {
    var next := OriginStep(slots, reg, p);
    if p in next.compiled.values {
      j := 0;
    } else {
      var j' := CompileSlotsOrigin(slots[1..], next, p);
      assert slots[1..][j'] == slots[j' + 1];
      j := j' + 1;
    }
  }

  /** The first step of `CompileSlotsOrigin`: either the first key's family
      registers `p`, or the rest of the fold does. */
  lemma OriginStep(slots: seq<Slot>, reg: Registry, p: string) returns (next: Registry)
    requires reg.Valid()
    requires ShapedSlots(slots)
    requires Apart(reg, slots)
    requires CompileSlots(slots, reg).Ok?
    requires p in CompileSlots(slots, reg).value.compiled.values
    requires p !in reg.compiled.values
    ensures slots != [] && ShapedSlot(slots[0])
    ensures p in next.compiled.values ==> UnderKey(slots[0].key, p)
    ensures next.Valid() && ShapedSlots(slots[1..]) && Apart(next, slots[1..])
    ensures CompileSlots(slots[1..], next).Ok?
    ensures p in CompileSlots(slots[1..], next).value.compiled.values
  {
    var fam;
    fam, next := FirstSlotStep(slots, reg);
    if p in next.compiled.values {
      OriginInFamily(reg, slots[0].key, slots[0].entries, fam, next, p);
    }
  }

  /** A path the first key's family newly registers lies under that key. */
  lemma OriginInFamily(reg: Registry, k: string, es: seq<Entry>, fam: OrderedMap<seq<string>>, next: Registry, p: string)
    requires Translate(k, es) == Ok(fam)
    requires FreshKeys(reg, fam.keys, fam.values)
    requires RegisterKeys(reg, fam.keys, fam.values) == Ok(next)
    requires p in next.compiled.values && p !in reg.compiled.values
    ensures UnderKey(k, p)
  {
    assert p in fam.keys;
    TranslateLaw(k, es, p);
  }

  /** The flat output of a transfer request's rule tree, key by key: what
      `CompileSlotsAt` says of the fold, for `toRules` itself. */
  lemma {:induction false} ToRulesAt(rs: RuleSet, i: nat, sub: string)
    requires Shaped(rs)
    requires i < |rs.slots|
    ensures ToRules(rs).Ok?
    ensures
      var out := ToRules(rs).value.values;
      var k := rs.slots[i].key;
      var es := rs.slots[i].entries;
      && k in out
      && out[k] == Deduplicate(TokensOf(es))
      && (Join(k, sub) in out <==> NestedHas(es, sub))
      && (DotFree(sub) && NestedHas(es, sub) ==> out[Join(k, sub)] == NestedStored(k, es, sub))
  {
    CompileSlotsAt(rs.slots, NewRegistry(), i, sub);
  }

  /** A nested path at any depth whose merged list holds no `required`:
      `toRules` stores that list without repeats. Deeper paths were already
      rewritten, relative to their own schema, by the nested `toRules`. */
  lemma {:induction false} ToRulesDeep(rs: RuleSet, i: nat, sub: string)
    requires Shaped(rs)
    requires i < |rs.slots|
    requires NestedHas(rs.slots[i].entries, sub)
    requires "required" !in NestedConcat(rs.slots[i].entries, sub)
    ensures ToRules(rs).Ok?
    ensures Join(rs.slots[i].key, sub) in ToRules(rs).value.values
    ensures ToRules(rs).value.values[Join(rs.slots[i].key, sub)] == Deduplicate(NestedConcat(rs.slots[i].entries, sub))
  {
    CompileSlotsDeep(rs.slots, NewRegistry(), rs.slots[i], sub);
  }

  /** The nested path `k.sub` of a slot with entries `es` is in `out` and
      holds the merged nested lists without repeats. */
  ghost predicate DeepCompiled(out: map<string, seq<string>>, k: string, es: seq<Entry>, sub: string) {
    Join(k, sub) in out && out[Join(k, sub)] == Deduplicate(NestedConcat(es, sub))
  }

  lemma {:induction false} CompileSlotsDeep(slots: seq<Slot>, reg: Registry, slot: Slot, sub: string)
    requires reg.Valid()
    requires ShapedSlots(slots)
    requires Apart(reg, slots)
    requires slot in slots
    requires NestedHas(slot.entries, sub)
    requires "required" !in NestedConcat(slot.entries, sub)
    ensures CompileSlots(slots, reg).Ok?
    ensures DeepCompiled(CompileSlots(slots, reg).value.compiled.values, slot.key, slot.entries, sub)
    decreases slots
  {
    if slot == slots[0] {
      DeepHead(slots, reg, sub);
    } else {
      var fam, next := FirstSlotStep(slots, reg);
      CompileSlotsOk(slots[1..], next);
      assert slot in slots[1..];
      CompileSlotsDeep(slots[1..], next, slot, sub);
    }
  }

  lemma DeepHead(slots: seq<Slot>, reg: Registry, sub: string)
    requires reg.Valid()
    requires ShapedSlots(slots)
    requires Apart(reg, slots)
    requires slots != []
    requires NestedHas(slots[0].entries, sub)
    requires "required" !in NestedConcat(slots[0].entries, sub)
    ensures CompileSlots(slots, reg).Ok?
    ensures DeepCompiled(CompileSlots(slots, reg).value.compiled.values, slots[0].key, slots[0].entries, sub)
  {
    var fam, next := FirstSlotStep(slots, reg);
    CompileSlotsOk(slots[1..], next);
    FamilyDeep(reg, slots[0].key, slots[0].entries, fam, next, sub);
    KeptToTheEnd(slots[1..], next, Join(slots[0].key, sub));
  }

  /** A registered path keeps its list through the rest of the fold. */
  lemma KeptToTheEnd(slots: seq<Slot>, reg: Registry, p: string)
    requires reg.Valid() && CompileSlots(slots, reg).Ok?
    requires p in reg.compiled.values
    ensures p in CompileSlots(slots, reg).value.compiled.values
    ensures CompileSlots(slots, reg).value.compiled.values[p] == reg.compiled.values[p]
  {
  }

  lemma {:induction false} FamilyDeep(reg: Registry, k: string, es: seq<Entry>, fam: OrderedMap<seq<string>>, next: Registry, sub: string)
    requires Translate(k, es) == Ok(fam)
    requires FreshKeys(reg, fam.keys, fam.values)
    requires RegisterKeys(reg, fam.keys, fam.values) == Ok(next)
    requires NestedHas(es, sub) && "required" !in NestedConcat(es, sub)
    ensures Join(k, sub) in next.compiled.values
    ensures next.compiled.values[Join(k, sub)] == Deduplicate(NestedConcat(es, sub))
  {
    TranslateNestedPath(k, es, sub);
    RegisterKeysPlain(reg, fam.keys, fam.values, Join(k, sub));
  }

  /** Every path `toRules` outputs lies under one of the tree's keys. */
  lemma {:induction false} ToRulesOrigin(rs: RuleSet, p: string) returns (j: nat)
    requires Shaped(rs)
    requires ToRules(rs).Ok? && p in ToRules(rs).value.values
    ensures j < |rs.slots| && UnderKey(rs.slots[j].key, p) && DotFree(rs.slots[j].key)
  {
    var empty := NewRegistry();
    j := CompileSlotsOrigin(rs.slots, empty, p);
  }

  /** Entries without nested trees give no nested paths. */
  lemma {:induction false} NestedOfTokens(es: seq<Entry>, sub: string)
    requires forall i :: 0 <= i < |es| ==> es[i].Token?
    ensures !NestedHas(es, sub) && NestedConcat(es, sub) == []
    decreases es
  {
    if es != [] {
      NestedOfTokens(es[1..], sub);
    }
  }

  /** A tree without nested trees compiles to exactly its keys, each with
      its tokens without repeats. */
  lemma FlatToRules(rs: RuleSet)
    requires Shaped(rs)
    requires forall i, n :: 0 <= i < |rs.slots| && 0 <= n < |rs.slots[i].entries| ==> rs.slots[i].entries[n].Token?
    ensures ToRules(rs).Ok?
    ensures forall p :: p in ToRules(rs).value.values <==> p in Keys(rs)
    ensures forall i :: 0 <= i < |rs.slots| ==>
      ToRules(rs).value.values[rs.slots[i].key] == Deduplicate(TokensOf(rs.slots[i].entries))
  {
    FlatDomain(rs);
    var out := ToRules(rs).value.values;
    forall i | 0 <= i < |rs.slots|
      ensures out[rs.slots[i].key] == Deduplicate(TokensOf(rs.slots[i].entries))
    {
      ToRulesAt(rs, i, "");
    }
  }

  /** The paths of a tree of tokens only are exactly its keys. */
  lemma FlatDomain(rs: RuleSet)
    requires Shaped(rs)
    requires forall i, n :: 0 <= i < |rs.slots| && 0 <= n < |rs.slots[i].entries| ==> rs.slots[i].entries[n].Token?
    ensures ToRules(rs).Ok?
    ensures forall p :: p in ToRules(rs).value.values <==> p in Keys(rs)
  {
    ShapedCompiles(rs);
    var out := ToRules(rs).value.values;
    forall i | 0 <= i < |rs.slots|
      ensures rs.slots[i].key in out
    {
      ToRulesAt(rs, i, "");
    }
    forall p | p in out
      ensures p in Keys(rs)
    {
      var j := ToRulesOrigin(rs, p);
      if p != rs.slots[j].key {
        var sub := ChildSuffix(rs.slots[j].key, p);
        ToRulesAt(rs, j, sub);
        NestedOfTokens(rs.slots[j].entries, sub);
      }
    }
  }
}
