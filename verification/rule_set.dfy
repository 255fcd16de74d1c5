/** The rule tree (`RuleSet`): an insertion-ordered multimap from property
    name to a list of entries, each entry a token or a nested rule tree, and
    its flattening into dot-addressed paths (`toRules`).
 */
module RuleSets {
  import opened Errors
  import opened OrderedMaps
  import opened TokenLists
  import opened Paths
  import opened CompiledRuleSets

  /** One element of a key's list: a validation token, or the rule tree of a
      nested transfer request. */
  datatype Entry = Token(token: string) | Nested(child: RuleSet)

  /** A key with the entries added under it, in the order they were added. */
  datatype Slot = Slot(key: string, entries: seq<Entry>)

  /** The slots in the order their keys were first added. */
  datatype RuleSet = RuleSet(slots: seq<Slot>)

  /** The argument of `add`: a string, a (possibly nested) array, or a rule
      tree. */
  datatype Rules = Single(token: string) | Many(items: seq<Rules>) | Tree(tree: RuleSet)

  /** `new RuleSet()`. */
  function NewRuleSet(): (rs: RuleSet)
    ensures WellFormed(rs)
    ensures Keys(rs) == []
  {
    RuleSet([])
  }

  /** The keys in slot order. */
  function Keys(rs: RuleSet): (ks: seq<string>)
    ensures |ks| == |rs.slots|
    ensures forall i :: 0 <= i < |ks| ==> ks[i] == rs.slots[i].key
  {
    seq(|rs.slots|, i requires 0 <= i < |rs.slots| => rs.slots[i].key)
  }

  /** The shape every rule tree built by `add` has: each key appears once,
      and each key's list is non-empty and starts with a token (a nested
      tree is always preceded by its `array` token). */
  ghost predicate WellFormed(rs: RuleSet) {
    && (forall i, j :: 0 <= i < j < |rs.slots| ==> rs.slots[i].key != rs.slots[j].key)
    && (forall i :: 0 <= i < |rs.slots| ==> rs.slots[i].entries != [] && rs.slots[i].entries[0].Token?)
  }

  /** The slot holding `key`, if any. */
  function SlotIndex(rs: RuleSet, key: string): (r: Option<nat>)
    ensures r.None? <==> key !in Keys(rs)
    ensures r.Some? ==> r.value < |rs.slots| && rs.slots[r.value].key == key
  {
    if key in Keys(rs) then Some(FirstIndex(Keys(rs), key)) else None
  }

  /** `$this->ruleSet[$key] ?? []`. */
  function Entries(rs: RuleSet, key: string): seq<Entry> {
    var i := SlotIndex(rs, key);
    if i.None? then [] else rs.slots[i.value].entries
  }

  /** In a tree with distinct keys, a slot's entries are its key's entries. */
  lemma EntriesOfSlot(rs: RuleSet, i: nat)
    requires WellFormed(rs)
    requires i < |rs.slots|
    ensures Entries(rs, rs.slots[i].key) == rs.slots[i].entries
  {
    var k := FirstIndex(Keys(rs), rs.slots[i].key);
    assert Keys(rs)[i] == rs.slots[i].key;
  }

  /** `$this->ruleSet[$key][] = $entry`. */
  function Push(rs: RuleSet, key: string, e: Entry): (r: RuleSet)
    ensures Entries(r, key) == Entries(rs, key) + [e]
    ensures forall k :: k != key ==> Entries(r, k) == Entries(rs, k)
    ensures Keys(r) == Keys(rs) + (if key in Keys(rs) then [] else [key])
    ensures WellFormed(rs) && (key in Keys(rs) || e.Token?) ==> WellFormed(r)
  {
    var i := SlotIndex(rs, key);
    if i.Some? then
      var r := RuleSet(rs.slots[i.value := Slot(key, rs.slots[i.value].entries + [e])]);
      PushExisting(rs, key, e, i.value, r);
      r
    else
      var r := RuleSet(rs.slots + [Slot(key, [e])]);
      PushNew(rs, key, e, r);
      r
  }

  lemma PushExisting(rs: RuleSet, key: string, e: Entry, i: nat, r: RuleSet)
    requires SlotIndex(rs, key) == Some(i)
    requires r == RuleSet(rs.slots[i := Slot(key, rs.slots[i].entries + [e])])
    ensures Keys(r) == Keys(rs)
    ensures Entries(r, key) == Entries(rs, key) + [e]
    ensures forall k :: k != key ==> Entries(r, k) == Entries(rs, k)
    ensures WellFormed(rs) ==> WellFormed(r)
  {
    assert Keys(r) == Keys(rs);
  }

  lemma PushNew(rs: RuleSet, key: string, e: Entry, r: RuleSet)
    requires key !in Keys(rs)
    requires r == RuleSet(rs.slots + [Slot(key, [e])])
    ensures Keys(r) == Keys(rs) + [key]
    ensures Entries(r, key) == [e]
    ensures forall k :: k != key ==> Entries(r, k) == Entries(rs, k)
    ensures WellFormed(rs) && e.Token? ==> WellFormed(r)
  {
    assert Keys(r) == Keys(rs) + [key];
    assert Keys(r)[..|Keys(rs)|] == Keys(rs);
    forall k | k != key
      ensures Entries(r, k) == Entries(rs, k)
    {
      if k in Keys(rs) {
        FirstIndexInPrefix(Keys(r), |Keys(rs)|, k);
      }
    }
    assert FirstIndex(Keys(r), key) == |Keys(rs)|;
    if WellFormed(rs) && e.Token? {
      PushNewWellFormed(rs, key, e, r);
    }
  }

  /** Appending a fresh key with a leading token keeps a tree well formed. */
  lemma PushNewWellFormed(rs: RuleSet, key: string, e: Entry, r: RuleSet)
    requires key !in Keys(rs)
    requires r == RuleSet(rs.slots + [Slot(key, [e])])
    requires WellFormed(rs) && e.Token?
    ensures WellFormed(r)
  {
    forall i | 0 <= i < |rs.slots|
      ensures rs.slots[i].key != key
    {
      assert Keys(rs)[i] == rs.slots[i].key;
    }
  }

  /** The entries one call of `add` appends under its key: each string as a
      token, each array element by element, and each tree as the token
      `array` followed by the tree. */
  function Expand(rules: Rules): seq<Entry>
    decreases rules
  {
    match rules
    case Single(t) => [Token(t)]
    case Tree(t) => [Token("array"), Nested(t)]
    case Many(items) => ExpandEach(items)
  }

  function ExpandEach(items: seq<Rules>): seq<Entry>
    decreases items
  {
    if items == [] then [] else Expand(items[0]) + ExpandEach(items[1..])
  }

  /** `add`: never fails; appends `Expand(rules)` to the key's list, leaves
      every other key alone, and creates the key at the end only when
      something is appended to a new key. */
  function Add(rs: RuleSet, key: string, rules: Rules): (r: RuleSet)
    decreases rules
    ensures Entries(r, key) == Entries(rs, key) + Expand(rules)
    ensures forall k :: k != key ==> Entries(r, k) == Entries(rs, k)
    ensures Keys(r) == Keys(rs) + (if key !in Keys(rs) && Expand(rules) != [] then [key] else [])
    ensures WellFormed(rs) ==> WellFormed(r)
  {
    match rules
    case Many(items) =>
      assert ExpandEach(items) == Expand(rules);
      AddEach(rs, key, items)
    case Tree(t) =>
      assert [Token("array"), Nested(t)] == Expand(rules);
      AddTree(rs, key, t)
    case Single(t) =>
      assert [Token(t)] == Expand(rules);
      Push(rs, key, Token(t))
  }

  /** `add` with a rule tree: the token `array`, then the tree itself. */
  function AddTree(rs: RuleSet, key: string, t: RuleSet): (r: RuleSet)
    ensures Entries(r, key) == Entries(rs, key) + [Token("array"), Nested(t)]
    ensures forall k :: k != key ==> Entries(r, k) == Entries(rs, k)
    ensures Keys(r) == Keys(rs) + (if key !in Keys(rs) then [key] else [])
    ensures WellFormed(rs) ==> WellFormed(r)
  {
    var mid := Push(rs, key, Token("array"));
    var r := Push(mid, key, Nested(t));
    assert key in Keys(mid);
    assert Keys(r) == Keys(mid);
    assert Entries(rs, key) + [Token("array")] + [Nested(t)] == Entries(rs, key) + [Token("array"), Nested(t)];
    r
  }

  /** The `foreach` of `add` over an array argument. */
  function AddEach(rs: RuleSet, key: string, items: seq<Rules>): (r: RuleSet)
    decreases items
    ensures Entries(r, key) == Entries(rs, key) + ExpandEach(items)
    ensures forall k :: k != key ==> Entries(r, k) == Entries(rs, k)
    ensures Keys(r) == Keys(rs) + (if key !in Keys(rs) && ExpandEach(items) != [] then [key] else [])
    ensures WellFormed(rs) ==> WellFormed(r)
  {
    if items == [] then rs
    else
      var first := Add(rs, key, items[0]);
      var r := AddEach(first, key, items[1..]);
      AppendsCompose(rs, first, r, key, Expand(items[0]), ExpandEach(items[1..]));
      r
  }

  /** Two appends under one key are one append of the concatenation. */
  lemma AppendsCompose(rs: RuleSet, mid: RuleSet, r: RuleSet, key: string, a: seq<Entry>, b: seq<Entry>)
    requires Entries(mid, key) == Entries(rs, key) + a
    requires forall k :: k != key ==> Entries(mid, k) == Entries(rs, k)
    requires Keys(mid) == Keys(rs) + (if key !in Keys(rs) && a != [] then [key] else [])
    requires Entries(r, key) == Entries(mid, key) + b
    requires forall k :: k != key ==> Entries(r, k) == Entries(mid, k)
    requires Keys(r) == Keys(mid) + (if key !in Keys(mid) && b != [] then [key] else [])
    ensures Entries(r, key) == Entries(rs, key) + (a + b)
    ensures forall k :: k != key ==> Entries(r, k) == Entries(rs, k)
    ensures Keys(r) == Keys(rs) + (if key !in Keys(rs) && a + b != [] then [key] else [])
  {
    assert Entries(rs, key) + a + b == Entries(rs, key) + (a + b);
    forall k | k != key
      ensures Entries(r, k) == Entries(rs, k)
    {
      assert Entries(r, k) == Entries(mid, k);
    }
    KeysCompose(Keys(rs), Keys(mid), Keys(r), key, a, b);
  }

  /** The key-order part of `AppendsCompose`, over the key sequences alone. */
  lemma KeysCompose(ks: seq<string>, mid: seq<string>, r: seq<string>, key: string, a: seq<Entry>, b: seq<Entry>)
    requires mid == ks + (if key !in ks && a != [] then [key] else [])
    requires r == mid + (if key !in mid && b != [] then [key] else [])
    ensures r == ks + (if key !in ks && a + b != [] then [key] else [])
  {
    if key in ks {
      assert key in mid;
    } else if a != [] {
      assert mid[|ks|] == key;
      assert a + b != [];
    } else {
      assert a + b == b;
    }
  }

  /** Adding the concatenation of two arrays is adding one after the other. */
  lemma {:induction false} AddManyConcat(rs: RuleSet, key: string, a: seq<Rules>, b: seq<Rules>)
    ensures Add(rs, key, Many(a + b)) == Add(Add(rs, key, Many(a)), key, Many(b))
    decreases a
  {
    if a != [] {
      assert (a + b)[1..] == a[1..] + b;
      AddManyConcat(Add(rs, key, a[0]), key, a[1..], b);
    } else {
      assert a + b == b;
    }
  }

  /** `toRules`: registers every key's translated paths, key by key, into a
      fresh registry and returns its contents; a path produced twice is a
      `DuplicateKey` error. */
  function ToRules(rs: RuleSet): (r: Result<OrderedMap<seq<string>>>)
    decreases rs
    ensures r.Ok? ==> r.value.Valid()
  {
    var reg :- CompileSlots(rs.slots, NewRegistry());
    Ok(ToArray(reg))
  }

  /** The outer `foreach` of `toRules`. */
  function CompileSlots(slots: seq<Slot>, reg: Registry): (r: Result<Registry>)
    requires reg.Valid()
    decreases slots
    ensures r.Ok? ==> r.value.Valid()
    ensures r.Ok? ==> forall p :: p in reg.compiled.values ==>
      p in r.value.compiled.values && r.value.compiled.values[p] == reg.compiled.values[p]
  {
    if slots == [] then Ok(reg)
    else
      var family :- TranslateFrom(slots[0].key, slots[0].entries, Empty());
      var next :- RegisterKeys(reg, family.keys, family.values);
      CompileSlots(slots[1..], next)
  }

  /** `translateRuleForKey`: the paths one key stands for, with their token
      lists. */
  function Translate(key: string, entries: seq<Entry>): (r: Result<OrderedMap<seq<string>>>)
    ensures r.Ok? ==> r.value.Valid()
  {
    TranslateFrom(key, entries, Empty())
  }

  /** The `foreach` of `translateRuleForKey`, from the accumulated array
      `acc`: a token is appended under `key`; a nested tree is compiled with
      its own `toRules` and each of its paths merged under `key.<path>`. */
  function TranslateFrom(key: string, entries: seq<Entry>, acc: OrderedMap<seq<string>>): (r: Result<OrderedMap<seq<string>>>)
    requires acc.Valid()
    decreases entries
    ensures r.Ok? ==> r.value.Valid()
  {
    if entries == [] then Ok(acc)
    else
      var e := entries[0];
      if e.Token? then TranslateFrom(key, entries[1..], Extend(acc, key, [e.token]))
      else
        assert e.child < e;
        var sub :- ToRules(e.child);
        TranslateFrom(key, entries[1..], MergeNested(acc, key, sub.keys, sub.values))
  }

  /** The inner `foreach` of `translateRuleForKey`: a new nested path takes
      the nested list; an existing one has it appended. */
  function MergeNested(acc: OrderedMap<seq<string>>, key: string, subKeys: seq<string>, subValues: map<string, seq<string>>): (r: OrderedMap<seq<string>>)
    requires acc.Valid()
    requires forall s :: s in subKeys ==> s in subValues
    decreases subKeys
    ensures r.Valid()
  {
    if subKeys == [] then acc
    else MergeNested(Extend(acc, Join(key, subKeys[0]), subValues[subKeys[0]]), key, subKeys[1..], subValues)
  }
}
