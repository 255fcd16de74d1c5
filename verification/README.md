# Rule compilation of laravel-data-transfer-requests, in Dafny

A transfer request is a PHP class whose typed public properties describe the
input it accepts. The package derives Laravel validation rules from those
properties in two steps. This project models those two steps as pure
functions and proves what they do.

1. `DataTransferRequest::getRuleSet` reads each property in turn. It maps the
   property's declared type to tokens (`integer`, `required`, `nullable`, ...)
   or, for a property typed as another transfer request, to that request's
   own rule tree. It adds `nullable` when the type allows null, and it adds
   the tokens of each `#[Rules(...)]` attribute. All of this goes into a
   `RuleSet`.
2. `RuleSet::toRules` flattens the tree into the map the Laravel validator
   takes, from dot-addressed paths (`optionalNested.requiredBool`) to token
   lists. Each path goes through `CompiledRuleSet::register`. It refuses a
   path it has already seen. It removes repeated tokens. When the path's
   parent was registered with `nullable`, it turns the first `required` into
   `required_with:<parent>`.

Modules, one per file:

- `Errors` (errors.dfy): `Option`, `Result` and the error kinds. `Result`
  stands for the PHP exceptions.
- `OrderedMaps` (ordered_maps.dfy): a PHP string-keyed array, held as its
  key order plus a map.
- `TokenLists` (token_lists.dfy): `array_unique` and first-index lookup.
- `Paths` (paths.dfy): dot joins, the last dot, and paths under a key.
- `CompiledRuleSets` (compiled_rule_set.dfy): the registry and `register`.
- `RuleSets` (rule_set.dfy): the rule tree, `add`, `toRules` and
  `translateRuleForKey`.
- `Flattening` (flattening.dfy): the laws of `translateRuleForKey` and
  `toRules`.
- `DataTransferRequests` (data_transfer_request.dfy): types and properties
  as data, `reflectionTypeToValidationRule`, `getRuleSet` and its memo.
- `Scenarios` (scenarios.dfy): the package's own test cases, stated as
  lemmas over any property names that contain no dot.

Reflection is replaced by data. A property is a `Field(name, ty,
attributes)`:

- `ty` is a `TypeDesc`: absent, a builtin name, another transfer request
  (with its own fields), another class name, a union, or any other type.
- `attributes` holds the token lists of the property's `#[Rules]`
  attributes.

## Model

| member | source | states |
|---|---|---|
| RuleSets.NewRuleSet | src/RuleSets/RuleSet.php:44 | a new tree has no keys and is well formed |
| RuleSets.Push | src/RuleSets/RuleSet.php:34 | appending an entry extends only that key's list; a new key is created at the end of the key order, and the others keep their place |
| RuleSets.Add | src/RuleSets/RuleSet.php:20-35 | `add` never fails. It appends to the key's list exactly the expansion of its argument: a string as one token, an array element by element, a tree as `array` followed by the tree. Every other key is unchanged. A new key is created only when something is appended, so adding an empty array creates no key. Well-formedness is kept: distinct keys, each list starting with a token |
| RuleSets.AddEach | src/RuleSets/RuleSet.php:22-28 | the array branch appends each element's expansion in order and leaves other keys alone |
| RuleSets.AddManyConcat | src/RuleSets/RuleSet.php:22-28 | adding the concatenation of two arrays equals adding one and then the other |
| RuleSets.ToRules | src/RuleSets/RuleSet.php:42-53 | the result, when there is one, is a valid ordered map (each path once) |
| RuleSets.CompileSlots | src/RuleSets/RuleSet.php:46-50 | the outer loop never changes or drops a path already registered |
| Flattening.TranslateLaw | src/RuleSets/RuleSet.php:63-86 | translation succeeds exactly when every nested tree compiles. A path is produced exactly when it is the key with some token, or `key.sub` with `sub` compiled by some nested tree. Its list is the key's tokens or the nested trees' lists for `sub`, concatenated in entry order |
| Flattening.TranslateOwnKey | src/RuleSets/RuleSet.php:67-72 | the key's own path is present exactly when the key has tokens, and it holds those tokens in insertion order |
| Flattening.TranslateOwnKeyFirst | src/RuleSets/RuleSet.php:65-72 | when the first entry is a token, the key's own path comes first in the result |
| Flattening.TranslatePathShape | src/RuleSets/RuleSet.php:74-75 | every other path produced is `key.sub` for a `sub` that some nested tree compiled |
| Flattening.TranslateNestedPath | src/RuleSets/RuleSet.php:74-81 | `key.sub` is present exactly when some nested tree has `sub`, and it holds those trees' lists for `sub` concatenated in order |
| Flattening.MergeNestedAt | src/RuleSets/RuleSet.php:74-81 | merging a compiled tree creates the new `key.sub` paths and appends to the existing ones; other paths and the existing key order are kept |
| Flattening.TokensOfConcat | src/RuleSets/RuleSet.php:67-72 | the tokens of two lists in a row are the tokens of each, concatenated |
| Flattening.ShapedCompiles | src/RuleSets/RuleSet.php:42-53 | a tree with distinct dot-free keys, and nested trees of the same kind, never registers a path twice, so `toRules` succeeds |
| Flattening.ToRulesAt | src/RuleSets/RuleSet.php:42-53 | for such a tree each key's own path holds its tokens without repeats. `key.sub` is present exactly when a nested tree under the key has `sub`. For a direct child `sub`, the path holds the nested lists without repeats, with the first `required` turned into `required_with:<key>` exactly when the key's tokens include `nullable` |
| Flattening.ToRulesDeep | src/RuleSets/RuleSet.php:42-53 | at any depth, a nested path whose merged list has no `required` holds that list without repeats, whatever was registered before it |
| Flattening.ToRulesOrigin | src/RuleSets/RuleSet.php:42-53 | every output path is under one of the tree's (dot-free) keys |
| Flattening.FlatToRules | src/RuleSets/RuleSet.php:42-53 | a tree of tokens only compiles to exactly its keys, each holding its tokens without repeats |
| CompiledRuleSets.NewRegistry | src/RuleSets/CompiledRuleSet.php:11-12 | a new registry has no paths and an empty nullable list |
| CompiledRuleSets.Register | src/RuleSets/CompiledRuleSet.php:14-25 | a path already registered gives `DuplicateKey` for that path, and nothing is stored. Otherwise the path is appended with its stored list and every other path is unchanged. The path joins the nullable list exactly when its stored list includes `nullable` |
| CompiledRuleSets.RegisterRewriteLaw | src/RuleSets/CompiledRuleSet.php:14-39 | the stored list is the input without repeats, as long as that list. Without `required`, or on a dot-free path, nothing else changes. With `required`, it disappears exactly when the parent is in the nullable list, and `required_with:<parent>` appears in its place. `nullable` is present exactly when it was in the input |
| CompiledRuleSets.RegisterKeys | src/RuleSets/CompiledRuleSet.php:14-25 | registering a family of paths in order appends them all and keeps every earlier path's list |
| CompiledRuleSets.RegisterKeysClash | src/RuleSets/CompiledRuleSet.php:16-18 | registering a list of paths one of which is already registered fails with `DuplicateKey`, whatever comes before it in the list |
| CompiledRuleSets.RegisterKeysAppends | src/RuleSets/RuleSet.php:47-49 | paths that are distinct and new all register without error |
| CompiledRuleSets.RegisterKeysNullable | src/RuleSets/CompiledRuleSet.php:22-24 | after registering new paths, a path is in the nullable list exactly when it was before, or it is one of them and its stored list has `nullable` |
| CompiledRuleSets.RegisterKeysStored | src/RuleSets/CompiledRuleSet.php:20 | a new path whose parent is not in the same family is stored against the nullable list as it stood before the family |
| CompiledRuleSets.RegisterKeysPlain | src/RuleSets/CompiledRuleSet.php:27-32 | a new path whose list has no `required` is stored as that list without repeats |
| CompiledRuleSets.DefineRequiredness | src/RuleSets/CompiledRuleSet.php:27-39 | without `required`, or when the parent is not in the nullable list, the list is unchanged. Otherwise exactly the first `required` becomes `required_with:<parent>` |
| CompiledRuleSets.NullableSurvivesRewrite | src/RuleSets/CompiledRuleSet.php:22-36 | the rewrite never adds or removes `nullable`, so the nullable check sees the original tokens |
| CompiledRuleSets.ReplaceValue | src/RuleSets/CompiledRuleSet.php:41-50 | the length is kept. Without `original` the list is unchanged. Otherwise the first occurrence becomes `replacement` and every other position is kept |
| CompiledRuleSets.ParentKey | src/RuleSets/CompiledRuleSet.php:52-61 | there is no parent exactly when the key has no dot. Otherwise the key is `parent.last` with a dot-free `last` |
| CompiledRuleSets.ParentOfJoin | src/RuleSets/CompiledRuleSet.php:52-61 | the parent of `key.sub` with a dot-free `sub` is `key`, whatever dots `key` has |
| CompiledRuleSets.StoredUnderParent | src/RuleSets/CompiledRuleSet.php:63-66 | for a direct child path, the parent check is exactly membership of `key` in the nullable list |
| CompiledRuleSets.ToArray | src/RuleSets/CompiledRuleSet.php:68-71 | the array holds exactly the registered paths, in registration order, each with the token list `register` stored for it |
| TokenLists.Deduplicate | src/RuleSets/CompiledRuleSet.php:20 | `array_unique` keeps exactly the same values, each once, and never grows the list |
| TokenLists.DeduplicateOrder | src/RuleSets/CompiledRuleSet.php:20 | the kept values appear in the order of their first occurrence |
| TokenLists.DeduplicateDistinct | src/RuleSets/CompiledRuleSet.php:20 | a list without repeats is unchanged |
| TokenLists.DeduplicateIdempotent | src/RuleSets/CompiledRuleSet.php:20 | deduplicating twice equals deduplicating once |
| TokenLists.DeduplicateSnoc | src/RuleSets/CompiledRuleSet.php:20 | appending a value already present changes nothing; appending a new value appends it |
| Paths.DistinctRootsDisjoint | src/RuleSets/RuleSet.php:46-49 | the paths under two different dot-free keys never meet, which is why distinct property names never clash |
| DataTransferRequests.TypeRules | src/DataTransferRequest.php:299-341 | no type maps to no tokens. A builtin maps to its table token followed by `nullable` or `required` (a name outside the table is `UnsupportedBuiltin`). A transfer request maps to its own tree. Another class maps to `array`, any other type to the empty token. A union maps as `UnionRules` does: when every member maps to tokens, it gives their tokens concatenated in member order, and otherwise it fails with that error |
| DataTransferRequests.BuiltinRequiredness | src/DataTransferRequest.php:308-321 | a builtin gives exactly two tokens. `required` is among them exactly when the type does not allow null. `nullable` is among them exactly when it allows null or the type is `mixed` (the double `nullable` the source notes) |
| DataTransferRequests.UnionConcat | src/DataTransferRequest.php:335-338 | the union of two member lists succeeds exactly when both do, and its tokens are theirs concatenated |
| DataTransferRequests.UnionOkMemberwise | src/DataTransferRequest.php:335-338 | a union maps without error exactly when every member maps to tokens |
| DataTransferRequests.UnionSingle | src/DataTransferRequest.php:337 | a one-member union gives that member's tokens |
| DataTransferRequests.UnionWithRequest | src/DataTransferRequest.php:335-338 | a union with a transfer request among its members is an error |
| DataTransferRequests.AddField | src/DataTransferRequest.php:278-288 | a property without a type fails with `MissingType`. A type that cannot be mapped fails with the mapping's own error (`UnsupportedBuiltin` or `NestedInUnion`). Otherwise exactly the property's entries are appended under its name, in order: the type's rules, `nullable` if the type allows null, then each attribute's tokens. Other names are unchanged and the tree stays well formed |
| DataTransferRequests.AddAttributes | src/DataTransferRequest.php:285-287 | attribute tokens are appended under the property's name, one attribute after another, and nothing else changes |
| DataTransferRequests.BuildFieldsOk | src/DataTransferRequest.php:277-289 | building succeeds exactly when every property has a type that maps without error |
| DataTransferRequests.BuildFieldsEntries | src/DataTransferRequest.php:277-289 | every name's list is what it held before, followed by the contributions of the properties with that name, in order |
| DataTransferRequests.RuleSetEntries | src/DataTransferRequest.php:277-289 | with distinct property names, a property's list in the tree is exactly its own contribution |
| DataTransferRequests.RequestCompiles | src/DataTransferRequest.php:277-289 | the tree of a request whose names have no dot always flattens without a duplicate path |
| DataTransferRequests.RequestRulesOk | src/DataTransferRequest.php:277-289 | compiling a request fails exactly when building its tree fails |
| DataTransferRequests.OwnTokensOfEntries | src/DataTransferRequest.php:279-287 | the tokens a property contributes are its type's tokens (or `array` for a transfer request), `nullable` if allowed, then its attribute tokens |
| DataTransferRequests.PropertyPath | src/DataTransferRequest.php:277-289 | a property's own path is in the validator rules exactly when it contributes something, and then holds its own tokens without repeats |
| DataTransferRequests.SchemaContribution | src/DataTransferRequest.php:324-330 | a property typed as a transfer request contributes `array`, that request's tree, then tokens only. Its tokens include `nullable` exactly when its type is nullable or an attribute adds `nullable` |
| DataTransferRequests.NestedOfSchema | src/RuleSets/RuleSet.php:74-81 | the nested paths of such a property are exactly those of the nested request's own rules, with their lists |
| DataTransferRequests.SchemaSlotPaths | src/RuleSets/CompiledRuleSet.php:34-36 | for such a slot, `key.sub` is present exactly when the nested rules have `sub`. A direct child holds the nested list without repeats, with the first `required` rewritten exactly when the slot's tokens have `nullable` |
| DataTransferRequests.NestedPropertyPath | src/DataTransferRequest.php:324-330 | `outer.inner` is present exactly when the inner property contributes. It holds the inner property's tokens without repeats, with the first `required` turned into `required_with:outer` exactly when the outer type is nullable or an outer attribute adds `nullable` |
| DataTransferRequests.DeepPropertyPath | src/RuleSets/RuleSet.php:74-75 | below a property typed as a transfer request, `name.sub` is present exactly when the nested request's rules have `sub`. A list there without `required` keeps its tokens, so a `required_with` made inside the nested request stays relative to that request |
| DataTransferRequests.SchemaSlot | src/DataTransferRequest.php:277-289 | a property typed as a transfer request has a slot under its name holding `array`, the nested tree, then tokens |
| DataTransferRequests.ProgressOfOk | src/DataTransferRequest.php:277-289 | when building succeeds, the loop stops with the built tree |
| DataTransferRequests.ProgressOfErr | src/DataTransferRequest.php:277-289 | when building fails, the loop stops at the first failing property. Every earlier property was added, and the error is that property's |
| DataTransferRequests.GetRuleSet | src/DataTransferRequest.php:270-290 | with a memo, the memo is returned unchanged. Without one, the result is a fresh build, and afterwards a memo is always stored. On success the memo is the returned tree |
| DataTransferRequests.GetRuleSetMemo | src/DataTransferRequest.php:273-275 | after a success, a second call returns the same tree and changes nothing |
| DataTransferRequests.GetRuleSetCoherent | src/DataTransferRequest.php:270-290 | on a request whose memo matches its properties, the answer is a fresh build and the memo keeps matching |
| DataTransferRequests.RetryAfterFailure | src/DataTransferRequest.php:277 | the memo is assigned before the loop, so after a failure the tree of the properties added so far stays stored. A second call returns that partial tree without error, and the memo no longer matches the properties |
| Scenarios.FlatExampleRules | tests/Unit/RuleSetTest.php:17-24 | `add(k1, t)` then `add(k2, [u, v])` compiles to exactly `k1 => [t]` and `k2 => [u, v]` |
| Scenarios.RequiredScalar | src/DataTransferRequest.php:309-321 | a non-null builtin property without attributes compiles to `[token, required]` |
| Scenarios.NullableScalar | src/DataTransferRequest.php:281-283 | a nullable builtin property compiles to `[token, nullable]`: the second `nullable` is dropped as a repeat |
| Scenarios.BasicRequestRules | tests/Feature/DataTransferRequestTest.php:129-132 | `int requiredInt` gives `[integer, required]` and `?string optionalString` gives `[string, nullable]` |
| Scenarios.OptionalNestedRules | tests/Feature/DataTransferRequestTest.php:86-96 | a nullable property of the multi-key request gives `[array, nullable]` for itself, and `[boolean, required_with:<outer>]` and `[integer, required_with:<outer>]` for its children |
| Scenarios.TwoLevelRules | src/RuleSets/RuleSet.php:74-75 | two levels of nullable nesting give `outer.middle.requiredBool` the list `[boolean, required_with:middle]`, not `required_with:outer.middle` |
| Scenarios.RequiredNestedRules | tests/Feature/DataTransferRequestTest.php:44-56 | below a non-null property of the basic request, `outer.requiredInt` stays `[integer, required]` |
| Scenarios.MixedRules | tests/Feature/DataTransferRequestTest.php:98-126 | `#[Rules('integer', 'max:10')] mixed $mixed` compiles to `[nullable, integer, max:10]`: the three `nullable` tokens become one |
| Scenarios.UntypedProperty | src/DataTransferRequest.php:281 | a property without a type cannot be built |
| Scenarios.UnionHoldingRequest | src/DataTransferRequest.php:335-338 | a property whose union type includes a transfer request cannot be built |
| Scenarios.ClashExampleFails | src/RuleSets/CompiledRuleSet.php:16-18 | a key `a.b` next to a nested tree under `a` that has `b` makes `toRules` fail with `DuplicateKey(a.b)` |

## Left out

- Reflection: property discovery and order are not modelled. A request's
  properties are given as a list in the order the reflection helper would
  list them. `src/Reflection/AdvancedReflectionClass.php` is not part of
  this model.
- Population and validation: the constructor, the validator call, the
  service provider and the `Rules` attribute class are not modelled. An
  attribute is represented only by the token list it returns.
- Exceptions are modelled as `Err` results. A builtin name outside the
  table, which PHP reports as an undefined array key, is modelled as the
  error `UnsupportedBuiltin`.
- DataTransferRequests.TypeRules / UnionRules: a union member that maps
  to a rule tree is modelled as the error `NestedInUnion`. In PHP, the
  `flatMap` (through `collapse`) would silently drop such a member
  instead.
- `array_unique` keeps the original integer keys, which leaves gaps in the
  list. The model holds the list as a gap-free sequence. The validator reads
  both the same way.
- PHP turns numeric-string array keys into integers. The model keeps every
  path as a string.
- Cyclic request types, where a class reaches itself through its
  properties, would recurse forever in PHP. They cannot be written as the
  finite `TypeDesc` datatype.
- Whether a property allows null is read from the type descriptor: the
  builtin, class or union flag. An absent type is the `MissingType` error
  that calling `allowsNull()` on null raises.
- Flattening.ToRulesAt: it gives the list of a nested path only for a
  direct child path. Deeper paths are described by `ToRulesDeep` only when
  their list holds no `required`, because a deeper path's rewrite depends
  on the paths registered before it in the same family.
- RuleSets.ToRules: that two keys of an arbitrary tree producing the same
  path always make `toRules` fail is not proved for all trees; the
  induction over the outer loop does not fit the verifier's resource
  bound. What is proved is the step beneath it: registering a family that
  holds an already registered path fails (`CompiledRuleSets.RegisterKeysClash`),
  and the clash of a key `a.b` with a nested `b` under `a` fails with
  `DuplicateKey` (`Scenarios.ClashExampleFails`).
- DataTransferRequests.DeepPropertyPath: it states the value only when the
  nested list has no `required`, for the reason given for `ToRulesAt`.
