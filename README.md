# react-validatus-hook: rule evaluation and field state

This project models the core of `useValidatus`, a hook that binds a text
input's value to an ordered list of named validation rules. Two pieces are
modelled.

- **`getValidations(validators, value)`** (module `Evaluator`) is a left fold
  over rule descriptors. A descriptor is a bare rule name (`"isEmail"`) or an
  object whose first key names the rule and whose first value is that rule's
  options (`{isLength: {min: 3, max: 15}}`). Each descriptor runs the named
  rule from the registry on the value, with options for an object descriptor
  and without for a bare name. The fold merges `{name: result}` into the map,
  so a later descriptor with the same name overwrites the earlier result.
  A descriptor that names no rule held by the registry makes the call throw,
  and no map is produced. Here that is an `Err` result (`UnknownRule`, or
  `NoRuleName` for an object with no key). The registry is an abstract map
  from rule name to a pure predicate over the value and the optional options.
- **The field state** (module `Hook`, class `Field`) has four fields:
  `value`, `validations`, `isValid` and `isTouched`.
  - `OnChange` updates the value by the shape of its input (`NextValue`).
  - The effects that re-evaluate the rules run synchronously in `Recompute`.
    `OnChange`, `SetValidators` and the constructor call it when what the
    effects depend on changes.
  - `Blur` sets the one-way touched flag.

The class invariant `Valid()` says two things. The stored map equals
`getValidations(validators, value)` whenever that evaluation succeeds. For a
non-empty map, the flag is the AND of its entries.

With the validity effect re-run on every map change, a field whose rules all
passed keeps `isValid == true` after its rule list is replaced by an empty
one: `Aggregate` keeps the previous flag for an empty map, as the effect body
at src/index.js:45-46 does.

## Model

| member | source | states |
|---|---|---|
| `Evaluator.Fold` | src/index.js:6-15 | one step (`Run`) takes the rule name (`RuleName`: the string, or the first key) and the options (`RuleOptions`: none, or the first value) and calls the registry rule; the fold succeeds iff every descriptor names a rule the registry holds; on success the keys are the accumulator's keys plus the descriptors' rule names, and entries under other names are untouched; on failure the error is the one of the first descriptor that does not resolve, every earlier one having resolved |
| `Evaluator.GetValidations` | src/index.js:5-16 | succeeds iff every descriptor resolves; on success the key set is exactly the set of rule names (the string for a bare name, the first key for an object); an empty list gives the empty map; a failure carries the first unresolved descriptor's error and no partial map |
| `Evaluator.Aggregate` | src/index.js:44-46 | for a non-empty map the flag is true iff no entry is false; for an empty map the previous flag is kept |
| `Evaluator.NamesMember` | src/index.js:7-8 | a name is among the result's keys exactly when some descriptor names it |
| `Evaluator.FoldAppend` | src/index.js:6-15 | folding over two descriptor lists one after the other is folding over their concatenation; a failure in the first list ends the whole fold |
| `Evaluator.FoldEntry` | src/index.js:10-14 | the entry kept for the last descriptor of a name is the registry rule applied to the value, with no options for a bare name and the first value as options for an object |
| `Evaluator.LastOccurrence` | src/index.js:14 | every rule name in the list has a last descriptor naming it |
| `Evaluator.GetValidationsEntries` | src/index.js:7-14 | each entry of the result equals the registry rule of that name applied to the value with the options of the last descriptor naming it |
| `Evaluator.LastWriteWins` | src/index.js:14 | two descriptors of the same rule in a row give the outcome the later one alone gives: the earlier result leaves no trace, and when the name is not in the registry both fail with the same error |
| `Evaluator.DependsOnlyOnNamedRules` | src/index.js:5-16 | the evaluation depends only on the value, the descriptors and the registry entries under the names they mention; two registries that agree there give the same outcome |
| `Evaluator.ValidityOfEvaluation` | src/index.js:44-46 | for a successful non-empty evaluation the aggregate is true iff every rule whose result the map keeps passed, so a failing result overwritten by a later pass of the same name does not count |
| `Hook.NextValue` | src/index.js:23-37 | a string input replaces the value; an event whose target carries a non-empty value replaces it with that value; any other input, an event without target or with an empty target value leaves it unchanged; only a non-empty event value or a string can change it |
| `Hook.MountOnlyIsValid` | src/index.js:43-48 | as written, the validity effect runs once over the initial empty map, so the flag is false whatever the current map holds |
| `Hook.StaleValidityCounterexample` | src/index.js:43-48 | for a `required`-like rule and value "x" the map is `{required: true}` and the recomputed flag is true, while the as-written flag is false |
| `Hook.Field.constructor` | src/index.js:18-22 | the hook starts with the given value and rules, untouched; the mount effects store the evaluation and its aggregate, or leave the empty map and a false flag when the evaluation fails |
| `Hook.Field.Recompute` | src/index.js:39-47 | after the effects the stored map equals the evaluation and the flag is its aggregate over the previous flag; a failed evaluation changes nothing and is returned; re-running on a synced state changes nothing; the invariant is kept |
| `Hook.Field.OnChange` | src/index.js:23-41 | the value becomes `NextValue(input, value)`; the effects run only when it changed; the invariant is kept and nothing else changes |
| `Hook.Field.SetValidators` | src/index.js:39-41 | a new rule list is stored and the map and flag are re-evaluated against the current value; the invariant is kept |
| `Hook.Field.Blur` | src/index.js:50-54 | after a blur the field is touched; no other method clears the flag, so it is monotone and a second blur keeps it set |
| `Hook.Field.TouchedOutput` | src/index.js:61 | the touched flag is exposed exactly when an element reference is present, with the current value |

## Findings

| source | as written | input that shows it | evidently intended | confidence | as-written member | corrected member |
|---|---|---|---|---|---|---|
| src/index.js:43-48 | the validity effect has an empty dependency list, so it runs once, after mount, over the initial empty map and never sets the flag | rule `required` (true for a non-empty value), descriptors `["required"]`, value `"x"`: the map is `{required: true}` but `isValid` stays false | the flag is recomputed with the map every time the map is | high (not executed) | `Hook.MountOnlyIsValid` | `Hook.Field.Recompute` |

## Left out

- Framework plumbing (`useState`, `useCallback`, `useEffect` scheduling and dependency arrays): effects are modelled as synchronous recomputation inside the method that changes their dependencies.
- Hook.Field.SetValidators: the framework re-runs the effect when the `validators` array is a different object, even with equal contents; the model re-evaluates on every call, which gives the same map because the evaluation is deterministic.
- Exceptions: an unknown rule raises inside an effect in the source; the model returns the error from the method and leaves the map and the flag unchanged.
- DOM wiring: attaching the blur listener to `refEl.current` is not modelled; `Blur` is the listener's transition.
- The concrete rules (`isEmail`, `isURL`, `isInt`, `isLength`, `contains`, `isAlpha`, ...) in `src/lib/index` and the `typeOf` helper in `src/lib/util/typeOf`: src/lib is not part of this model; the registry is abstract and input shapes are a datatype.
- Descriptor shapes other than a string or an object (arrays, numbers, null), and a registry entry reached through an inherited property or the key `"undefined"`.
- The insertion order of the result map's keys: the map is unordered here, and nothing in the core depends on that order.
- Rule results other than booleans, and values other than strings; an event whose target value is a truthy non-string (a number) is not modelled.
- Object key enumeration order (integer-like keys first) is taken as given: `Keyed` lists the keys in enumeration order.
- examples/examples.js: rendering only.
