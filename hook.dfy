/** The field state kept by `useValidatus`: the current value, the map of
    rule results, the validity flag and the touched flag. The framework's
    state setters and effects become the methods of `Field`, and each
    effect runs synchronously inside the method that changes what it
    depends on. */
module Hook {
  import opened Wrappers
  import opened Evaluator

  /** The `target` of a change event; `value` is None when it is absent. */
  datatype Target = Target(value: Option<string>)

  /** What `onChange` may be handed: a string, an object that may carry a
      `target`, or anything else. */
  datatype Input = Text(text: string) | Event(target: Option<Target>) | Other

  /** The value after `onChange(input)`: a string replaces it, an event
      whose target carries a non-empty value replaces it with that value,
      and everything else leaves it as it was. An event with an empty
      target value therefore cannot clear the field. */
  function NextValue(input: Input, current: string): (r: string)
    ensures input.Text? ==> r == input.text
    ensures input.Other? ==> r == current
    ensures forall s :: input == Event(Some(Target(Some(s)))) && s != "" ==> r == s
    ensures !input.Text? && r != current ==> r != "" && input == Event(Some(Target(Some(r))))
  {
    match input
    case Text(s) => s
    case Event(Some(Target(Some(s)))) => if s != "" then s else current
    case Event(_) => current
    case Other => current
  }

  /** The validity flag as the source computes it: its effect has an empty
      dependency list, so it runs once, after the first render, over the
      `validations` that render captured, which is still the initial empty
      map; nothing writes the flag afterwards, whatever `current` holds. */
  function MountOnlyIsValid(current: map<string, bool>): (r: bool)
    ensures !r
  {
    var captured: map<string, bool> := map[];
    Aggregate(captured, false)
  }

  /** With a single `required`-like rule and the value "x", every rule
      passes and the recomputed flag is true, while the mount-only flag
      stays false. */
  lemma StaleValidityCounterexample()
    ensures var reg: Registry := map["required" := (v: string, o: Option<Config>) => |v| > 0];
            var r := GetValidations(reg, [Bare("required")], "x");
            && r == Ok(map["required" := true])
            && Aggregate(r.value, false)
            && !MountOnlyIsValid(r.value)
  {
  }

  class Field {
    const registry: Registry
    var value: string
    var validators: seq<Descriptor>
    var validations: map<string, bool>
    var isValid: bool
    var isTouched: bool

    /** The stored map is the evaluation of the current value, whenever
        that evaluation succeeds. */
    ghost predicate Synced()
      reads this
    {
      GetValidations(registry, validators, value).Ok? ==>
        validations == GetValidations(registry, validators, value).value
    }

    /** The flag is the AND of a non-empty map. */
    ghost predicate Consistent()
      reads this
    {
      |validations| > 0 ==> isValid == AllPass(validations)
    }

    ghost predicate Valid()
      reads this
    {
      Synced() && Consistent()
    }

    /** `useValidatus(initialValue, validators)`: the initial state, then
        the mount effects that evaluate the rules and the flag. */
    constructor (registry: Registry, initialValue: string := "", validators: seq<Descriptor> := [])
      ensures Valid()
      ensures this.registry == registry && this.validators == validators
      ensures value == initialValue && !isTouched
      ensures match GetValidations(registry, validators, initialValue)
              case Ok(m) => validations == m && isValid == Aggregate(m, false)
              case Err(_) => validations == map[] && !isValid
    {
      this.registry := registry;
      this.validators := validators;
      value := initialValue;
      validations := map[];
      isValid := false;
      isTouched := false;
      new;
      var _ := Recompute();
    }

    /** The two effects run after a change to the value or the rules:
        store the evaluation, then, when the map is not empty, store
        whether every entry passed. A failed evaluation stores nothing and
        is returned. Run again on an unchanged state, it changes nothing. */
    method Recompute() returns (err: Option<Error>)
      modifies this`validations, this`isValid
      ensures match GetValidations(registry, validators, value)
              case Ok(m) => validations == m && isValid == Aggregate(m, old(isValid)) && err == None
              case Err(e) => validations == old(validations) && isValid == old(isValid) && err == Some(e)
      ensures Synced()
      ensures old(Consistent()) ==> Consistent()
      ensures old(Valid()) ==> validations == old(validations) && isValid == old(isValid)
    {
      match GetValidations(registry, validators, value)
      case Err(e) =>
        err := Some(e);
      case Ok(m) =>
        validations := m;
        if |m| > 0 {
          isValid := AllPass(m);
        }
        err := None;
    }

    /** `onChange(input)`: update the value as `NextValue` says; the
        effects run only when the value actually changed. */
    method OnChange(input: Input) returns (err: Option<Error>)
      requires Valid()
      modifies this`value, this`validations, this`isValid
      ensures Valid()
      ensures value == NextValue(input, old(value))
      ensures value == old(value) ==>
                validations == old(validations) && isValid == old(isValid) && err == None
      ensures value != old(value) ==>
                match GetValidations(registry, validators, value)
                case Ok(m) => validations == m && isValid == Aggregate(m, old(isValid)) && err == None
                case Err(e) => validations == old(validations) && isValid == old(isValid) && err == Some(e)
    {
      var next := NextValue(input, value);
      if next != value {
        value := next;
        err := Recompute();
      } else {
        err := None;
      }
    }

    /** A new rule list: the effects run again over the current value. */
    method SetValidators(ds: seq<Descriptor>) returns (err: Option<Error>)
      requires Valid()
      modifies this`validators, this`validations, this`isValid
      ensures Valid()
      ensures validators == ds
      ensures match GetValidations(registry, ds, value)
              case Ok(m) => validations == m && isValid == Aggregate(m, old(isValid)) && err == None
              case Err(e) => validations == old(validations) && isValid == old(isValid) && err == Some(e)
    {
      validators := ds;
      err := Recompute();
    }

    /** The blur listener: the field is touched from now on. */
    method Blur()
      modifies this`isTouched
      ensures isTouched
    {
      isTouched := true;
    }

    /** The touched flag is part of the hook's result only when an element
        reference is present. */
    function TouchedOutput(hasRef: bool): (r: Option<bool>)
      reads this
      ensures r.Some? <==> hasRef
      ensures r.Some? ==> r.value == isTouched
    {
      if hasRef then Some(isTouched) else None
    }
  }
}
