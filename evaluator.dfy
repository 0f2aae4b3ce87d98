/** The rule evaluation of `getValidations`: a left fold over an ordered list
    of rule descriptors that runs each named rule from the registry on the
    current value and merges `{name: result}` into an accumulating map, the
    later of two results under one name replacing the earlier one. */
module Evaluator {
  import opened Wrappers

  /** A configuration value as a caller writes it in a descriptor's options:
      `{min: 3, max: 15}`, `"@gmail"`, `["http", "https"]`. An object keeps
      its own keys in enumeration order. */
  datatype Config =
    | Null
    | Bool(b: bool)
    | Num(n: int)
    | Str(s: string)
    | List(items: seq<Config>)
    | Object(fields: seq<(string, Config)>)

  /** A rule descriptor: a bare rule name (`"isEmail"`), or an object whose
      first own key names the rule and whose first value is its options
      (`{isLength: {min: 3, max: 15}}`). */
  datatype Descriptor = Bare(name: string) | Keyed(fields: seq<(string, Config)>)

  /** A rule runs on the value, with options when the descriptor gave some. */
  type Rule = (string, Option<Config>) -> bool

  /** The fixed catalogue of rules, by name. Its concrete rules are not part
      of this model. */
  type Registry = map<string, Rule>

  /** Why an evaluation fails: the descriptor names a rule the registry does
      not hold, or it is an object with no key and so names no rule. */
  datatype Error = UnknownRule(name: string) | NoRuleName

  /** The rule name of a descriptor: the string itself, or the first key. */
  function RuleName(d: Descriptor): Option<string>
  {
    match d
    case Bare(n) => Some(n)
    case Keyed(fields) => if |fields| == 0 then None else Some(fields[0].0)
  }

  /** The options a rule is called with: none for a bare name, the first
      value for an object. */
  function RuleOptions(d: Descriptor): Option<Config>
  {
    match d
    case Bare(_) => None
    case Keyed(fields) => if |fields| == 0 then None else Some(fields[0].1)
  }

  /** The descriptor names a rule the registry holds. */
  predicate Resolves(reg: Registry, d: Descriptor)
  {
    RuleName(d).Some? && RuleName(d).value in reg
  }

  predicate AllResolve(reg: Registry, ds: seq<Descriptor>)
  {
    forall i :: 0 <= i < |ds| ==> Resolves(reg, ds[i])
  }

  /** The error raised by a descriptor that does not resolve. */
  function ResolveError(reg: Registry, d: Descriptor): Error
  {
    match RuleName(d)
    case None => NoRuleName
    case Some(n) => UnknownRule(n)
  }

  /** The set of rule names the descriptors mention. */
  function Names(ds: seq<Descriptor>): set<string>
  {
    if ds == [] then {}
    else (match RuleName(ds[0]) case None => {} case Some(n) => {n}) + Names(ds[1..])
  }

  /** No later descriptor names the same rule as `ds[i]`: its result is the
      one the map keeps. */
  predicate LastOfName(ds: seq<Descriptor>, i: int)
    requires 0 <= i < |ds|
  {
    forall j :: i < j < |ds| ==> RuleName(ds[j]) != RuleName(ds[i])
  }

  /** Every result in the map passed. */
  predicate AllPass(m: map<string, bool>)
  {
    forall k :: k in m ==> m[k]
  }

  /** One step of the fold: resolve the descriptor and run its rule. */
  function Run(reg: Registry, d: Descriptor, value: string): Result<(string, bool), Error>
  {
    match RuleName(d)
    case None => Err(NoRuleName)
    case Some(n) =>
      if n in reg then Ok((n, reg[n](value, RuleOptions(d)))) else Err(UnknownRule(n))
  }

  /** The fold from accumulator `acc`: the first descriptor that does not
      resolve ends it with that descriptor's error and no map. */
  function Fold(reg: Registry, value: string, acc: map<string, bool>, ds: seq<Descriptor>)
    : (r: Result<map<string, bool>, Error>)
    ensures r.Ok? <==> AllResolve(reg, ds)
    ensures r.Ok? ==> r.value.Keys == acc.Keys + Names(ds)
    ensures r.Ok? ==> forall k :: k in acc && k !in Names(ds) ==> r.value[k] == acc[k]
    ensures r.Err? ==> exists i :: 0 <= i < |ds| && !Resolves(reg, ds[i])
                                   && AllResolve(reg, ds[..i])
                                   && r.error == ResolveError(reg, ds[i])
    decreases |ds|
  {
    if ds == [] then Ok(acc)
    else
      match Run(reg, ds[0], value)
      case Err(e) =>
        assert ds[..0] == [];
        Err(e)
      case Ok(step) =>
        var r := Fold(reg, value, acc[step.0 := step.1], ds[1..]);
        assert r.Err? ==> exists i :: 0 < i < |ds| && !Resolves(reg, ds[i])
                                      && AllResolve(reg, ds[..i])
                                      && r.error == ResolveError(reg, ds[i]) by {
          if r.Err? {
            var i :| 0 <= i < |ds[1..]| && !Resolves(reg, ds[1..][i])
                     && AllResolve(reg, ds[1..][..i])
                     && r.error == ResolveError(reg, ds[1..][i]);
            assert ds[..i + 1] == [ds[0]] + ds[1..][..i];
          }
        }
        r
  }

  /** `getValidations(validators, value)`: the map from rule name to result. */
  function GetValidations(reg: Registry, ds: seq<Descriptor>, value: string)
    : (r: Result<map<string, bool>, Error>)
    ensures r.Ok? <==> AllResolve(reg, ds)
    ensures r.Ok? ==> r.value.Keys == Names(ds)
    ensures ds == [] ==> r == Ok(map[])
    ensures r.Err? ==> exists i :: 0 <= i < |ds| && !Resolves(reg, ds[i])
                                   && AllResolve(reg, ds[..i])
                                   && r.error == ResolveError(reg, ds[i])
  {
    Fold(reg, value, map[], ds)
  }

  /** The validity aggregate: the AND over the map when the map is not
      empty; an empty map leaves the previous flag as it was. */
  function Aggregate(m: map<string, bool>, prev: bool): (r: bool)
    ensures |m| > 0 ==> (r <==> false !in m.Values)
    ensures |m| == 0 ==> r == prev
  {
    if |m| > 0 then AllPass(m) else prev
  }

  // ---------------------------------------------------------------------
  // Lemmas

  /** A name is in `Names(ds)` exactly when some descriptor names it. */
  lemma {:induction false} NamesMember(ds: seq<Descriptor>, n: string)
    ensures n in Names(ds) <==> exists j :: 0 <= j < |ds| && RuleName(ds[j]) == Some(n)
  {
    if ds != [] {
      NamesMember(ds[1..], n);
      if RuleName(ds[0]) != Some(n) && n in Names(ds) {
        var j :| 0 <= j < |ds[1..]| && RuleName(ds[1..][j]) == Some(n);
        assert RuleName(ds[j + 1]) == Some(n);
      }
      if exists j :: 0 <= j < |ds| && RuleName(ds[j]) == Some(n) {
        var j :| 0 <= j < |ds| && RuleName(ds[j]) == Some(n);
        if j > 0 {
          assert RuleName(ds[1..][j - 1]) == Some(n);
        }
      }
    }
  }

  /** Folding over `xs + ys` folds over `xs` and then, from the map it
      produced, over `ys`. */
  lemma {:induction false} FoldAppend(reg: Registry, value: string, acc: map<string, bool>,
                                      xs: seq<Descriptor>, ys: seq<Descriptor>)
    ensures Fold(reg, value, acc, xs + ys)
         == match Fold(reg, value, acc, xs)
            case Err(e) => Err(e)
            case Ok(m) => Fold(reg, value, m, ys)
    decreases |xs|
  {
    if xs == [] {
      assert xs + ys == ys;
    } else {
      assert (xs + ys)[0] == xs[0];
      assert (xs + ys)[1..] == xs[1..] + ys;
      match Run(reg, xs[0], value)
      case Err(_) =>
      case Ok(step) => FoldAppend(reg, value, acc[step.0 := step.1], xs[1..], ys);
    }
  }

  /** The entry of a rule is the result of the last descriptor that names
      it: the registry's rule run on the value, with that descriptor's
      options. */
  lemma {:induction false} FoldEntry(reg: Registry, value: string, acc: map<string, bool>,
                                     ds: seq<Descriptor>, i: int)
    requires AllResolve(reg, ds)
    requires 0 <= i < |ds| && LastOfName(ds, i)
    ensures RuleName(ds[i]).value in Fold(reg, value, acc, ds).value
    ensures Fold(reg, value, acc, ds).value[RuleName(ds[i]).value]
         == reg[RuleName(ds[i]).value](value, RuleOptions(ds[i]))
    decreases |ds|
  {
    assert Resolves(reg, ds[0]);
    var n := RuleName(ds[0]).value;
    var acc' := acc[n := reg[n](value, RuleOptions(ds[0]))];
    if i == 0 {
      forall j | 0 <= j < |ds[1..]| ensures RuleName(ds[1..][j]) != Some(n) {
        assert ds[1..][j] == ds[j + 1];
      }
      NamesMember(ds[1..], n);
    } else {
      assert AllResolve(reg, ds[1..]) by {
        forall k | 0 <= k < |ds[1..]| ensures Resolves(reg, ds[1..][k]) {
          assert ds[1..][k] == ds[k + 1];
        }
      }
      assert LastOfName(ds[1..], i - 1) by {
        forall j | i - 1 < j < |ds[1..]| ensures RuleName(ds[1..][j]) != RuleName(ds[1..][i - 1]) {
          assert ds[1..][j] == ds[j + 1];
        }
      }
      FoldEntry(reg, value, acc', ds[1..], i - 1);
    }
  }

  /** Every name in `ds` has a last descriptor that names it. */
  lemma {:induction false} LastOccurrence(ds: seq<Descriptor>, n: string)
    requires n in Names(ds)
    ensures exists i :: 0 <= i < |ds| && RuleName(ds[i]) == Some(n) && LastOfName(ds, i)
  {
    NamesMember(ds, n);
    var i :| 0 <= i < |ds| && RuleName(ds[i]) == Some(n);
    while !LastOfName(ds, i)
      invariant 0 <= i < |ds| && RuleName(ds[i]) == Some(n)
      decreases |ds| - i
    {
      var j :| i < j < |ds| && RuleName(ds[j]) == Some(n);
      i := j;
    }
  }

  /** On success, the map holds exactly the named rules, each with the
      result of the last descriptor naming it. */
  lemma GetValidationsEntries(reg: Registry, ds: seq<Descriptor>, value: string, i: int)
    requires AllResolve(reg, ds)
    requires 0 <= i < |ds| && LastOfName(ds, i)
    ensures RuleName(ds[i]).value in GetValidations(reg, ds, value).value
    ensures GetValidations(reg, ds, value).value[RuleName(ds[i]).value]
         == reg[RuleName(ds[i]).value](value, RuleOptions(ds[i]))
  {
    FoldEntry(reg, value, map[], ds, i);
  }

  /** Two descriptors naming the same rule in a row: the outcome is the one
      the later descriptor alone gives (last write wins). When they name no
      rule the registry holds, both fail with the same error. */
  lemma LastWriteWins(reg: Registry, ds: seq<Descriptor>, a: Descriptor, b: Descriptor,
                      value: string)
    requires RuleName(a) == RuleName(b)
    ensures GetValidations(reg, ds + [a, b], value) == GetValidations(reg, ds + [b], value)
  {
    FoldAppend(reg, value, map[], ds, [a, b]);
    FoldAppend(reg, value, map[], ds, [b]);
    assert [a, b][1..] == [b];
    match Fold(reg, value, map[], ds)
    case Err(_) =>
    case Ok(m) =>
      if !Resolves(reg, a) {
        return;
      }
      var n := RuleName(a).value;
      var x := reg[n](value, RuleOptions(a));
      assert Fold(reg, value, m, [a, b]) == Fold(reg, value, m[n := x], [b]);
      assert [b][1..] == [];
      if Resolves(reg, b) {
        var y := reg[n](value, RuleOptions(b));
        assert Fold(reg, value, m[n := x], [b]) == Ok(m[n := x][n := y]);
        assert Fold(reg, value, m, [b]) == Ok(m[n := y]);
        assert m[n := x][n := y] == m[n := y];
      }
  }

  /** The evaluation reads the registry only at the names the descriptors
      mention: two registries that agree there give the same outcome, so a
      rule added under another name changes nothing. */
  lemma {:induction false} DependsOnlyOnNamedRules(r1: Registry, r2: Registry,
                                                   acc: map<string, bool>,
                                                   ds: seq<Descriptor>, value: string)
    requires forall n :: n in Names(ds) ==> (n in r1 <==> n in r2)
    requires forall n :: n in Names(ds) && n in r1 ==> r1[n] == r2[n]
    ensures Fold(r1, value, acc, ds) == Fold(r2, value, acc, ds)
    decreases |ds|
  {
    if ds != [] {
      match RuleName(ds[0])
      case None =>
      case Some(n) =>
        assert n in Names(ds);
        if n in r1 {
          DependsOnlyOnNamedRules(r1, r2, acc[n := r1[n](value, RuleOptions(ds[0]))], ds[1..], value);
        }
    }
  }

  /** The validity aggregate of a successful, non-empty evaluation is true
      exactly when every rule whose result the map keeps passed: a failing
      result overwritten by a later passing one under the same name does
      not count against validity. */
  lemma ValidityOfEvaluation(reg: Registry, ds: seq<Descriptor>, value: string, prev: bool)
    requires AllResolve(reg, ds) && |ds| > 0
    ensures Aggregate(GetValidations(reg, ds, value).value, prev)
        <==> forall i :: 0 <= i < |ds| && LastOfName(ds, i)
                         ==> reg[RuleName(ds[i]).value](value, RuleOptions(ds[i]))
  {
    var m := GetValidations(reg, ds, value).value;
    var n0 := RuleName(ds[0]).value;
    assert Resolves(reg, ds[0]);
    NamesMember(ds, n0);
    assert n0 in m;
    assert |m| > 0;
    forall i | 0 <= i < |ds| && LastOfName(ds, i)
      ensures RuleName(ds[i]).value in m
      ensures m[RuleName(ds[i]).value] == reg[RuleName(ds[i]).value](value, RuleOptions(ds[i]))
    {
      GetValidationsEntries(reg, ds, value, i);
    }
    if forall i :: 0 <= i < |ds| && LastOfName(ds, i)
                   ==> reg[RuleName(ds[i]).value](value, RuleOptions(ds[i])) {
      forall k | k in m ensures m[k] {
        LastOccurrence(ds, k);
      }
    }
  }
}
