/** The value comparator of the matching engine: does one catalogue value
    satisfy one required value? */
module Comparator {
  import opened Strings
  import opened Values

  function Abs(x: real): real {
    if x < 0.0 then -x else x
  }

  /** The lowest model value that satisfies a numeric requirement `req`:
      `req` itself, or 5% of its magnitude below it when lower values are allowed. */
  function LowerBound(req: real, allowLower: bool): (b: real)
    ensures b <= req
    ensures allowLower ==> req - b == Abs(req) / 20.0
    ensures !allowLower ==> b == req
  {
    if allowLower then req - Abs(req) / 20.0 else req
  }

  /** The bound as the source computes it: the requirement scaled by 0.95. */
  function ScaledLowerBound(req: real, allowLower: bool): real {
    if allowLower then req * 0.95 else req
  }

  /** The comparison rules in order, for a given numeric bound. */
  function CompareWith(req: Value, model: Value, allowLower: bool, bound: (real, bool) -> real): bool {
    if model.Null? then false
    else if req.Bool? then Truthy(model) == req.b
    else if NumOf(req).Some? && NumOf(model).Some? then NumOf(model).value >= bound(NumOf(req).value, allowLower)
    else if req.Str? && model.Str? then Lower(Strip(req.s)) == Lower(Strip(model.s))
    else PyEq(req, model)
  }

  /** compare_spec_values, with the allow_lower bound corrected for negative requirements. */
  function CompareSpecValues(req: Value, model: Value, allowLower: bool): bool {
    CompareWith(req, model, allowLower, LowerBound)
  }

  /** compare_spec_values as written (requirement times 0.95). */
  function CompareSpecValuesAsWritten(req: Value, model: Value, allowLower: bool): bool {
    CompareWith(req, model, allowLower, ScaledLowerBound)
  }

  /** An absent catalogue value never satisfies a requirement. */
  lemma AbsentNeverSatisfies(req: Value, allowLower: bool)
    ensures !CompareSpecValues(req, Null, allowLower)
  {
  }

  /** A boolean requirement is met exactly when the truthiness of the catalogue value equals it. */
  lemma BoolRequirement(b: bool, model: Value, allowLower: bool)
    requires !model.Null?
    ensures CompareSpecValues(Bool(b), model, allowLower) <==> Truthy(model) == b
    ensures CompareSpecValues(Bool(true), Int(1), allowLower)
  {
  }

  /** When both sides read as numbers: model >= required, or >= the 5% bound with allowLower. */
  lemma NumericRule(req: Value, model: Value, x: real, y: real, allowLower: bool)
    requires !req.Bool? && !model.Null? && NumOf(req) == Some(x) && NumOf(model) == Some(y)
    ensures !allowLower ==> (CompareSpecValues(req, model, allowLower) <==> y >= x)
    ensures allowLower ==> (CompareSpecValues(req, model, allowLower) <==> y >= x - Abs(x) / 20.0)
  {
  }

  /** A boolean catalogue value compares as 0 or 1 against a numeric requirement. */
  lemma BoolModelIsZeroOrOne(n: int, b: bool)
    ensures CompareSpecValues(Int(n), Bool(b), false) <==> (if b then 1 else 0) >= n
  {
  }

  /** Two strings of which at least one is not numeric match iff they agree after strip and lowercase. */
  lemma TextRule(a: string, b: string, allowLower: bool)
    requires NumOf(Str(a)).None? || NumOf(Str(b)).None?
    ensures CompareSpecValues(Str(a), Str(b), allowLower) <==> Lower(Strip(a)) == Lower(Strip(b))
  {
  }

  /** Every other combination is decided by Python's `==`. */
  lemma FallbackRule(req: Value, model: Value, allowLower: bool)
    requires !model.Null? && !req.Bool? && (NumOf(req).None? || NumOf(model).None?)
    requires !(req.Str? && model.Str?)
    ensures CompareSpecValues(req, model, allowLower) <==> PyEq(req, model)
  {
  }

  /** Any present value satisfies itself as a requirement. */
  lemma Reflexive(v: Value, allowLower: bool)
    requires !v.Null?
    ensures CompareSpecValues(v, v, allowLower)
  {
    if !v.Bool? && NumOf(v).None? && !v.Str? {
      PyEqReflexive(v);
    }
  }

  /** Allowing lower values never rejects a value the strict comparison accepts. */
  lemma AllowLowerRelaxes(req: Value, model: Value)
    ensures CompareSpecValues(req, model, false) ==> CompareSpecValues(req, model, true)
  {
  }

  /** Raising a numeric catalogue value keeps a satisfied numeric requirement satisfied. */
  lemma MonotoneInModel(req: Value, y: real, z: real, allowLower: bool)
    requires !req.Bool? && NumOf(req).Some? && y <= z
    ensures CompareSpecValues(req, Float(y), allowLower) ==> CompareSpecValues(req, Float(z), allowLower)
  {
  }

  /** The source's bound accepts a negative requirement's own value only without allowLower. */
  lemma AsWrittenRejectsEqualNegative()
    ensures CompareSpecValuesAsWritten(Int(-100), Int(-100), false)
    ensures !CompareSpecValuesAsWritten(Int(-100), Int(-100), true)
    ensures CompareSpecValues(Int(-100), Int(-100), true)
  {
    assert ScaledLowerBound(-100.0, true) == -95.0;
  }

  /** As written, when both sides read as numbers: model >= required, or >= required * 0.95 with allowLower. */
  lemma NumericRuleAsWritten(req: Value, model: Value, x: real, y: real, allowLower: bool)
    requires !req.Bool? && !model.Null? && NumOf(req) == Some(x) && NumOf(model) == Some(y)
    ensures !allowLower ==> (CompareSpecValuesAsWritten(req, model, allowLower) <==> y >= x)
    ensures allowLower ==> (CompareSpecValuesAsWritten(req, model, allowLower) <==> y >= x * 0.95)
  {
  }

  /** As written, a present value satisfies itself except a negative number when lower values are allowed. */
  lemma ReflexiveAsWritten(v: Value, allowLower: bool)
    requires !v.Null?
    ensures CompareSpecValuesAsWritten(v, v, allowLower)
      <==> !(allowLower && !v.Bool? && NumOf(v).Some? && NumOf(v).value < 0.0)
  {
    if !v.Bool? && NumOf(v).None? && !v.Str? {
      PyEqReflexive(v);
    }
  }

  /** As written, raising a numeric catalogue value keeps a satisfied numeric requirement satisfied. */
  lemma MonotoneInModelAsWritten(req: Value, y: real, z: real, allowLower: bool)
    requires !req.Bool? && NumOf(req).Some? && y <= z
    ensures CompareSpecValuesAsWritten(req, Float(y), allowLower) ==> CompareSpecValuesAsWritten(req, Float(z), allowLower)
  {
  }

  /** The two comparators agree unless lower values are allowed for a negative numeric requirement. */
  lemma AsWrittenAgrees(req: Value, model: Value, allowLower: bool)
    requires !allowLower || NumOf(req).None? || NumOf(req).value >= 0.0
    ensures CompareSpecValuesAsWritten(req, model, allowLower) == CompareSpecValues(req, model, allowLower)
  {
  }
}
