/** The spec scorer: splits the required characteristics into matched,
    missing and different ones and computes the rounded match percentage. */
module Scorer {
  import opened Strings
  import opened Values
  import opened Dicts
  import opened Comparator

  /** model_specs.get(key): an absent key reads as None. */
  function ModelGet(model: Specs, k: string): Value {
    if k in model then model[k] else Null
  }

  datatype ScoreResult = ScoreResult(
    percentage: real,
    matched: seq<string>,
    missing: seq<string>,
    different: Dict<string, (Value, Value)>)

  /** The required keys whose catalogue value is present and satisfies the requirement. */
  function MatchedKeys(req: seq<(string, Value)>, model: Specs, allowLower: bool): seq<string> {
    if req == [] then []
    else
      var (k, v) := req[|req| - 1];
      var init := MatchedKeys(req[..|req| - 1], model, allowLower);
      var m := ModelGet(model, k);
      if !m.Null? && CompareSpecValues(v, m, allowLower) then init + [k] else init
  }

  /** The required keys whose catalogue value is absent or None. */
  function MissingKeys(req: seq<(string, Value)>, model: Specs): seq<string> {
    if req == [] then []
    else
      var k := req[|req| - 1].0;
      var init := MissingKeys(req[..|req| - 1], model);
      if ModelGet(model, k).Null? then init + [k] else init
  }

  /** The (required, catalogue) pairs of the keys whose catalogue value is present but fails. */
  function DifferentSpecs(req: Dict<string, Value>, model: Specs, allowLower: bool): (r: Dict<string, (Value, Value)>)
    ensures forall j | 0 <= j < |r| :: HasKey(req, r[j].0)
  {
    if req == [] then []
    else
      var (k, v) := req[|req| - 1];
      var init := DifferentSpecs(req[..|req| - 1], model, allowLower);
      var m := ModelGet(model, k);
      if !m.Null? && !CompareSpecValues(v, m, allowLower) then
        assert !HasKey(init, k) by {
          forall j | 0 <= j < |init| ensures init[j].0 != k {
            var i :| 0 <= i < |req| - 1 && req[..|req| - 1][i].0 == init[j].0;
            assert req[i].0 == init[j].0;
          }
        }
        var r := Put(init, k, (v, m));
        assert forall j | 0 <= j < |init| :: HasKey(req, init[j].0);
        assert r == init + [(k, (v, m))];
        r
      else
        assert forall j | 0 <= j < |init| :: HasKey(req, init[j].0) by {
          forall j | 0 <= j < |init| ensures HasKey(req, init[j].0) {
            var i :| 0 <= i < |req| - 1 && req[..|req| - 1][i].0 == init[j].0;
            assert req[i].0 == init[j].0;
          }
        }
        init
  }

  /** round(x, 2) on a non-negative number, rounding halves up. */
  function Round2(x: real): real {
    ((x * 100.0 + 0.5).Floor as real) / 100.0
  }

  /** round(matched / total * 100, 2); 100.0 when nothing is required. */
  function Percentage(matched: nat, total: nat): real {
    if total == 0 then 100.0 else Round2((matched as real / total as real) * 100.0)
  }

  /** The result calculate_match_percentage returns. */
  function Score(req: Dict<string, Value>, model: Specs, allowLower: bool): ScoreResult {
    var matched := MatchedKeys(req, model, allowLower);
    ScoreResult(Percentage(|matched|, |req|), matched, MissingKeys(req, model), DifferentSpecs(req, model, allowLower))
  }

  /** calculate_match_percentage: one pass over the required specs in order. */
  method CalculateMatchPercentage(req: Dict<string, Value>, model: Specs, allowLower: bool) returns (r: ScoreResult)
    ensures r == Score(req, model, allowLower)
  {
    if |req| == 0 {
      return ScoreResult(100.0, [], [], []);
    }
    var total := |req|;
    var matchedCount := 0;
    var matched: seq<string> := [];
    var missing: seq<string> := [];
    var different: Dict<string, (Value, Value)> := [];
    var i := 0;
    while i < |req|
      invariant 0 <= i <= |req|
      invariant matched == MatchedKeys(req[..i], model, allowLower)
      invariant matchedCount == |matched|
      invariant missing == MissingKeys(req[..i], model)
      invariant different == DifferentSpecs(req[..i], model, allowLower)
    {
      assert req[..i + 1][..i] == req[..i];
      var (k, v) := req[i];
      var m := ModelGet(model, k);
      if m.Null? {
        missing := missing + [k];
      } else if CompareSpecValues(v, m, allowLower) {
        matchedCount := matchedCount + 1;
        matched := matched + [k];
      } else {
        different := Put(different, k, (v, m));
      }
      i := i + 1;
    }
    assert req[..i] == req;
    var pct := (matchedCount as real / total as real) * 100.0;
    r := ScoreResult(Round2(pct), matched, missing, different);
  }

  // ───────────────────────── partition ─────────────────────────

  /** Each required key lands in exactly one of matched, missing and different,
      according to its catalogue value, and `different` holds the literal pair. */
  lemma {:induction false} Partition(req: Dict<string, Value>, model: Specs, allowLower: bool, k: string)
    requires HasKey(req, k)
    ensures var v := Get(req, k, Null); var m := ModelGet(model, k);
      && (k in MissingKeys(req, model) <==> m.Null?)
      && (k in MatchedKeys(req, model, allowLower) <==> !m.Null? && CompareSpecValues(v, m, allowLower))
      && (HasKey(DifferentSpecs(req, model, allowLower), k) <==> !m.Null? && !CompareSpecValues(v, m, allowLower))
      && (HasKey(DifferentSpecs(req, model, allowLower), k) ==>
            Get(DifferentSpecs(req, model, allowLower), k, (Null, Null)) == (v, m))
  {
    var init := req[..|req| - 1];
    var (kl, vl) := req[|req| - 1];
    LastKeyFresh(req);
    GetSnoc(init, kl, vl, k, Null);
    var di := DifferentSpecs(init, model, allowLower);
    var ml := ModelGet(model, kl);
    var failed := !ml.Null? && !CompareSpecValues(vl, ml, allowLower);
    assert !HasKey(di, kl) by {
      forall t | 0 <= t < |di| ensures di[t].0 != kl {
        assert HasKey(init, di[t].0);
      }
    }
    if failed {
      GetSnoc(di, kl, (vl, ml), k, (Null, Null));
    }
    if k == kl {
      MissingKeysFromReq(init, model, k);
      MatchedKeysFromReq(init, model, allowLower, k);
    } else {
      Partition(init, model, allowLower, k);
    }
  }

  lemma {:induction false} MissingKeysFromReq(req: seq<(string, Value)>, model: Specs, k: string)
    ensures k in MissingKeys(req, model) ==> HasKey(req, k)
  {
    if req != [] && k != req[|req| - 1].0 && k in MissingKeys(req, model) {
      var init := req[..|req| - 1];
      MissingKeysFromReq(init, model, k);
      var i :| 0 <= i < |init| && init[i].0 == k;
      assert req[i].0 == k;
    }
  }

  lemma {:induction false} MatchedKeysFromReq(req: seq<(string, Value)>, model: Specs, allowLower: bool, k: string)
    ensures k in MatchedKeys(req, model, allowLower) ==> HasKey(req, k)
  {
    if req != [] && k != req[|req| - 1].0 && k in MatchedKeys(req, model, allowLower) {
      var init := req[..|req| - 1];
      MatchedKeysFromReq(init, model, allowLower, k);
      var i :| 0 <= i < |init| && init[i].0 == k;
      assert req[i].0 == k;
    }
  }

  /** Only required keys are listed, and the three lists together account for every required key once. */
  lemma {:induction false} PartitionCounts(req: Dict<string, Value>, model: Specs, allowLower: bool)
    ensures forall k | k in MatchedKeys(req, model, allowLower) :: HasKey(req, k)
    ensures forall k | k in MissingKeys(req, model) :: HasKey(req, k)
    ensures |MatchedKeys(req, model, allowLower)| + |MissingKeys(req, model)| + |DifferentSpecs(req, model, allowLower)| == |req|
  {
    forall k | k in MatchedKeys(req, model, allowLower) ensures HasKey(req, k) {
      MatchedKeysFromReq(req, model, allowLower, k);
    }
    forall k | k in MissingKeys(req, model) ensures HasKey(req, k) {
      MissingKeysFromReq(req, model, k);
    }
    CountsAdd(req, model, allowLower);
  }

  lemma {:induction false} CountsAdd(req: Dict<string, Value>, model: Specs, allowLower: bool)
    ensures |MatchedKeys(req, model, allowLower)| + |MissingKeys(req, model)| + |DifferentSpecs(req, model, allowLower)| == |req|
  {
    if req != [] {
      CountsAdd(req[..|req| - 1], model, allowLower);
    }
  }

  // ───────────────────────── percentage ─────────────────────────

  lemma FloorOfRatio(a: int, b: int)
    requires b > 0
    ensures (a as real / b as real).Floor == a / b
  {
    var q := a / b;
    assert q * b <= a < (q + 1) * b;
    assert q as real * b as real <= a as real;
    assert (q as real) <= a as real / b as real;
    assert a as real < (q + 1) as real * b as real;
    assert a as real / b as real < (q + 1) as real;
  }

  /** The percentage in integer terms: round(100 * m / n, 2) * 100 == (20000 m + n) div 2n. */
  lemma {:induction false} PercentageAsInt(m: nat, n: nat)
    requires n > 0
    ensures Percentage(m, n) == ((20000 * m + n) / (2 * n)) as real / 100.0
  {
    var x := (m as real / n as real) * 100.0 * 100.0 + 0.5;
    assert x == (20000 * m + n) as real / (2 * n) as real;
    FloorOfRatio(20000 * m + n, 2 * n);
  }

  lemma MulMonotone(x: nat, y: nat, b: nat)
    requires x <= y
    ensures x * b <= y * b
  {
  }

  lemma DivBelow(a: nat, b: nat, c: nat)
    requires b > 0 && a < b * c
    ensures a / b < c
  {
    var q := a / b;
    assert q * b <= a;
    if q >= c {
      MulMonotone(c, q, b);
    }
  }

  lemma DivAtLeast(a: nat, b: nat, c: nat)
    requires b > 0 && a >= b * c
    ensures a / b >= c
  {
    var q := a / b;
    assert a < (q + 1) * b;
    if q + 1 <= c {
      MulMonotone(q + 1, c, b);
    }
  }

  /** The percentage lies in [0, 100]. */
  lemma PercentageRange(m: nat, n: nat)
    requires m <= n
    ensures 0.0 <= Percentage(m, n) <= 100.0
  {
    if n > 0 {
      PercentageAsInt(m, n);
      assert 20000 * m + n < 2 * n * 10001;
      DivBelow(20000 * m + n, 2 * n, 10001);
    }
  }

  /** Below 20000 required keys, the rounded percentage is 100.0 exactly when everything matched
      and, when something is required, 0.0 exactly when nothing did. */
  lemma PercentageExtremes(m: nat, n: nat)
    requires m <= n < 20000
    ensures Percentage(m, n) == 100.0 <==> m == n
    ensures n > 0 ==> (Percentage(m, n) == 0.0 <==> m == 0)
  {
    if n > 0 {
      PercentageAsInt(m, n);
      var a := 20000 * m + n;
      if m == n {
        assert a == 2 * n * 10000 + n;
        DivAtLeast(a, 2 * n, 10000);
        DivBelow(a, 2 * n, 10001);
      } else {
        assert a <= 20000 * n - 20000 + n;
        DivBelow(a, 2 * n, 10000);
      }
      var q := a / (2 * n);
      if m == 0 {
        DivBelow(a, 2 * n, 1);
        assert q == 0;
      } else {
        assert 20000 * m >= 20000;
        assert a >= 2 * n * 1;
        DivAtLeast(a, 2 * n, 1);
        assert q >= 1;
        assert q as real / 100.0 > 0.0;
      }
    }
  }

  /** The score: nothing required is a full match; otherwise the percentage is about the matched count. */
  lemma ScoreProperties(req: Dict<string, Value>, model: Specs, allowLower: bool)
    ensures var r := Score(req, model, allowLower);
      && 0.0 <= r.percentage <= 100.0
      && (req == [] ==> r == ScoreResult(100.0, [], [], []))
      && (|req| < 20000 ==> (r.percentage == 100.0 <==> |r.matched| == |req|))
      && (0 < |req| < 20000 ==> (r.percentage == 0.0 <==> r.matched == []))
  {
    CountsAdd(req, model, allowLower);
    var m := |MatchedKeys(req, model, allowLower)|;
    PercentageRange(m, |req|);
    if |req| < 20000 {
      PercentageExtremes(m, |req|);
    }
  }
}
