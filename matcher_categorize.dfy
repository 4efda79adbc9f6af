/** The categoriser: puts each scored candidate into one of three bands and
    orders each band. */
module Categorizer {
  import opened Strings
  import opened Dicts
  import opened StableSort
  import opened Catalogue

  datatype Band = Ideal | Partial | NotMatched

  /** Exactly 100.0 is ideal, at least the threshold is partial, anything else is not matched. */
  function BandOf(p: real, threshold: int): Band {
    if p == 100.0 then Ideal else if p >= threshold as real then Partial else NotMatched
  }

  datatype Categorized = Categorized(ideal: seq<Match>, partial: seq<Match>, notMatched: seq<Match>)

  /** The matches of band `b`, in input order. */
  function InBand(ms: seq<Match>, b: Band, threshold: int): (r: seq<Match>)
    ensures forall m | m in r :: BandOf(m.percentage, threshold) == b
  {
    if ms == [] then []
    else
      var init := InBand(ms[..|ms| - 1], b, threshold);
      var m := ms[|ms| - 1];
      if BandOf(m.percentage, threshold) == b then init + [m] else init
  }

  function NameOf(m: Match): string {
    m.modelName
  }

  function PctOf(m: Match): real {
    m.percentage
  }

  /** The order of `reverse=True` on percentages. */
  predicate Greater(a: real, b: real) {
    a > b
  }

  /** The result of categorize_matches: ideal by name ascending, the others by percentage descending. */
  function Categorize(ms: seq<Match>, threshold: int): Categorized {
    Categorized(
      SortBy(InBand(ms, Ideal, threshold), NameOf, LexLt),
      SortBy(InBand(ms, Partial, threshold), PctOf, Greater),
      SortBy(InBand(ms, NotMatched, threshold), PctOf, Greater))
  }

  /** categorize_matches: one pass appending to three lists, then three stable sorts. */
  method CategorizeMatches(ms: seq<Match>, threshold: int) returns (r: Categorized)
    ensures r == Categorize(ms, threshold)
  {
    var ideal: seq<Match> := [];
    var partial: seq<Match> := [];
    var notMatched: seq<Match> := [];
    for i := 0 to |ms|
      invariant ideal == InBand(ms[..i], Ideal, threshold)
      invariant partial == InBand(ms[..i], Partial, threshold)
      invariant notMatched == InBand(ms[..i], NotMatched, threshold)
    {
      assert ms[..i + 1][..i] == ms[..i];
      var p := ms[i].percentage;
      if p == 100.0 {
        ideal := ideal + [ms[i]];
      } else if p >= threshold as real {
        partial := partial + [ms[i]];
      } else {
        notMatched := notMatched + [ms[i]];
      }
    }
    assert ms[..|ms|] == ms;
    r := Categorized(SortBy(ideal, NameOf, LexLt), SortBy(partial, PctOf, Greater), SortBy(notMatched, PctOf, Greater));
  }

  lemma LexLtStrictTotal()
    ensures StrictTotal(LexLt)
  {
    forall a ensures !LexLt(a, a) {
      LexLtIrreflexive(a);
    }
    forall a, b, c | LexLt(a, b) && LexLt(b, c) ensures LexLt(a, c) {
      LexLtTransitive(a, b, c);
    }
    forall a, b | a != b ensures LexLt(a, b) || LexLt(b, a) {
      LexLtTotal(a, b);
    }
  }

  lemma GreaterStrictTotal()
    ensures StrictTotal(Greater)
  {
  }

  lemma InBandSnoc(ms: seq<Match>, b: Band, threshold: int)
    requires ms != []
    ensures multiset(InBand(ms, b, threshold)) == multiset(InBand(ms[..|ms| - 1], b, threshold))
      + (if BandOf(ms[|ms| - 1].percentage, threshold) == b then multiset{ms[|ms| - 1]} else multiset{})
  {
  }

  lemma {:induction false} BandsSplit(ms: seq<Match>, threshold: int)
    ensures multiset(InBand(ms, Ideal, threshold)) + multiset(InBand(ms, Partial, threshold))
          + multiset(InBand(ms, NotMatched, threshold)) == multiset(ms)
  {
    if ms != [] {
      var init := ms[..|ms| - 1];
      BandsSplit(init, threshold);
      assert multiset(ms) == multiset(init) + multiset{ms[|ms| - 1]} by {
        assert ms == init + [ms[|ms| - 1]];
      }
      InBandSnoc(ms, Ideal, threshold);
      InBandSnoc(ms, Partial, threshold);
      InBandSnoc(ms, NotMatched, threshold);
      ThreeBandsAdd(multiset(InBand(init, Ideal, threshold)), multiset(InBand(init, Partial, threshold)),
        multiset(InBand(init, NotMatched, threshold)), multiset(init), ms[|ms| - 1],
        BandOf(ms[|ms| - 1].percentage, threshold), multiset(InBand(ms, Ideal, threshold)),
        multiset(InBand(ms, Partial, threshold)), multiset(InBand(ms, NotMatched, threshold)));
    }
  }

  /** Adding one match to the band it falls in keeps the three bands summing to all the matches. */
  lemma ThreeBandsAdd(a: multiset<Match>, b: multiset<Match>, c: multiset<Match>, all: multiset<Match>, x: Match,
                      band: Band, a': multiset<Match>, b': multiset<Match>, c': multiset<Match>)
    requires a + b + c == all
    requires a' == a + (if band == Ideal then multiset{x} else multiset{})
    requires b' == b + (if band == Partial then multiset{x} else multiset{})
    requires c' == c + (if band == NotMatched then multiset{x} else multiset{})
    ensures a' + b' + c' == all + multiset{x}
  {
  }

  /** Sorting a band keeps exactly its members. */
  lemma SortedBandMembers<K>(ms: seq<Match>, b: Band, threshold: int, key: Match -> K, lt: (K, K) -> bool)
    ensures forall m | m in SortBy(InBand(ms, b, threshold), key, lt) :: BandOf(m.percentage, threshold) == b
  {
    var band := InBand(ms, b, threshold);
    var sorted := SortBy(band, key, lt);
    forall m | m in sorted ensures BandOf(m.percentage, threshold) == b {
      assert m in multiset(sorted);
      assert m in band;
    }
  }

  /** The three bands together are a permutation of the input, and each holds only its band's matches. */
  lemma CategorizePartition(ms: seq<Match>, threshold: int)
    ensures var r := Categorize(ms, threshold);
      && multiset(r.ideal) + multiset(r.partial) + multiset(r.notMatched) == multiset(ms)
      && (forall m | m in r.ideal :: m.percentage == 100.0)
      && (forall m | m in r.partial :: m.percentage != 100.0 && m.percentage >= threshold as real)
      && (forall m | m in r.notMatched :: m.percentage != 100.0 && m.percentage < threshold as real)
  {
    BandsSplit(ms, threshold);
    SortedBandMembers(ms, Ideal, threshold, NameOf, LexLt);
    SortedBandMembers(ms, Partial, threshold, PctOf, Greater);
    SortedBandMembers(ms, NotMatched, threshold, PctOf, Greater);
  }

  /** A band sorted by percentage, highest first, with equal percentages in input order. */
  lemma ByPercentage(band: seq<Match>, p: real)
    ensures var r := SortBy(band, PctOf, Greater);
      && (forall i, j | 0 <= i < j < |r| :: r[i].percentage >= r[j].percentage)
      && FilterKey(r, PctOf, p) == FilterKey(band, PctOf, p)
  {
    GreaterStrictTotal();
    SortBySorted(band, PctOf, Greater);
    SortByStable(band, PctOf, Greater, p);
  }

  /** A band sorted by name, with equal names in input order. */
  lemma ByName(band: seq<Match>, name: string)
    ensures var r := SortBy(band, NameOf, LexLt);
      && (forall i, j | 0 <= i < j < |r| :: !LexLt(r[j].modelName, r[i].modelName))
      && FilterKey(r, NameOf, name) == FilterKey(band, NameOf, name)
  {
    LexLtStrictTotal();
    SortBySorted(band, NameOf, LexLt);
    SortByStable(band, NameOf, LexLt, name);
  }

  /** Ideal is sorted by name; partial and not matched by percentage, highest first. Equal keys keep input order. */
  lemma CategorizeOrder(ms: seq<Match>, threshold: int, name: string, p: real)
    ensures var r := Categorize(ms, threshold);
      && (forall i, j | 0 <= i < j < |r.ideal| :: !LexLt(r.ideal[j].modelName, r.ideal[i].modelName))
      && (forall i, j | 0 <= i < j < |r.partial| :: r.partial[i].percentage >= r.partial[j].percentage)
      && (forall i, j | 0 <= i < j < |r.notMatched| :: r.notMatched[i].percentage >= r.notMatched[j].percentage)
      && FilterKey(r.ideal, NameOf, name) == FilterKey(InBand(ms, Ideal, threshold), NameOf, name)
      && FilterKey(r.partial, PctOf, p) == FilterKey(InBand(ms, Partial, threshold), PctOf, p)
      && FilterKey(r.notMatched, PctOf, p) == FilterKey(InBand(ms, NotMatched, threshold), PctOf, p)
  {
    ByName(InBand(ms, Ideal, threshold), name);
    ByPercentage(InBand(ms, Partial, threshold), p);
    ByPercentage(InBand(ms, NotMatched, threshold), p);
  }

  /** At the default threshold 70 is partial, 69.9 is not matched, and 100.0 is ideal whatever the threshold. */
  lemma BandBoundaries(threshold: int)
    ensures BandOf(70.0, 70) == Partial
    ensures BandOf(69.9, 70) == NotMatched
    ensures BandOf(100.0, threshold) == Ideal
  {
  }
}
