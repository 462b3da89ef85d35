/**
 * The deterministic parts of the shopping classifier: the month encoding
 * used when loading the data, and the sensitivity/specificity evaluation of
 * predicted labels against actual ones. Ratios are exact reals.
 */
module Shopping {

  /** Month abbreviations (June spelled out, as in the data set) to 0..11. */
  const Months: map<string, int> :=
    map["Jan" := 0, "Feb" := 1, "Mar" := 2, "Apr" := 3,
        "May" := 4, "June" := 5, "Jul" := 6, "Aug" := 7,
        "Sep" := 8, "Oct" := 9, "Nov" := 10, "Dec" := 11]

  /** The keys of `Months` in calendar order. */
  const MonthNames: seq<string> :=
    ["Jan", "Feb", "Mar", "Apr", "May", "June", "Jul", "Aug", "Sep", "Oct", "Nov", "Dec"]

  /** `MonthNames` inverts `Months`: each key is the name at its own index. */
  lemma MonthsInverse()
    ensures |MonthNames| == 12
    ensures forall k :: 0 <= k < 12 ==> MonthNames[k] in Months && Months[MonthNames[k]] == k
    ensures forall a :: a in Months ==> 0 <= Months[a] < 12 && MonthNames[Months[a]] == a
  {
    forall k | 0 <= k < 12 ensures MonthNames[k] in Months && Months[MonthNames[k]] == k {
      MonthAt(k);
    }
    forall a | a in Months ensures 0 <= Months[a] < 12 && MonthNames[Months[a]] == a {
      KeyIsMonthName(a);
    }
  }

  /** The name at index `k` is a key of `Months` mapped to `k`. */
  lemma MonthAt(k: int)
    requires 0 <= k < 12
    ensures MonthNames[k] in Months && Months[MonthNames[k]] == k
  {
    if k < 6 {
      assert k == 0 || k == 1 || k == 2 || k == 3 || k == 4 || k == 5;
    } else {
      assert k == 6 || k == 7 || k == 8 || k == 9 || k == 10 || k == 11;
    }
  }

  /** Every key of `Months` is one of the twelve names. */
  lemma KeyIsMonthName(a: string)
    requires a in Months
    ensures 0 <= Months[a] < 12 && MonthNames[Months[a]] == a
  {
    assert a in Months.Keys;
    assert Months.Keys == {"Jan", "Feb", "Mar", "Apr", "May", "June", "Jul", "Aug", "Sep", "Oct", "Nov", "Dec"};
  }

  /**
   * Twelve keys, mapped one-to-one onto 0..11 in calendar order; June is
   * the only month written in full, so "Jun" is not a key.
   */
  lemma MonthsTable()
    ensures |Months| == 12
    ensures forall v :: v in Months.Values <==> 0 <= v < 12
    ensures forall a, b :: a in Months && b in Months && Months[a] == Months[b] ==> a == b
    ensures "June" in Months && Months["June"] == 5 && "Jun" !in Months
  {
    MonthsInverse();
    forall v | 0 <= v < 12 ensures v in Months.Values {
      assert Months[MonthNames[v]] == v;
    }
    MonthKeysCount();
  }

  /** The twelve keys are pairwise different strings. */
  lemma MonthKeysCount()
    ensures |Months.Keys| == 12
  {
    var m: map<string, int> := map[];
    assert "Jan" !in m;
    m := m["Jan" := 0];
    assert "Feb" !in m;
    m := m["Feb" := 1];
    assert "Mar" !in m;
    m := m["Mar" := 2];
    assert "Apr" !in m;
    m := m["Apr" := 3];
    assert "May" !in m;
    m := m["May" := 4];
    assert "June" !in m;
    m := m["June" := 5];
    assert "Jul" !in m;
    m := m["Jul" := 6];
    assert "Aug" !in m;
    m := m["Aug" := 7];
    assert "Sep" !in m;
    m := m["Sep" := 8];
    assert "Oct" !in m;
    m := m["Oct" := 9];
    assert "Nov" !in m;
    m := m["Nov" := 10];
    assert "Dec" !in m;
    m := m["Dec" := 11];
    assert m == Months;
  }

  /** The four counters of `evaluate`. */
  datatype Tally = Tally(truePositive: nat, totalPositive: nat, trueNegative: nat, totalNegative: nat)

  /**
   * The counters over equally long label and prediction lists: a label of
   * 1 is positive and any other label negative; a positive is caught when
   * predicted 1, a negative when predicted 0.
   */
  function TallyOf(labels: seq<int>, predictions: seq<int>): (t: Tally)
    requires |labels| == |predictions|
    ensures t.totalPositive + t.totalNegative == |labels|
    ensures t.truePositive <= t.totalPositive
    ensures t.trueNegative <= t.totalNegative
  {
    if labels == [] then Tally(0, 0, 0, 0)
    else
      var n := |labels| - 1;
      var t := TallyOf(labels[..n], predictions[..n]);
      if labels[n] == 1 then
        t.(totalPositive := t.totalPositive + 1,
           truePositive := t.truePositive + (if predictions[n] == 1 then 1 else 0))
      else
        t.(totalNegative := t.totalNegative + 1,
           trueNegative := t.trueNegative + (if predictions[n] == 0 then 1 else 0))
  }

  /** `num / den`, or 0 when `den` is 0. */
  function Ratio(num: nat, den: nat): (r: real)
    requires num <= den
    ensures 0.0 <= r <= 1.0
    ensures den == 0 ==> r == 0.0
    ensures den != 0 ==> r * den as real == num as real
  {
    if den == 0 then 0.0 else num as real / den as real
  }

  /**
   * The source's `evaluate`: counts over the pairs `zip` forms (as many as
   * the shorter list), then the true positive rate and the true negative
   * rate, each 0 when its class never occurs.
   */
  method Evaluate(labels: seq<int>, predictions: seq<int>) returns (sensitivity: real, specificity: real)
    ensures var n := if |labels| < |predictions| then |labels| else |predictions|;
      var t := TallyOf(labels[..n], predictions[..n]);
      sensitivity == Ratio(t.truePositive, t.totalPositive) &&
      specificity == Ratio(t.trueNegative, t.totalNegative)
    ensures 0.0 <= sensitivity <= 1.0 && 0.0 <= specificity <= 1.0
  {
    var n := if |labels| < |predictions| then |labels| else |predictions|;
    var truePositive, totalPositive, trueNegative, totalNegative := 0, 0, 0, 0;
    var k := 0;
    while k < n
      invariant 0 <= k <= n
      invariant TallyOf(labels[..k], predictions[..k]) == Tally(truePositive, totalPositive, trueNegative, totalNegative)
    {
      assert labels[..k + 1][..k] == labels[..k];
      assert predictions[..k + 1][..k] == predictions[..k];
      var actual, predicted := labels[k], predictions[k];
      if actual == 1 {
        totalPositive := totalPositive + 1;
        if predicted == 1 {
          truePositive := truePositive + 1;
        }
      } else {
        totalNegative := totalNegative + 1;
        if predicted == 0 {
          trueNegative := trueNegative + 1;
        }
      }
      k := k + 1;
    }
    var t := TallyOf(labels[..n], predictions[..n]);
    sensitivity := if totalPositive != 0 then truePositive as real / totalPositive as real else 0.0;
    specificity := if totalNegative != 0 then trueNegative as real / totalNegative as real else 0.0;
    assert sensitivity == Ratio(t.truePositive, t.totalPositive);
    assert specificity == Ratio(t.trueNegative, t.totalNegative);
  }
}
