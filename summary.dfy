/** The figures computed after the comparison loop: the overall and per-column
    matching ratios, their percentage text, and the trailing summary row
    appended below the merged rows. */
module Summary {
  import opened Tables
  import opened Comparing

  /** A ratio `num / den`; as a percentage it is `100 * num / den`. */
  datatype Ratio = Ratio(num: nat, den: nat)

  /** A ratio of at most 100%. */
  predicate AtMostWhole(r: Ratio) {
    r.num <= r.den
  }

  const MatchingPercentage: string := "Matching Percentage"

  /** The percentage of `r` in hundredths of a percent, rounded half up. */
  function Hundredths(r: Ratio): nat
    requires r.den > 0
  {
    (20000 * r.num + r.den) / (2 * r.den)
  }

  /** The rounded percentage lies within half a hundredth of the exact one:
      `|h / 100 - 100 * num / den| <= 1 / 200`. */
  lemma HundredthsNearest(r: Ratio)
    requires r.den > 0
    ensures 2 * r.den * Hundredths(r) <= 20000 * r.num + r.den
    ensures 20000 * r.num + r.den < 2 * r.den * (Hundredths(r) + 1)
  {
  }

  /** A ratio of at most 100% prints as at most 100.00%. */
  lemma {:induction false} HundredthsAtMostWhole(r: Ratio)
    requires r.den > 0 && AtMostWhole(r)
    ensures Hundredths(r) <= 10000
  {
    var d := 2 * r.den;
    var x := 20000 * r.num + r.den;
    assert x < d * 10001 by {
      assert 20000 * r.num <= 20000 * r.den;
    }
    DivBelow(x, d, 10001);
  }

  lemma {:induction false} DivBelow(x: nat, d: nat, k: nat)
    requires d > 0 && x < d * k
    ensures x / d < k
  {
    var q := x / d;
    assert d * q <= x;
    if q >= k {
      MulMono(d, k, q);
    }
  }

  lemma MulMono(d: nat, a: nat, b: nat)
    requires a <= b
    ensures d * a <= d * b
  {
  }

  function DigitChar(d: nat): char
    requires d < 10
  {
    "0123456789"[d]
  }

  predicate IsDigit(ch: char) {
    '0' <= ch <= '9'
  }

  predicate AllDigits(s: string) {
    forall i :: 0 <= i < |s| ==> IsDigit(s[i])
  }

  function DigitValue(ch: char): nat
    requires IsDigit(ch)
  {
    (ch - '0') as nat
  }

  /** The decimal numeral of `n`, without leading zeros. */
  function Decimal(n: nat): (s: string)
    ensures |s| > 0 && AllDigits(s)
  {
    if n < 10 then [DigitChar(n)] else Decimal(n / 10) + [DigitChar(n % 10)]
  }

  /** The number a string of digits denotes. */
  function DigitsValue(s: string): nat
    requires AllDigits(s)
  {
    if s == [] then 0 else 10 * DigitsValue(s[..|s| - 1]) + DigitValue(s[|s| - 1])
  }

  lemma DigitRoundTrip(d: nat)
    requires d < 10
    ensures IsDigit(DigitChar(d)) && DigitValue(DigitChar(d)) == d
  {
  }

  /** Reading a numeral back gives the number. */
  lemma {:induction false} DecimalRoundTrip(n: nat)
    ensures DigitsValue(Decimal(n)) == n
  {
    var s := Decimal(n);
    if n < 10 {
      DigitRoundTrip(n);
    } else {
      DecimalRoundTrip(n / 10);
      DigitRoundTrip(n % 10);
      assert s[..|s| - 1] == Decimal(n / 10);
    }
  }

  /** The text written into a `_Comparison` cell of the summary row: the
      percentage with two decimals followed by a percent sign. */
  function PercentText(r: Ratio): (s: string)
    requires r.den > 0
    ensures |s| >= 5 && s[|s| - 1] == '%' && s[|s| - 4] == '.'
  {
    HundredthsText(Hundredths(r))
  }

  /** `h` hundredths of a percent with two decimals and a percent sign. */
  function HundredthsText(h: nat): (s: string)
    ensures |s| >= 5 && s[|s| - 1] == '%' && s[|s| - 4] == '.'
  {
    Decimal(h / 100) + "." + [DigitChar(h / 10 % 10), DigitChar(h % 10)] + "%"
  }

  /** Reads a percentage text back as hundredths of a percent, or None when
      it does not have the shape `<digits>.<digit><digit>%`. */
  function ParsePercent(s: string): (r: Option<nat>)
  {
    if |s| < 5 || s[|s| - 1] != '%' || s[|s| - 4] != '.' then None
    else
      var whole := s[..|s| - 4];
      var frac := s[|s| - 3..|s| - 1];
      if AllDigits(whole) && IsDigit(frac[0]) && IsDigit(frac[1])
      then Some(100 * DigitsValue(whole) + 10 * DigitValue(frac[0]) + DigitValue(frac[1]))
      else None
  }

  /** A text of the shape `<digits>.<digit><digit>%` reads back as its
      number of hundredths. */
  lemma ParseShape(w: string, a: char, b: char)
    requires |w| > 0 && AllDigits(w) && IsDigit(a) && IsDigit(b)
    ensures ParsePercent(w + "." + [a, b] + "%") == Some(100 * DigitsValue(w) + 10 * DigitValue(a) + DigitValue(b))
  {
    var s := w + "." + [a, b] + "%";
    assert |s| == |w| + 4;
    assert s[|s| - 1] == '%' && s[|s| - 4] == '.';
    assert s[..|s| - 4] == w;
    assert s[|s| - 3..|s| - 1] == [a, b];
  }

  /** The percentage text denotes the rounded percentage exactly. */
  lemma PercentTextRoundTrip(r: Ratio)
    requires r.den > 0
    ensures ParsePercent(PercentText(r)) == Some(Hundredths(r))
  {
    HundredthsTextRoundTrip(Hundredths(r));
  }

  lemma HundredthsTextRoundTrip(h: nat)
    ensures ParsePercent(HundredthsText(h)) == Some(h)
  {
    DigitRoundTrip(h / 10 % 10);
    DigitRoundTrip(h % 10);
    ParseShape(Decimal(h / 100), DigitChar(h / 10 % 10), DigitChar(h % 10));
    DecimalRoundTrip(h / 100);
    var q := h / 10;
    assert q / 10 == h / 100;
    assert h == 100 * (h / 100) + 10 * (h / 10 % 10) + h % 10;
  }

  /** The per-column loop of lines 95-96: each column's count over the number
      of rows of the left table. */
  method ColumnPercentages(counts: map<string, nat>, rows: nat) returns (pcts: map<string, Ratio>)
    requires rows > 0 || counts == map[]
    ensures pcts.Keys == counts.Keys
    ensures forall c :: c in counts ==> pcts[c] == Ratio(counts[c], rows)
  {
    pcts := map[];
    var todo := counts.Keys;
    while todo != {}
      invariant todo <= counts.Keys
      invariant pcts.Keys == counts.Keys - todo
      invariant forall c :: c in pcts ==> pcts[c] == Ratio(counts[c], rows)
      decreases |todo|
    {
      var c :| c in todo;
      pcts := pcts[c := Ratio(counts[c], rows)];
      todo := todo - {c};
    }
  }

  /** The text of each ratio with a non-zero denominator. */
  function PercentTexts(pcts: map<string, Ratio>): (texts: map<string, string>)
    ensures forall c :: c in texts <==> c in pcts && pcts[c].den > 0
  {
    map c | c in pcts && pcts[c].den > 0 :: PercentText(pcts[c])
  }

  /** Every compared column of `cols` has a text. */
  predicate Printable(texts: map<string, string>, cols: seq<string>) {
    forall i :: 0 <= i < |cols| && cols[i] != Key ==> cols[i] in texts
  }

  /** The summary row after its loop (lines 102-107) has visited the first
      `n` columns, with `texts` the formatted per-column percentages. */
  function SummaryFields(cols: seq<string>, prefix1: string, prefix2: string, texts: map<string, string>, n: nat): Row
    requires n <= |cols| && Printable(texts, cols)
  {
    if n == 0 then map[Key := Str(MatchingPercentage)]
    else
      var c := cols[n - 1];
      var m := SummaryFields(cols, prefix1, prefix2, texts, n - 1);
      if c == Key then m else Put3(m, c, prefix1, prefix2, Str(""), Str(""), Str(texts[c]))
  }

  /** The loop of lines 102-107 builds the summary row, formatting each
      compared column's percentage as it goes. */
  method BuildSummaryRow(cols: seq<string>, prefix1: string, prefix2: string, pcts: map<string, Ratio>) returns (row: Row)
    requires forall i :: 0 <= i < |cols| && cols[i] != Key ==> cols[i] in pcts && pcts[cols[i]].den > 0
    ensures Printable(PercentTexts(pcts), cols)
    ensures row == SummaryFields(cols, prefix1, prefix2, PercentTexts(pcts), |cols|)
  {
    ghost var texts := PercentTexts(pcts);
    row := map[Key := Str(MatchingPercentage)];
    var k := 0;
    while k < |cols|
      invariant 0 <= k <= |cols|
      invariant row == SummaryFields(cols, prefix1, prefix2, texts, k)
    {
      var col := cols[k];
      if col != Key {
        row := row[Label(col, prefix1) := Str("")];
        row := row[Label(col, prefix2) := Str("")];
        row := row[Label(col, Comparison) := Str(PercentText(pcts[col]))];
      }
      k := k + 1;
    }
  }

  /** The summary row has the same fields as every merged row. */
  lemma {:induction false} SummaryFieldsKeys(cols: seq<string>, prefix1: string, prefix2: string, texts: map<string, string>, n: nat)
    requires n <= |cols| && Printable(texts, cols)
    ensures forall l :: l in SummaryFields(cols, prefix1, prefix2, texts, n) <==> l in Labels(cols, prefix1, prefix2, n)
  {
    if n > 0 {
      SummaryFieldsKeys(cols, prefix1, prefix2, texts, n - 1);
    }
  }

  /** The key field of the summary row reads "Matching Percentage". */
  lemma {:induction false} SummaryFieldsKey(cols: seq<string>, prefix1: string, prefix2: string, texts: map<string, string>, n: nat)
    requires n <= |cols| && Printable(texts, cols)
    ensures var m := SummaryFields(cols, prefix1, prefix2, texts, n);
      Key in m && m[Key] == Str(MatchingPercentage)
  {
    if n > 0 {
      var c := cols[n - 1];
      SummaryFieldsKey(cols, prefix1, prefix2, texts, n - 1);
      if c != Key {
        Put3KeepsKey(SummaryFields(cols, prefix1, prefix2, texts, n - 1), c, prefix1, prefix2,
                     Str(""), Str(""), Str(texts[c]));
      }
    }
  }

  /** The column just visited has its three fields. */
  lemma SummaryFieldsLast(cols: seq<string>, prefix1: string, prefix2: string, texts: map<string, string>, i: nat)
    requires i < |cols| && Printable(texts, cols)
    requires UnambiguousLabels(cols, prefix1, prefix2) && cols[i] != Key
    ensures Holds3(SummaryFields(cols, prefix1, prefix2, texts, i + 1), cols[i], prefix1, prefix2,
                   Str(""), Str(""), Str(texts[cols[i]]))
  {
    Put3Sets(SummaryFields(cols, prefix1, prefix2, texts, i), cols, prefix1, prefix2, i,
             Str(""), Str(""), Str(texts[cols[i]]));
  }

  /** Once passed, a compared column has blank prefixed fields and its
      percentage text in its `_Comparison` field. */
  lemma {:induction false} SummaryFieldsAt(cols: seq<string>, prefix1: string, prefix2: string, texts: map<string, string>, n: nat, i: nat)
    requires n <= |cols| && Printable(texts, cols)
    requires Distinct(cols) && UnambiguousLabels(cols, prefix1, prefix2)
    requires i < n && cols[i] != Key
    ensures Holds3(SummaryFields(cols, prefix1, prefix2, texts, n), cols[i], prefix1, prefix2,
                   Str(""), Str(""), Str(texts[cols[i]]))
  {
    var c := cols[i];
    if i == n - 1 {
      SummaryFieldsLast(cols, prefix1, prefix2, texts, i);
    } else {
      SummaryFieldsAt(cols, prefix1, prefix2, texts, n - 1, i);
      var d := cols[n - 1];
      if d != Key {
        assert c != d;
        Put3Keeps(SummaryFields(cols, prefix1, prefix2, texts, n - 1), cols, prefix1, prefix2, i, n - 1,
                  Str(""), Str(""), Str(texts[c]), Str(""), Str(""), Str(texts[d]));
      }
    }
  }

  /** The layout of the summary row: 'ts' reads "Matching Percentage", both
      prefixed fields of every compared column are blank, and its
      `_Comparison` field carries that column's text. */
  lemma SummaryRowFields(cols: seq<string>, prefix1: string, prefix2: string, texts: map<string, string>)
    requires Printable(texts, cols) && Distinct(cols) && UnambiguousLabels(cols, prefix1, prefix2)
    ensures var m := SummaryFields(cols, prefix1, prefix2, texts, |cols|);
      && Key in m && m[Key] == Str(MatchingPercentage)
      && forall i :: 0 <= i < |cols| && cols[i] != Key ==>
           Holds3(m, cols[i], prefix1, prefix2, Str(""), Str(""), Str(texts[cols[i]]))
  {
    SummaryFieldsKey(cols, prefix1, prefix2, texts, |cols|);
    forall i | 0 <= i < |cols| && cols[i] != Key {
      SummaryFieldsAt(cols, prefix1, prefix2, texts, |cols|, i);
    }
  }

  /** Every text ends with a percent sign. */
  predicate PercentSigned(texts: map<string, string>) {
    forall c :: c in texts ==> |texts[c]| > 0 && texts[c][|texts[c]| - 1] == '%'
  }

  lemma PercentTextsSigned(pcts: map<string, Ratio>)
    ensures PercentSigned(PercentTexts(pcts))
  {
  }

  /** A cell value of the summary row never reads "Correct" or "FALSCH",
      whatever the labels: the key reads "Matching Percentage", the
      prefixed fields are blank and the percentages end in '%'. */
  lemma {:induction false} SummaryHasNoVerdict(cols: seq<string>, prefix1: string, prefix2: string, texts: map<string, string>, n: nat)
    requires n <= |cols| && Printable(texts, cols) && PercentSigned(texts)
    ensures forall l :: l in SummaryFields(cols, prefix1, prefix2, texts, n) ==>
      SummaryFields(cols, prefix1, prefix2, texts, n)[l] != Str(Correct) &&
      SummaryFields(cols, prefix1, prefix2, texts, n)[l] != Str(Falsch)
  {
    if n == 0 {
      assert |MatchingPercentage| != |Correct| && |MatchingPercentage| != |Falsch|;
    } else {
      SummaryHasNoVerdict(cols, prefix1, prefix2, texts, n - 1);
      var c := cols[n - 1];
      if c != Key {
        var t := texts[c];
        assert t != Correct by {
          assert Correct[|Correct| - 1] != '%';
        }
        assert t != Falsch by {
          assert Falsch[|Falsch| - 1] != '%';
        }
      }
    }
  }
}
