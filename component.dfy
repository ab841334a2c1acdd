/**
 * The component's run: the supported-country check, the output table name,
 * and the turning of one statistics page per day into the row handed to the
 * CSV writer. The HTTP requests and the HTML queries are outside the model:
 * a page arrives as the labels of the table's second header row and, when
 * the table has a body, the texts of the cells of its first body row.
 */
module Component {
  import opened Wrappers
  import opened Text

  /** One output row: column name to cell text. */
  type Row = map<string, string>

  // ---------------------------------------------------------------------
  // Countries and column mappings

  /** The countries `run` can log in to. */
  datatype Country = Cz | Sk

  /** Why `run` stops. */
  datatype RunError =
    | CountryNotSupported        // the configured country is neither "cz" nor "sk"
    | LoginFailed(status: int)   // the login request answered with a status other than 200
    | UndeclaredAttribute(name: string)  // an attribute the configuration class does not declare

  /** The country check of `run`: only "cz" and "sk" are supported. */
  function CheckCountry(country: string): (r: Result<Country, RunError>)
    ensures r.Success? <==> country == "cz" || country == "sk"
    ensures r == Success(Cz) <==> country == "cz"
    ensures r == Success(Sk) <==> country == "sk"
    ensures r.Failure? ==> r.error == CountryNotSupported
  {
    if country == "cz" then Success(Cz)
    else if country == "sk" then Success(Sk)
    else Failure(CountryNotSupported)
  }

  /** The Czech header label for visits, as the page's mis-decoded text reads it. */
  const CzVisitsLabel := "N\U{C3}\U{A1}v\U{C5}\U{A1}t\U{C4}\U{9B}vy"

  /** "Návštevy", the Slovak label of the visits column, as the page's mis-decoded text reads it. */
  const SkVisitsLabel := "N\U{C3}\U{A1}v\U{C5}\U{A1}tevy"

  /** The metric columns in the order both mappings list them. */
  const MetricOrder := ["visits", "cpc", "spend", "conversion_rates", "orders", "aov", "transaction_revenue", "pno"]

  /** The Czech labels, in the order of `MetricOrder`. */
  const CzLabels := [
    CzVisitsLabel, "CPC", "N\U{C3}\U{A1}klady", "Konverzn\U{C3}\U{AD} pom\U{C4}\U{9B}r", "Obj",
    "Pr\U{C5}\U{AF}m\U{C4}\U{9B}rn\U{C3}\U{A1} objedn\U{C3}\U{A1}vka", "Obrat", "N\U{C3}\U{A1}klady z\U{C2}\U{A0}obratu"
  ]

  /** The Slovak labels, in the order of `MetricOrder`. */
  const SkLabels := [
    SkVisitsLabel, "CPC", "N\U{C3}\U{A1}klady", "Konverzn\U{C3}\U{BD} pomer", "Obj",
    "Priemern\U{C3}\U{A1} objedn\U{C3}\U{A1}vka", "Obrat", "N\U{C3}\U{A1}klady z\U{C2}\U{A0}obratu"
  ]

  /** Header label to metric column, for the Czech site. */
  const CzMapping: map<string, string> := map[
    CzVisitsLabel := "visits",
    "CPC" := "cpc",
    "N\U{C3}\U{A1}klady" := "spend",
    "Konverzn\U{C3}\U{AD} pom\U{C4}\U{9B}r" := "conversion_rates",
    "Obj" := "orders",
    "Pr\U{C5}\U{AF}m\U{C4}\U{9B}rn\U{C3}\U{A1} objedn\U{C3}\U{A1}vka" := "aov",
    "Obrat" := "transaction_revenue",
    "N\U{C3}\U{A1}klady z\U{C2}\U{A0}obratu" := "pno"
  ]

  /** Header label to metric column, for the Slovak site. */
  const SkMapping: map<string, string> := map[
    SkVisitsLabel := "visits",
    "CPC" := "cpc",
    "N\U{C3}\U{A1}klady" := "spend",
    "Konverzn\U{C3}\U{BD} pomer" := "conversion_rates",
    "Obj" := "orders",
    "Priemern\U{C3}\U{A1} objedn\U{C3}\U{A1}vka" := "aov",
    "Obrat" := "transaction_revenue",
    "N\U{C3}\U{A1}klady z\U{C2}\U{A0}obratu" := "pno"
  ]

  /**
   * `get_stats_for_date` uses the Czech table for "cz" and the Slovak one for
   * anything else. Either way the labels map onto exactly the eight metric
   * columns, so no label can overwrite `eshop_id` or `date`; the Czech visits
   * label is known for "cz" only and the Slovak one for every other country.
   */
  function ColumnsMapping(country: string): (m: map<string, string>)
    ensures m.Values == MetricFields
    ensures "eshop_id" !in m.Values && "date" !in m.Values && "" !in m.Values
    ensures CzVisitsLabel in m <==> country == "cz"
    ensures SkVisitsLabel in m <==> country != "cz"
  {
    CzCoversMetrics();
    SkCoversMetrics();
    if country == "cz" then CzMapping else SkMapping
  }

  /** The eight metric columns. */
  const MetricFields: set<string> :=
    {"pno", "conversion_rates", "spend", "aov", "cpc", "orders", "visits", "transaction_revenue"}

  /** The writer's column order. */
  const WriterFieldnames: seq<string> :=
    ["eshop_id", "date", "pno", "conversion_rates", "spend", "aov", "cpc", "orders", "visits", "transaction_revenue"]

  /** The Czech table's values are the metric columns. */
  lemma CzCoversMetrics()
    ensures CzMapping.Values == MetricFields
  {
    CzTable();
    ValuesFromTable(CzMapping, CzLabels, MetricOrder);
    MetricOrderLists();
  }

  /** The Slovak table's values are the metric columns. */
  lemma SkCoversMetrics()
    ensures SkMapping.Values == MetricFields
  {
    SkTable();
    ValuesFromTable(SkMapping, SkLabels, MetricOrder);
    MetricOrderLists();
  }

  /** `MetricOrder` lists exactly the metric columns. */
  lemma MetricOrderLists()
    ensures MetricFields == set f | f in MetricOrder
  {
  }

  /** The Czech mapping lists `CzLabels` against `MetricOrder`. */
  lemma CzTable()
    ensures CzMapping.Keys == set l | l in CzLabels
    ensures forall i :: 0 <= i < |CzLabels| ==> CzLabels[i] in CzMapping && CzMapping[CzLabels[i]] == MetricOrder[i]
  {
  }

  /** The Slovak mapping lists `SkLabels` against `MetricOrder`. */
  lemma SkTable()
    ensures SkMapping.Keys == set l | l in SkLabels
    ensures forall i :: 0 <= i < |SkLabels| ==> SkLabels[i] in SkMapping && SkMapping[SkLabels[i]] == MetricOrder[i]
  {
  }

  /** A map given as two parallel lists has the second list's elements as its values. */
  lemma ValuesFromTable(m: map<string, string>, keys: seq<string>, names: seq<string>)
    requires |keys| == |names|
    requires m.Keys == set l | l in keys
    requires forall i :: 0 <= i < |keys| ==> keys[i] in m && m[keys[i]] == names[i]
    ensures m.Values == set n | n in names
  {
    forall v | v in m.Values ensures v in names {
      var l :| l in m && m[l] == v;
      var i :| 0 <= i < |keys| && keys[i] == l;
    }
    forall v | v in names ensures v in m.Values {
      var i :| 0 <= i < |names| && names[i] == v;
      assert m[keys[i]] == v;
    }
  }

  /** The writer's columns are the two identity columns followed by the metric columns. */
  lemma FieldnamesAreIdentityAndMetrics()
    ensures (set f | f in WriterFieldnames) == {"eshop_id", "date"} + MetricFields
  {
  }

  // ---------------------------------------------------------------------
  // Cell values

  /** Koruna suffix: a no-break space and "Kč", as the page's mis-decoded text reads them. */
  const KorunaSuffix := "\U{C2}\U{A0}K\U{C4}\U{8D}"
  /** Euro suffix: a no-break space and "€", as the page's mis-decoded text reads them. */
  const EuroSuffix := "\U{C2}\U{A0}\U{E2}\U{82}\U{AC}"
  /** The first cell of the totals-only row the site renders for a day without data. */
  const TotalSentinel := "Celkem"

  /** A cell's text with the koruna suffix, then the euro suffix, then every `%` removed. */
  function StripValue(v: string): (r: string)
    ensures '%' !in r
    ensures |r| <= |v|
  {
    var a := ReplaceAll(v, KorunaSuffix, "");
    var b := ReplaceAll(a, EuroSuffix, "");
    DeleteShrinks(v, KorunaSuffix);
    DeleteShrinks(a, EuroSuffix);
    DeleteShrinks(b, "%");
    DeleteCharRemovesIt(b, '%');
    ReplaceAll(b, "%", "")
  }

  /** The texts of a row's cells, each stripped. */
  function StripCells(cells: seq<string>): seq<string>
  {
    seq(|cells|, i requires 0 <= i < |cells| => StripValue(cells[i]))
  }

  /** A cell text holding neither a `%` nor the first character of either suffix is kept as is. */
  lemma StripPlain(v: string)
    requires '%' !in v && KorunaSuffix[0] !in v
    ensures StripValue(v) == v
  {
    AbsentChar(v, KorunaSuffix, 0);
    AbsentChar(v, EuroSuffix, 0);
    AbsentChar(v, "%", 0);
  }

  /** The sentinel survives stripping. */
  lemma SentinelStrips()
    ensures StripValue(TotalSentinel) == TotalSentinel
  {
    StripPlain(TotalSentinel);
  }

  /** Stripping a stripped value again changes nothing, unless a suffix was pieced together by deleting a `%`. */
  lemma StripIdempotentWhenNoSuffixLeft(v: string)
    requires !Occurs(StripValue(v), KorunaSuffix) && !Occurs(StripValue(v), EuroSuffix)
    ensures StripValue(StripValue(v)) == StripValue(v)
  {
    var s := StripValue(v);
    AbsentChar(s, "%", 0);
  }

  /**
   * Each decoration is removed: a text with no `%` and no `Â` (the code
   * point both suffixes start with) loses a trailing koruna suffix, euro
   * suffix or `%`, and nothing else.
   */
  lemma StripRemovesDecoration(x: string)
    requires '%' !in x && KorunaSuffix[0] !in x
    ensures StripValue(x + KorunaSuffix) == x
    ensures StripValue(x + EuroSuffix) == x
    ensures StripValue(x + "%") == x
  {
    StripRemovesKoruna(x);
    StripRemovesEuro(x);
    StripRemovesPercent(x);
  }

  /** No pass changes a text with no `%` and no `Â`. */
  lemma PlainPasses(x: string)
    requires '%' !in x && KorunaSuffix[0] !in x
    ensures ReplaceAll(x, KorunaSuffix, "") == x
    ensures ReplaceAll(x, EuroSuffix, "") == x
    ensures ReplaceAll(x, "%", "") == x
  {
    AbsentChar(x, KorunaSuffix, 0);
    AbsentChar(x, EuroSuffix, 0);
    AbsentChar(x, "%", 0);
  }

  /** A trailing koruna suffix goes in the first pass. */
  lemma StripRemovesKoruna(x: string)
    requires '%' !in x && KorunaSuffix[0] !in x
    ensures StripValue(x + KorunaSuffix) == x
  {
    PlainPasses(x);
    ReplaceAllSkipsPrefix(x, KorunaSuffix, KorunaSuffix, "");
    assert KorunaSuffix + [] == KorunaSuffix;
    ReplaceAllAtStart([], KorunaSuffix, "");
    assert x + "" == x;
  }

  /** A trailing euro suffix survives the first pass and goes in the second. */
  lemma StripRemovesEuro(x: string)
    requires '%' !in x && KorunaSuffix[0] !in x
    ensures StripValue(x + EuroSuffix) == x
  {
    PlainPasses(x);
    MismatchNotStartsWith(EuroSuffix, KorunaSuffix, 2);
    assert !Occurs(EuroSuffix, KorunaSuffix);
    ReplaceAllSkipsPrefix(x, EuroSuffix, KorunaSuffix, "");
    ReplaceAllSkipsPrefix(x, EuroSuffix, EuroSuffix, "");
    assert EuroSuffix + [] == EuroSuffix;
    ReplaceAllAtStart([], EuroSuffix, "");
    assert x + "" == x;
  }

  /** A trailing `%` survives both suffix passes and goes in the third. */
  lemma StripRemovesPercent(x: string)
    requires '%' !in x && KorunaSuffix[0] !in x
    ensures StripValue(x + "%") == x
  {
    PlainPasses(x);
    ShorterThanPattern("%", KorunaSuffix);
    ShorterThanPattern("%", EuroSuffix);
    ReplaceAllSkipsPrefix(x, "%", KorunaSuffix, "");
    ReplaceAllSkipsPrefix(x, "%", EuroSuffix, "");
    ReplaceAllSkipsPrefix(x, "%", "%", "");
    assert "%" + [] == "%";
    ReplaceAllAtStart([], "%", "");
    assert x + "" == x;
  }

  /** A cell text in which deleting the `%` joins a koruna suffix. */
  const PercentInsideSuffix := "\U{C2}\U{A0}K%\U{C4}\U{8D}"

  /** Neither suffix occurs in `PercentInsideSuffix`, so the first two deletions keep it. */
  lemma SuffixPassesKeep(pat: string)
    requires pat == KorunaSuffix || pat == EuroSuffix
    ensures ReplaceAll(PercentInsideSuffix, pat, "") == PercentInsideSuffix
  {
    var v := PercentInsideSuffix;
    MismatchNotStartsWith(v, pat, if pat == KorunaSuffix then 3 else 2);
    MismatchNotStartsWith(v[1..], pat, 0);
    ShorterThanPattern(v[2..], pat);
    assert v[1..][1..] == v[2..];
  }

  /** Deleting the `%` of `PercentInsideSuffix` leaves exactly the koruna suffix. */
  lemma PercentPassJoins()
    ensures ReplaceAll(PercentInsideSuffix, "%", "") == KorunaSuffix
  {
    var v := PercentInsideSuffix;
    var w := "\U{C4}\U{8D}";
    AbsentChar(w, "%", 0);
    AbsentChar(v[..3], "%", 0);
    assert v[3..][1..] == w;
    assert ReplaceAll(v[3..], "%", "") == w;
    ReplaceAllSplit(v, 3, "%", "");
    assert v[..3] + w == KorunaSuffix;
  }

  /** Stripping the koruna suffix itself leaves nothing. */
  lemma StripKorunaSuffix()
    ensures StripValue(KorunaSuffix) == ""
  {
    assert StartsWith(KorunaSuffix, KorunaSuffix);
    assert KorunaSuffix[|KorunaSuffix|..] == "";
  }

  /**
   * Stripping is not idempotent in general: deleting the `%` of
   * `PercentInsideSuffix` joins a koruna suffix that a second pass deletes.
   */
  lemma StripNotIdempotent()
    ensures StripValue(PercentInsideSuffix) == KorunaSuffix
    ensures StripValue(StripValue(PercentInsideSuffix)) != StripValue(PercentInsideSuffix)
  {
    SuffixPassesKeep(KorunaSuffix);
    SuffixPassesKeep(EuroSuffix);
    PercentPassJoins();
    StripKorunaSuffix();
  }

  // ---------------------------------------------------------------------
  // Building the row

  /** A header label that adds a column: the mapping knows it and gives a non-empty name. */
  predicate MapsTo(mapping: map<string, string>, heading: string, key: string)
  {
    heading in mapping && mapping[heading] != "" && mapping[heading] == key
  }

  /**
   * The row after the first `k` (label, value) pairs of the zip have been
   * visited. The zip only adds columns: every starting column stays, and every
   * new one is a value of the mapping.
   */
  function Fill(base: Row, mapping: map<string, string>, names: seq<string>, values: seq<string>, k: nat): (r: Row)
    requires k <= |names| && k <= |values|
    ensures base.Keys <= r.Keys <= base.Keys + mapping.Values
  {
    if k == 0 then base
    else
      var r := Fill(base, mapping, names, values, k - 1);
      var heading := names[k - 1];
      if heading in mapping && mapping[heading] != "" then r[mapping[heading] := values[k - 1]] else r
  }

  /** The smaller of two lengths: how many pairs `zip` yields. */
  function Min(a: nat, b: nat): nat
  {
    if a <= b then a else b
  }

  /** A page's body, if present, has a first row with at least one cell. */
  predicate WellFormedBody(body: Option<seq<string>>)
  {
    body.Some? ==> |body.value| > 0
  }

  /** The two columns every row starts with. */
  function IdentityRow(eshopId: string, date: string): Row
  {
    map["eshop_id" := eshopId, "date" := date]
  }

  /**
   * What `get_stats_for_date` returns for one page: nothing without a table
   * body, and otherwise a row that carries the given shop and date and whose
   * columns are all among the writer's fieldnames.
   */
  function StatsRow(country: string, header: seq<string>, body: Option<seq<string>>, eshopId: string, date: string)
    : (r: Option<Row>)
    requires WellFormedBody(body)
    ensures r.None? <==> body.None?
    ensures r.Some? ==> "eshop_id" in r.value && r.value["eshop_id"] == eshopId
    ensures r.Some? ==> "date" in r.value && r.value["date"] == date
    ensures r.Some? ==> r.value.Keys <= {"eshop_id", "date"} + MetricFields
  {
    match body
    case None => None
    case Some(cells) =>
      var values := StripCells(cells);
      if values[0] == TotalSentinel then Some(IdentityRow(eshopId, date))
      else
        var base := IdentityRow(eshopId, date);
        var m := ColumnsMapping(country);
        var n := Min(|header|, |values|);
        FillUntouched(base, m, header, values, n, "eshop_id");
        FillUntouched(base, m, header, values, n, "date");
        Some(Fill(base, m, header, values, n))
  }

  /**
   * The parsing half of `get_stats_for_date`: strip the first body row's
   * cells, start the row with the identity columns, and unless the first
   * cell is the totals sentinel, visit the zip of labels and values and
   * store each value under the column its heading maps to.
   */
  method ExtractRow(country: string, header: seq<string>, body: Option<seq<string>>, eshopId: string, date: string)
    returns (row: Option<Row>)
    requires WellFormedBody(body)
    ensures row.None? <==> body.None?
    ensures row == StatsRow(country, header, body, eshopId, date)
  {
    if body.None? {
      return None;
    }
    var values := StripCells(body.value);
    var r := IdentityRow(eshopId, date);
    if values[0] != TotalSentinel {
      r := Zip(r, ColumnsMapping(country), header, values, Min(|header|, |values|));
    }
    row := Some(r);
  }

  /** The `for column_name, value in zip(...)` loop: store each value under the column its heading maps to. */
  method Zip(base: Row, mapping: map<string, string>, names: seq<string>, values: seq<string>, n: nat)
    returns (r: Row)
    requires n <= |names| && n <= |values|
    ensures r == Fill(base, mapping, names, values, n)
  {
    r := base;
    var i := 0;
    while i < n
      invariant 0 <= i <= n
      invariant r == Fill(base, mapping, names, values, i)
    {
      var heading := names[i];
      if heading in mapping && mapping[heading] != "" {
        r := r[mapping[heading] := values[i]];
      }
      i := i + 1;
    }
  }

  // ---------------------------------------------------------------------
  // Properties of the zip

  /** The value stored under a column is the one at the last visited position whose heading maps to it. */
  lemma {:induction false} FillLast(base: Row, mapping: map<string, string>, names: seq<string>, values: seq<string>,
                                    k: nat, j: nat, key: string)
    requires k <= |names| && k <= |values| && j < k
    requires MapsTo(mapping, names[j], key)
    requires forall i :: j < i < k ==> !MapsTo(mapping, names[i], key)
    ensures key in Fill(base, mapping, names, values, k)
    ensures Fill(base, mapping, names, values, k)[key] == values[j]
  {
    if k - 1 > j {
      FillLast(base, mapping, names, values, k - 1, j, key);
    }
  }

  /** A column no visited heading maps to keeps what the starting row had there, or stays absent. */
  lemma {:induction false} FillUntouched(base: Row, mapping: map<string, string>, names: seq<string>, values: seq<string>,
                                         k: nat, key: string)
    requires k <= |names| && k <= |values|
    requires forall i :: 0 <= i < k ==> !MapsTo(mapping, names[i], key)
    ensures key in Fill(base, mapping, names, values, k) <==> key in base
    ensures key in base ==> Fill(base, mapping, names, values, k)[key] == base[key]
  {
    if k > 0 {
      FillUntouched(base, mapping, names, values, k - 1, key);
    }
  }

  /** A column outside the starting row is in the row exactly when some visited heading maps to it. */
  lemma {:induction false} FillHasKey(base: Row, mapping: map<string, string>, names: seq<string>, values: seq<string>,
                                      k: nat, key: string)
    requires k <= |names| && k <= |values| && key !in base
    ensures key in Fill(base, mapping, names, values, k) <==> exists j :: 0 <= j < k && MapsTo(mapping, names[j], key)
  {
    if k > 0 {
      FillHasKey(base, mapping, names, values, k - 1, key);
    }
  }

  /** Every column of the row outside the starting row holds one of the visited values. */
  lemma {:induction false} FillValueOrigin(base: Row, mapping: map<string, string>, names: seq<string>, values: seq<string>,
                                           k: nat, key: string)
    requires k <= |names| && k <= |values|
    requires key in Fill(base, mapping, names, values, k) && key !in base
    ensures exists i :: 0 <= i < k && Fill(base, mapping, names, values, k)[key] == values[i]
  {
    var r := Fill(base, mapping, names, values, k - 1);
    var heading := names[k - 1];
    if heading in mapping && mapping[heading] != "" && mapping[heading] == key {
      assert Fill(base, mapping, names, values, k)[key] == values[k - 1];
    } else {
      FillValueOrigin(base, mapping, names, values, k - 1, key);
    }
  }

  /** The row depends on the first `k` labels and values only. */
  lemma {:induction false} FillPrefix(base: Row, mapping: map<string, string>,
                                      names: seq<string>, values: seq<string>,
                                      names': seq<string>, values': seq<string>, k: nat)
    requires k <= |names| && k <= |values| && k <= |names'| && k <= |values'|
    requires names[..k] == names'[..k] && values[..k] == values'[..k]
    ensures Fill(base, mapping, names, values, k) == Fill(base, mapping, names', values', k)
  {
    if k > 0 {
      assert names[..k - 1] == names[..k][..k - 1];
      assert names'[..k - 1] == names'[..k][..k - 1];
      assert values[..k - 1] == values[..k][..k - 1];
      assert values'[..k - 1] == values'[..k][..k - 1];
      assert names[k - 1] == names[..k][k - 1] && names'[k - 1] == names'[..k][k - 1];
      assert values[k - 1] == values[..k][k - 1] && values'[k - 1] == values'[..k][k - 1];
      FillPrefix(base, mapping, names, values, names', values', k - 1);
    }
  }

  // ---------------------------------------------------------------------
  // Properties of the extracted row

  /** A day whose first cell strips to the sentinel yields the two identity columns and nothing else. */
  lemma SentinelRow(country: string, header: seq<string>, cells: seq<string>, eshopId: string, date: string)
    requires |cells| > 0 && StripValue(cells[0]) == TotalSentinel
    ensures StatsRow(country, header, Some(cells), eshopId, date) == Some(IdentityRow(eshopId, date))
    ensures StatsRow(country, header, Some(cells), eshopId, date).value.Keys == {"eshop_id", "date"}
  {
  }

  /** In particular a first cell reading exactly "Celkem" gives the identity-only row. */
  lemma CelkemRow(country: string, header: seq<string>, cells: seq<string>, eshopId: string, date: string)
    requires |cells| > 0 && cells[0] == TotalSentinel
    ensures StatsRow(country, header, Some(cells), eshopId, date) == Some(IdentityRow(eshopId, date))
  {
    SentinelStrips();
    SentinelRow(country, header, cells, eshopId, date);
  }

  /** Every column a row can carry is one of the writer's fieldnames. */
  lemma RowKeysInFieldnames(country: string, header: seq<string>, body: Option<seq<string>>, eshopId: string, date: string)
    requires WellFormedBody(body)
    ensures var r := StatsRow(country, header, body, eshopId, date);
      r.Some? ==> forall key :: key in r.value ==> key in WriterFieldnames
  {
    FieldnamesAreIdentityAndMetrics();
  }

  /**
   * Outside the identity columns, a column is in the row exactly when some
   * heading among the first min(|header|, |cells|) maps to it, and then it
   * holds the stripped cell of the last such heading.
   */
  lemma MetricColumn(country: string, header: seq<string>, cells: seq<string>, eshopId: string, date: string,
                     key: string)
    requires |cells| > 0 && StripValue(cells[0]) != TotalSentinel
    requires key != "eshop_id" && key != "date"
    ensures var row := StatsRow(country, header, Some(cells), eshopId, date).value;
      key in row <==> exists j :: 0 <= j < Min(|header|, |cells|) && MapsTo(ColumnsMapping(country), header[j], key)
    ensures var row := StatsRow(country, header, Some(cells), eshopId, date).value;
      forall j :: 0 <= j < Min(|header|, |cells|) && MapsTo(ColumnsMapping(country), header[j], key)
        && (forall i :: j < i < Min(|header|, |cells|) ==> !MapsTo(ColumnsMapping(country), header[i], key))
        ==> key in row && row[key] == StripValue(cells[j])
  {
    var values := StripCells(cells);
    var m := ColumnsMapping(country);
    var n := Min(|header|, |cells|);
    var base := IdentityRow(eshopId, date);
    var row := Fill(base, m, header, values, n);
    assert StatsRow(country, header, Some(cells), eshopId, date).value == row;
    FillHasKey(base, m, header, values, n, key);
    forall j | 0 <= j < n && MapsTo(m, header[j], key) && (forall i :: j < i < n ==> !MapsTo(m, header[i], key))
      ensures key in row && row[key] == StripValue(cells[j])
    {
      FillLast(base, m, header, values, n, j, key);
    }
  }

  /** No metric value of a row contains `%`. */
  lemma MetricValuesHaveNoPercent(country: string, header: seq<string>, cells: seq<string>, eshopId: string, date: string,
                                  key: string)
    requires |cells| > 0
    requires key != "eshop_id" && key != "date"
    requires key in StatsRow(country, header, Some(cells), eshopId, date).value
    ensures '%' !in StatsRow(country, header, Some(cells), eshopId, date).value[key]
  {
    var values := StripCells(cells);
    if values[0] != TotalSentinel {
      FillValueOrigin(IdentityRow(eshopId, date), ColumnsMapping(country), header, values, Min(|header|, |values|), key);
    }
  }

  /** Labels beyond the last cell are ignored by the zip. */
  lemma ExtraLabelsIgnored(country: string, header: seq<string>, extra: seq<string>, cells: seq<string>,
                           eshopId: string, date: string)
    requires |cells| > 0 && |header| >= |cells|
    ensures StatsRow(country, header + extra, Some(cells), eshopId, date)
         == StatsRow(country, header, Some(cells), eshopId, date)
  {
    var values := StripCells(cells);
    if values[0] != TotalSentinel {
      var n := |cells|;
      assert Min(|header + extra|, |values|) == n == Min(|header|, |values|);
      assert (header + extra)[..n] == header[..n];
      FillPrefix(IdentityRow(eshopId, date), ColumnsMapping(country), header + extra, values, header, values, n);
    }
  }

  /** Cells beyond the last heading are ignored by the zip. */
  lemma ExtraCellsIgnored(country: string, header: seq<string>, cells: seq<string>, extra: seq<string>,
                          eshopId: string, date: string)
    requires |cells| > 0 && |cells| >= |header|
    ensures StatsRow(country, header, Some(cells + extra), eshopId, date)
         == StatsRow(country, header, Some(cells), eshopId, date)
  {
    var n := |header|;
    var v1 := StripCells(cells + extra);
    var v2 := StripCells(cells);
    assert v1[0] == v2[0];
    assert v1[..n] == v2[..n];
    FillPrefix(IdentityRow(eshopId, date), ColumnsMapping(country), header, v1, header, v2, n);
  }

  /**
   * Outside "cz", for any header: every metric column of a row comes from a
   * visited label that the Slovak table knows and maps to that column.
   */
  lemma ForeignLabelsDropped(country: string, header: seq<string>, cells: seq<string>, eshopId: string, date: string)
    requires country != "cz" && |cells| > 0
    ensures var row := StatsRow(country, header, Some(cells), eshopId, date).value;
      forall key :: key in row && key != "eshop_id" && key != "date" ==>
        exists j :: 0 <= j < Min(|header|, |cells|) && header[j] in SkMapping && SkMapping[header[j]] == key
  {
    var row := StatsRow(country, header, Some(cells), eshopId, date).value;
    if StripValue(cells[0]) == TotalSentinel {
      SentinelRow(country, header, cells, eshopId, date);
    } else {
      forall key | key in row && key != "eshop_id" && key != "date"
        ensures exists j :: 0 <= j < Min(|header|, |cells|) && header[j] in SkMapping && SkMapping[header[j]] == key
      {
        MetricColumn(country, header, cells, eshopId, date, key);
      }
    }
  }

  /**
   * In particular, outside "cz" only the Slovak visits label produces the
   * `visits` column; the Czech visits label is a different text.
   */
  lemma CzechVisitsIgnoredElsewhere(country: string, header: seq<string>, cells: seq<string>, eshopId: string, date: string)
    requires country != "cz" && |cells| > 0
    ensures CzVisitsLabel != SkVisitsLabel
    ensures "visits" in StatsRow(country, header, Some(cells), eshopId, date).value ==>
      exists j :: 0 <= j < Min(|header|, |cells|) && header[j] == SkVisitsLabel
  {
    var row := StatsRow(country, header, Some(cells), eshopId, date).value;
    ForeignLabelsDropped(country, header, cells, eshopId, date);
    if "visits" in row {
      var j :| 0 <= j < Min(|header|, |cells|) && header[j] in SkMapping && SkMapping[header[j]] == "visits";
      SkVisitsOnly(header[j]);
    }
  }

  /** The Slovak table maps only its visits label to `visits`. */
  lemma SkVisitsOnly(heading: string)
    requires heading in SkMapping && SkMapping[heading] == "visits"
    ensures heading == SkVisitsLabel
  {
    SkTable();
    var i :| 0 <= i < |SkLabels| && SkLabels[i] == heading;
    assert MetricOrder[i] == "visits";
    assert i == 0;
  }

  // ---------------------------------------------------------------------
  // The run

  /** `table_name or eshop_id`: an empty configured name falls back to the shop id. */
  function TableName(configured: string, eshopId: string): (r: string)
    ensures configured == [] ==> r == eshopId
    ensures configured != [] ==> r == configured
    ensures r == [] <==> configured == [] && eshopId == []
  {
    if configured != [] then configured else eshopId
  }

  /** One fetched statistics page, as the HTML queries extract it. */
  datatype Page = Page(header: seq<string>, body: Option<seq<string>>)

  /** The `destination` section of the configuration. */
  datatype Destination = Destination(tableName: string, incrementalLoad: bool)

  /** The output table definition `run` creates and the rows it writes, one per date. */
  datatype Output = Output(fileName: string, incremental: bool, primaryKey: seq<string>,
                           fieldnames: seq<string>, rows: seq<Option<Row>>)

  /** The loop of `run`: one `writerow` per date, in date order, with whatever `get_stats_for_date` returned. */
  method WriteRows(country: string, eshopId: string, dates: seq<string>, pages: seq<Page>)
    returns (rows: seq<Option<Row>>)
    requires |pages| == |dates|
    requires forall i :: 0 <= i < |pages| ==> WellFormedBody(pages[i].body)
    ensures |rows| == |dates|
    ensures forall i :: 0 <= i < |dates| ==>
      rows[i] == StatsRow(country, pages[i].header, pages[i].body, eshopId, dates[i])
  {
    rows := [];
    var i := 0;
    while i < |dates|
      invariant 0 <= i <= |dates|
      invariant |rows| == i
      invariant forall k :: 0 <= k < i ==>
        rows[k] == StatsRow(country, pages[k].header, pages[k].body, eshopId, dates[k])
    {
      var row := ExtractRow(country, pages[i].header, pages[i].body, eshopId, dates[i]);
      rows := rows + [row];
      i := i + 1;
    }
  }

  /** The checks `run` makes before writing: the country, then the login response's status. */
  function Preflight(country: string, loginStatus: int): (r: Result<Country, RunError>)
    ensures r.Success? <==> CheckCountry(country).Success? && loginStatus == 200
    ensures CheckCountry(country).Failure? ==> r == Failure(CountryNotSupported)
    ensures CheckCountry(country).Success? && loginStatus != 200 ==> r == Failure(LoginFailed(loginStatus))
  {
    match CheckCountry(country)
    case Failure(e) => Failure(e)
    case Success(c) => if loginStatus != 200 then Failure(LoginFailed(loginStatus)) else Success(c)
  }

  /**
   * `run` as written: after a successful login it asks the destination for
   * `load_type`, which `Destination` does not declare, so the attribute
   * lookup raises before the table is defined and no row is ever written.
   */
  method RunAsWritten(country: string, loginStatus: int, destination: Destination, eshopId: string,
                      dates: seq<string>, pages: seq<Page>)
    returns (res: Result<Output, RunError>)
    ensures res.Failure?
    ensures Preflight(country, loginStatus).Failure? ==> res == Failure(Preflight(country, loginStatus).error)
    ensures Preflight(country, loginStatus).Success? ==> res == Failure(UndeclaredAttribute("load_type"))
  {
    var pre := Preflight(country, loginStatus);
    if pre.Failure? {
      return Failure(pre.error);
    }
    return Failure(UndeclaredAttribute("load_type"));
  }

  /**
   * `run` after configuration loading, with the incremental flag read from
   * the field `Destination` declares for it: check the country and the login
   * status, define the table and write one row per date. The login's status
   * code and the pages fetched per date are inputs.
   */
  method Run(country: string, loginStatus: int, destination: Destination, eshopId: string,
             dates: seq<string>, pages: seq<Page>)
    returns (res: Result<Output, RunError>)
    requires |pages| == |dates|
    requires forall i :: 0 <= i < |pages| ==> WellFormedBody(pages[i].body)
    ensures res.Success? <==> CheckCountry(country).Success? && loginStatus == 200
    ensures res.Failure? ==> res.error == Preflight(country, loginStatus).error
    ensures res.Success? ==> res.value.fileName == TableName(destination.tableName, eshopId) + ".csv"
    ensures res.Success? ==> res.value.incremental == destination.incrementalLoad
    ensures res.Success? ==> res.value.primaryKey == ["eshop_id", "date"]
    ensures res.Success? ==> res.value.fieldnames == WriterFieldnames
    ensures res.Success? ==> |res.value.rows| == |dates|
    ensures res.Success? ==> forall i :: 0 <= i < |dates| ==>
      res.value.rows[i] == StatsRow(country, pages[i].header, pages[i].body, eshopId, dates[i])
  {
    var pre := Preflight(country, loginStatus);
    if pre.Failure? {
      return Failure(pre.error);
    }
    var name := TableName(destination.tableName, eshopId);
    var rows := WriteRows(country, eshopId, dates, pages);
    res := Success(Output(name + ".csv", destination.incrementalLoad, ["eshop_id", "date"], WriterFieldnames, rows));
  }

  /**
   * Every written row that is present is keyed by the shop and its own date,
   * so rows for distinct dates have distinct (eshop_id, date) keys.
   */
  lemma WrittenRowsKeyedByDate(country: string, eshopId: string, dates: seq<string>, pages: seq<Page>,
                               rows: seq<Option<Row>>, i: nat, j: nat)
    requires |pages| == |dates| == |rows|
    requires forall k :: 0 <= k < |pages| ==> WellFormedBody(pages[k].body)
    requires forall k :: 0 <= k < |dates| ==>
      rows[k] == StatsRow(country, pages[k].header, pages[k].body, eshopId, dates[k])
    requires i < |rows| && j < |rows| && rows[i].Some? && rows[j].Some? && dates[i] != dates[j]
    ensures "eshop_id" in rows[i].value && "date" in rows[i].value
    ensures "eshop_id" in rows[j].value && "date" in rows[j].value
    ensures rows[i].value["eshop_id"] == rows[j].value["eshop_id"] == eshopId
    ensures rows[i].value["date"] == dates[i] != dates[j] == rows[j].value["date"]
  {
  }
}
