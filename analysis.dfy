/** The analyser (src/analysis/tweet_analyzer.py): the analysis-ready frame
    built from the table, the sentiment summary and the daily tweet counts
    behind the time series chart. `TweetAnalyzer` keeps its handler in
    `self.db`; here the handler is the `db` parameter of each operation, and
    TextBlob's polarity is the `polarity` parameter. Rendering and writing
    the charts is not modelled; what is modelled is the data each chart
    is drawn from and the choice between the chart and its placeholder. */
module Analysis {
  import opened Base
  import opened Store
  import opened Transform

  const IdColumn := "id"
  const CreatedAtColumn := "created_at"
  const AccountNameColumn := "account_name"
  const PoliticalColumn := "is_political_account"

  /** The selected columns that stay after `metrics` is dropped. */
  const BaseColumns: set<string> := {IdColumn, TextColumn, CreatedAtColumn, AccountNameColumn, PoliticalColumn}

  // ---------------------------------------------------------------------
  // get_tweets_dataframe

  /** The columns `json_normalize` makes of the `metrics` cells. */
  function MetricKeys(rows: seq<Row>): set<string>
    decreases |rows|
  {
    if rows == [] then {} else MetricKeys(rows[..|rows| - 1]) + rows[|rows| - 1].metrics.Keys
  }

  /** The metric columns are exactly the keys that occur in some row's
      metrics. */
  lemma {:induction false} MetricKeysMembers(rows: seq<Row>)
    ensures forall i, k :: 0 <= i < |rows| && k in rows[i].metrics ==> k in MetricKeys(rows)
    ensures forall k :: k in MetricKeys(rows) ==> exists i :: 0 <= i < |rows| && k in rows[i].metrics
    decreases |rows|
  {
    if rows != [] {
      var p := rows[..|rows| - 1];
      MetricKeysMembers(p);
      assert forall i :: 0 <= i < |p| ==> p[i] == rows[i];
    }
  }

  /** A nullable text column cell. */
  function OptionalText(a: Option<string>): Value {
    match a
    case None => VNull
    case Some(s) => VText(s)
  }

  /** One selected row with its metrics spread into `metricColumns`. */
  function Flattened(r: Row, metricColumns: set<string>): (rec: Record)
    ensures rec.Keys == BaseColumns + metricColumns
  {
    var metricCells := map k | k in metricColumns :: if k in r.metrics then VInt(r.metrics[k]) else VNull;
    metricCells + map[
      IdColumn := VInt(r.id),
      TextColumn := VText(r.text),
      CreatedAtColumn := VTime(r.createdAt),
      AccountNameColumn := OptionalText(r.accountName),
      PoliticalColumn := VBool(r.isPoliticalAccount)]
  }

  /** The cells of a flattened row: the five selected fields, and for each
      metrics key that is not one of those column names the row's counter,
      or a missing value (NaN) when the row lacks it. A metrics key equal
      to a selected column's name is shadowed by that column. */
  lemma FlattenedCells(r: Row, metricColumns: set<string>)
    ensures var rec := Flattened(r, metricColumns);
      && rec[IdColumn] == VInt(r.id)
      && rec[TextColumn] == VText(r.text)
      && rec[CreatedAtColumn] == VTime(r.createdAt)
      && rec[AccountNameColumn] == OptionalText(r.accountName)
      && rec[PoliticalColumn] == VBool(r.isPoliticalAccount)
      && forall k :: k in metricColumns && k !in BaseColumns ==>
           rec[k] == (if k in r.metrics then VInt(r.metrics[k]) else VNull)
  {
  }

  /** The frame built from the selected rows: `metrics` replaced by one
      column per metrics key, rows labelled 0..n-1, before cleaning. */
  function FrameOf(rows: seq<Row>): (f: Frame)
    ensures WellFormed(f) && f.index == Range(|rows|) && |f.rows| == |rows|
    ensures f.columns == BaseColumns + MetricKeys(rows)
    ensures forall i :: 0 <= i < |rows| ==> f.rows[i] == Flattened(rows[i], MetricKeys(rows))
  {
    var ks := MetricKeys(rows);
    Frame(BaseColumns + ks, Range(|rows|), seq(|rows|, i requires 0 <= i < |rows| => Flattened(rows[i], ks)))
  }

  /** A frame the summary and the chart can be computed from: labelled
      0..n-1, with a string text, a real sentiment and a timestamp per row. */
  predicate Analysable(f: Frame) {
    && WellFormed(f)
    && f.index == Range(|f.rows|)
    && TextColumn in f.columns && SentimentColumn in f.columns && CreatedAtColumn in f.columns
    && forall i :: 0 <= i < |f.rows| ==>
         && f.rows[i][TextColumn].VText?
         && f.rows[i][SentimentColumn].VReal?
         && f.rows[i][CreatedAtColumn].VTime?
  }

  /** The frame construction gives every row a string text and a timestamp. */
  lemma FrameOfCells(rows: seq<Row>)
    ensures TextColumn in FrameOf(rows).columns && CreatedAtColumn in FrameOf(rows).columns
    ensures forall i :: 0 <= i < |rows| ==>
      && FrameOf(rows).rows[i][TextColumn] == VText(rows[i].text)
      && FrameOf(rows).rows[i][CreatedAtColumn] == VTime(rows[i].createdAt)
  {
    forall i | 0 <= i < |rows|
      ensures FrameOf(rows).rows[i][TextColumn] == VText(rows[i].text)
      ensures FrameOf(rows).rows[i][CreatedAtColumn] == VTime(rows[i].createdAt)
    {
      FlattenedCells(rows[i], MetricKeys(rows));
    }
  }

  /** Cleaning and scoring a frame whose texts are strings and whose
      `created_at` cells are timestamps cannot fail and gives an analysable
      frame. */
  lemma TransformedAnalysable(f: Frame, polarity: string -> real)
    requires WellFormed(f) && TextColumn in f.columns && CreatedAtColumn in f.columns
    requires forall i :: 0 <= i < |f.rows| ==> f.rows[i][TextColumn].VText? && f.rows[i][CreatedAtColumn].VTime?
    ensures Transformed(f, polarity).Ok?
    ensures Analysable(Transformed(f, polarity).value)
  {
    CleanKeepsStrings(f);
    TransformedProperties(f, polarity);
    var c := Clean(f).value;
    var ps := CleanKeepsFirstOfEachText(f);
    var g := Transformed(f, polarity).value;
    forall j | 0 <= j < |g.rows| ensures g.rows[j][CreatedAtColumn].VTime? {
      assert g.rows[j][CreatedAtColumn] == c.rows[j][CreatedAtColumn];
      assert c.rows[j] == f.rows[ps[j]];
    }
  }

  /** The frame `get_tweets_dataframe` returns when the query gave `rows`:
      flattened, cleaned, then scored. Neither transformation fails on such
      a frame (`DataframeIsTransformed`), so the second case is never taken. */
  function Dataframe(rows: seq<Row>, polarity: string -> real): Frame {
    match Transformed(FrameOf(rows), polarity)
    case Ok(g) => g
    case Err(_) => FrameOf(rows)
  }

  /** Cleaning and scoring the selected rows succeeds and gives an
      analysable frame. */
  lemma DataframeIsTransformed(rows: seq<Row>, polarity: string -> real)
    ensures Transformed(FrameOf(rows), polarity) == Ok(Dataframe(rows, polarity))
    ensures Analysable(Dataframe(rows, polarity))
  {
    FrameOfCells(rows);
    TransformedAnalysable(FrameOf(rows), polarity);
  }

  /** The frame has no two rows with the same text, scores each row by its
      text, and keeps the flattened columns plus `sentiment`. */
  lemma DataframeProperties(rows: seq<Row>, polarity: string -> real)
    ensures Analysable(Dataframe(rows, polarity)) && NoDuplicateTexts(Dataframe(rows, polarity))
    ensures |Dataframe(rows, polarity).rows| <= |rows|
    ensures Dataframe(rows, polarity).columns == BaseColumns + MetricKeys(rows) + {SentimentColumn}
    ensures forall i :: 0 <= i < |Dataframe(rows, polarity).rows| ==>
      Dataframe(rows, polarity).rows[i][SentimentColumn] == VReal(polarity(Dataframe(rows, polarity).rows[i][TextColumn].s))
  {
    DataframeIsTransformed(rows, polarity);
    TransformedProperties(FrameOf(rows), polarity);
  }

  /** The returned rows are, in order, the first selected row of each
      distinct text, flattened and given the polarity of its text; every
      row whose text no earlier row has is among them. */
  lemma DataframeIsFirstOfEachText(rows: seq<Row>, polarity: string -> real) returns (ps: seq<nat>)
    ensures Analysable(Dataframe(rows, polarity)) && |ps| == |Dataframe(rows, polarity).rows|
    ensures forall j :: 0 <= j < |ps| ==> ps[j] < |rows|
    ensures forall j, l :: 0 <= j < l < |ps| ==> ps[j] < ps[l]
    ensures forall j, m :: 0 <= j < |ps| && 0 <= m < ps[j] ==> rows[m].text != rows[ps[j]].text
    ensures forall i :: 0 <= i < |rows| && (forall m :: 0 <= m < i ==> rows[m].text != rows[i].text) ==> i in ps
    ensures forall j :: 0 <= j < |ps| ==>
      Dataframe(rows, polarity).rows[j]
        == Flattened(rows[ps[j]], MetricKeys(rows))[SentimentColumn := VReal(polarity(rows[ps[j]].text))]
  {
    var f := FrameOf(rows);
    DataframeIsTransformed(rows, polarity);
    FrameOfCells(rows);
    CleanKeepsStrings(f);
    var c := Clean(f).value;
    var g := Dataframe(rows, polarity);
    assert g == Scored(c, polarity).value;
    ps := CleanKeepsFirstOfEachText(f);
    forall j, m | 0 <= j < |ps| && 0 <= m < ps[j] ensures rows[m].text != rows[ps[j]].text {
      assert Texts(f)[..ps[j]][m] == VText(rows[m].text);
    }
    forall i | 0 <= i < |rows| && (forall m :: 0 <= m < i ==> rows[m].text != rows[i].text)
      ensures i in ps
    {
      assert forall m :: 0 <= m < i ==> Texts(f)[..i][m] == VText(rows[m].text);
    }
    forall j | 0 <= j < |ps|
      ensures g.rows[j] == Flattened(rows[ps[j]], MetricKeys(rows))[SentimentColumn := VReal(polarity(rows[ps[j]].text))]
    {
      assert c.rows[j] == f.rows[ps[j]];
      ScoredRow(c, polarity, j);
    }
  }

  /** Every selected text appears in the returned frame. */
  lemma DataframeKeepsEveryText(rows: seq<Row>, polarity: string -> real, i: nat) returns (j: nat)
    requires i < |rows|
    ensures Analysable(Dataframe(rows, polarity))
    ensures j < |Dataframe(rows, polarity).rows| && Dataframe(rows, polarity).rows[j][TextColumn] == VText(rows[i].text)
  {
    var f := FrameOf(rows);
    DataframeIsTransformed(rows, polarity);
    FrameOfCells(rows);
    CleanKeepsStrings(f);
    j := CleanKeepsEveryText(f, i);
    var c := Clean(f).value;
    assert Dataframe(rows, polarity) == Scored(c, polarity).value;
    assert Dataframe(rows, polarity).rows[j][TextColumn] == c.rows[j][TextColumn];
  }

  /** `get_tweets_dataframe`: every row of the table, newest first, through
      the frame construction, `clean_tweets` and `add_sentiment_analysis`. */
  method GetTweetsDataframe(db: DatabaseHandler, polarity: string -> real) returns (r: Result<DataFrame>)
    requires db.Valid()
    modifies db
    ensures db.Valid() && db.connected == old(db.connected) && db.schema == old(db.schema) && db.rows == old(db.rows)
    ensures r.Ok? <==> old(db.Ready())
    ensures !db.connected ==> r == Err(InterfaceError(ConnectionClosed)) && db.aborted == old(db.aborted)
    ensures db.connected && old(db.aborted) ==> r == Err(InFailedSqlTransaction(TransactionAborted)) && db.aborted
    ensures db.connected && !old(db.aborted) && !db.schema.tableExists ==>
      r == Err(UndefinedTable(NoTweetsTable)) && db.aborted
    ensures r.Ok? ==> !db.aborted && fresh(r.value) && exists out :: (IsNewestFirst(db.rows, out, |db.rows|)
      && r.value.Value() == Dataframe(out, polarity))
  {
    var selected := db.Select(None);
    if selected.Err? {
      return Err(selected.error);
    }
    var out := selected.value;
    var f := FrameOf(out);
    var df := new DataFrame(f);
    var cleaned := CleanTweets(df);
    FrameOfCells(out);
    CleanKeepsStrings(f);
    DataframeIsTransformed(out, polarity);
    var scored := AddSentimentAnalysis(cleaned.value, polarity);
    r := scored;
  }

  // ---------------------------------------------------------------------
  // get_sentiment_summary

  /** The sentiment column. */
  function Scores(f: Frame): (s: seq<real>)
    requires Analysable(f)
    ensures |s| == |f.rows| && forall i :: 0 <= i < |f.rows| ==> s[i] == f.rows[i][SentimentColumn].x
  {
    seq(|f.rows|, i requires 0 <= i < |f.rows| => f.rows[i][SentimentColumn].x)
  }

  datatype Sign = Positive | Negative | Neutral

  function SignOf(x: real): Sign {
    if x > 0.0 then Positive else if x < 0.0 then Negative else Neutral
  }

  /** How many scores have the sign `sg` (`(df['sentiment'] > 0).sum()`
      and its two siblings). */
  function CountSign(s: seq<real>, sg: Sign): (n: nat)
    ensures n <= |s|
    decreases |s|
  {
    if s == [] then 0
    else CountSign(s[..|s| - 1], sg) + (if SignOf(s[|s| - 1]) == sg then 1 else 0)
  }

  /** The positions whose score has the sign `sg`. */
  function WithSign(s: seq<real>, sg: Sign): set<int> {
    set i | 0 <= i < |s| && SignOf(s[i]) == sg
  }

  /** The count is the number of rows whose score has that sign. */
  lemma {:induction false} CountSignIsCardinality(s: seq<real>, sg: Sign)
    ensures CountSign(s, sg) == |WithSign(s, sg)|
    decreases |s|
  {
    if s != [] {
      var n := |s| - 1;
      var p := s[..n];
      CountSignIsCardinality(p, sg);
      assert WithSign(s, sg) == WithSign(p, sg) + (if SignOf(s[n]) == sg then {n} else {});
      assert n !in WithSign(p, sg);
    }
  }

  /** Every row is positive, negative or neutral, and only one of them. */
  lemma {:induction false} SignsPartition(s: seq<real>)
    ensures CountSign(s, Positive) + CountSign(s, Negative) + CountSign(s, Neutral) == |s|
    decreases |s|
  {
    if s != [] {
      SignsPartition(s[..|s| - 1]);
    }
  }

  /** `idxmax`: the first position of a largest score. */
  function FirstMax(s: seq<real>): (m: nat)
    requires |s| > 0
    ensures m < |s|
    ensures forall j :: 0 <= j < |s| ==> s[j] <= s[m]
    ensures forall j :: 0 <= j < m ==> s[j] < s[m]
    decreases |s|
  {
    if |s| == 1 then 0
    else
      var m := FirstMax(s[..|s| - 1]);
      assert forall j :: 0 <= j < |s| - 1 ==> s[..|s| - 1][j] == s[j];
      if s[|s| - 1] > s[m] then |s| - 1 else m
  }

  /** `idxmin`: the first position of a smallest score. */
  function FirstMin(s: seq<real>): (m: nat)
    requires |s| > 0
    ensures m < |s|
    ensures forall j :: 0 <= j < |s| ==> s[m] <= s[j]
    ensures forall j :: 0 <= j < m ==> s[m] < s[j]
    decreases |s|
  {
    if |s| == 1 then 0
    else
      var m := FirstMin(s[..|s| - 1]);
      assert forall j :: 0 <= j < |s| - 1 ==> s[..|s| - 1][j] == s[j];
      if s[|s| - 1] < s[m] then |s| - 1 else m
  }

  /** The summary dictionary without its floating-point average. */
  datatype SentimentSummary = SentimentSummary(
    positive: nat, negative: nat, neutral: nat,
    mostPositive: string, mostNegative: string)

  /** The summary of an analysable frame. On an empty frame `idxmax` raises.
      The frame is labelled 0..n-1, so `df.loc[label]` is the row at that
      position. */
  function Summarize(f: Frame): (r: Result<SentimentSummary>)
    requires Analysable(f)
    ensures r.Err? <==> |f.rows| == 0
    ensures r.Err? ==> r.error == ValueError("attempt to get argmax of an empty sequence")
    ensures r.Ok? ==> && r.value.positive == |WithSign(Scores(f), Positive)|
                      && r.value.negative == |WithSign(Scores(f), Negative)|
                      && r.value.neutral == |WithSign(Scores(f), Neutral)|
                      && r.value.positive + r.value.negative + r.value.neutral == |f.rows|
    ensures r.Ok? ==> exists m :: (0 <= m < |f.rows| && r.value.mostPositive == f.rows[m][TextColumn].s
      && (forall j :: 0 <= j < |f.rows| ==> Scores(f)[j] <= Scores(f)[m])
      && (forall j :: 0 <= j < m ==> Scores(f)[j] < Scores(f)[m]))
    ensures r.Ok? ==> exists m :: (0 <= m < |f.rows| && r.value.mostNegative == f.rows[m][TextColumn].s
      && (forall j :: 0 <= j < |f.rows| ==> Scores(f)[m] <= Scores(f)[j])
      && (forall j :: 0 <= j < m ==> Scores(f)[m] < Scores(f)[j]))
  {
    var s := Scores(f);
    if |s| == 0 then Err(ValueError("attempt to get argmax of an empty sequence"))
    else
      CountSignIsCardinality(s, Positive);
      CountSignIsCardinality(s, Negative);
      CountSignIsCardinality(s, Neutral);
      SignsPartition(s);
      Ok(SentimentSummary(
        CountSign(s, Positive), CountSign(s, Negative), CountSign(s, Neutral),
        f.rows[FirstMax(s)][TextColumn].s, f.rows[FirstMin(s)][TextColumn].s))
  }

  /** `get_sentiment_summary`. */
  method GetSentimentSummary(db: DatabaseHandler, polarity: string -> real) returns (r: Result<SentimentSummary>)
    requires db.Valid()
    modifies db
    ensures db.Valid() && db.connected == old(db.connected) && db.schema == old(db.schema) && db.rows == old(db.rows)
    ensures !db.connected ==> r == Err(InterfaceError(ConnectionClosed)) && db.aborted == old(db.aborted)
    ensures db.connected && old(db.aborted) ==> r == Err(InFailedSqlTransaction(TransactionAborted)) && db.aborted
    ensures db.connected && !old(db.aborted) && !db.schema.tableExists ==>
      r == Err(UndefinedTable(NoTweetsTable)) && db.aborted
    ensures old(db.Ready()) ==> !db.aborted && exists out :: (IsNewestFirst(db.rows, out, |db.rows|)
      && Analysable(Dataframe(out, polarity)) && r == Summarize(Dataframe(out, polarity)))
  {
    var df := GetTweetsDataframe(db, polarity);
    if df.Err? {
      return Err(df.error);
    }
    ghost var out :| IsNewestFirst(db.rows, out, |db.rows|) && df.value.Value() == Dataframe(out, polarity);
    DataframeIsTransformed(out, polarity);
    r := Summarize(df.value.Value());
  }

  // ---------------------------------------------------------------------
  // plot_tweets_over_time: daily counts

  /** The calendar day of every row. */
  function Days(f: Frame): (ds: seq<int>)
    requires Analysable(f)
    ensures |ds| == |f.rows| && forall i :: 0 <= i < |f.rows| ==> ds[i] == Day(f.rows[i][CreatedAtColumn].t)
  {
    seq(|f.rows|, i requires 0 <= i < |f.rows| => Day(f.rows[i][CreatedAtColumn].t))
  }

  /** How many rows fall on day `d`. */
  function Occurrences(ds: seq<int>, d: int): (n: nat)
    ensures n <= |ds|
    ensures n > 0 <==> d in ds
    decreases |ds|
  {
    if ds == [] then 0
    else
      assert ds == ds[..|ds| - 1] + [ds[|ds| - 1]];
      Occurrences(ds[..|ds| - 1], d) + (if ds[|ds| - 1] == d then 1 else 0)
  }

  /** One entry of `groupby(date).size()`. */
  datatype DayCount = DayCount(day: int, count: nat)

  /** Group keys come out sorted, each once. */
  predicate StrictlyAscending(cs: seq<DayCount>) {
    forall i, j :: 0 <= i < j < |cs| ==> cs[i].day < cs[j].day
  }

  /** Every group has at least one row. */
  predicate AllPositive(cs: seq<DayCount>) {
    forall i :: 0 <= i < |cs| ==> cs[i].count >= 1
  }

  /** The count looked up for day `d`; 0 when the day has no entry. */
  function CountOn(cs: seq<DayCount>, d: int): nat
    decreases |cs|
  {
    if cs == [] then 0
    else if cs[0].day == d then cs[0].count
    else CountOn(cs[1..], d)
  }

  /** The sum of the counts. */
  function Total(cs: seq<DayCount>): nat
    decreases |cs|
  {
    if cs == [] then 0 else cs[0].count + Total(cs[1..])
  }

  /** Counting one more row on day `d`: a new entry in its place, or one
      more on that day's entry. The first day afterwards is the smaller of
      `d` and the first day before. */
  function Insert(cs: seq<DayCount>, d: int): (r: seq<DayCount>)
    requires StrictlyAscending(cs)
    ensures StrictlyAscending(r)
    ensures |r| > 0 && r[0].day == (if cs == [] || d < cs[0].day then d else cs[0].day)
    decreases |cs|
  {
    if cs == [] then [DayCount(d, 1)]
    else if d < cs[0].day then [DayCount(d, 1)] + cs
    else if d == cs[0].day then [DayCount(d, cs[0].count + 1)] + cs[1..]
    else [cs[0]] + Insert(cs[1..], d)
  }

  /** A day before the first entry of an ascending list has no entry. */
  lemma {:induction false} CountOnBeforeFirst(cs: seq<DayCount>, d: int)
    requires StrictlyAscending(cs) && cs != [] && d < cs[0].day
    ensures CountOn(cs, d) == 0
    decreases |cs|
  {
    if |cs| > 1 {
      CountOnBeforeFirst(cs[1..], d);
    }
  }

  /** A day with a positive count has an entry. */
  lemma {:induction false} CountOnFound(cs: seq<DayCount>, d: int) returns (k: nat)
    requires CountOn(cs, d) > 0
    ensures k < |cs| && cs[k].day == d
    decreases |cs|
  {
    if cs[0].day == d {
      k := 0;
    } else {
      var k' := CountOnFound(cs[1..], d);
      k := k' + 1;
    }
  }

  /** The count stored in an entry is the count looked up for its day. */
  lemma {:induction false} CountOnEntry(cs: seq<DayCount>, k: nat)
    requires StrictlyAscending(cs) && k < |cs|
    ensures CountOn(cs, cs[k].day) == cs[k].count
    decreases |cs|
  {
    if k > 0 {
      assert cs[1..][k - 1] == cs[k];
      CountOnEntry(cs[1..], k - 1);
    }
  }

  /** Inserting `d` adds one to the count of `d` and leaves every other
      day's count alone. */
  lemma {:induction false} InsertCount(cs: seq<DayCount>, d: int, e: int)
    requires StrictlyAscending(cs)
    ensures CountOn(Insert(cs, d), e) == CountOn(cs, e) + (if e == d then 1 else 0)
    decreases |cs|
  {
    if cs == [] {
    } else if d < cs[0].day {
      assert Insert(cs, d)[1..] == cs;
      if e == d {
        CountOnBeforeFirst(cs, d);
      }
    } else if d == cs[0].day {
      assert Insert(cs, d)[1..] == cs[1..];
    } else {
      assert Insert(cs, d)[1..] == Insert(cs[1..], d);
      InsertCount(cs[1..], d, e);
    }
  }

  /** Inserting adds one to the total. */
  lemma {:induction false} InsertTotal(cs: seq<DayCount>, d: int)
    requires StrictlyAscending(cs)
    ensures Total(Insert(cs, d)) == Total(cs) + 1
    decreases |cs|
  {
    if cs == [] {
    } else if d < cs[0].day {
      assert Insert(cs, d)[1..] == cs;
    } else if d == cs[0].day {
      assert Insert(cs, d)[1..] == cs[1..];
    } else {
      assert Insert(cs, d)[1..] == Insert(cs[1..], d);
      InsertTotal(cs[1..], d);
    }
  }

  /** Inserting keeps every count positive. */
  lemma {:induction false} InsertPositive(cs: seq<DayCount>, d: int)
    requires StrictlyAscending(cs) && AllPositive(cs)
    ensures AllPositive(Insert(cs, d))
    decreases |cs|
  {
    if cs != [] && d > cs[0].day {
      var rest := Insert(cs[1..], d);
      assert Insert(cs, d) == [cs[0]] + rest;
      assert forall i :: 0 <= i < |cs[1..]| ==> cs[1..][i] == cs[i + 1];
      InsertPositive(cs[1..], d);
    }
  }

  /** `df.groupby(df['date'].dt.date).size()` for the days `ds`, built by
      counting the rows one at a time: the group keys come out ascending. */
  function DailyCounts(ds: seq<int>): (r: seq<DayCount>)
    ensures StrictlyAscending(r)
    decreases |ds|
  {
    if ds == [] then []
    else Insert(DailyCounts(ds[..|ds| - 1]), ds[|ds| - 1])
  }

  /** The count looked up for a day is the number of rows on that day. */
  lemma {:induction false} DailyCountsCount(ds: seq<int>, d: int)
    ensures CountOn(DailyCounts(ds), d) == Occurrences(ds, d)
    decreases |ds|
  {
    if ds != [] {
      var p := ds[..|ds| - 1];
      DailyCountsCount(p, d);
      InsertCount(DailyCounts(p), ds[|ds| - 1], d);
    }
  }

  /** Every group counts at least one row. */
  lemma {:induction false} DailyCountsPositive(ds: seq<int>)
    ensures AllPositive(DailyCounts(ds))
    decreases |ds|
  {
    if ds != [] {
      var p := ds[..|ds| - 1];
      DailyCountsPositive(p);
      InsertPositive(DailyCounts(p), ds[|ds| - 1]);
    }
  }

  /** The counts add up to the number of rows. */
  lemma {:induction false} DailyCountsTotal(ds: seq<int>)
    ensures Total(DailyCounts(ds)) == |ds|
    decreases |ds|
  {
    if ds != [] {
      var p := ds[..|ds| - 1];
      DailyCountsTotal(p);
      InsertTotal(DailyCounts(p), ds[|ds| - 1]);
    }
  }

  /** Each daily count is the number of rows on that day, and at least one. */
  lemma DailyCountIsOccurrences(ds: seq<int>, k: nat)
    requires k < |DailyCounts(ds)|
    ensures DailyCounts(ds)[k].count == Occurrences(ds, DailyCounts(ds)[k].day)
    ensures DailyCounts(ds)[k].count >= 1
  {
    CountOnEntry(DailyCounts(ds), k);
    DailyCountsCount(ds, DailyCounts(ds)[k].day);
    DailyCountsPositive(ds);
  }

  /** Every day that occurs has its group. */
  lemma DailyCountsCoverDay(ds: seq<int>, d: int) returns (k: nat)
    requires d in ds
    ensures k < |DailyCounts(ds)| && DailyCounts(ds)[k].day == d
  {
    DailyCountsCount(ds, d);
    k := CountOnFound(DailyCounts(ds), d);
  }

  /** What `plot_tweets_over_time` draws: a line over the daily counts
      annotated with the first and last day, or the placeholder text. */
  datatype Chart = Placeholder | LineChart(points: seq<DayCount>, firstDay: int, lastDay: int)

  /** The chart for an analysable frame, chosen on whether the daily
      series is empty. */
  function TimeSeriesChart(f: Frame): Chart
    requires Analysable(f)
  {
    var points := DailyCounts(Days(f));
    if points == [] then Placeholder
    else LineChart(points, points[0].day, points[|points| - 1].day)
  }

  /** The placeholder is drawn exactly when there are no rows; otherwise
      the chart's first and last day are the earliest and the latest day
      of a row. */
  lemma TimeSeriesChartProperties(f: Frame)
    requires Analysable(f)
    ensures TimeSeriesChart(f).Placeholder? <==> |f.rows| == 0
    ensures TimeSeriesChart(f).LineChart? ==> TimeSeriesChart(f).points == DailyCounts(Days(f))
    ensures TimeSeriesChart(f).LineChart? ==>
      && TimeSeriesChart(f).firstDay in Days(f) && TimeSeriesChart(f).lastDay in Days(f)
      && forall i :: 0 <= i < |f.rows| ==> TimeSeriesChart(f).firstDay <= Days(f)[i] <= TimeSeriesChart(f).lastDay
  {
    var ds := Days(f);
    var points := DailyCounts(ds);
    DailyCountsTotal(ds);
    if points != [] {
      DailyCountIsOccurrences(ds, 0);
      DailyCountIsOccurrences(ds, |points| - 1);
      forall i | 0 <= i < |ds| ensures points[0].day <= ds[i] <= points[|points| - 1].day {
        assert ds[i] in ds;
        var k := DailyCountsCoverDay(ds, ds[i]);
      }
    }
  }

  /** `plot_tweets_over_time`, up to the rendering. */
  method PlotTweetsOverTime(db: DatabaseHandler, polarity: string -> real) returns (r: Result<Chart>)
    requires db.Valid()
    modifies db
    ensures db.Valid() && db.connected == old(db.connected) && db.schema == old(db.schema) && db.rows == old(db.rows)
    ensures r.Ok? <==> old(db.Ready())
    ensures !db.connected ==> r == Err(InterfaceError(ConnectionClosed)) && db.aborted == old(db.aborted)
    ensures db.connected && old(db.aborted) ==> r == Err(InFailedSqlTransaction(TransactionAborted)) && db.aborted
    ensures db.connected && !old(db.aborted) && !db.schema.tableExists ==>
      r == Err(UndefinedTable(NoTweetsTable)) && db.aborted
    ensures r.Ok? ==> !db.aborted && exists out :: (IsNewestFirst(db.rows, out, |db.rows|)
      && Analysable(Dataframe(out, polarity)) && r == Ok(TimeSeriesChart(Dataframe(out, polarity))))
  {
    var df := GetTweetsDataframe(db, polarity);
    if df.Err? {
      return Err(df.error);
    }
    ghost var out :| IsNewestFirst(db.rows, out, |db.rows|) && df.value.Value() == Dataframe(out, polarity);
    DataframeIsTransformed(out, polarity);
    r := Ok(TimeSeriesChart(df.value.Value()));
  }
}
