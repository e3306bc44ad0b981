/** The data transformer (src/data_processing/data_transformer.py) and the
    slice of pandas it relies on. A data frame is a set of column names, a
    sequence of row labels and a sequence of rows, each row mapping every
    column name to a cell. The sentiment lexicon is a parameter:
    `polarity(text)` stands for TextBlob's polarity of `text`. */
module Transform {
  import opened Base

  /** One cell of a data frame. */
  datatype Value =
    | VInt(i: int)
    | VText(s: string)
    | VTime(t: Timestamp)
    | VBool(b: bool)
    | VReal(x: real)
    | VNull
    | VMetrics(m: Metrics)

  type Record = map<string, Value>

  datatype Frame = Frame(columns: set<string>, index: seq<int>, rows: seq<Record>)

  /** Every row has a label and exactly the frame's columns. */
  predicate WellFormed(f: Frame) {
    && |f.index| == |f.rows|
    && forall i :: 0 <= i < |f.rows| ==> f.rows[i].Keys == f.columns
  }

  const TextColumn := "text"
  const SentimentColumn := "sentiment"

  /** The `text` column of a frame that has one. */
  function Texts(f: Frame): (ts: seq<Value>)
    requires WellFormed(f) && TextColumn in f.columns
    ensures |ts| == |f.rows| && forall i :: 0 <= i < |f.rows| ==> ts[i] == f.rows[i][TextColumn]
  {
    seq(|f.rows|, i requires 0 <= i < |f.rows| => f.rows[i][TextColumn])
  }

  /** No two rows of `f` have the same `text`. */
  predicate NoDuplicateTexts(f: Frame)
    requires WellFormed(f) && TextColumn in f.columns
  {
    forall i, j :: 0 <= i < j < |f.rows| ==> f.rows[i][TextColumn] != f.rows[j][TextColumn]
  }

  // ---------------------------------------------------------------------
  // drop_duplicates(subset=['text']) keeps the first row of each text

  /** The positions at which a value occurs for the first time, in
      increasing order; these and only these are the rows that
      `drop_duplicates` keeps. */
  function FirstOccurrences(keys: seq<Value>): (ps: seq<nat>)
    ensures |ps| <= |keys|
    ensures forall j :: 0 <= j < |ps| ==> ps[j] < |keys|
    ensures forall j, l :: 0 <= j < l < |ps| ==> ps[j] < ps[l]
    ensures forall j :: 0 <= j < |ps| ==> keys[ps[j]] !in keys[..ps[j]]
    ensures forall i :: 0 <= i < |keys| && keys[i] !in keys[..i] ==> i in ps
    decreases |keys|
  {
    if keys == [] then []
    else
      var n := |keys| - 1;
      assert forall i :: 0 <= i <= n ==> keys[..n][..i] == keys[..i];
      FirstOccurrences(keys[..n]) + (if keys[n] in keys[..n] then [] else [n])
  }

  /** The kept values are pairwise different. */
  lemma FirstOccurrencesDistinct(keys: seq<Value>)
    ensures var ps := FirstOccurrences(keys);
      forall j, l :: 0 <= j < l < |ps| ==> keys[ps[j]] != keys[ps[l]]
  {
    var ps := FirstOccurrences(keys);
    forall j, l | 0 <= j < l < |ps| ensures keys[ps[j]] != keys[ps[l]] {
      assert keys[..ps[l]][ps[j]] == keys[ps[j]];
    }
  }

  /** Every value of `keys` has a first occurrence at or before any of its
      occurrences. */
  lemma {:induction false} HasFirstOccurrence(keys: seq<Value>, i: nat)
    requires i < |keys|
    ensures exists m :: 0 <= m <= i && keys[m] == keys[i] && keys[m] !in keys[..m]
    decreases i
  {
    if keys[i] in keys[..i] {
      var m' :| 0 <= m' < i && keys[..i][m'] == keys[i];
      HasFirstOccurrence(keys, m');
    }
  }

  /** Every value of the input is among the kept values: `j` is where. */
  lemma FirstOccurrencesCover(keys: seq<Value>, i: nat) returns (j: nat)
    requires i < |keys|
    ensures j < |FirstOccurrences(keys)| && keys[FirstOccurrences(keys)[j]] == keys[i]
  {
    var ps := FirstOccurrences(keys);
    HasFirstOccurrence(keys, i);
    var m :| 0 <= m <= i && keys[m] == keys[i] && keys[m] !in keys[..m];
    assert m in ps;
    j :| 0 <= j < |ps| && ps[j] == m;
  }

  /** Keys that are already pairwise different are all kept, in place. */
  lemma {:induction false} FirstOccurrencesOfDistinct(keys: seq<Value>)
    requires forall i, j :: 0 <= i < j < |keys| ==> keys[i] != keys[j]
    ensures FirstOccurrences(keys) == seq(|keys|, i => i)
    decreases |keys|
  {
    if keys != [] {
      var n := |keys| - 1;
      FirstOccurrencesOfDistinct(keys[..n]);
      assert keys[n] !in keys[..n];
    }
  }

  /** `s[ps[0]], s[ps[1]], ...`. */
  function Pick<T>(s: seq<T>, ps: seq<nat>): (r: seq<T>)
    requires forall j :: 0 <= j < |ps| ==> ps[j] < |s|
    ensures |r| == |ps| && forall j :: 0 <= j < |ps| ==> r[j] == s[ps[j]]
  {
    seq(|ps|, j requires 0 <= j < |ps| => s[ps[j]])
  }

  /** `drop_duplicates(subset=['text'])`: the first row of each text, with
      its original label. */
  function DropDuplicateTexts(f: Frame): (r: Frame)
    requires WellFormed(f) && TextColumn in f.columns
    ensures WellFormed(r) && r.columns == f.columns
  {
    var ps := FirstOccurrences(Texts(f));
    Frame(f.columns, Pick(f.index, ps), Pick(f.rows, ps))
  }

  /** `reset_index(drop=True)`: relabel the rows 0, 1, ..., n-1. */
  function ResetIndex(f: Frame): Frame {
    f.(index := Range(|f.rows|))
  }

  /** `clean_tweets`. A frame without a `text` column raises KeyError. */
  function Clean(f: Frame): (r: Result<Frame>)
    requires WellFormed(f)
    ensures r.Ok? <==> TextColumn in f.columns
    ensures r.Err? ==> r.error == KeyError(TextColumn)
    ensures r.Ok? ==> WellFormed(r.value) && r.value.columns == f.columns
    ensures r.Ok? ==> r.value.index == Range(|r.value.rows|) && |r.value.rows| <= |f.rows|
    ensures r.Ok? ==> NoDuplicateTexts(r.value)
  {
    if TextColumn !in f.columns then Err(KeyError(TextColumn))
    else
      FirstOccurrencesDistinct(Texts(f));
      Ok(ResetIndex(DropDuplicateTexts(f)))
  }

  /** The rows `clean_tweets` keeps are exactly the first row of each
      distinct text, in their original order: `ps` are the kept positions;
      they increase, each kept row's text does not occur earlier, and every
      row whose text does not occur earlier is kept. */
  lemma CleanKeepsFirstOfEachText(f: Frame) returns (ps: seq<nat>)
    requires WellFormed(f) && TextColumn in f.columns
    ensures forall j :: 0 <= j < |ps| ==> ps[j] < |f.rows|
    ensures Clean(f).value.rows == Pick(f.rows, ps)
    ensures forall j, l :: 0 <= j < l < |ps| ==> ps[j] < ps[l]
    ensures forall j :: 0 <= j < |ps| ==> f.rows[ps[j]][TextColumn] !in Texts(f)[..ps[j]]
    ensures forall i :: 0 <= i < |f.rows| && f.rows[i][TextColumn] !in Texts(f)[..i] ==> i in ps
  {
    ps := FirstOccurrences(Texts(f));
  }

  /** Every text of the input is still present after `clean_tweets`. */
  lemma CleanKeepsEveryText(f: Frame, i: nat) returns (j: nat)
    requires WellFormed(f) && TextColumn in f.columns && i < |f.rows|
    ensures j < |Clean(f).value.rows| && Clean(f).value.rows[j][TextColumn] == f.rows[i][TextColumn]
  {
    var ps := FirstOccurrences(Texts(f));
    j := FirstOccurrencesCover(Texts(f), i);
    assert Clean(f).value.rows[j] == f.rows[ps[j]];
  }

  /** `clean_tweets` is idempotent. */
  lemma CleanIdempotent(f: Frame)
    requires WellFormed(f) && TextColumn in f.columns
    ensures Clean(Clean(f).value) == Clean(f)
  {
    var g := Clean(f).value;
    var ts := Texts(g);
    FirstOccurrencesOfDistinct(ts);
    var ps := FirstOccurrences(ts);
    assert Pick(g.rows, ps) == g.rows;
    assert Pick(g.index, ps) == g.index;
  }

  // ---------------------------------------------------------------------
  // add_sentiment_analysis

  /** Every text is a string; on any other value TextBlob raises TypeError. */
  predicate AllTextsAreStrings(f: Frame)
    requires WellFormed(f) && TextColumn in f.columns
  {
    forall i :: 0 <= i < |f.rows| ==> f.rows[i][TextColumn].VText?
  }

  /** The frame after `df['sentiment'] = df['text'].apply(get_sentiment)`:
      KeyError without a `text` column, TypeError when a text is not a
      string, and otherwise one `sentiment` cell per row, every other cell
      untouched. */
  function Scored(f: Frame, polarity: string -> real): (r: Result<Frame>)
    requires WellFormed(f)
    ensures TextColumn !in f.columns ==> r == Err(KeyError(TextColumn))
    ensures r.Ok? <==> TextColumn in f.columns && AllTextsAreStrings(f)
    ensures r.Err? && TextColumn in f.columns ==> r.error.TypeError?
    ensures r.Ok? ==> && WellFormed(r.value)
                      && r.value.columns == f.columns + {SentimentColumn}
                      && r.value.index == f.index
                      && |r.value.rows| == |f.rows|
    ensures r.Ok? ==> forall i :: 0 <= i < |f.rows| ==>
      && r.value.rows[i][SentimentColumn] == VReal(polarity(f.rows[i][TextColumn].s))
      && forall c :: c in f.columns && c != SentimentColumn ==> r.value.rows[i][c] == f.rows[i][c]
  {
    if TextColumn !in f.columns then Err(KeyError(TextColumn))
    else if !AllTextsAreStrings(f) then Err(TypeError("The `text` argument must be a string"))
    else
      Ok(Frame(f.columns + {SentimentColumn}, f.index,
               seq(|f.rows|, i requires 0 <= i < |f.rows| =>
                 f.rows[i][SentimentColumn := VReal(polarity(f.rows[i][TextColumn].s))])))
  }

  /** A scored row is the row with its `sentiment` cell set. */
  lemma ScoredRow(f: Frame, polarity: string -> real, i: nat)
    requires WellFormed(f) && TextColumn in f.columns && AllTextsAreStrings(f) && i < |f.rows|
    ensures Scored(f, polarity).value.rows[i] == f.rows[i][SentimentColumn := VReal(polarity(f.rows[i][TextColumn].s))]
  {
  }

  /** With a lexicon whose polarity lies in [-1, 1], so does every score. */
  lemma ScoresInRange(f: Frame, polarity: string -> real)
    requires WellFormed(f) && TextColumn in f.columns && AllTextsAreStrings(f)
    requires forall t :: -1.0 <= polarity(t) <= 1.0
    ensures forall i :: 0 <= i < |Scored(f, polarity).value.rows| ==>
      Scored(f, polarity).value.rows[i][SentimentColumn].VReal?
      && -1.0 <= Scored(f, polarity).value.rows[i][SentimentColumn].x <= 1.0
  {
  }

  /** `transform_data` on values: clean, then score. */
  function Transformed(f: Frame, polarity: string -> real): Result<Frame>
    requires WellFormed(f)
  {
    match Clean(f)
    case Err(e) => Err(e)
    case Ok(g) => Scored(g, polarity)
  }

  /** Scoring does not change the texts, so the cleaned frame stays free of
      duplicate texts, and every row's score is the polarity of its text. */
  lemma TransformedProperties(f: Frame, polarity: string -> real)
    requires WellFormed(f)
    ensures Transformed(f, polarity).Ok? <==> TextColumn in f.columns && AllTextsAreStrings(Clean(f).value)
    ensures Transformed(f, polarity).Ok? ==>
      var g := Transformed(f, polarity).value;
      && TextColumn in g.columns && NoDuplicateTexts(g)
      && g.index == Range(|g.rows|) && |g.rows| <= |f.rows|
      && forall i :: 0 <= i < |g.rows| ==> g.rows[i][SentimentColumn] == VReal(polarity(g.rows[i][TextColumn].s))
  {
    if Transformed(f, polarity).Ok? {
      var c := Clean(f).value;
      var g := Transformed(f, polarity).value;
      assert forall i :: 0 <= i < |g.rows| ==> g.rows[i][TextColumn] == c.rows[i][TextColumn];
    }
  }

  /** Every row of a frame whose texts are strings has a string text. When
      all texts of the input are strings, so are the cleaned frame's. */
  lemma CleanKeepsStrings(f: Frame)
    requires WellFormed(f) && TextColumn in f.columns && AllTextsAreStrings(f)
    ensures AllTextsAreStrings(Clean(f).value)
  {
    var ps := FirstOccurrences(Texts(f));
    assert Clean(f).value.rows == Pick(f.rows, ps);
  }

  // ---------------------------------------------------------------------
  // The in-place view: a DataFrame object whose column assignment mutates it

  class DataFrame {
    var columns: set<string>
    var index: seq<int>
    var rows: seq<Record>

    function Value(): Frame
      reads this
    {
      Frame(columns, index, rows)
    }

    constructor (f: Frame)
      ensures Value() == f
    {
      columns, index, rows := f.columns, f.index, f.rows;
    }
  }

  /** `clean_tweets(df)`: a new frame; `df` itself is left alone. */
  method CleanTweets(df: DataFrame) returns (r: Result<DataFrame>)
    requires WellFormed(df.Value())
    ensures r.Ok? <==> TextColumn in df.columns
    ensures r.Ok? ==> fresh(r.value) && r.value.Value() == Clean(df.Value()).value
    ensures r.Err? ==> r.error == KeyError(TextColumn)
  {
    var c := Clean(df.Value());
    if c.Err? {
      return Err(c.error);
    }
    var result := new DataFrame(c.value);
    r := Ok(result);
  }

  /** `add_sentiment_analysis(df)`: assigns the `sentiment` column of `df`
      itself and returns the same object; on an exception `df` is unchanged. */
  method AddSentimentAnalysis(df: DataFrame, polarity: string -> real) returns (r: Result<DataFrame>)
    requires WellFormed(df.Value())
    modifies df
    ensures Scored(old(df.Value()), polarity).Ok? ==>
      r == Ok(df) && df.Value() == Scored(old(df.Value()), polarity).value
    ensures Scored(old(df.Value()), polarity).Err? ==>
      r == Err(Scored(old(df.Value()), polarity).error) && df.Value() == old(df.Value())
  {
    var s := Scored(df.Value(), polarity);
    if s.Err? {
      return Err(s.error);
    }
    df.columns, df.index, df.rows := s.value.columns, s.value.index, s.value.rows;
    r := Ok(df);
  }

  /** `transform_data(df)`: the sentiment column is assigned on the cleaned
      copy, so the caller's frame is not modified. */
  method TransformData(df: DataFrame, polarity: string -> real) returns (r: Result<DataFrame>)
    requires WellFormed(df.Value())
    ensures r.Ok? <==> Transformed(df.Value(), polarity).Ok?
    ensures r.Ok? ==> fresh(r.value) && r.value.Value() == Transformed(df.Value(), polarity).value
    ensures r.Err? ==> r.error == Transformed(df.Value(), polarity).error
  {
    var cleaned := CleanTweets(df);
    if cleaned.Err? {
      return Err(cleaned.error);
    }
    r := AddSentimentAnalysis(cleaned.value, polarity);
  }
}
