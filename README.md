# German politics tweet pipeline — a Dafny model

This project models the core of a small Python pipeline. The pipeline collects
German political tweets from the Twitter API, stores them in a PostgreSQL
`tweets` table, and analyses them:

- **Configuration** (`config.dfy`, module `Config`). The JSON configuration
  file is read, and its `twitter_api` and `database` sections are handed out.
  A missing file, invalid JSON and a missing section each raise their own
  exception.
- **Store** (`store.dfy`, module `Store`). A `DatabaseHandler` class holds the
  open/closed state of its connection and the server's schema and rows.
  `init_tables` creates the table and its two indexes if they are missing.
  `store_tweets` runs one `INSERT ... ON CONFLICT (id) DO UPDATE` per record.
  That statement refreshes only `metrics` and `collected_at` of a row that
  already exists; every other column keeps the value of the first insert.
  The column types `id BIGINT`, `account_name VARCHAR(255)` and
  `lang VARCHAR(10)` are enforced: a value that does not fit makes its INSERT
  raise. As PostgreSQL does on assignment to `VARCHAR(n)`, a string longer
  than `n` whose extra characters are all spaces is not refused but cut to
  `n` characters. The connection is never in autocommit mode. A statement that raises
  aborts the open transaction, and every later statement on that connection
  raises InFailedSqlTransaction until a commit ends the transaction; the
  commit of `store_tweets` with an empty batch does so. The handler never
  rolls back explicitly. `get_recent_tweets` returns at most `limit` rows,
  newest first.
- **Transformer** (`transform.dfy`, module `Transform`). Data frames are
  modelled on values, plus a `DataFrame` class for the one operation that
  changes a frame in place: assigning the `sentiment` column. `clean_tweets`
  keeps the first row of each distinct text and relabels the rows `0..n-1`.
  `add_sentiment_analysis` scores every text with a lexicon. The lexicon is a
  parameter `polarity: string -> real`, standing for TextBlob.
- **Collector** (`collector.dfy`, module `Collector`). The keyword search, the
  timelines of six political accounts, and `collect_and_store`. Keyword
  results are stored first, flagged as not from a political account. Account
  results are stored second, with the flag set. An empty list is never stored.
  The Twitter client is a `TwitterApi` value that gives, for each call, the
  response that call gets. The clock is a parameter: one reading `now` for
  the keyword search, and one reading per account (`nows`) for the account
  loop, since each account's records are stamped after its own API calls.
- **Analyser** (`analysis.dfy`, module `Analysis`). This builds the frame for
  analysis: every row newest first, `metrics` spread into one column per
  counter, then cleaned and scored. From that frame it computes the sentiment
  summary (counts of positive, negative and neutral rows, and the texts
  `idxmax`/`idxmin` pick) and the daily counts behind the time-series chart.
- **Shared vocabulary** (`base.dfy`, module `Base`). Python exceptions as a
  datatype, `Result`/`Outcome` for calls that may raise, timestamps and days.

What is proved, in outline:

- The upsert keeps the primary key. It never duplicates a row: the row count
  grows by exactly the number of new ids. For every stored id it fixes which
  record each column comes from.
- The newest-first selection returns distinct table rows in order of
  `created_at`, and no row it leaves out is newer than one it returns.
- Cleaning keeps exactly the first occurrence of each text, keeps every text,
  and is idempotent.
- Every analysed row's score is the polarity of its text.
- The positive, negative and neutral counts partition the rows.
- The daily counts are sorted, positive, add up to the row count, and each
  equals the number of rows on its day.
- Every collected account record names the account it came from and carries
  that account's clock reading.
- An account whose lookup or timeline raises TweepyException, or which has
  no user data, is skipped without losing the accounts after it.
- A batch is stored whole or not at all. It fails exactly when one of its
  records does not fit the column types (an id outside BIGINT, or a string
  longer than its column with a character other than a space past the
  width), and the error is that of the first such record.
- `collect_and_store` leaves the table as the two store calls make it. Each
  call commits on its own, so when the second call raises the first batch
  stays stored. When the first call raises, the table is unchanged. The
  exception raised is fixed by the handler's state on entry and by the first
  record that does not fit.

## Model

| member | source | states |
|---|---|---|
| Base.Range | src/data_processing/data_transformer.py:13 | the labels after `reset_index(drop=True)` are 0, 1, ..., n-1 |
| Config.LoadConfig | src/config/config_loader.py:4-16 | a parsed file yields its document; a missing file raises FileNotFoundError and invalid JSON raises ValueError, and nothing else fails |
| Config.GetTwitterConfig | src/config/config_loader.py:18-22 | the `twitter_api` section when it is present; KeyError with the loader's message when it is absent; a load failure propagates unchanged |
| Config.GetDatabaseConfig | src/config/config_loader.py:24-28 | the `database` section when it is present; KeyError with the loader's message when it is absent; a load failure propagates unchanged |
| Config.FailuresAreDistinct | src/config/config_loader.py:13-21 | a missing file, invalid JSON and a missing section raise three different exception kinds; a load failure is the same for either section |
| Config.Subscript | src/database/db_handler.py:15-19 | `config[key]` succeeds exactly on a dict holding the key; KeyError naming the key on a dict without it; TypeError on any other value |
| Config.LookupAll | src/database/db_handler.py:14-20 | all lookups succeed exactly when every key is present in a dict, giving the values in key order; otherwise the error is the KeyError of the first missing key, or a TypeError |
| Store.CreateIfNotExists | src/database/db_handler.py:29-43 | after the schema script the table exists, and both named indexes exist besides the old ones |
| Store.ColumnError | src/database/db_handler.py:31-37 | a record's INSERT fails exactly when its id is outside the BIGINT range, or its account is longer than 255 characters or its lang longer than 10 with a character other than a space past the width; the id is checked first and gives NumericValueOutOfRange, a long text gives StringDataRightTruncation |
| Store.Cut | src/database/db_handler.py:35-37 | the stored value of an accepted string: no longer than the column or the string, a prefix of the string, the whole string when it is short enough, and only spaces dropped when the string is accepted |
| Store.ColumnsOfFittingRecord | src/database/db_handler.py:55-67 | a fitting record is written with `account_name` its account or NULL and `lang` its lang or "de", unchanged when within the width, and otherwise losing only trailing spaces |
| Store.InitTablesIdempotent | src/database/db_handler.py:30-42 | running the IF NOT EXISTS script twice leaves the schema as running it once |
| Store.Upsert | src/database/db_handler.py:50-67 | one statement: the key set gains the id; other rows are unchanged; metrics and collected_at come from the record; an existing row keeps every other column; a new row takes the record's values with `account` NULL and `lang` "de" when absent, each string cut to its column width; the primary key is preserved |
| Store.StoreAll | src/database/db_handler.py:49-67 | the table after the batch's statements ran in order; a definition whose properties are the StoreAll* lemmas below |
| Store.RunUpserts | src/database/db_handler.py:49-67 | the batch's statements succeed exactly when every record fits its columns, giving the table after the whole batch; otherwise the error is the column error of the first record that does not fit |
| Store.StoreAllKeys | src/database/db_handler.py:49-67 | after a batch, the ids stored are the old ids plus exactly the batch's ids |
| Store.StoreAllKeyed | src/database/db_handler.py:31 | a batch keeps every row stored under its own primary key |
| Store.StoreAllUntouched | src/database/db_handler.py:49-67 | a row whose id is not in the batch is left exactly as it was |
| Store.StoreAllRow | src/database/db_handler.py:55-67 | a batched id ends with the metrics and collected_at of its last record; its other columns come from the old row, or from its first record with the call's flag |
| Store.StoreAllCount | src/database/db_handler.py:49-67 | the row count grows by the number of new ids, so re-storing known tweets never duplicates a row |
| Store.IsNewestFirst | src/database/db_handler.py:73-78 | what `ORDER BY created_at DESC LIMIT limit` may return: min(limit, row count) distinct table rows, newest first, none older than a row left out; a definition used by the selection methods' contracts |
| Store.UnlimitedIsEveryRow | src/analysis/tweet_analyzer.py:28-33 | a newest-first query with no binding limit returns every row of the table exactly once |
| Store.ConnectionSettings | src/database/db_handler.py:6-20 | the database section's host, port, name, user and password when all are present; otherwise the section's KeyError, the load failure, the KeyError of the first missing connection key in the order host, port, name, user, password, or a TypeError when the section is not a dict |
| Store.DatabaseHandler.constructor | src/database/db_handler.py:6-9 | a new handler is connected, its transaction is not aborted, and it sees the server's schema and rows |
| Store.DatabaseHandler.Close | src/database/db_handler.py:81-90 | closing (also on leaving `with`) disconnects, is harmless on a closed handler, and changes no data |
| Store.DatabaseHandler.InitTables | src/database/db_handler.py:26-44 | on an open connection whose transaction is not aborted the schema becomes the script's result; InterfaceError on a closed connection and InFailedSqlTransaction on an aborted one, changing nothing; rows are never touched |
| Store.DatabaseHandler.StoreTweets | src/database/db_handler.py:46-68 | succeeds exactly when connected and either the batch is empty or the transaction is not aborted, the table exists and every record fits; the new table is the batch applied record by record, and the commit clears an abort; on an error the table is unchanged; the error is InterfaceError on a closed connection, InFailedSqlTransaction on an aborted transaction, UndefinedTable without the table, and otherwise the column error of the first record that does not fit, every server error leaving the transaction aborted |
| Store.DatabaseHandler.SelectNewestFirst | src/database/db_handler.py:73-78 | returns min(limit, row count) distinct table rows in descending created_at, none older than a row left out |
| Store.DatabaseHandler.Select | src/database/db_handler.py:72-79 | a newest-first SELECT with an optional LIMIT succeeds exactly when the handler is ready and the limit is not negative; InterfaceError on a closed connection, InFailedSqlTransaction on an aborted transaction, UndefinedTable without the table, DataError on a negative limit, the server errors aborting the transaction; the data is never changed |
| Store.DatabaseHandler.GetRecentTweets | src/database/db_handler.py:70-79 | succeeds exactly when the handler is ready and the limit is not negative, giving the five selected columns of a newest-first selection of at most `limit` rows; InterfaceError, InFailedSqlTransaction, UndefinedTable or DataError otherwise |
| Transform.FirstOccurrences | src/data_processing/data_transformer.py:10 | the kept positions increase; each holds a value not seen before it; every position whose value was not seen before is kept |
| Transform.FirstOccurrencesDistinct | src/data_processing/data_transformer.py:10 | the kept values are pairwise different |
| Transform.FirstOccurrencesCover | src/data_processing/data_transformer.py:10 | every value of the input is among the kept values |
| Transform.FirstOccurrencesOfDistinct | src/data_processing/data_transformer.py:10 | on pairwise different values every position is kept, in place |
| Transform.DropDuplicateTexts | src/data_processing/data_transformer.py:10 | dropping duplicates keeps the frame well formed, with the same columns |
| Transform.ResetIndex | src/data_processing/data_transformer.py:13 | `reset_index(drop=True)`: the same rows and columns, labelled 0..n-1; its effect is stated by Clean's contract |
| Transform.Clean | src/data_processing/data_transformer.py:8-15 | succeeds exactly when there is a `text` column (KeyError otherwise); the result has the same columns, labels 0..n-1, no more rows, and no two rows with the same text |
| Transform.CleanKeepsFirstOfEachText | src/data_processing/data_transformer.py:10-13 | the cleaned rows are, in original order, exactly the rows whose text does not occur earlier |
| Transform.CleanKeepsEveryText | src/data_processing/data_transformer.py:10 | every text of the input still occurs after cleaning |
| Transform.CleanIdempotent | src/data_processing/data_transformer.py:8-15 | cleaning a cleaned frame gives the same frame |
| Transform.Scored | src/data_processing/data_transformer.py:17-22 | the text column missing raises KeyError, a non-string text raises TypeError; otherwise each row gains `sentiment` = polarity of its text; labels, row count and every other cell are unchanged |
| Transform.ScoredRow | src/data_processing/data_transformer.py:21 | a scored row is the input row with its sentiment cell set |
| Transform.ScoresInRange | src/data_processing/data_transformer.py:18-21 | with a polarity in [-1, 1], every score lies in [-1, 1] |
| Transform.Transformed | src/data_processing/data_transformer.py:24-27 | `clean_tweets` then `add_sentiment_analysis` on values; a definition whose properties TransformedProperties states |
| Transform.TransformedProperties | src/data_processing/data_transformer.py:24-27 | clean-then-score succeeds exactly when there is a text column and the kept texts are strings; the result has no duplicate texts, labels 0..n-1, no more rows, and each row scored by its own text |
| Transform.CleanKeepsStrings | src/data_processing/data_transformer.py:10 | cleaning a frame whose texts are strings leaves only string texts |
| Transform.CleanTweets | src/data_processing/data_transformer.py:8-15 | a fresh frame holding the cleaned value, or KeyError without a text column |
| Transform.AddSentimentAnalysis | src/data_processing/data_transformer.py:17-22 | assigns the sentiment column on the caller's frame and returns that same object; on an exception the frame is unchanged |
| Transform.TransformData | src/data_processing/data_transformer.py:24-27 | a fresh frame holding clean-then-score, or that computation's exception; the caller's frame is not modified |
| Collector.ClientCredentials | src/data_collection/german_politics_collector.py:27-41 | succeeds exactly when the twitter section is a dict with all five credentials, and returns those values; every KeyError turns into ValueError("Missing required configuration: ..."), for a missing section and for the first missing credential in the order bearer_token, api_key, api_secret, access_token, access_token_secret; a section that is not a dict raises TypeError, which is not caught; file errors propagate |
| Collector.Join | src/data_collection/german_politics_collector.py:45 | Python's `sep.join(parts)`; its properties are JoinAppend and JoinHasPart |
| Collector.GermanQuery | src/data_collection/german_politics_collector.py:45 | the keywords joined with " OR ", followed by " lang:de"; its properties are GermanQueryHasKeyword |
| Collector.SearchQuery | src/data_collection/german_politics_collector.py:45 | the query built from the political keywords; its properties are SearchQueryHasKeyword |
| Collector.JoinAppend | src/data_collection/german_politics_collector.py:45 | joining one more part appends the separator and that part |
| Collector.JoinHasPart | src/data_collection/german_politics_collector.py:45 | every part occurs in the joined string |
| Collector.GermanQueryHasKeyword | src/data_collection/german_politics_collector.py:45 | a query built from keywords contains every keyword and ends with " lang:de" |
| Collector.SearchQueryHasKeyword | src/data_collection/german_politics_collector.py:45 | the search query contains every political keyword and ends with " lang:de" |
| Collector.SearchRecords | src/data_collection/german_politics_collector.py:47-68 | an API error or empty data gives no records; otherwise one record per tweet, in order, with its id, text, creation time and metrics, collected at `now`, and no account or lang |
| Collector.SearchPoliticalTweets | src/data_collection/german_politics_collector.py:43-68 | the records of the search response for the political query with `max_results`; its properties are SearchRecords' contract |
| Collector.SearchRecordsFit | src/data_collection/german_politics_collector.py:58-64 | keyword-search records fit their columns exactly when every tweet id fits a BIGINT |
| Collector.AccountTweets | src/data_collection/german_politics_collector.py:75-99 | one account's contribution: its timeline's records, or nothing when the lookup, the user or the timeline fails; its properties are FailedAccountContributesNothing and AccountRecordsNameAccount |
| Collector.AllAccountsTweets | src/data_collection/german_politics_collector.py:74-101 | the accounts' contributions concatenated in list order, each account's records stamped with its own clock reading; its properties are the lemmas below |
| Collector.FailedAccountContributesNothing | src/data_collection/german_politics_collector.py:76-99 | an account with no user data, a failing lookup or a failing timeline adds nothing |
| Collector.AllAccountsConcat | src/data_collection/german_politics_collector.py:74-101 | collecting two lists of accounts in turn is collecting their concatenation |
| Collector.FailedFirstIsSkipped | src/data_collection/german_politics_collector.py:77-99 | a failing first account adds nothing ahead of the accounts after it |
| Collector.FailedAccountIsSkipped | src/data_collection/german_politics_collector.py:77-99 | a failing account is skipped: the result is the accounts before it followed by the accounts after it |
| Collector.AccountRecordsNameAccount | src/data_collection/german_politics_collector.py:87-95 | every record from an account's timeline names that account, carries that account's clock reading and has no lang |
| Collector.AccountRecordsHaveNoLang | src/data_collection/german_politics_collector.py:88-95 | no collected account record has a lang |
| Collector.AccountRecordsFit | src/data_collection/german_politics_collector.py:88-95 | every political account name fits `account_name`, so the account records fit their columns exactly when every tweet id fits a BIGINT |
| Collector.RecordsNameTheirAccount | src/data_collection/german_politics_collector.py:87-95 | every collected record names one of the queried accounts and carries the clock reading of that account |
| Collector.GetPoliticalAccountsTweets | src/data_collection/german_politics_collector.py:70-101 | the loop's list is the six accounts' contributions concatenated in list order, the k-th stamped with the k-th clock reading |
| Collector.StorePlan | src/data_collection/german_politics_collector.py:108-117 | one store call per non-empty list, never an empty batch; keyword results first with the flag false, account results last with the flag true |
| Collector.ApplyStorePlan | src/data_collection/german_politics_collector.py:108-117 | carrying out the calls stores the keyword results, then the account results |
| Collector.CollectAndStore | src/data_collection/german_politics_collector.py:103-121 | finishes exactly when each non-empty list is stored, which needs a ready handler and records that fit; the new table is the store calls applied in order; when the first call raises the table is unchanged, and when the second raises the first batch stays stored; the exception is InterfaceError, InFailedSqlTransaction or UndefinedTable by the handler's state on entry, and otherwise the column error of the first misfit record; the handler ends closed |
| Collector.KeywordPathWins | src/data_collection/german_politics_collector.py:108-116 | a new tweet found by the keyword search keeps account_name NULL and is_political_account false, even if the account path collects it again |
| Analysis.MetricKeys | src/analysis/tweet_analyzer.py:39 | the columns `json_normalize` makes of the metrics cells; its property is MetricKeysMembers |
| Analysis.MetricKeysMembers | src/analysis/tweet_analyzer.py:39 | the metric columns are exactly the counter names that occur in some row |
| Analysis.Flattened | src/analysis/tweet_analyzer.py:38-40 | a flattened row has the five selected columns plus every metric column |
| Analysis.FlattenedCells | src/analysis/tweet_analyzer.py:38-40 | a flattened row holds the selected fields, and each counter the row has, NaN for one it lacks |
| Analysis.FrameOf | src/analysis/tweet_analyzer.py:38-40 | one well-formed row per selected row, labelled 0..n-1, with columns = selected columns + metric columns |
| Analysis.FrameOfCells | src/analysis/tweet_analyzer.py:38-40 | every row of the built frame has a string text and a timestamp |
| Analysis.TransformedAnalysable | src/analysis/tweet_analyzer.py:43-44 | cleaning and scoring a frame with string texts and timestamps always succeeds and gives an analysable frame |
| Analysis.Dataframe | src/analysis/tweet_analyzer.py:38-46 | the frame returned for the selected rows: built, cleaned and scored; its properties are the Dataframe* lemmas |
| Analysis.DataframeIsTransformed | src/analysis/tweet_analyzer.py:38-44 | the analysis frame is what cleaning and scoring the built frame gives, and it is analysable |
| Analysis.DataframeProperties | src/analysis/tweet_analyzer.py:38-46 | no duplicate texts, no more rows than were selected, columns = selected + metric + sentiment, each row scored by its own text |
| Analysis.DataframeIsFirstOfEachText | src/analysis/tweet_analyzer.py:38-46 | the rows are, in newest-first order, the first selected row of each text, flattened and scored, and every selected row whose text no earlier row has is among them |
| Analysis.DataframeKeepsEveryText | src/analysis/tweet_analyzer.py:43 | every selected text appears in the analysis frame |
| Analysis.GetTweetsDataframe | src/analysis/tweet_analyzer.py:19-50 | succeeds exactly when the handler is ready, giving a fresh frame built from a newest-first selection of every row; InterfaceError, or InFailedSqlTransaction or UndefinedTable leaving the transaction aborted, otherwise; the data is never changed |
| Analysis.CountSign | src/analysis/tweet_analyzer.py:151-153 | a count of rows with one sign is at most the row count |
| Analysis.CountSignIsCardinality | src/analysis/tweet_analyzer.py:151-153 | each sign's count is the number of rows whose score has that sign |
| Analysis.SignsPartition | src/analysis/tweet_analyzer.py:151-153 | positive, negative and neutral counts add up to the number of rows |
| Analysis.FirstMax | src/analysis/tweet_analyzer.py:154 | `idxmax` picks a largest score, and the first one among equals |
| Analysis.FirstMin | src/analysis/tweet_analyzer.py:155 | `idxmin` picks a smallest score, and the first one among equals |
| Analysis.Summarize | src/analysis/tweet_analyzer.py:149-156 | an empty frame raises ValueError from `idxmax`; otherwise the counts are the sign cardinalities, and the two texts belong to a first largest and a first smallest score |
| Analysis.GetSentimentSummary | src/analysis/tweet_analyzer.py:139-160 | on a ready handler, the summary of the analysis frame of a newest-first selection; InterfaceError, InFailedSqlTransaction or UndefinedTable otherwise; the data is never changed |
| Analysis.Days | src/analysis/tweet_analyzer.py:58-61 | the calendar day of each row's `created_at` |
| Analysis.Occurrences | src/analysis/tweet_analyzer.py:61 | a day has a positive number of rows exactly when it occurs |
| Analysis.Insert | src/analysis/tweet_analyzer.py:61 | counting one more row keeps the group keys strictly ascending |
| Analysis.CountOnBeforeFirst | src/analysis/tweet_analyzer.py:61 | a day before the first group has no rows |
| Analysis.CountOnFound | src/analysis/tweet_analyzer.py:61 | a day with rows has its own group entry |
| Analysis.CountOnEntry | src/analysis/tweet_analyzer.py:61 | a group's stored count is the count looked up for its day |
| Analysis.InsertCount | src/analysis/tweet_analyzer.py:61 | counting a row on day d adds one to d's count and leaves every other day's |
| Analysis.InsertTotal | src/analysis/tweet_analyzer.py:61 | counting a row adds one to the total |
| Analysis.InsertPositive | src/analysis/tweet_analyzer.py:61 | counting a row keeps every group count positive |
| Analysis.DailyCounts | src/analysis/tweet_analyzer.py:61 | `groupby(date).size()` gives each day once, in ascending order |
| Analysis.DailyCountsCount | src/analysis/tweet_analyzer.py:61 | the count for any day is the number of rows on that day |
| Analysis.DailyCountsPositive | src/analysis/tweet_analyzer.py:61 | every group counts at least one row |
| Analysis.DailyCountsTotal | src/analysis/tweet_analyzer.py:61 | the group counts add up to the number of rows |
| Analysis.DailyCountIsOccurrences | src/analysis/tweet_analyzer.py:61 | each group's count is the number of rows on its day, and at least one |
| Analysis.DailyCountsCoverDay | src/analysis/tweet_analyzer.py:61 | every day that occurs has its group |
| Analysis.TimeSeriesChart | src/analysis/tweet_analyzer.py:61-105 | the chart drawn for a frame: the placeholder without rows, otherwise the daily counts; its properties are TimeSeriesChartProperties |
| Analysis.TimeSeriesChartProperties | src/analysis/tweet_analyzer.py:61-105 | the placeholder is drawn exactly when there are no rows; otherwise a line over the daily counts, with the date range from the first to the last day occurring |
| Analysis.PlotTweetsOverTime | src/analysis/tweet_analyzer.py:52-115 | succeeds exactly when the handler is ready, giving the chart of the analysis frame of a newest-first selection; InterfaceError, InFailedSqlTransaction or UndefinedTable otherwise; the data is never changed |

## Left out

- Network and drivers: the PostgreSQL server, psycopg2 and tweepy are not modelled. The database is the handler's schema and rows; the API is the `TwitterApi` value, with one response per call argument. Rate-limit waiting is not modelled.
- Connection failures: `psycopg2.connect` raising inside `connect` is not modelled. The handler's constructor models a connection that succeeded.
- Client construction: `tweepy.Client(...)` is not modelled. `ClientCredentials` stops at the credentials it would be given.
- Non-Tweepy client exceptions: only TweepyException is modelled as a failing API call. Other exceptions from the client, such as a connection error of the HTTP layer, are not modelled. The collector does not catch them: they end `get_political_accounts_tweets` or `search_political_tweets`, and `collect_and_store` logs and re-raises them after the keyword batch may already be committed.
- Clock: the model takes one reading for the keyword search and one per account, and gives it to all records of that response. The `datetime.now()` reads of one comprehension may differ by microseconds. Readings of different accounts are separate parameters and may be far apart, because the client waits out rate limits (`wait_on_rate_limit=True`).
- Logging and printing are not modelled, since they change no state the model has.
- Charts: the rendering, the figure styling and the PNG files are not modelled. `plot_tweets_over_time` is modelled up to the data it plots.
- `plot_engagement_metrics`: not modelled. It only renders histograms, with no computed result to state.
- Average sentiment: `df['sentiment'].mean()` is left out, because floating-point averaging is not modelled. Scores are Dafny `real`s.
- Column order: pandas' column order is not modelled. A frame's columns are a set.
- Counter name clashes: a counter whose name equals a selected column would give pandas two columns of the same name. In the model the selected column wins.
- dtype changes: pandas turning integer counters into floats when some row lacks one is not modelled. A missing counter is NaN (`VNull`).
- Other sessions: concurrent writers on other connections, and the isolation level, are not modelled. The table changes only through this handler's commits.
- TypeError texts: the exact messages of Python's TypeErrors are not modelled, only their kind.
- Top-level JSON: a configuration file whose top-level value is not an object is not modelled.
- Unreachable case: `Analysis.Dataframe` has an error case no input reaches. `DataframeIsTransformed` proves that cleaning and scoring always succeed.
- Object wiring: `TweetAnalyzer.__init__` and its `self.db`/`self.transformer` are not modelled; the handler and the lexicon are parameters.
- Other files: `twitter_client.py`, `setup_db.py` and the tests are not part of this model.
- Collector.SearchQueryHasKeyword: states that each keyword occurs in the query and that the query ends with " lang:de". It does not spell out the whole literal query string, because an equality over a string that long is too costly for the verifier.
- Analysis.Summarize: states the counts and extremes for frames as built here, where every score is a real. It does not cover `idxmax` skipping NaN scores.
- Missing tweet keys: `store_tweets` raises KeyError for a tweet dict without `id`, `text`, `created_at`, `collected_at` or `metrics`. A `TweetRecord` always has these fields, so that error is not modelled; the collector always builds dicts with all of them.
- NULL metrics: a row whose `metrics` cell is NULL is not modelled. Every stored row has a counter map, possibly empty.
