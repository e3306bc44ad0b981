/** The tweet store (src/database/db_handler.py): one `tweets` table keyed by
    the tweet id, written by an INSERT ... ON CONFLICT (id) DO UPDATE that
    refreshes only `metrics` and `collected_at`, and read newest first.
    The SQL driver is abstracted away: a `DatabaseHandler` holds whether its
    connection is open and the state of the server's schema and table. */
module Store {
  import opened Base
  import opened Config

  /** A tweet dict as `store_tweets` receives it. `account` and `lang` are
      the two keys that may be absent (read with `tweet.get`). */
  datatype TweetRecord = TweetRecord(
    id: int,
    text: string,
    createdAt: Timestamp,
    collectedAt: Timestamp,
    account: Option<string>,
    metrics: Metrics,
    lang: Option<string>)

  /** One row of the `tweets` table. */
  datatype Row = Row(
    id: int,
    text: string,
    createdAt: Timestamp,
    collectedAt: Timestamp,
    accountName: Option<string>,
    metrics: Metrics,
    lang: string,
    isPoliticalAccount: bool)

  /** The columns `get_recent_tweets` selects. */
  datatype RecentTweet = RecentTweet(
    id: int,
    text: string,
    createdAt: Timestamp,
    accountName: Option<string>,
    metrics: Metrics)

  /** Whether the `tweets` table exists, and the names of its indexes. */
  datatype Schema = Schema(tableExists: bool, indexes: set<string>)

  const CreatedAtIndex := "tweets_created_at_idx"
  const AccountNameIndex := "tweets_account_name_idx"
  const DefaultLang := "de"
  const DefaultRecentLimit := 100

  /** The schema after the CREATE TABLE IF NOT EXISTS / CREATE INDEX IF NOT
      EXISTS script of `init_tables`. */
  function CreateIfNotExists(s: Schema): (r: Schema)
    ensures r.tableExists
    ensures r.indexes == s.indexes + {CreatedAtIndex, AccountNameIndex}
  {
    Schema(true, s.indexes + {CreatedAtIndex, AccountNameIndex})
  }

  /** Running the schema script a second time changes nothing. */
  lemma InitTablesIdempotent(s: Schema)
    ensures CreateIfNotExists(CreateIfNotExists(s)) == CreateIfNotExists(s)
  {
  }

  // ---------------------------------------------------------------------
  // Column types: id BIGINT, account_name VARCHAR(255), lang VARCHAR(10)

  const BigIntMin: int := -0x8000_0000_0000_0000
  const BigIntMax: int := 0x7FFF_FFFF_FFFF_FFFF
  const AccountNameWidth := 255
  const LangWidth := 10

  /** `id` fits a BIGINT column. */
  predicate InBigIntRange(id: int) {
    BigIntMin <= id <= BigIntMax
  }

  /** Every character of `s` is a space. */
  predicate OnlySpaces(s: string) {
    forall i :: 0 <= i < |s| ==> s[i] == ' '
  }

  /** PostgreSQL's assignment to a `VARCHAR(width)` column accepts `s`: it is
      short enough, or every character past the width is a space. */
  predicate FitsWidth(s: string, width: nat) {
    |s| <= width || OnlySpaces(s[width..])
  }

  /** The value a `VARCHAR(width)` column stores for an accepted `s`: `s`
      cut to the width, so only trailing spaces are dropped. */
  function Cut(s: string, width: nat): (r: string)
    ensures |r| <= width && |r| <= |s| && r == s[..|r|]
    ensures |s| <= width ==> r == s
    ensures FitsWidth(s, width) ==> OnlySpaces(s[|r|..])
  {
    if |s| <= width then s else s[..width]
  }

  /** The values the INSERT writes for `t` fit their column types. */
  predicate Fits(t: TweetRecord) {
    && InBigIntRange(t.id)
    && (t.account.Some? ==> FitsWidth(t.account.value, AccountNameWidth))
    && (t.lang.Some? ==> FitsWidth(t.lang.value, LangWidth))
  }

  /** Every record of the batch fits the columns. */
  predicate AllFit(batch: seq<TweetRecord>) {
    forall i :: 0 <= i < |batch| ==> Fits(batch[i])
  }

  const BigIntOutOfRange := "bigint out of range"
  const AccountNameTooLong := "value too long for type character varying(255)"
  const LangTooLong := "value too long for type character varying(10)"

  /** A fitting record extends a fitting prefix of its batch. */
  lemma AllFitPrefix(batch: seq<TweetRecord>, i: nat)
    requires i < |batch| && AllFit(batch[..i]) && Fits(batch[i])
    ensures AllFit(batch[..i + 1])
  {
    var p := batch[..i + 1];
    forall j | 0 <= j < |p|
      ensures Fits(p[j])
    {
      if j < i {
        assert p[j] == batch[..i][j];
      }
    }
  }

  /** The error the INSERT for `t` raises when a value does not fit its
      column, checked in column order: `id`, then `account_name`, then
      `lang` (a missing `lang` is written as "de", which fits). A string
      longer than its column is refused unless the excess is all spaces. */
  function ColumnError(t: TweetRecord): (e: Option<Exception>)
    ensures e.None? <==> Fits(t)
    ensures !InBigIntRange(t.id) ==> e == Some(NumericValueOutOfRange(BigIntOutOfRange))
    ensures InBigIntRange(t.id) && e.Some? ==> e.value.StringDataRightTruncation?
  {
    if !InBigIntRange(t.id) then Some(NumericValueOutOfRange(BigIntOutOfRange))
    else if t.account.Some? && !FitsWidth(t.account.value, AccountNameWidth) then
      Some(StringDataRightTruncation(AccountNameTooLong))
    else if t.lang.Some? && !FitsWidth(t.lang.value, LangWidth) then
      Some(StringDataRightTruncation(LangTooLong))
    else None
  }

  // ---------------------------------------------------------------------
  // Table semantics of the upsert

  /** The primary key: every row is stored under its own id. */
  predicate KeyedById(table: map<int, Row>) {
    forall k :: k in table ==> table[k].id == k
  }

  /** The `account_name` a record is written with: its `account` cut to
      the column, or NULL. */
  function AccountColumn(t: TweetRecord): Option<string> {
    if t.account.Some? then Some(Cut(t.account.value, AccountNameWidth)) else None
  }

  /** The `lang` a record is written with: its `lang` or "de", cut to the
      column. */
  function LangColumn(t: TweetRecord): string {
    Cut(if t.lang.Some? then t.lang.value else DefaultLang, LangWidth)
  }

  /** The row that the INSERT branch creates for `t`. */
  function NewRow(t: TweetRecord, isPoliticalAccount: bool): Row {
    Row(t.id, t.text, t.createdAt, t.collectedAt, AccountColumn(t), t.metrics, LangColumn(t), isPoliticalAccount)
  }

  /** Row `r` carries, in every column the conflict clause leaves alone, the
      values a first insert of `t` writes: `account_name` is the tweet's
      `account` or NULL, `lang` its `lang` or "de", each without the
      trailing spaces past its column width, and the flag is the call's
      argument. */
  predicate InsertedFrom(r: Row, t: TweetRecord, isPoliticalAccount: bool) {
    && r.id == t.id
    && r.text == t.text
    && r.createdAt == t.createdAt
    && r.accountName == AccountColumn(t)
    && r.lang == LangColumn(t)
    && r.isPoliticalAccount == isPoliticalAccount
  }

  /** A record whose strings fit their columns unchanged is written as it
      is: `account_name` is its `account` or NULL and `lang` its `lang` or
      "de"; an accepted longer string loses only trailing spaces. */
  lemma ColumnsOfFittingRecord(t: TweetRecord)
    requires Fits(t)
    ensures t.account.Some? && |t.account.value| <= AccountNameWidth ==> AccountColumn(t) == t.account
    ensures t.account.None? ==> AccountColumn(t).None?
    ensures t.lang.Some? && |t.lang.value| <= LangWidth ==> LangColumn(t) == t.lang.value
    ensures t.lang.None? ==> LangColumn(t) == DefaultLang
    ensures t.account.Some? ==> (AccountColumn(t).Some?
      && t.account.value == AccountColumn(t).value + t.account.value[|AccountColumn(t).value|..]
      && OnlySpaces(t.account.value[|AccountColumn(t).value|..]))
    ensures t.lang.Some? ==> (t.lang.value == LangColumn(t) + t.lang.value[|LangColumn(t)|..]
      && OnlySpaces(t.lang.value[|LangColumn(t)|..]))
  {
    if t.account.Some? {
      var a := t.account.value;
      var c := Cut(a, AccountNameWidth);
      assert a == a[..|c|] + a[|c|..];
    }
    if t.lang.Some? {
      var l := t.lang.value;
      var c := Cut(l, LangWidth);
      assert l == l[..|c|] + l[|c|..];
    }
  }

  /** `a` and `b` agree in every column the conflict clause leaves alone. */
  predicate SameFixedColumns(a: Row, b: Row) {
    && a.id == b.id
    && a.text == b.text
    && a.createdAt == b.createdAt
    && a.accountName == b.accountName
    && a.lang == b.lang
    && a.isPoliticalAccount == b.isPoliticalAccount
  }

  /** One execution of the INSERT ... ON CONFLICT (id) DO UPDATE statement. */
  function Upsert(table: map<int, Row>, t: TweetRecord, isPoliticalAccount: bool): (r: map<int, Row>)
    ensures r.Keys == table.Keys + {t.id}
    ensures forall k :: k in table && k != t.id ==> r[k] == table[k]
    ensures r[t.id].metrics == t.metrics && r[t.id].collectedAt == t.collectedAt
    ensures t.id in table ==> |r| == |table| && SameFixedColumns(r[t.id], table[t.id])
    ensures t.id !in table ==> |r| == |table| + 1 && InsertedFrom(r[t.id], t, isPoliticalAccount)
    ensures KeyedById(table) ==> KeyedById(r)
  {
    if t.id in table then
      table[t.id := table[t.id].(metrics := t.metrics, collectedAt := t.collectedAt)]
    else
      table[t.id := NewRow(t, isPoliticalAccount)]
  }

  /** The table after the statements for `batch` ran one after the other. */
  function StoreAll(table: map<int, Row>, batch: seq<TweetRecord>, isPoliticalAccount: bool): map<int, Row>
    decreases |batch|
  {
    if batch == [] then table
    else Upsert(StoreAll(table, batch[..|batch| - 1], isPoliticalAccount), batch[|batch| - 1], isPoliticalAccount)
  }

  /** Running one more statement extends the table of a batch prefix. */
  lemma StoreAllPrefix(table: map<int, Row>, batch: seq<TweetRecord>, i: nat, isPoliticalAccount: bool)
    requires i < |batch|
    ensures StoreAll(table, batch[..i + 1], isPoliticalAccount)
      == Upsert(StoreAll(table, batch[..i], isPoliticalAccount), batch[i], isPoliticalAccount)
  {
    assert batch[..i + 1][..i] == batch[..i];
  }

  /** The ids occurring in a batch. */
  function Ids(batch: seq<TweetRecord>): (r: set<int>)
    ensures forall i :: 0 <= i < |batch| ==> batch[i].id in r
    ensures forall k :: k in r ==> exists i :: 0 <= i < |batch| && batch[i].id == k
    decreases |batch|
  {
    if batch == [] then {}
    else
      var p := batch[..|batch| - 1];
      assert forall i :: 0 <= i < |p| ==> p[i] == batch[i];
      Ids(p) + {batch[|batch| - 1].id}
  }

  lemma IdsSnoc(batch: seq<TweetRecord>)
    requires batch != []
    ensures Ids(batch) == Ids(batch[..|batch| - 1]) + {batch[|batch| - 1].id}
  {
  }

  /** The position of the last record of `batch` with id `k`. */
  function LastIndexOf(batch: seq<TweetRecord>, k: int): (i: nat)
    requires k in Ids(batch)
    ensures i < |batch| && batch[i].id == k
    ensures forall j :: i < j < |batch| ==> batch[j].id != k
    decreases |batch|
  {
    IdsSnoc(batch);
    if batch[|batch| - 1].id == k then |batch| - 1
    else LastIndexOf(batch[..|batch| - 1], k)
  }

  /** The position of the first record of `batch` with id `k`. */
  function FirstIndexOf(batch: seq<TweetRecord>, k: int): (i: nat)
    requires k in Ids(batch)
    ensures i < |batch| && batch[i].id == k
    ensures forall j :: 0 <= j < i ==> batch[j].id != k
    decreases |batch|
  {
    IdsSnoc(batch);
    var p := batch[..|batch| - 1];
    if k in Ids(p) then FirstIndexOf(p, k) else |batch| - 1
  }

  /** After a batch, the keys are the old keys plus every id in the batch. */
  lemma {:induction false} StoreAllKeys(table: map<int, Row>, batch: seq<TweetRecord>, isPoliticalAccount: bool)
    ensures StoreAll(table, batch, isPoliticalAccount).Keys == table.Keys + Ids(batch)
    decreases |batch|
  {
    if batch != [] {
      var p := batch[..|batch| - 1];
      var x := batch[|batch| - 1];
      StoreAllKeys(table, p, isPoliticalAccount);
      IdsSnoc(batch);
      var before := StoreAll(table, p, isPoliticalAccount);
      var after := Upsert(before, x, isPoliticalAccount);
      assert StoreAll(table, batch, isPoliticalAccount) == after;
      calc {
        after.Keys;
        before.Keys + {x.id};
        table.Keys + Ids(p) + {x.id};
        table.Keys + Ids(batch);
      }
    }
  }

  /** A batch keeps every row stored under its own id. */
  lemma {:induction false} StoreAllKeyed(table: map<int, Row>, batch: seq<TweetRecord>, isPoliticalAccount: bool)
    requires KeyedById(table)
    ensures KeyedById(StoreAll(table, batch, isPoliticalAccount))
    decreases |batch|
  {
    if batch != [] {
      StoreAllKeyed(table, batch[..|batch| - 1], isPoliticalAccount);
    }
  }

  /** Rows whose id is not in the batch are left exactly as they were. */
  lemma {:induction false} StoreAllUntouched(table: map<int, Row>, batch: seq<TweetRecord>, isPoliticalAccount: bool, k: int)
    requires k in table && k !in Ids(batch)
    ensures k in StoreAll(table, batch, isPoliticalAccount)
    ensures StoreAll(table, batch, isPoliticalAccount)[k] == table[k]
    decreases |batch|
  {
    if batch != [] {
      IdsSnoc(batch);
      StoreAllUntouched(table, batch[..|batch| - 1], isPoliticalAccount, k);
      StoreAllKeys(table, batch[..|batch| - 1], isPoliticalAccount);
    }
  }

  /** The row of an id in the batch: `metrics` and `collected_at` come from
      the LAST record with that id; every other column is the old row's if
      the id was already stored, and otherwise that of a first insert of the
      FIRST record with that id, with the call's flag. */
  lemma {:induction false} StoreAllRow(table: map<int, Row>, batch: seq<TweetRecord>, isPoliticalAccount: bool, k: int)
    requires k in Ids(batch)
    ensures k in StoreAll(table, batch, isPoliticalAccount)
    ensures StoreAll(table, batch, isPoliticalAccount)[k].metrics == batch[LastIndexOf(batch, k)].metrics
    ensures StoreAll(table, batch, isPoliticalAccount)[k].collectedAt == batch[LastIndexOf(batch, k)].collectedAt
    ensures k in table ==> SameFixedColumns(StoreAll(table, batch, isPoliticalAccount)[k], table[k])
    ensures k !in table ==>
      InsertedFrom(StoreAll(table, batch, isPoliticalAccount)[k], batch[FirstIndexOf(batch, k)], isPoliticalAccount)
    decreases |batch|
  {
    var p := batch[..|batch| - 1];
    var x := batch[|batch| - 1];
    IdsSnoc(batch);
    StoreAllKeys(table, p, isPoliticalAccount);
    if x.id == k {
      if k in Ids(p) {
        StoreAllRow(table, p, isPoliticalAccount, k);
      } else if k in table {
        StoreAllUntouched(table, p, isPoliticalAccount, k);
      }
    } else {
      StoreAllRow(table, p, isPoliticalAccount, k);
    }
  }

  /** No row is ever duplicated: the row count grows by exactly the number
      of ids that were new, so a batch of already stored ids leaves it as it
      was. */
  lemma StoreAllCount(table: map<int, Row>, batch: seq<TweetRecord>, isPoliticalAccount: bool)
    ensures |StoreAll(table, batch, isPoliticalAccount)| == |table| + |Ids(batch) - table.Keys|
    ensures Ids(batch) <= table.Keys ==> |StoreAll(table, batch, isPoliticalAccount)| == |table|
  {
    var r := StoreAll(table, batch, isPoliticalAccount);
    StoreAllKeys(table, batch, isPoliticalAccount);
    var added := Ids(batch) - table.Keys;
    assert r.Keys == table.Keys + added;
    assert table.Keys !! added;
    assert |r.Keys| == |table.Keys| + |added|;
  }

  // ---------------------------------------------------------------------
  // ORDER BY created_at DESC LIMIT n

  /** The ids of a sequence of rows. */
  function RowIds(out: seq<Row>): (r: set<int>)
    ensures forall i :: 0 <= i < |out| ==> out[i].id in r
    ensures forall k :: k in r ==> exists i :: 0 <= i < |out| && out[i].id == k
    decreases |out|
  {
    if out == [] then {}
    else
      var p := out[..|out| - 1];
      assert forall i :: 0 <= i < |p| ==> p[i] == out[i];
      RowIds(p) + {out[|out| - 1].id}
  }

  /** `out` is what `ORDER BY created_at DESC LIMIT limit` may return from
      `table`: as many rows as the limit allows, each a distinct row of the
      table, newest first, and no row left out is newer than one returned.
      Rows with equal `created_at` may come in any order. */
  predicate IsNewestFirst(table: map<int, Row>, out: seq<Row>, limit: nat) {
    && |out| == (if limit < |table| then limit else |table|)
    && (forall i :: 0 <= i < |out| ==> out[i].id in table && table[out[i].id] == out[i])
    && (forall i, j :: 0 <= i < j < |out| ==> out[i].id != out[j].id)
    && (forall i, j :: 0 <= i < j < |out| ==> out[j].createdAt <= out[i].createdAt)
    && (forall k, i :: k in table && k !in RowIds(out) && 0 <= i < |out| ==> table[k].createdAt <= out[i].createdAt)
  }

  /** The selected rows are rows of the table, none of them still remaining. */
  ghost predicate TakenFrom(table: map<int, Row>, out: seq<Row>, remaining: set<int>) {
    && remaining <= table.Keys
    && forall i :: 0 <= i < |out| ==> out[i].id in table && table[out[i].id] == out[i] && out[i].id !in remaining
  }

  /** Every row no longer remaining has been selected. */
  ghost predicate Covered(table: map<int, Row>, out: seq<Row>, remaining: set<int>) {
    forall k :: k in table && k !in remaining ==> k in RowIds(out)
  }

  /** No two selected rows have the same id. */
  ghost predicate DistinctIds(out: seq<Row>) {
    forall i, j :: 0 <= i < j < |out| ==> out[i].id != out[j].id
  }

  /** The selected rows come newest first. */
  ghost predicate Descending(out: seq<Row>) {
    forall i, j :: 0 <= i < j < |out| ==> out[j].createdAt <= out[i].createdAt
  }

  /** No remaining row is newer than a selected one. */
  ghost predicate RemainingOlder(table: map<int, Row>, out: seq<Row>, remaining: set<int>) {
    forall k, i :: k in remaining && k in table && 0 <= i < |out| ==> table[k].createdAt <= out[i].createdAt
  }

  /** The state of a selection of the newest rows after some steps: `out`
      holds distinct rows of the table, newest first, none of them still
      `remaining`, and no remaining row is newer than a selected one. */
  ghost predicate SelectionState(table: map<int, Row>, out: seq<Row>, remaining: set<int>) {
    && TakenFrom(table, out, remaining)
    && Covered(table, out, remaining)
    && DistinctIds(out)
    && Descending(out)
    && RemainingOlder(table, out, remaining)
    && |out| + |remaining| == |table|
  }

  lemma TakenStep(table: map<int, Row>, out: seq<Row>, remaining: set<int>, k: int)
    requires KeyedById(table) && TakenFrom(table, out, remaining) && k in remaining
    ensures TakenFrom(table, out + [table[k]], remaining - {k})
  {
    var out' := out + [table[k]];
    forall i | 0 <= i < |out'|
      ensures out'[i].id in table && table[out'[i].id] == out'[i] && out'[i].id !in remaining - {k}
    {
      if i < |out| {
        assert out'[i] == out[i];
      } else {
        assert out'[i] == table[k];
      }
    }
  }

  lemma CoveredStep(table: map<int, Row>, out: seq<Row>, remaining: set<int>, k: int)
    requires KeyedById(table) && Covered(table, out, remaining) && k in table
    ensures Covered(table, out + [table[k]], remaining - {k})
  {
    RowIdsSnoc(out, table[k]);
  }

  lemma DistinctStep(table: map<int, Row>, out: seq<Row>, remaining: set<int>, k: int)
    requires KeyedById(table) && TakenFrom(table, out, remaining) && DistinctIds(out) && k in remaining
    ensures DistinctIds(out + [table[k]])
  {
    var out' := out + [table[k]];
    forall i, j | 0 <= i < j < |out'| ensures out'[i].id != out'[j].id {
      assert out'[i] == out[i];
      if j == |out| {
        assert out'[j] == table[k] && out[i].id !in remaining;
      } else {
        assert out'[j] == out[j];
      }
    }
  }

  lemma DescendingStep(table: map<int, Row>, out: seq<Row>, remaining: set<int>, k: int)
    requires Descending(out) && RemainingOlder(table, out, remaining) && k in remaining && remaining <= table.Keys
    ensures Descending(out + [table[k]])
  {
    var out' := out + [table[k]];
    forall i, j | 0 <= i < j < |out'| ensures out'[j].createdAt <= out'[i].createdAt {
      assert out'[i] == out[i];
      if j == |out| {
        assert out'[j] == table[k];
      } else {
        assert out'[j] == out[j];
      }
    }
  }

  lemma OlderStep(table: map<int, Row>, out: seq<Row>, remaining: set<int>, k: int)
    requires RemainingOlder(table, out, remaining) && k in remaining && remaining <= table.Keys
    requires forall j :: j in remaining ==> table[j].createdAt <= table[k].createdAt
    ensures RemainingOlder(table, out + [table[k]], remaining - {k})
  {
    var out' := out + [table[k]];
    forall j, i | j in remaining - {k} && j in table && 0 <= i < |out'| ensures table[j].createdAt <= out'[i].createdAt {
      if i < |out| {
        assert out'[i] == out[i];
      } else {
        assert out'[i] == table[k];
      }
    }
  }

  /** Moving the newest remaining row to the end of the selection keeps the
      selection state. */
  lemma SelectStep(table: map<int, Row>, out: seq<Row>, remaining: set<int>, k: int)
    requires KeyedById(table) && SelectionState(table, out, remaining)
    requires k in remaining && forall j :: j in remaining ==> table[j].createdAt <= table[k].createdAt
    ensures SelectionState(table, out + [table[k]], remaining - {k})
  {
    TakenStep(table, out, remaining, k);
    CoveredStep(table, out, remaining, k);
    DistinctStep(table, out, remaining, k);
    DescendingStep(table, out, remaining, k);
    OlderStep(table, out, remaining, k);
    assert |remaining - {k}| == |remaining| - 1;
  }

  /** A selection that reached the limit or used up the table is a valid
      answer to the query. */
  lemma SelectDone(table: map<int, Row>, out: seq<Row>, remaining: set<int>, limit: nat)
    requires SelectionState(table, out, remaining)
    requires |out| <= limit && (|out| == limit || remaining == {})
    ensures IsNewestFirst(table, out, limit)
  {
  }

  lemma NonEmptyHasElement(s: set<int>)
    ensures s == {} || exists x :: x in s
  {
    if !(exists x :: x in s) {
      assert s == {};
    }
  }

  /** A finite non-empty set of row ids has a newest row. */
  lemma NewestExists(table: map<int, Row>, s: set<int>)
    requires s != {} && s <= table.Keys
    ensures exists k :: k in s && forall j :: j in s ==> table[j].createdAt <= table[k].createdAt
    decreases |s|
  {
    NonEmptyHasElement(s);
    var x :| x in s;
    if s != {x} {
      NewestExists(table, s - {x});
      var k :| k in s - {x} && forall j :: j in s - {x} ==> table[j].createdAt <= table[k].createdAt;
      if table[x].createdAt <= table[k].createdAt {
        assert forall j :: j in s ==> table[j].createdAt <= table[k].createdAt;
      } else {
        assert forall j :: j in s ==> table[j].createdAt <= table[x].createdAt;
      }
    } else {
      assert forall j :: j in s ==> j == x;
    }
  }

  lemma RowIdsSnoc(out: seq<Row>, r: Row)
    ensures RowIds(out + [r]) == RowIds(out) + {r.id}
  {
    assert (out + [r])[..|out|] == out;
  }

  lemma {:induction false} RowIdsCount(out: seq<Row>)
    requires forall i, j :: 0 <= i < j < |out| ==> out[i].id != out[j].id
    ensures |RowIds(out)| == |out|
    decreases |out|
  {
    if out != [] {
      var p := out[..|out| - 1];
      var last := out[|out| - 1];
      assert out == p + [last];
      RowIdsCount(p);
      RowIdsSnoc(p, last);
      assert last.id !in RowIds(p) by {
        forall i | 0 <= i < |p| ensures p[i].id != last.id {
          assert p[i] == out[i];
        }
      }
    }
  }

  /** Without a binding limit the query returns every row of the table
      exactly once. */
  lemma UnlimitedIsEveryRow(table: map<int, Row>, out: seq<Row>, limit: nat)
    requires KeyedById(table) && IsNewestFirst(table, out, limit) && |table| <= limit
    ensures RowIds(out) == table.Keys
    ensures forall k :: k in table ==> exists i :: 0 <= i < |out| && out[i] == table[k]
  {
    RowIdsCount(out);
    var returned := RowIds(out);
    var missing := table.Keys - returned;
    assert returned <= table.Keys;
    assert table.Keys == returned + missing;
    assert returned !! missing;
    assert |table.Keys| == |returned| + |missing|;
    assert missing == {};
    forall k | k in table ensures exists i :: 0 <= i < |out| && out[i] == table[k] {
      assert k in RowIds(out);
      var i :| 0 <= i < |out| && out[i].id == k;
      assert out[i] == table[k];
    }
  }

  function Recent(r: Row): RecentTweet {
    RecentTweet(r.id, r.text, r.createdAt, r.accountName, r.metrics)
  }

  // ---------------------------------------------------------------------
  // Connecting

  /** The connection parameters `connect` reads from the database section. */
  datatype DbSettings = DbSettings(host: Json, port: Json, name: Json, user: Json, password: Json)

  const ConnectionKeys: seq<string> := ["host", "port", "name", "user", "password"]

  /** `DatabaseHandler.__init__` up to the network call: the database section
      of the configuration and the five lookups `connect` makes in it. A
      missing key propagates as the KeyError itself. */
  function ConnectionSettings(file: ConfigFile, path: string): (r: Result<DbSettings>)
    ensures !file.Parsed? ==> r == Err(LoadConfig(file, path).error)
    ensures file.Parsed? && DatabaseSection !in file.document ==>
      r == Err(KeyError("Database configuration not found in config file"))
    ensures r.Ok? <==> (file.Parsed? && DatabaseSection in file.document
      && file.document[DatabaseSection].JObject?
      && forall i :: 0 <= i < |ConnectionKeys| ==> ConnectionKeys[i] in file.document[DatabaseSection].fields)
    ensures r.Ok? ==> (file.Parsed? && DatabaseSection in file.document && file.document[DatabaseSection].JObject?
      && var fs := file.document[DatabaseSection].fields;
         && "host" in fs && "port" in fs && "name" in fs && "user" in fs && "password" in fs
         && r.value == DbSettings(fs["host"], fs["port"], fs["name"], fs["user"], fs["password"]))
    ensures file.Parsed? && DatabaseSection in file.document && file.document[DatabaseSection].JObject? && r.Err? ==>
      exists i :: (0 <= i < |ConnectionKeys| && r.error == KeyError(ConnectionKeys[i])
        && ConnectionKeys[i] !in file.document[DatabaseSection].fields
        && forall j :: 0 <= j < i ==> ConnectionKeys[j] in file.document[DatabaseSection].fields)
    ensures file.Parsed? && DatabaseSection in file.document && !file.document[DatabaseSection].JObject? ==>
      r.Err? && r.error.TypeError?
  {
    match GetDatabaseConfig(file, path)
    case Err(e) => Err(e)
    case Ok(section) =>
      match LookupAll(section, ConnectionKeys)
      case Err(e) => Err(e)
      case Ok(vs) => Ok(DbSettings(vs[0], vs[1], vs[2], vs[3], vs[4]))
  }

  // ---------------------------------------------------------------------
  // The handler

  /** The upserts of one `store_tweets` call, one statement per record in
      batch order, on the table as the transaction sees it: the table after
      the whole batch, or the error of the first record whose values do not
      fit their columns. */
  method RunUpserts(table: map<int, Row>, tweets: seq<TweetRecord>, isPoliticalAccount: bool)
    returns (r: Result<map<int, Row>>)
    ensures r.Ok? <==> AllFit(tweets)
    ensures r.Ok? ==> r.value == StoreAll(table, tweets, isPoliticalAccount)
    ensures r.Err? ==> exists i :: (0 <= i < |tweets| && AllFit(tweets[..i]) && ColumnError(tweets[i]) == Some(r.error))
  {
    var pending := table;
    var i := 0;
    while i < |tweets|
      invariant 0 <= i <= |tweets|
      invariant pending == StoreAll(table, tweets[..i], isPoliticalAccount)
      invariant AllFit(tweets[..i])
    {
      var t := tweets[i];
      var e := ColumnError(t);
      if e.Some? {
        assert !AllFit(tweets) by {
          assert !Fits(tweets[i]);
        }
        r := Err(e.value);
        assert ColumnError(tweets[i]) == Some(r.error);
        return;
      }
      AllFitPrefix(tweets, i);
      StoreAllPrefix(table, tweets, i, isPoliticalAccount);
      pending := Upsert(pending, t, isPoliticalAccount);
      i := i + 1;
    }
    assert tweets[..|tweets|] == tweets;
    r := Ok(pending);
  }

  const ConnectionClosed := "connection already closed"
  const TransactionAborted := "current transaction is aborted, commands ignored until end of transaction block"
  const NoTweetsTable := "relation \"tweets\" does not exist"

  class DatabaseHandler {
    const config: DbSettings
    /** `self.conn` is an open connection. */
    var connected: bool
    /** A statement failed in the connection's current transaction, so the
        server refuses every further statement until the transaction ends
        (the handler never rolls back; a commit ends it). */
    var aborted: bool
    /** Server-side state reached through the connection. */
    var schema: Schema
    var rows: map<int, Row>

    /** The primary key holds, and only an existing table holds rows. */
    predicate Valid()
      reads this
    {
      KeyedById(rows) && (|rows| > 0 ==> schema.tableExists)
    }

    /** Statements naming the table can run. */
    predicate Ready()
      reads this
    {
      connected && !aborted && schema.tableExists
    }

    /** `__init__` after `ConnectionSettings` succeeded and the server
        accepted the connection; the server's state is `schema` and `rows`. */
    constructor (settings: DbSettings, schema: Schema, rows: map<int, Row>)
      requires KeyedById(rows) && (|rows| > 0 ==> schema.tableExists)
      ensures Valid() && connected && !aborted
      ensures config == settings && this.schema == schema && this.rows == rows
    {
      config := settings;
      connected := true;
      aborted := false;
      this.schema := schema;
      this.rows := rows;
    }

    /** `close` (also what leaving a `with` block does). Closing discards an
        open transaction; nothing uncommitted is in `rows`. */
    method Close()
      modifies this
      ensures !connected && aborted == old(aborted) && schema == old(schema) && rows == old(rows)
    {
      connected := false;
    }

    /** `init_tables`. */
    method InitTables() returns (r: Outcome)
      requires Valid()
      modifies this
      ensures Valid() && connected == old(connected) && aborted == old(aborted) && rows == old(rows)
      ensures r == Done <==> old(connected) && !old(aborted)
      ensures r == Done ==> schema == CreateIfNotExists(old(schema))
      ensures r.Raised? ==> schema == old(schema)
      ensures !old(connected) ==> r == Raised(InterfaceError(ConnectionClosed))
      ensures old(connected) && old(aborted) ==> r == Raised(InFailedSqlTransaction(TransactionAborted))
    {
      if !connected {
        return Raised(InterfaceError(ConnectionClosed));
      }
      if aborted {
        return Raised(InFailedSqlTransaction(TransactionAborted));
      }
      schema := CreateIfNotExists(schema);
      r := Done;
    }

    /** `store_tweets`: one upsert per record, in batch order, then commit.
        The upserts take effect at the commit; a failing statement aborts
        the transaction, so nothing of the batch is stored. With no record
        no statement runs, and the commit ends (rolls back) an aborted
        transaction. */
    method StoreTweets(tweets: seq<TweetRecord>, isPoliticalAccount: bool := false) returns (r: Outcome)
      requires Valid()
      modifies this
      ensures Valid() && connected == old(connected) && schema == old(schema)
      ensures r == Done <==> old(connected) && (tweets == [] || (!old(aborted) && old(schema).tableExists && AllFit(tweets)))
      ensures r == Done ==> !aborted && rows == StoreAll(old(rows), tweets, isPoliticalAccount)
      ensures r.Raised? ==> rows == old(rows)
      ensures !old(connected) ==> r == Raised(InterfaceError(ConnectionClosed)) && aborted == old(aborted)
      ensures old(connected) && old(aborted) && tweets != [] ==>
        r == Raised(InFailedSqlTransaction(TransactionAborted)) && aborted
      ensures old(connected) && !old(aborted) && !old(schema).tableExists && tweets != [] ==>
        r == Raised(UndefinedTable(NoTweetsTable)) && aborted
      ensures old(Ready()) && r.Raised? ==> aborted && exists i :: (0 <= i < |tweets| && AllFit(tweets[..i])
        && ColumnError(tweets[i]) == Some(r.error))
    {
      if !connected {
        return Raised(InterfaceError(ConnectionClosed));
      }
      if tweets != [] && aborted {
        return Raised(InFailedSqlTransaction(TransactionAborted));
      }
      if tweets != [] && !schema.tableExists {
        aborted := true;
        return Raised(UndefinedTable(NoTweetsTable));
      }
      var staged := RunUpserts(rows, tweets, isPoliticalAccount);
      if staged.Err? {
        aborted := true;
        return Raised(staged.error);
      }
      StoreAllKeyed(rows, tweets, isPoliticalAccount);
      rows := staged.value;
      aborted := false;
      r := Done;
    }

    /** The query engine's `ORDER BY created_at DESC LIMIT limit` over the
        whole table, ties broken arbitrarily. */
    method SelectNewestFirst(limit: nat) returns (out: seq<Row>)
      requires Valid()
      ensures IsNewestFirst(rows, out, limit)
    {
      var remaining := rows.Keys;
      out := [];
      while |out| < limit && remaining != {}
        invariant SelectionState(rows, out, remaining)
        invariant |out| <= limit
        decreases remaining
      {
        NewestExists(rows, remaining);
        var k :| k in remaining && forall j :: j in remaining ==> rows[j].createdAt <= rows[k].createdAt;
        SelectStep(rows, out, remaining, k);
        out := out + [rows[k]];
        remaining := remaining - {k};
      }
      SelectDone(rows, out, remaining, limit);
    }

    /** A SELECT over the table, newest first, with at most `limit` rows or
        no LIMIT clause at all, sent on this handler's connection. A failing
        statement aborts the transaction; a successful one leaves it open. */
    method Select(limit: Option<int>) returns (r: Result<seq<Row>>)
      requires Valid()
      modifies this
      ensures connected == old(connected) && schema == old(schema) && rows == old(rows)
      ensures r.Ok? <==> old(Ready()) && (limit.Some? ==> limit.value >= 0)
      ensures r.Ok? ==> !aborted && IsNewestFirst(rows, r.value, if limit.Some? then limit.value else |rows|)
      ensures !connected ==> r == Err(InterfaceError(ConnectionClosed)) && aborted == old(aborted)
      ensures connected && old(aborted) ==> r == Err(InFailedSqlTransaction(TransactionAborted)) && aborted
      ensures connected && !old(aborted) && !schema.tableExists ==> r == Err(UndefinedTable(NoTweetsTable)) && aborted
      ensures old(Ready()) && limit.Some? && limit.value < 0 ==> r == Err(DataError("LIMIT must not be negative")) && aborted
    {
      if !connected {
        return Err(InterfaceError(ConnectionClosed));
      }
      if aborted {
        return Err(InFailedSqlTransaction(TransactionAborted));
      }
      if !schema.tableExists {
        aborted := true;
        return Err(UndefinedTable(NoTweetsTable));
      }
      if limit.Some? && limit.value < 0 {
        aborted := true;
        return Err(DataError("LIMIT must not be negative"));
      }
      var out := SelectNewestFirst(if limit.Some? then limit.value else |rows|);
      r := Ok(out);
    }

    /** `get_recent_tweets`: at most `limit` rows, newest first, with the
        five selected columns. */
    method GetRecentTweets(limit: int := DefaultRecentLimit) returns (r: Result<seq<RecentTweet>>)
      requires Valid()
      modifies this
      ensures connected == old(connected) && schema == old(schema) && rows == old(rows)
      ensures r.Ok? <==> old(Ready()) && limit >= 0
      ensures r.Ok? ==> !aborted && exists out :: (IsNewestFirst(rows, out, limit)
        && r.value == seq(|out|, i requires 0 <= i < |out| => Recent(out[i])))
      ensures !connected ==> r == Err(InterfaceError(ConnectionClosed)) && aborted == old(aborted)
      ensures connected && old(aborted) ==> r == Err(InFailedSqlTransaction(TransactionAborted)) && aborted
      ensures connected && !old(aborted) && !schema.tableExists ==> r == Err(UndefinedTable(NoTweetsTable)) && aborted
      ensures old(Ready()) && limit < 0 ==> r == Err(DataError("LIMIT must not be negative")) && aborted
    {
      var selected := Select(Some(limit));
      if selected.Err? {
        return Err(selected.error);
      }
      var out := selected.value;
      r := Ok(seq(|out|, i requires 0 <= i < |out| => Recent(out[i])));
    }
  }
}
