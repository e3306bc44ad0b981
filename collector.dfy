/** The collector (src/data_collection/german_politics_collector.py). The
    Twitter API client is abstracted into a `TwitterApi` value: for every
    call it gives the response that call would get (tweets, no data, or a
    raised TweepyException; other client exceptions are not modelled).
    The clock readings `now` and `nows` stand for `datetime.now()`, and the
    database is a `Store.DatabaseHandler`. */
module Collector {
  import opened Base
  import opened Config
  import opened Store

  const PoliticalKeywords: seq<string> := [
    "Bundestag", "Bundesregierung",
    "CDU", "SPD", "Grüne", "FDP", "AfD", "Linke",
    "Scholz", "Merz", "Baerbock", "Lindner",
    "Deutsche Politik", "Bundestagswahl"
  ]

  const PoliticalAccounts: seq<string> := [
    "Bundestag", "RegSprecher", "CDU", "spdde", "Die_Gruenen", "fdp"
  ]

  const SearchMaxResults := 100
  const AccountMaxResults := 50

  /** A tweet object as the API returns it. */
  datatype ApiTweet = ApiTweet(id: int, text: string, createdAt: Timestamp, publicMetrics: Metrics, lang: string)

  /** A tweet search or timeline response, or the TweepyException the call
      raises; `Tweets([])` is a response whose `data` is empty or None. */
  datatype TweetsResponse = Tweets(data: seq<ApiTweet>) | TweepyError(message: string)

  /** A user lookup: the user's id, no user data, or a raised
      TweepyException. */
  datatype UserResponse = User(userId: int) | NoUser | UserLookupError(message: string)

  /** The three client calls the collector makes. */
  datatype TwitterApi = TwitterApi(
    searchRecentTweets: (string, int) -> TweetsResponse,
    getUser: string -> UserResponse,
    getUsersTweets: (int, int) -> TweetsResponse)

  // ---------------------------------------------------------------------
  // Construction

  datatype Credentials = Credentials(
    bearerToken: Json, apiKey: Json, apiSecret: Json, accessToken: Json, accessTokenSecret: Json)

  const CredentialKeys: seq<string> := ["bearer_token", "api_key", "api_secret", "access_token", "access_token_secret"]

  /** The ValueError a KeyError with argument `key` is turned into; the
      message holds the KeyError's `str`, which quotes its argument. */
  function MissingConfiguration(key: string): Exception {
    ValueError("Missing required configuration: '" + key + "'")
  }

  /** `GermanPoliticsCollector.__init__` up to building the client: the
      Twitter section and the five credential lookups. Every KeyError raised
      inside the `try`, including a missing `twitter_api` section, surfaces
      as a ValueError naming the first missing credential; a section that
      is not a dict raises a TypeError, which the `except KeyError` does not
      catch; other load failures propagate as they are. */
  function ClientCredentials(file: ConfigFile, path: string): (r: Result<Credentials>)
    ensures file.Missing? ==> r.Err? && r.error.FileNotFoundError?
    ensures file.Unparsable? ==> r == Err(ValueError("Config file is not valid JSON"))
    ensures file.Parsed? && TwitterSection !in file.document ==>
      r == Err(MissingConfiguration("Twitter API configuration not found in config file"))
    ensures r.Ok? <==> (file.Parsed? && TwitterSection in file.document
      && file.document[TwitterSection].JObject?
      && forall i :: 0 <= i < |CredentialKeys| ==> CredentialKeys[i] in file.document[TwitterSection].fields)
    ensures r.Ok? ==> (file.Parsed? && TwitterSection in file.document && file.document[TwitterSection].JObject?
      && var fs := file.document[TwitterSection].fields;
         && "bearer_token" in fs && "api_key" in fs && "api_secret" in fs
         && "access_token" in fs && "access_token_secret" in fs
         && r.value == Credentials(fs["bearer_token"], fs["api_key"], fs["api_secret"],
                                   fs["access_token"], fs["access_token_secret"]))
    ensures (file.Parsed? && TwitterSection in file.document && file.document[TwitterSection].JObject? && r.Err?) ==>
      exists i :: (0 <= i < |CredentialKeys| && CredentialKeys[i] !in file.document[TwitterSection].fields
        && r.error == MissingConfiguration(CredentialKeys[i])
        && forall j :: 0 <= j < i ==> CredentialKeys[j] in file.document[TwitterSection].fields)
    ensures file.Parsed? && TwitterSection in file.document && !file.document[TwitterSection].JObject? ==>
      r.Err? && r.error.TypeError?
  {
    match GetTwitterConfig(file, path)
    case Err(KeyError(m)) => Err(MissingConfiguration(m))
    case Err(e) => Err(e)
    case Ok(section) =>
      match LookupAll(section, CredentialKeys)
      case Err(KeyError(m)) => Err(MissingConfiguration(m))
      case Err(e) => Err(e)
      case Ok(vs) => Ok(Credentials(vs[0], vs[1], vs[2], vs[3], vs[4]))
  }

  // ---------------------------------------------------------------------
  // The keyword search

  /** Python's `sep.join(parts)`. */
  function Join(parts: seq<string>, sep: string): string
    decreases |parts|
  {
    if parts == [] then ""
    else if |parts| == 1 then parts[0]
    else parts[0] + sep + Join(parts[1..], sep)
  }

  /** Joining one more part appends the separator and that part, so the
      parts appear in the joined string in list order. */
  lemma {:induction false} JoinAppend(parts: seq<string>, sep: string, p: string)
    requires parts != []
    ensures Join(parts + [p], sep) == Join(parts, sep) + sep + p
    decreases |parts|
  {
    if |parts| > 1 {
      assert (parts + [p])[1..] == parts[1..] + [p];
      JoinAppend(parts[1..], sep, p);
    }
  }

  /** The keywords joined by " OR ", followed by " lang:de". In the search
      query language AND binds tighter than OR, so the language operator
      restricts only the last keyword's clause. */
  function GermanQuery(keywords: seq<string>): string {
    Join(keywords, " OR ") + " lang:de"
  }

  /** The query string of `search_political_tweets`. */
  function SearchQuery(): string {
    GermanQuery(PoliticalKeywords)
  }

  /** Every part occurs in the joined string, at offset `off`. */
  lemma {:induction false} JoinHasPart(parts: seq<string>, sep: string, i: nat) returns (off: nat)
    requires i < |parts|
    ensures off + |parts[i]| <= |Join(parts, sep)|
    ensures Join(parts, sep)[off..off + |parts[i]|] == parts[i]
    decreases |parts|
  {
    if i == 0 {
      off := 0;
      if |parts| > 1 {
        assert Join(parts, sep) == parts[0] + (sep + Join(parts[1..], sep));
      }
    } else {
      var tail := parts[1..];
      assert tail[i - 1] == parts[i];
      var rest := Join(tail, sep);
      var off' := JoinHasPart(tail, sep, i - 1);
      var head := parts[0] + sep;
      assert Join(parts, sep) == head + rest;
      off := |head| + off';
      assert (head + rest)[off..off + |parts[i]|] == rest[off'..off' + |parts[i]|];
    }
  }

  /** The query string names every political keyword and ends with the
      language operator " lang:de". */
  lemma SearchQueryHasKeyword(i: nat) returns (off: nat)
    requires i < |PoliticalKeywords|
    ensures off + |PoliticalKeywords[i]| <= |SearchQuery()|
    ensures SearchQuery()[off..off + |PoliticalKeywords[i]|] == PoliticalKeywords[i]
    ensures SearchQuery()[|SearchQuery()| - 8..] == " lang:de"
  {
    off := GermanQueryHasKeyword(PoliticalKeywords, i);
  }

  /** Each keyword occurs in the query, which ends with the language filter. */
  lemma GermanQueryHasKeyword(keywords: seq<string>, i: nat) returns (off: nat)
    requires i < |keywords|
    ensures off + |keywords[i]| <= |GermanQuery(keywords)|
    ensures GermanQuery(keywords)[off..off + |keywords[i]|] == keywords[i]
    ensures GermanQuery(keywords)[|GermanQuery(keywords)| - 8..] == " lang:de"
  {
    off := JoinHasPart(keywords, " OR ", i);
    var j := Join(keywords, " OR ");
    assert GermanQuery(keywords)[off..off + |keywords[i]|] == j[off..off + |keywords[i]|];
  }

  /** The record built for a tweet found by the keyword search. */
  function SearchRecord(t: ApiTweet, now: Timestamp): TweetRecord {
    TweetRecord(t.id, t.text, t.createdAt, now, None, t.publicMetrics, None)
  }

  /** The list `search_political_tweets` returns for a search response:
      one record per tweet, in response order, each with that tweet's
      fields and no `account` (nor `lang`) key; nothing on an empty
      response or on a TweepyException. */
  function SearchRecords(response: TweetsResponse, now: Timestamp): (r: seq<TweetRecord>)
    ensures response.TweepyError? ==> r == []
    ensures response.Tweets? ==> |r| == |response.data|
    ensures response.Tweets? ==> forall i :: 0 <= i < |r| ==>
      && r[i].id == response.data[i].id
      && r[i].text == response.data[i].text
      && r[i].createdAt == response.data[i].createdAt
      && r[i].metrics == response.data[i].publicMetrics
      && r[i].collectedAt == now
      && r[i].account.None? && r[i].lang.None?
  {
    match response
    case TweepyError(_) => []
    case Tweets(data) =>
      if data == [] then []
      else seq(|data|, i requires 0 <= i < |data| => SearchRecord(data[i], now))
  }

  /** `search_political_tweets(max_results)`. */
  function SearchPoliticalTweets(api: TwitterApi, maxResults: int, now: Timestamp): seq<TweetRecord> {
    SearchRecords(api.searchRecentTweets(SearchQuery(), maxResults), now)
  }

  // ---------------------------------------------------------------------
  // The account timelines

  /** The record built for a tweet from `account`'s timeline. */
  function AccountRecord(t: ApiTweet, account: string, now: Timestamp): TweetRecord {
    TweetRecord(t.id, t.text, t.createdAt, now, Some(account), t.publicMetrics, None)
  }

  /** What one account adds to the result: its timeline's records, or
      nothing when the user is not found or either call raises TweepyException. */
  function AccountTweets(api: TwitterApi, account: string, maxResults: int, now: Timestamp): seq<TweetRecord> {
    match api.getUser(account)
    case UserLookupError(_) => []
    case NoUser => []
    case User(uid) =>
      match api.getUsersTweets(uid, maxResults)
      case TweepyError(_) => []
      case Tweets(data) => seq(|data|, i requires 0 <= i < |data| => AccountRecord(data[i], account, now))
  }

  /** The accounts' contributions concatenated in list order; the records
      of `accounts[k]` carry the clock reading `nows[k]` taken after that
      account's two API calls. */
  function AllAccountsTweets(api: TwitterApi, accounts: seq<string>, maxResults: int, nows: seq<Timestamp>): seq<TweetRecord>
    requires |nows| == |accounts|
    decreases |accounts|
  {
    if accounts == [] then []
    else AllAccountsTweets(api, accounts[..|accounts| - 1], maxResults, nows[..|nows| - 1])
         + AccountTweets(api, accounts[|accounts| - 1], maxResults, nows[|nows| - 1])
  }

  /** A failing account contributes nothing. */
  lemma FailedAccountContributesNothing(api: TwitterApi, account: string, maxResults: int, now: Timestamp)
    requires || api.getUser(account).NoUser?
             || api.getUser(account).UserLookupError?
             || (api.getUser(account).User? && api.getUsersTweets(api.getUser(account).userId, maxResults).TweepyError?)
    ensures AccountTweets(api, account, maxResults, now) == []
  {
  }

  /** Collecting two lists of accounts one after the other is collecting
      their concatenation. */
  lemma {:induction false} AllAccountsConcat(api: TwitterApi, a: seq<string>, b: seq<string>, maxResults: int,
                                             na: seq<Timestamp>, nb: seq<Timestamp>)
    requires |na| == |a| && |nb| == |b|
    ensures AllAccountsTweets(api, a + b, maxResults, na + nb)
      == AllAccountsTweets(api, a, maxResults, na) + AllAccountsTweets(api, b, maxResults, nb)
    decreases |b|
  {
    if b == [] {
      assert a + b == a;
      assert na + nb == na;
    } else {
      var b', nb' := b[..|b| - 1], nb[..|nb| - 1];
      assert (a + b)[..|a + b| - 1] == a + b';
      assert (a + b)[|a + b| - 1] == b[|b| - 1];
      assert (na + nb)[..|na + nb| - 1] == na + nb';
      assert (na + nb)[|na + nb| - 1] == nb[|nb| - 1];
      AllAccountsConcat(api, a, b', maxResults, na, nb');
    }
  }

  /** Collecting a single account is collecting that account. */
  lemma SingleAccount(api: TwitterApi, account: string, maxResults: int, now: Timestamp)
    ensures AllAccountsTweets(api, [account], maxResults, [now]) == AccountTweets(api, account, maxResults, now)
  {
    assert [account][..0] == [];
    assert [now][..0] == [];
  }

  /** An account that fails is skipped and the accounts after it are still
      collected: the result is that of the accounts before it followed by
      that of the accounts after it. */
  lemma FailedAccountIsSkipped(api: TwitterApi, accounts: seq<string>, k: nat, maxResults: int, nows: seq<Timestamp>)
    requires |nows| == |accounts| && k < |accounts|
    requires AccountTweets(api, accounts[k], maxResults, nows[k]) == []
    ensures AllAccountsTweets(api, accounts, maxResults, nows)
      == AllAccountsTweets(api, accounts[..k], maxResults, nows[..k])
         + AllAccountsTweets(api, accounts[k + 1..], maxResults, nows[k + 1..])
  {
    var before, after := accounts[..k], accounts[k + 1..];
    var nBefore, nAfter := nows[..k], nows[k + 1..];
    var rest, nRest := [accounts[k]] + after, [nows[k]] + nAfter;
    assert accounts == before + rest;
    assert nows == nBefore + nRest;
    AllAccountsConcat(api, before, rest, maxResults, nBefore, nRest);
    FailedFirstIsSkipped(api, accounts[k], after, maxResults, nows[k], nAfter);
  }

  /** A failing first account adds nothing before the accounts after it. */
  lemma FailedFirstIsSkipped(api: TwitterApi, account: string, after: seq<string>, maxResults: int,
                             now: Timestamp, nAfter: seq<Timestamp>)
    requires |nAfter| == |after|
    requires AccountTweets(api, account, maxResults, now) == []
    ensures AllAccountsTweets(api, [account] + after, maxResults, [now] + nAfter)
      == AllAccountsTweets(api, after, maxResults, nAfter)
  {
    AllAccountsConcat(api, [account], after, maxResults, [now], nAfter);
    SingleAccount(api, account, maxResults, now);
    assert AllAccountsTweets(api, [account], maxResults, [now]) == [];
  }

  /** Each record an account contributes names that account, carries the
      account's clock reading, and has no `lang`. */
  lemma AccountRecordsNameAccount(api: TwitterApi, account: string, maxResults: int, now: Timestamp)
    ensures var r := AccountTweets(api, account, maxResults, now);
      forall i :: 0 <= i < |r| ==> r[i].account == Some(account) && r[i].collectedAt == now && r[i].lang.None?
  {
  }

  /** Every record names one of `accounts` as its `account` and carries
      the clock reading taken for that account. */
  predicate FromAccounts(records: seq<TweetRecord>, accounts: seq<string>, nows: seq<Timestamp>)
    requires |nows| == |accounts|
  {
    forall i :: 0 <= i < |records| ==>
      exists k :: 0 <= k < |accounts| && records[i].account == Some(accounts[k]) && records[i].collectedAt == nows[k]
  }

  /** Every collected record names, as its `account`, one of the accounts
      collected, and its `collected_at` is the clock reading of that
      account. */
  lemma {:induction false} RecordsNameTheirAccount(api: TwitterApi, accounts: seq<string>, maxResults: int, nows: seq<Timestamp>)
    requires |nows| == |accounts|
    ensures FromAccounts(AllAccountsTweets(api, accounts, maxResults, nows), accounts, nows)
    decreases |accounts|
  {
    if accounts != [] {
      var last := |accounts| - 1;
      var p, np := accounts[..last], nows[..last];
      RecordsNameTheirAccount(api, p, maxResults, np);
      AccountRecordsNameAccount(api, accounts[last], maxResults, nows[last]);
      var front, back := AllAccountsTweets(api, p, maxResults, np), AccountTweets(api, accounts[last], maxResults, nows[last]);
      var r := AllAccountsTweets(api, accounts, maxResults, nows);
      assert r == front + back;
      forall i | 0 <= i < |r|
        ensures exists k :: 0 <= k < |accounts| && r[i].account == Some(accounts[k]) && r[i].collectedAt == nows[k]
      {
        if i < |front| {
          assert r[i] == front[i];
          var k :| 0 <= k < |p| && front[i].account == Some(p[k]) && front[i].collectedAt == np[k];
          assert p[k] == accounts[k] && np[k] == nows[k];
        } else {
          assert r[i] == back[i - |front|];
          assert r[i].account == Some(accounts[last]) && r[i].collectedAt == nows[last];
        }
      }
    }
  }

  /** `get_political_accounts_tweets(max_results)`, where `nows[k]` is the
      clock reading taken for the k-th account. */
  method GetPoliticalAccountsTweets(api: TwitterApi, maxResults: int, nows: seq<Timestamp>) returns (allTweets: seq<TweetRecord>)
    requires |nows| == |PoliticalAccounts|
    ensures allTweets == AllAccountsTweets(api, PoliticalAccounts, maxResults, nows)
  {
    allTweets := [];
    for i := 0 to |PoliticalAccounts|
      invariant allTweets == AllAccountsTweets(api, PoliticalAccounts[..i], maxResults, nows[..i])
    {
      assert PoliticalAccounts[..i + 1][..i] == PoliticalAccounts[..i];
      assert nows[..i + 1][..i] == nows[..i];
      var account := PoliticalAccounts[i];
      var user := api.getUser(account);
      if !user.User? {
        continue;
      }
      var tweets := api.getUsersTweets(user.userId, maxResults);
      if tweets.TweepyError? {
        continue;
      }
      if tweets.data != [] {
        allTweets := allTweets + seq(|tweets.data|, j requires 0 <= j < |tweets.data| =>
          AccountRecord(tweets.data[j], account, nows[i]));
      }
    }
    assert PoliticalAccounts[..|PoliticalAccounts|] == PoliticalAccounts;
    assert nows[..|nows|] == nows;
  }

  /** Keyword-search records carry no `account` and no `lang`, so they fit
      their columns exactly when every tweet id of the response fits a
      BIGINT. */
  lemma SearchRecordsFit(response: TweetsResponse, now: Timestamp)
    ensures AllFit(SearchRecords(response, now))
      <==> (response.Tweets? ==> forall i :: 0 <= i < |response.data| ==> InBigIntRange(response.data[i].id))
  {
    var r := SearchRecords(response, now);
    if response.Tweets? {
      assert forall i :: 0 <= i < |r| ==> (Fits(r[i]) <==> InBigIntRange(response.data[i].id));
    }
  }

  /** Every political account's name fits `account_name`, so the account
      records fit their columns exactly when every tweet id fits a
      BIGINT. */
  lemma {:induction false} AccountRecordsFit(api: TwitterApi, maxResults: int, nows: seq<Timestamp>)
    requires |nows| == |PoliticalAccounts|
    ensures var r := AllAccountsTweets(api, PoliticalAccounts, maxResults, nows);
      AllFit(r) <==> forall i :: 0 <= i < |r| ==> InBigIntRange(r[i].id)
  {
    var r := AllAccountsTweets(api, PoliticalAccounts, maxResults, nows);
    RecordsNameTheirAccount(api, PoliticalAccounts, maxResults, nows);
    assert forall k :: 0 <= k < |PoliticalAccounts| ==> |PoliticalAccounts[k]| <= AccountNameWidth;
    AccountRecordsHaveNoLang(api, PoliticalAccounts, maxResults, nows);
    forall i | 0 <= i < |r|
      ensures r[i].account.Some? && |r[i].account.value| <= AccountNameWidth && r[i].lang.None?
    {
      var k :| 0 <= k < |PoliticalAccounts| && r[i].account == Some(PoliticalAccounts[k]) && r[i].collectedAt == nows[k];
    }
  }

  /** The account collection writes no `lang` key. */
  lemma {:induction false} AccountRecordsHaveNoLang(api: TwitterApi, accounts: seq<string>, maxResults: int, nows: seq<Timestamp>)
    requires |nows| == |accounts|
    ensures forall i :: 0 <= i < |AllAccountsTweets(api, accounts, maxResults, nows)| ==>
      AllAccountsTweets(api, accounts, maxResults, nows)[i].lang.None?
    decreases |accounts|
  {
    if accounts != [] {
      var last := |accounts| - 1;
      var p, np := accounts[..last], nows[..last];
      AccountRecordsHaveNoLang(api, p, maxResults, np);
      AccountRecordsNameAccount(api, accounts[last], maxResults, nows[last]);
      var front, back := AllAccountsTweets(api, p, maxResults, np), AccountTweets(api, accounts[last], maxResults, nows[last]);
      var r := AllAccountsTweets(api, accounts, maxResults, nows);
      assert r == front + back;
      forall i | 0 <= i < |r|
        ensures r[i].lang.None?
      {
        if i < |front| {
          assert r[i] == front[i];
          assert front[i].lang.None?;
        } else {
          assert r[i] == back[i - |front|];
          assert back[i - |front|].lang.None?;
        }
      }
    }
  }

  // ---------------------------------------------------------------------
  // collect_and_store

  datatype StoreCall = StoreCall(tweets: seq<TweetRecord>, isPoliticalAccount: bool)

  /** The `store_tweets` calls `collect_and_store` makes, in order. */
  function StorePlan(political: seq<TweetRecord>, accounts: seq<TweetRecord>): (plan: seq<StoreCall>)
    ensures |plan| == (if political != [] then 1 else 0) + (if accounts != [] then 1 else 0)
    ensures forall k :: 0 <= k < |plan| ==> plan[k].tweets != []
    ensures forall k :: 0 <= k < |plan| ==>
      (if plan[k].isPoliticalAccount then plan[k].tweets == accounts else plan[k].tweets == political)
    ensures political != [] ==> plan[0] == StoreCall(political, false)
    ensures accounts != [] ==> plan[|plan| - 1] == StoreCall(accounts, true)
  {
    (if political != [] then [StoreCall(political, false)] else [])
    + (if accounts != [] then [StoreCall(accounts, true)] else [])
  }

  /** The table after the calls of a plan. */
  function ApplyPlan(table: map<int, Row>, plan: seq<StoreCall>): map<int, Row>
    decreases |plan|
  {
    if plan == [] then table
    else ApplyPlan(StoreAll(table, plan[0].tweets, plan[0].isPoliticalAccount), plan[1..])
  }

  /** Carrying out the plan stores the keyword results and then the
      account results; storing an empty list would change nothing, so the
      skipped calls make no difference. */
  lemma ApplyStorePlan(table: map<int, Row>, political: seq<TweetRecord>, accounts: seq<TweetRecord>)
    ensures ApplyPlan(table, StorePlan(political, accounts))
      == StoreAll(StoreAll(table, political, false), accounts, true)
  {
    var plan := StorePlan(political, accounts);
    var t1 := StoreAll(table, political, false);
    if political != [] {
      assert plan[1..] == StorePlan([], accounts);
    }
    if accounts != [] {
      assert StorePlan([], accounts)[1..] == [];
    }
    assert ApplyPlan(table, plan) == ApplyPlan(t1, StorePlan([], accounts));
  }

  /** `collect_and_store`, given the handler its `with` statement opened
      and the clock readings: one for the keyword search and one per
      political account (`accountNows`). Keyword results are
      stored first and as non-political, then account results as
      political; an empty list is not stored; each `store_tweets` call
      commits on its own, so when the second call raises the first batch
      stays stored; a failing store raises out after the handler is
      closed. */
  method CollectAndStore(api: TwitterApi, db: DatabaseHandler, searchNow: Timestamp, accountNows: seq<Timestamp>)
    returns (r: Outcome)
    requires db.Valid() && |accountNows| == |PoliticalAccounts|
    modifies db
    ensures db.Valid() && !db.connected && db.schema == old(db.schema)
    ensures var political := SearchPoliticalTweets(api, SearchMaxResults, searchNow);
      var accounts := AllAccountsTweets(api, PoliticalAccounts, AccountMaxResults, accountNows);
      var firstStored := political == [] || (old(db.Ready()) && AllFit(political));
      && (r == Done <==> firstStored && (accounts == [] || (old(db.Ready()) && AllFit(accounts))))
      && (r == Done ==> db.rows == ApplyPlan(old(db.rows), StorePlan(political, accounts)))
      && (r.Raised? && !firstStored ==> db.rows == old(db.rows))
      && (r.Raised? && firstStored ==> db.rows == StoreAll(old(db.rows), political, false))
    ensures r.Raised? && !old(db.connected) ==> r.error == InterfaceError(ConnectionClosed)
    ensures r.Raised? && old(db.connected) && old(db.aborted) ==>
      r.error == InFailedSqlTransaction(TransactionAborted)
    ensures r.Raised? && old(db.connected) && !old(db.aborted) && !old(db.schema).tableExists ==>
      r.error == UndefinedTable(NoTweetsTable)
    ensures var political := SearchPoliticalTweets(api, SearchMaxResults, searchNow);
      var accounts := AllAccountsTweets(api, PoliticalAccounts, AccountMaxResults, accountNows);
      r.Raised? && old(db.Ready()) ==>
        || (exists i :: 0 <= i < |political| && AllFit(political[..i]) && ColumnError(political[i]) == Some(r.error))
        || (AllFit(political)
            && exists i :: 0 <= i < |accounts| && AllFit(accounts[..i]) && ColumnError(accounts[i]) == Some(r.error))
  {
    var political := SearchPoliticalTweets(api, SearchMaxResults, searchNow);
    ghost var accountsSpec := AllAccountsTweets(api, PoliticalAccounts, AccountMaxResults, accountNows);
    ApplyStorePlan(db.rows, political, accountsSpec);
    if political != [] {
      var o := db.StoreTweets(political, false);
      if o.Raised? {
        db.Close();
        return o;
      }
    }
    var accountTweets := GetPoliticalAccountsTweets(api, AccountMaxResults, accountNows);
    if accountTweets != [] {
      var o := db.StoreTweets(accountTweets, true);
      if o.Raised? {
        db.Close();
        return o;
      }
    }
    db.Close();
    r := Done;
  }

  /** A tweet first stored by the keyword search keeps a NULL `account_name`
      and `is_political_account` false even when the same run collects it
      again from a political account: the conflict clause refreshes only
      `metrics` and `collected_at`. */
  lemma KeywordPathWins(table: map<int, Row>, political: seq<TweetRecord>, accounts: seq<TweetRecord>, k: int)
    requires forall i :: 0 <= i < |political| ==> political[i].account.None?
    requires k in Ids(political) && k !in table
    ensures var t := ApplyPlan(table, StorePlan(political, accounts));
      k in t && t[k].accountName.None? && !t[k].isPoliticalAccount
  {
    ApplyStorePlan(table, political, accounts);
    var t1 := StoreAll(table, political, false);
    StoreAllRow(table, political, false, k);
    if k in Ids(accounts) {
      StoreAllRow(t1, accounts, true, k);
    } else {
      StoreAllUntouched(t1, accounts, true, k);
    }
  }
}
