/**
 * The request handlers `shorten` and `follow` with the HTTP layer removed:
 * each is a transition of the stored tables plus an abstract outcome
 * (the status code and message the handler would send).
 */
module Service {
  import opened Options
  import Base62
  import Validation
  import Windows
  import opened UrlStore

  /** EXPIRATION_HOURS, in seconds. */
  const TimeToLive: int := 24 * 60 * 60

  /** The longest code `follow` looks up. */
  const MaxFollowCodeLength: nat := 32

  /** The tables a shorten request touches: `urls` and `spam_submissions`. */
  datatype Db = Db(urls: Urls, spam: map<Windows.SpamKey, Windows.Window>)

  datatype ShortenOutcome =
    | InvalidUrl(urlError: Validation.UrlError)        // 400
    | InvalidCode(codeError: Validation.CodeError)     // 400
    | RepeatedSubmission                               // 429
    | AlreadyShortened(code: string, originalUrl: string)   // 200
    | Created(code: string, originalUrl: string, expiresAt: int)  // 201
    | CodeTaken                                        // 409
    | NoUniqueCode                                     // 409

  /** Both inputs pass validation, so the request reaches the spam check. */
  predicate Admitted(url: string, urlparse: string -> Validation.UrlParts, customCode: string) {
    Validation.ValidateUrl(url, urlparse) == None && Validation.ValidateCustomCode(customCode) == None
  }

  /** Admitted and not flagged as a repeated submission: the request reaches the store. */
  predicate ReachesStore(db: Db, ip: string, url: string, urlparse: string -> Validation.UrlParts,
                         customCode: string, now: int) {
    Admitted(url, urlparse, customCode) && !Windows.IsSpamSubmission(db.spam, ip, url, now).spam
  }

  /**
   * `shorten` for a request from `ip` carrying `url` and `customCode` ("" when
   * none is given), at time `now`; `draws` are the random values the code
   * generator would use.
   */
  method Shorten(db: Db, ip: string, url: string, urlparse: string -> Validation.UrlParts,
                 customCode: string, now: int, draws: seq<Base62.Draw>)
    returns (db': Db, outcome: ShortenOutcome)
    requires |draws| >= MaxAttempts
    // validation failures are reported before anything is stored
    ensures Validation.ValidateUrl(url, urlparse).Some? ==>
              db' == db && outcome == InvalidUrl(Validation.ValidateUrl(url, urlparse).value)
    ensures Validation.ValidateUrl(url, urlparse).None? && Validation.ValidateCustomCode(customCode).Some? ==>
              db' == db && outcome == InvalidCode(Validation.ValidateCustomCode(customCode).value)
    // every admitted request is counted by the spam check, whatever happens next
    ensures Admitted(url, urlparse, customCode) ==>
              db'.spam == Windows.IsSpamSubmission(db.spam, ip, url, now).table
    ensures Admitted(url, urlparse, customCode) && Windows.IsSpamSubmission(db.spam, ip, url, now).spam ==>
              outcome == RepeatedSubmission && db'.urls == db.urls
    // past the spam check, the `urls` table moves exactly as the lookup-or-create step says
    ensures ReachesStore(db, ip, url, urlparse, customCode, now) ==>
              StoreStep(db.urls, db'.urls, url, customCode, now, draws, outcome)
    ensures UrlsUnique(db.urls) ==> UrlsUnique(db'.urls)
  {
    var urlError := Validation.ValidateUrl(url, urlparse);
    if urlError.Some? {
      return db, InvalidUrl(urlError.value);
    }
    if customCode != [] {
      var codeError := Validation.ValidateCustomCode(customCode);
      if codeError.Some? {
        return db, InvalidCode(codeError.value);
      }
    }
    var check := Windows.IsSpamSubmission(db.spam, ip, url, now);
    if check.spam {
      return db.(spam := check.table), RepeatedSubmission;
    }
    var urls';
    urls', outcome := LookupOrCreate(db.urls, url, customCode, now, draws);
    db' := Db(urls', check.table);
  }

  /** The allowed moves of `urls` (to `urls'`) and outcomes once a request reaches the store. */
  predicate StoreStep(urls: Urls, urls': Urls, url: string, customCode: string, now: int,
                      draws: seq<Base62.Draw>, outcome: ShortenOutcome) {
    // a URL that already has a row (live or expired) gets that row's code back and nothing is inserted
    && (HasUrl(urls, url) ==>
          && outcome.AlreadyShortened?
          && outcome.code in urls && urls[outcome.code].originalUrl == url
          && outcome.originalUrl == url
          && urls' == urls)
    // a custom code is used as given, or refused when taken
    && (!HasUrl(urls, url) && customCode != [] ==>
          if customCode in urls then outcome == CodeTaken && urls' == urls
          else outcome == Created(customCode, url, now + TimeToLive)
               && AddsOneRow(urls, urls', customCode, NewRow(url, now, now + TimeToLive)))
    // otherwise the first free code among the MaxAttempts candidates is used;
    // allocation gives up exactly when every candidate is taken
    && (!HasUrl(urls, url) && customCode == [] ==>
          && MaxAttempts <= |draws|
          && (outcome == NoUniqueCode <==>
                forall j :: 0 <= j < MaxAttempts ==> Base62.GenerateCode(draws[j]) in urls)
          && (outcome == NoUniqueCode ==> urls' == urls)
          && (outcome != NoUniqueCode ==>
                && outcome.Created? && outcome.originalUrl == url && outcome.expiresAt == now + TimeToLive
                && |outcome.code| == Base62.CodeLength
                && (exists k :: 0 <= k < MaxAttempts && outcome.code == Base62.GenerateCode(draws[k])
                                && forall j :: 0 <= j < k ==> Base62.GenerateCode(draws[j]) in urls)
                && AddsOneRow(urls, urls', outcome.code, NewRow(url, now, now + TimeToLive))))
    // the idempotent reuse: under one code per URL, the code returned is the URL's only code
    && (UrlsUnique(urls) && outcome.AlreadyShortened? ==>
          forall c :: c in urls && urls[c].originalUrl == url ==> c == outcome.code)
  }

  /**
   * The part of `shorten` after the spam check: return the row already holding
   * `url` (the lookup does not look at expiry), else insert under the custom or
   * a generated code.
   */
  method LookupOrCreate(urls: Urls, url: string, customCode: string, now: int, draws: seq<Base62.Draw>)
    returns (urls': Urls, outcome: ShortenOutcome)
    requires |draws| >= MaxAttempts
    requires customCode != [] ==> Validation.ValidateCustomCode(customCode) == None
    ensures StoreStep(urls, urls', url, customCode, now, draws, outcome)
    ensures outcome.Created? ==>
              LookupCode(outcome.code) && outcome.code !in urls
              && outcome.code in urls' && urls'[outcome.code] == NewRow(url, now, now + TimeToLive)
    ensures UrlsUnique(urls) ==> UrlsUnique(urls')
  {
    if existing :| existing in urls && urls[existing].originalUrl == url {
      return urls, AlreadyShortened(existing, url);
    }
    var createdAt, expiresAt := now, now + TimeToLive;
    var inserted: Insertion;
    if customCode != [] {
      inserted := InsertCustom(urls, customCode, url, createdAt, expiresAt);
      if inserted.code.None? {
        return urls, CodeTaken;
      }
    } else {
      inserted := InsertUnique(urls, url, createdAt, expiresAt, draws);
      if inserted.code.None? {
        return urls, NoUniqueCode;
      }
    }
    AddKeepsUrlsUnique(urls, inserted.urls, inserted.code.value, NewRow(url, createdAt, expiresAt));
    return inserted.urls, Created(inserted.code.value, url, expiresAt);
  }

  /**
   * Shortening the same URL again never mints a second code: after a row for
   * `url` was created under `code`, the next request that reaches the store
   * gets `code` back and inserts nothing.
   */
  lemma ShortenIsIdempotent(urls: Urls, urls': Urls, code: string, url: string, createdAt: int, expiresAt: int,
                            urls'': Urls, customCode: string, now: int, draws: seq<Base62.Draw>,
                            outcome: ShortenOutcome)
    requires UrlsUnique(urls) && !HasUrl(urls, url)
    requires AddsOneRow(urls, urls', code, NewRow(url, createdAt, expiresAt))
    requires StoreStep(urls', urls'', url, customCode, now, draws, outcome)
    ensures outcome == AlreadyShortened(code, url) && urls'' == urls'
  {
  }

  /**
   * On an empty table the first generated candidate is free, so a request
   * without a custom code always gets a code, and it is the first candidate.
   */
  lemma EmptyStoreCreates(urls': Urls, url: string, now: int, draws: seq<Base62.Draw>, outcome: ShortenOutcome)
    requires StoreStep(map[], urls', url, [], now, draws, outcome)
    ensures outcome == Created(Base62.GenerateCode(draws[0]), url, now + TimeToLive)
    ensures urls' == map[outcome.code := NewRow(url, now, now + TimeToLive)]
  {
  }

  /**
   * The duplicate lookup does not look at expiry: a URL whose only row has
   * expired gets that row's stale code back, and following that code then
   * deletes the row and reports not-found.
   */
  lemma ExpiredRowIsReused(urls: Urls, urls': Urls, stale: string, url: string, customCode: string,
                           now: int, draws: seq<Base62.Draw>, outcome: ShortenOutcome)
    requires UrlsUnique(urls)
    requires stale in urls && urls[stale].originalUrl == url && !Live(urls[stale], now)
    requires StoreStep(urls, urls', url, customCode, now, draws, outcome)
    ensures outcome == AlreadyShortened(stale, url) && urls' == urls
    ensures LookupCode(stale) ==> Follow(urls', stale, now) == FollowResult(urls - {stale}, NotFound)
  {
  }

  // ---------------------------------------------------------------------------
  // follow

  datatype FollowOutcome = NotFound | Redirect(url: string)

  datatype FollowResult = FollowResult(urls: Urls, outcome: FollowOutcome)

  /** A row is live until the current time passes its expiry. */
  predicate Live(row: UrlRow, now: int) {
    now <= row.expiresAt
  }

  /** A code `follow` would look up at all. */
  predicate LookupCode(code: string) {
    0 < |code| <= MaxFollowCodeLength
  }

  /** `follow(code)` at time `now`. */
  function Follow(urls: Urls, code: string, now: int): (r: FollowResult)
    // an unusable or unknown code: not found, nothing changes
    ensures !LookupCode(code) || code !in urls ==> r == FollowResult(urls, NotFound)
    // an expired code: its row is deleted and it is reported as not found
    ensures LookupCode(code) && code in urls && !Live(urls[code], now) ==>
              r.outcome == NotFound && r.urls == urls - {code}
    // a live code: only its click count moves, by one, and its URL is returned
    ensures LookupCode(code) && code in urls && Live(urls[code], now) ==>
              && r.outcome == Redirect(urls[code].originalUrl)
              && r.urls.Keys == urls.Keys
              && r.urls[code] == urls[code].(clickCount := urls[code].clickCount + 1)
              && forall c :: c in urls && c != code ==> r.urls[c] == urls[c]
    // a redirect always goes to the stored URL of a live row, never a stale one
    ensures r.outcome.Redirect? <==> LookupCode(code) && code in urls && Live(urls[code], now)
    ensures r.outcome.Redirect? ==> r.outcome.url == urls[code].originalUrl
    ensures r.urls.Keys <= urls.Keys
    ensures UrlsUnique(urls) ==> UrlsUnique(r.urls)
  {
    if !LookupCode(code) then FollowResult(urls, NotFound)
    else if code !in urls then FollowResult(urls, NotFound)
    else
      var row := urls[code];
      if !Live(row, now) then FollowResult(urls - {code}, NotFound)
      else FollowResult(urls[code := row.(clickCount := row.clickCount + 1)], Redirect(row.originalUrl))
  }

  /**
   * A freshly created short link redirects to its exact URL until it expires,
   * and its click count becomes 1.
   */
  lemma FollowCreated(urls: Urls, urls': Urls, code: string, url: string, createdAt: int, now: int)
    requires AddsOneRow(urls, urls', code, NewRow(url, createdAt, createdAt + TimeToLive))
    requires LookupCode(code)
    requires now <= createdAt + TimeToLive
    ensures Follow(urls', code, now).outcome == Redirect(url)
    ensures Follow(urls', code, now).urls[code].clickCount == 1
  {
  }

  /** Once an expired code has been followed, every later follow of it is not-found and changes nothing. */
  lemma {:induction false} ExpiredStaysGone(urls: Urls, code: string, now: int, times: seq<int>)
    requires LookupCode(code) && code in urls && !Live(urls[code], now)
    ensures code !in Follow(urls, code, now).urls
    ensures FollowRun(Follow(urls, code, now).urls, code, times).urls == Follow(urls, code, now).urls
    ensures forall i :: 0 <= i < |times| ==> FollowRun(Follow(urls, code, now).urls, code, times).outcomes[i] == NotFound
  {
    GoneStaysGone(Follow(urls, code, now).urls, code, times);
  }

  datatype FollowRunResult = FollowRunResult(urls: Urls, outcomes: seq<FollowOutcome>)

  /** Successive follows of `code` at `times`, each on the table the previous left. */
  function FollowRun(urls: Urls, code: string, times: seq<int>): (r: FollowRunResult)
    ensures |r.outcomes| == |times|
    decreases |times|
  {
    if times == [] then FollowRunResult(urls, [])
    else
      var first := Follow(urls, code, times[0]);
      var rest := FollowRun(first.urls, code, times[1..]);
      FollowRunResult(rest.urls, [first.outcome] + rest.outcomes)
  }

  lemma {:induction false} GoneStaysGone(urls: Urls, code: string, times: seq<int>)
    requires code !in urls
    ensures FollowRun(urls, code, times).urls == urls
    ensures forall i :: 0 <= i < |times| ==> FollowRun(urls, code, times).outcomes[i] == NotFound
    decreases |times|
  {
    if times != [] {
      GoneStaysGone(urls, code, times[1..]);
    }
  }

  /** n live follows of a code add exactly n clicks to its row and touch no other row. */
  lemma {:induction false} ClicksCountFollows(urls: Urls, code: string, times: seq<int>)
    requires LookupCode(code) && code in urls
    requires forall i :: 0 <= i < |times| ==> Live(urls[code], times[i])
    ensures FollowRun(urls, code, times).urls.Keys == urls.Keys
    ensures FollowRun(urls, code, times).urls[code]
            == urls[code].(clickCount := urls[code].clickCount + |times|)
    ensures forall c :: c in urls && c != code ==> FollowRun(urls, code, times).urls[c] == urls[c]
    ensures forall i :: 0 <= i < |times| ==> FollowRun(urls, code, times).outcomes[i] == Redirect(urls[code].originalUrl)
    decreases |times|
  {
    if times != [] {
      var first := Follow(urls, code, times[0]);
      assert forall i :: 0 <= i < |times[1..]| ==> Live(first.urls[code], times[1..][i]) by {
        assert forall i :: 0 <= i < |times[1..]| ==> times[1..][i] == times[i + 1];
      }
      ClicksCountFollows(first.urls, code, times[1..]);
    }
  }
}
