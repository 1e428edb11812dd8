# URL shortener core, modelled in Dafny

This project models the core of a small URL-shortening service whose whole
logic lives in one Flask module, `backend/app.py`. With the web and SQLite
plumbing removed, five pieces remain, one Dafny module each:

- `Base62` (`base62.dfy`): `base62_encode`, which writes an integer in base 62
  over `0-9A-Za-z` and left-pads it with `0`, and `generate_code`, which encodes
  a random value below 62^7 as a 7-symbol code.
- `Validation` (`validation.dfy`): `validate_url` (empty, then longer than 2048,
  then scheme not http/https, then empty netloc) and `validate_custom_code`
  (empty is allowed, then shorter than 3, then longer than 32, then a character
  outside letters, digits, `-` and `_`).
- `Windows` (`windows.dfy`): the fixed-window counters behind `check_rate_limit`
  (keyed by IP and bucket) and `is_spam_submission` (keyed by IP and URL, 30 s
  window, spam once the count exceeds 3). A row resets to `(now, 1)` when there
  is none or `now - window_start >= window`, and is incremented otherwise.
- `UrlStore` (`url_store.dfy`): the `urls` table as a map from code to row,
  `insert_custom_url` and the bounded-attempt loop `insert_unique_url`.
- `Service` (`service.dfy`): what the `shorten` and `follow` handlers do to the
  tables once HTTP is stripped away, with an abstract outcome per response.
- `Options` (`options.dfy`): the `Option` type used for Python's `X | None`.

Time is integer seconds passed in as `now`; the random values of
`secrets.randbelow` are a sequence `draws` supplied by the caller; the URL parser
is a function parameter `urlparse` returning the scheme and netloc.

What the code does, and the model with it:

- codes are 7 symbols over the 62-symbol alphabet `0-9A-Za-z`, and
  `insert_unique_url` makes 10 attempts before `shorten` reports that no
  unique code could be found;
- counter windows are measured from the stored `window_start` of each row;
- the duplicate check in `shorten` returns any row holding the URL, expired or
  not; such a stale code is later deleted by `follow` and reported as not found;
- `follow` deletes an expired row and answers not found, exactly as for an
  unknown code;
- `shorten` does not repeat its URL lookup after a failed insert.

## Model

| member | source | states |
|---|---|---|
| `Base62.Encode` | backend/app.py:205-217 | the encoding has length max(min_length, number of base-62 digits of the value) |
| `Base62.Base62Encode` | backend/app.py:205-217 | the source's algorithm (digit loop, then left padding) computes `Encode`, and decoding its result gives the value back |
| `Base62.RemainderDigits` | backend/app.py:209-213 | repeated `divmod` by 62, joining the remainders in reverse, yields the numeral of the value |
| `Base62.LoopDigitsStep` | backend/app.py:210-212 | one loop pass: the last symbol is the remainder's, the rest is the quotient's numeral |
| `Base62.EncodeDecodes` | backend/app.py:205-217 | round trip: decoding `base62_encode(v, m)` in base 62 returns v, padding included |
| `Base62.EncodeUsesAlphabet` | backend/app.py:205-217 | every character of the encoding is in BASE62_ALPHABET |
| `Base62.NumeralLength` | backend/app.py:209-213 | the unpadded numeral of v has n symbols with v < 62^n and, for v > 0, 62^(n-1) <= v: n is the number of base-62 digits |
| `Base62.NumeralFits` | backend/app.py:220-222 | a value below 62^n has at most n base-62 digits |
| `Base62.EncodeInjective` | backend/app.py:205-217 | two values encoded with the same minimum length give equal strings only if the values are equal |
| `Base62.EncodeOfDecode` | backend/app.py:205-217 | every string of n >= 1 alphabet symbols is the n-symbol encoding of its base-62 value, which is below 62^n |
| `Base62.GenerateCode` | backend/app.py:220-222 | a generated code has exactly CODE_LENGTH = 7 symbols |
| `Base62.EveryCodeIsGenerated` | backend/app.py:220-222 | `generate_code` is a bijection from the draws [0, 62^7) onto the 7-symbol alphabet strings |
| `Base62.DigitValueOfSymbol` | backend/app.py:13 | the symbol at position d of BASE62_ALPHABET has digit value d and is an ASCII letter or digit |
| `Base62.AlphabetInOrder` | backend/app.py:13 | BASE62_ALPHABET lists 0-9, A-Z, a-z, each in code-point order |
| `Base62.SymbolIsInAlphabet` | backend/app.py:13 | a character is in BASE62_ALPHABET exactly when it is an ASCII letter or digit |
| `Validation.ValidateUrl` | backend/app.py:173-184 | accepts exactly the non-empty URLs of at most 2048 characters with scheme http/https and a non-empty netloc; an empty URL is reported first, then too long, then the scheme, then the netloc |
| `Validation.ValidateCustomCode` | backend/app.py:187-202 | accepts exactly the empty code and the codes of 3-32 characters from letters, digits, `-`, `_`; too short is reported before too long, which is reported before the charset |
| `Validation.AllCodeChars` | backend/app.py:199-200 | the `all(...)` scan is true exactly when every character is allowed |
| `Validation.GeneratedCodeIsAcceptable` | backend/app.py:220-222 | every generated code would also pass as a custom code |
| `Windows.Hit` | backend/app.py:305-321 | the keyed row becomes (now, 1) on no row or an elapsed window, else (start, count+1); every other row is unchanged |
| `Windows.CheckRateLimit` | backend/app.py:292-323 | only the (ip, bucket) row changes, as reset-or-increment; the call is allowed exactly when the new count is at most the limit |
| `Windows.IsSpamSubmission` | backend/app.py:326-351 | only the (ip, url) row changes, with a 30 s window; a reset is never spam, an increment is spam exactly when the old count was at least 3 |
| `Windows.CountsContinue` | backend/app.py:316-321 | calls that stay inside the stored window observe the stored count plus 1, 2, 3, ... |
| `Windows.CountsWithinWindow` | backend/app.py:305-321 | calls inside the window opened by the first of them observe counts 1, 2, 3, ... |
| `Windows.RateDecisionsFollowCounts` | backend/app.py:323 | each successive rate-limit decision is "count <= limit" for the count that call observed |
| `Windows.SpamVerdictsFollowCounts` | backend/app.py:351 | each successive spam verdict is "count > 3" for the count that call observed |
| `Windows.RateLimitWithinWindow` | backend/app.py:305-323 | within one window, calls 1..limit are allowed and call limit+1 and later are rejected |
| `Windows.SpamWithinWindow` | backend/app.py:333-351 | within one 30 s window the first three identical submissions pass and the fourth and later are flagged |
| `Windows.RateDecisionsIgnoreOtherRows` | backend/app.py:300-303 | the decisions for one (ip, bucket) depend on no other row |
| `UrlStore.InsertCustom` | backend/app.py:243-258 | a taken code gives None and an unchanged table; a free code is returned and exactly one row (code, url, times, 0 clicks) is added, all other rows untouched |
| `UrlStore.InsertUnique` | backend/app.py:225-240 | at most 10 candidates are examined; on success the code is the first absent candidate, has 7 symbols, and exactly one row is added; on failure all 10 candidates were taken and the table is unchanged |
| `Service.Shorten` | backend/app.py:49-110 | invalid URL or code: that error, nothing stored; otherwise the spam row is always counted; spam: nothing inserted; past the spam check the table moves as `StoreStep` says (the URL's existing code, the custom code or `CodeTaken`, or the first free one of the 10 generated candidates, with `NoUniqueCode` exactly when all 10 are taken); one code per URL is preserved |
| `Service.LookupOrCreate` | backend/app.py:70-98 | a URL that already has a row (even expired) gets that row's code and nothing is inserted; else the custom code is inserted or refused as taken, or the first free code among the 10 generated candidates is inserted, and allocation fails exactly when all 10 are taken; a created code is fresh, followable and maps to the URL |
| `Service.EmptyStoreCreates` | backend/app.py:226-240 | on an empty table a request without a custom code is always created, under the code of the first random draw, and that is the only row |
| `Service.ShortenIsIdempotent` | backend/app.py:70-85 | once a URL has been given a code, the next request for it that reaches the store returns that same code and inserts nothing |
| `Service.ExpiredRowIsReused` | backend/app.py:70-73 | a URL whose row has expired still gets the stale code back, and following that code deletes the row and reports not found |
| `Service.Follow` | backend/app.py:112-139 | empty, over-long or unknown code: not found, nothing changes; expired: row deleted, not found; live: its URL is returned and only its click count rises, by 1; a redirect happens exactly for a live row and never to a stale URL |
| `Service.FollowCreated` | backend/app.py:134-139 | a freshly created link redirects to its exact URL until it expires and then has 1 click |
| `Service.ExpiredStaysGone` | backend/app.py:127-132 | after an expired code is followed, every later follow of it is not found and changes nothing |
| `Service.GoneStaysGone` | backend/app.py:123-124 | follows of an absent code are all not found and leave the table unchanged |
| `Service.ClicksCountFollows` | backend/app.py:134-138 | n follows of a live code redirect n times to its URL and add exactly n clicks to that row only |

## Left out

- Flask routing, the `rate_limit` decorator that calls `check_rate_limit` before each handler with the `RATE_LIMITS` configuration, `jsonify`, templates, redirects and status codes (backend/app.py:25-48, 141-151, 273-289): presentation glue. The outcome datatypes name each response instead.
- `get_db`, `app_database_path`, `init_db` and the commits (backend/app.py:154-170): the tables are in-memory maps. The table schema file is not part of this model, so no uniqueness constraint on `original_url` is modelled.
- The `sqlite3.IntegrityError` branches (backend/app.py:238-239, 257-258): with requests handled one after another, the code was just checked to be absent, so the insert cannot conflict on the code.
- Reading the JSON payload and `.strip()` of `url` and `code` (backend/app.py:52-54): the handler model receives the already stripped strings.
- `urlparse` internals (backend/app.py:179): the parser is the parameter `urlparse`, of which only scheme and netloc are read.
- Validation.ValidateCustomCode: treats only ASCII letters and digits as alphanumeric, while Python's `str.isalnum` also accepts non-ASCII letters and digits.
- `secrets.randbelow` (backend/app.py:222): the random values are the input sequence `draws`, each below 62^7.
- Service.Shorten: requires at least 10 draws, standing for the unlimited supply of random values the source can draw from.
- `time.time`, `datetime.utcnow` and the ISO timestamp strings (backend/app.py:87-88, 127-128, 299, 327): one integer `now` in seconds serves all of them, so `created_at` and `expires_at` come from the same instant and sub-second differences are not modelled.
- `get_client_ip` and `build_short_url` (backend/app.py:261-270): they read request headers and host configuration; the client IP is a parameter and the short URL string is not built.
- Concurrency between requests: the model handles one request at a time.
