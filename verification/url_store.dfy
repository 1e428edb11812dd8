/**
 * The `urls` table and code allocation: `insert_custom_url` and
 * `insert_unique_url`.
 *
 * The table is a map from code to row (codes are unique); an INSERT becomes
 * a map update and `SELECT 1 FROM urls WHERE code = ?` becomes membership.
 */
module UrlStore {
  import opened Options
  import Base62

  /** A row of `urls`; its code is the key it is stored under. Times are integer seconds. */
  datatype UrlRow = UrlRow(originalUrl: string, createdAt: int, expiresAt: int, clickCount: nat)

  type Urls = map<string, UrlRow>

  /** Attempts `insert_unique_url` makes before giving up. */
  const MaxAttempts: nat := 10

  /** The row an INSERT creates: `click_count` starts at 0. */
  function NewRow(url: string, createdAt: int, expiresAt: int): UrlRow {
    UrlRow(url, createdAt, expiresAt, 0)
  }

  /** Some row, live or expired, holds `url`. */
  predicate HasUrl(urls: Urls, url: string) {
    exists c :: c in urls && urls[c].originalUrl == url
  }

  /** No URL is stored under two codes. */
  predicate UrlsUnique(urls: Urls) {
    forall c, d :: c in urls && d in urls && c != d ==> urls[c].originalUrl != urls[d].originalUrl
  }

  /** The table after an insertion attempt, and the code inserted (None on failure). */
  datatype Insertion = Insertion(urls: Urls, code: Option<string>)

  /** `urls` with exactly one new row, `row` under the fresh code `code`; all other rows as they were. */
  predicate AddsOneRow(urls: Urls, urls': Urls, code: string, row: UrlRow) {
    && code !in urls
    && urls'.Keys == urls.Keys + {code}
    && urls'[code] == row
    && forall c :: c in urls ==> urls'[c] == urls[c]
  }

  /** Adding a row for a URL no row holds keeps every URL under one code. */
  lemma AddKeepsUrlsUnique(urls: Urls, urls': Urls, code: string, row: UrlRow)
    requires !HasUrl(urls, row.originalUrl)
    requires AddsOneRow(urls, urls', code, row)
    ensures UrlsUnique(urls) ==> UrlsUnique(urls')
    ensures forall c :: c in urls' && urls'[c].originalUrl == row.originalUrl ==> c == code
  {
  }

  /** `insert_custom_url`: fails when the code is taken, else inserts exactly one row. */
  function InsertCustom(urls: Urls, code: string, url: string, createdAt: int, expiresAt: int): (r: Insertion)
    ensures code in urls ==> r.code == None && r.urls == urls
    ensures code !in urls ==> r.code == Some(code) && AddsOneRow(urls, r.urls, code, NewRow(url, createdAt, expiresAt))
    ensures |r.urls| == if code in urls then |urls| else |urls| + 1
  {
    if code in urls then Insertion(urls, None)
    else Insertion(urls[code := NewRow(url, createdAt, expiresAt)], Some(code))
  }

  /**
   * `insert_unique_url`: try the codes generated from `draws[0]`, `draws[1]`,
   * ... (the successive `secrets.randbelow` results) for at most MaxAttempts
   * attempts, skipping codes already present, and insert under the first free one.
   */
  method InsertUnique(urls: Urls, url: string, createdAt: int, expiresAt: int, draws: seq<Base62.Draw>)
    returns (r: Insertion)
    requires |draws| >= MaxAttempts
    ensures r.code.Some? ==>
              exists k :: 0 <= k < MaxAttempts && r.code.value == Base62.GenerateCode(draws[k])
                          && forall j :: 0 <= j < k ==> Base62.GenerateCode(draws[j]) in urls
    ensures r.code.Some? ==>
              |r.code.value| == Base62.CodeLength
              && AddsOneRow(urls, r.urls, r.code.value, NewRow(url, createdAt, expiresAt))
    ensures r.code.None? ==>
              r.urls == urls && forall j :: 0 <= j < MaxAttempts ==> Base62.GenerateCode(draws[j]) in urls
  {
    var attempt := 0;
    while attempt < MaxAttempts
      invariant 0 <= attempt <= MaxAttempts
      invariant forall j :: 0 <= j < attempt ==> Base62.GenerateCode(draws[j]) in urls
    {
      var code := Base62.GenerateCode(draws[attempt]);
      if code !in urls {
        return Insertion(urls[code := NewRow(url, createdAt, expiresAt)], Some(code));
      }
      attempt := attempt + 1;
    }
    return Insertion(urls, None);
  }
}
