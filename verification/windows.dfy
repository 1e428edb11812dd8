/**
 * Fixed-window counters: `check_rate_limit` and `is_spam_submission`.
 *
 * Both keep one row (window_start, count) per key. A call at time `now`
 * starts a fresh window at `now` when there is no row or the stored window
 * has lasted `windowSeconds`; otherwise it counts one more call in the stored
 * window. The window is measured from the stored start, not from aligned
 * epoch boundaries.
 */
module Windows {

  datatype Window = Window(start: int, count: nat)

  /** A counter table after one call, and the count that call observed. */
  datatype Tick<K> = Tick(table: map<K, Window>, count: nat)

  predicate Elapsed(w: Window, now: int, windowSeconds: int) {
    now - w.start >= windowSeconds
  }

  /** Whether a call at `now` starts a fresh window for `key`. */
  predicate Resets<K>(table: map<K, Window>, key: K, now: int, windowSeconds: int) {
    key !in table || Elapsed(table[key], now, windowSeconds)
  }

  /** The shared reset-or-increment step (the SQL upsert becomes a map update). */
  function Hit<K>(table: map<K, Window>, key: K, now: int, windowSeconds: int): (r: Tick<K>)
    ensures r.table.Keys == table.Keys + {key}
    ensures forall k :: k in table && k != key ==> r.table[k] == table[k]
    ensures Resets(table, key, now, windowSeconds) ==> r.table[key] == Window(now, 1)
    ensures !Resets(table, key, now, windowSeconds) ==>
              r.table[key] == Window(table[key].start, table[key].count + 1)
    ensures r.count == r.table[key].count
  {
    var w := if Resets(table, key, now, windowSeconds) then Window(now, 1)
             else Window(table[key].start, table[key].count + 1);
    Tick(table[key := w], w.count)
  }

  // ---------------------------------------------------------------------------
  // Rate limiter

  /** A row of `rate_limits` is keyed by (ip, bucket). */
  type RateKey = (string, string)

  datatype RateCheck = RateCheck(table: map<RateKey, Window>, allowed: bool)

  /** `check_rate_limit(db, ip, bucket, window_seconds, limit)` at time `now`. */
  function CheckRateLimit(table: map<RateKey, Window>, ip: string, bucket: string,
                          windowSeconds: int, limit: int, now: int): (r: RateCheck)
    ensures r.table.Keys == table.Keys + {(ip, bucket)}
    ensures forall k :: k in table && k != (ip, bucket) ==> r.table[k] == table[k]
    ensures Resets(table, (ip, bucket), now, windowSeconds) ==>
              r.table[(ip, bucket)] == Window(now, 1) && (r.allowed <==> 1 <= limit)
    ensures !Resets(table, (ip, bucket), now, windowSeconds) ==>
              var prev := table[(ip, bucket)];
              r.table[(ip, bucket)] == Window(prev.start, prev.count + 1) && (r.allowed <==> prev.count + 1 <= limit)
  {
    var t := Hit(table, (ip, bucket), now, windowSeconds);
    RateCheck(t.table, t.count <= limit)
  }

  // ---------------------------------------------------------------------------
  // Duplicate-submission throttle

  /** SPAM_WINDOW_SECONDS */
  const SpamWindowSeconds: int := 30
  /** SPAM_MAX_DUPLICATES */
  const SpamMaxDuplicates: nat := 3

  /** A row of `spam_submissions` is keyed by (ip, original_url). */
  type SpamKey = (string, string)

  datatype SpamCheck = SpamCheck(table: map<SpamKey, Window>, spam: bool)

  /** `is_spam_submission(db, ip, original_url)` at time `now`. */
  function IsSpamSubmission(table: map<SpamKey, Window>, ip: string, url: string, now: int): (r: SpamCheck)
    ensures r.table.Keys == table.Keys + {(ip, url)}
    ensures forall k :: k in table && k != (ip, url) ==> r.table[k] == table[k]
    ensures Resets(table, (ip, url), now, SpamWindowSeconds) ==>
              r.table[(ip, url)] == Window(now, 1) && !r.spam
    ensures !Resets(table, (ip, url), now, SpamWindowSeconds) ==>
              var prev := table[(ip, url)];
              r.table[(ip, url)] == Window(prev.start, prev.count + 1) && (r.spam <==> prev.count >= SpamMaxDuplicates)
  {
    var t := Hit(table, (ip, url), now, SpamWindowSeconds);
    SpamCheck(t.table, t.count > SpamMaxDuplicates)
  }

  // ---------------------------------------------------------------------------
  // Successive calls

  /** The counts observed by calls at `times`, in order, each on the table the previous left. */
  function Counts<K>(table: map<K, Window>, key: K, times: seq<int>, windowSeconds: int): seq<nat>
    decreases |times|
  {
    if times == [] then []
    else
      var t := Hit(table, key, times[0], windowSeconds);
      [t.count] + Counts(t.table, key, times[1..], windowSeconds)
  }

  /** The rate limiter's decisions for successive calls from `ip` at `times`. */
  function RateDecisions(table: map<RateKey, Window>, ip: string, bucket: string,
                         windowSeconds: int, limit: int, times: seq<int>): seq<bool>
    decreases |times|
  {
    if times == [] then []
    else
      var r := CheckRateLimit(table, ip, bucket, windowSeconds, limit, times[0]);
      [r.allowed] + RateDecisions(r.table, ip, bucket, windowSeconds, limit, times[1..])
  }

  /** The throttle's verdicts for successive submissions of `url` from `ip` at `times`. */
  function SpamVerdicts(table: map<SpamKey, Window>, ip: string, url: string, times: seq<int>): seq<bool>
    decreases |times|
  {
    if times == [] then []
    else
      var r := IsSpamSubmission(table, ip, url, times[0]);
      [r.spam] + SpamVerdicts(r.table, ip, url, times[1..])
  }

  /** Calls that stay inside the current window keep counting from where it stood. */
  lemma {:induction false} CountsContinue<K>(table: map<K, Window>, key: K, times: seq<int>,
                                             windowSeconds: int, start: int, count: nat)
    requires key in table && table[key] == Window(start, count)
    requires forall i :: 0 <= i < |times| ==> times[i] - start < windowSeconds
    ensures |Counts(table, key, times, windowSeconds)| == |times|
    ensures forall i :: 0 <= i < |times| ==> Counts(table, key, times, windowSeconds)[i] == count + i + 1
    decreases |times|
  {
    if times != [] {
      var t := Hit(table, key, times[0], windowSeconds);
      assert t.table[key] == Window(start, count + 1);
      CountsContinue(t.table, key, times[1..], windowSeconds, start, count + 1);
    }
  }

  /**
   * Calls that all fall inside the window opened by the first of them observe
   * the counts 1, 2, 3, ...
   */
  lemma CountsWithinWindow<K>(table: map<K, Window>, key: K, times: seq<int>, windowSeconds: int)
    requires |times| > 0
    requires Resets(table, key, times[0], windowSeconds)
    requires forall i :: 0 <= i < |times| ==> times[i] - times[0] < windowSeconds
    ensures |Counts(table, key, times, windowSeconds)| == |times|
    ensures forall i :: 0 <= i < |times| ==> Counts(table, key, times, windowSeconds)[i] == i + 1
  {
    var t := Hit(table, key, times[0], windowSeconds);
    CountsContinue(t.table, key, times[1..], windowSeconds, times[0], 1);
  }

  lemma {:induction false} RateDecisionsFollowCounts(table: map<RateKey, Window>, ip: string, bucket: string,
                                                     windowSeconds: int, limit: int, times: seq<int>)
    ensures |RateDecisions(table, ip, bucket, windowSeconds, limit, times)| == |times|
    ensures |Counts(table, (ip, bucket), times, windowSeconds)| == |times|
    ensures forall i :: 0 <= i < |times| ==>
              RateDecisions(table, ip, bucket, windowSeconds, limit, times)[i]
              == (Counts(table, (ip, bucket), times, windowSeconds)[i] <= limit)
    decreases |times|
  {
    if times != [] {
      var r := CheckRateLimit(table, ip, bucket, windowSeconds, limit, times[0]);
      RateDecisionsFollowCounts(r.table, ip, bucket, windowSeconds, limit, times[1..]);
    }
  }

  lemma {:induction false} SpamVerdictsFollowCounts(table: map<SpamKey, Window>, ip: string, url: string,
                                                    times: seq<int>)
    ensures |SpamVerdicts(table, ip, url, times)| == |times|
    ensures |Counts(table, (ip, url), times, SpamWindowSeconds)| == |times|
    ensures forall i :: 0 <= i < |times| ==>
              SpamVerdicts(table, ip, url, times)[i]
              == (Counts(table, (ip, url), times, SpamWindowSeconds)[i] > SpamMaxDuplicates)
    decreases |times|
  {
    if times != [] {
      var r := IsSpamSubmission(table, ip, url, times[0]);
      SpamVerdictsFollowCounts(r.table, ip, url, times[1..]);
    }
  }

  /**
   * Within one window, calls 1..limit are allowed and every later call is
   * rejected: the i-th call (from 0) is allowed exactly when i < limit.
   */
  lemma RateLimitWithinWindow(table: map<RateKey, Window>, ip: string, bucket: string,
                              windowSeconds: int, limit: int, times: seq<int>)
    requires |times| > 0
    requires Resets(table, (ip, bucket), times[0], windowSeconds)
    requires forall i :: 0 <= i < |times| ==> times[i] - times[0] < windowSeconds
    ensures |RateDecisions(table, ip, bucket, windowSeconds, limit, times)| == |times|
    ensures forall i :: 0 <= i < |times| ==>
              RateDecisions(table, ip, bucket, windowSeconds, limit, times)[i] == (i < limit)
  {
    RateDecisionsFollowCounts(table, ip, bucket, windowSeconds, limit, times);
    CountsWithinWindow(table, (ip, bucket), times, windowSeconds);
  }

  /**
   * Within one 30-second window, the first three identical submissions pass
   * and the fourth and later ones are flagged.
   */
  lemma SpamWithinWindow(table: map<SpamKey, Window>, ip: string, url: string, times: seq<int>)
    requires |times| > 0
    requires Resets(table, (ip, url), times[0], SpamWindowSeconds)
    requires forall i :: 0 <= i < |times| ==> times[i] - times[0] < SpamWindowSeconds
    ensures |SpamVerdicts(table, ip, url, times)| == |times|
    ensures forall i :: 0 <= i < |times| ==> SpamVerdicts(table, ip, url, times)[i] == (i >= SpamMaxDuplicates)
  {
    SpamVerdictsFollowCounts(table, ip, url, times);
    CountsWithinWindow(table, (ip, url), times, SpamWindowSeconds);
  }

  /**
   * Counters for one key never influence another: the decisions for
   * (ip, bucket) are the same whatever the other rows hold.
   */
  lemma {:induction false} RateDecisionsIgnoreOtherRows(t1: map<RateKey, Window>, t2: map<RateKey, Window>,
                                                        ip: string, bucket: string,
                                                        windowSeconds: int, limit: int, times: seq<int>)
    requires ((ip, bucket) in t1) == ((ip, bucket) in t2)
    requires (ip, bucket) in t1 ==> t1[(ip, bucket)] == t2[(ip, bucket)]
    ensures RateDecisions(t1, ip, bucket, windowSeconds, limit, times)
            == RateDecisions(t2, ip, bucket, windowSeconds, limit, times)
    decreases |times|
  {
    if times != [] {
      var r1 := CheckRateLimit(t1, ip, bucket, windowSeconds, limit, times[0]);
      var r2 := CheckRateLimit(t2, ip, bucket, windowSeconds, limit, times[0]);
      RateDecisionsIgnoreOtherRows(r1.table, r2.table, ip, bucket, windowSeconds, limit, times[1..]);
    }
  }
}
