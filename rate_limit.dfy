/**
 * The in-memory fixed-window rate limiter: one counter per client key, a
 * window of one minute that opens with the first request and a maximum
 * number of admitted requests per window for each route. The clock is a
 * parameter: `now` is the millisecond timestamp of the call.
 */
module RateLimit {
  import opened Text

  const WindowMs: int := 60 * 1000
  const MaxSearchPerWindow: int := 20
  const MaxRefinePerWindow: int := 10
  const MaxTranscribePerWindow: int := 15

  /** `Entry`: the admitted requests of the current window and when it closes. */
  datatype Entry = Entry(count: int, resetAt: int)

  /** The answer of `checkLimit`; `retryAfter` (seconds) is present only on refusal. */
  datatype LimitResult = LimitResult(ok: bool, retryAfter: Option<int>)

  /** `Math.ceil(ms / 1000)` for a positive number of milliseconds. */
  function CeilSeconds(ms: int): (s: int)
    requires ms > 0
    ensures s >= 1
    ensures 1000 * (s - 1) < ms <= 1000 * s
  {
    (ms + 999) / 1000
  }

  /** `checkLimit` on a snapshot of the store: the store afterwards and the answer. */
  function Step(entries: map<string, Entry>, key: string, max: int, now: int): (r: (map<string, Entry>, LimitResult))
    ensures r.0.Keys == entries.Keys + {key}
    ensures forall k :: k in entries && k != key ==> r.0[k] == entries[k]
    ensures r.1.ok <==> r.1.retryAfter.None?
    ensures r.1.ok ==> now < r.0[key].resetAt
    ensures !r.1.ok ==> r.0 == entries && r.1.retryAfter.value >= 1
  {
    if key !in entries || now >= entries[key].resetAt then
      (entries[key := Entry(1, now + WindowMs)], LimitResult(true, None))
    else if entries[key].count >= max then
      (entries, LimitResult(false, Some(CeilSeconds(entries[key].resetAt - now))))
    else
      (entries[key := entries[key].(count := entries[key].count + 1)], LimitResult(true, None))
  }

  /** One store of counters (`searchStore`, `refineStore` or `transcribeStore`). */
  class Store {
    var entries: map<string, Entry>

    constructor()
      ensures entries == map[]
    {
      entries := map[];
    }

    /** `checkLimit(store, key, max)` at time `now`. */
    method CheckLimit(key: string, max: int, now: int) returns (r: LimitResult)
      modifies this
      ensures entries == Step(old(entries), key, max, now).0
      ensures r == Step(old(entries), key, max, now).1
    {
      if key !in entries {
        entries := entries[key := Entry(1, now + WindowMs)];
        return LimitResult(true, None);
      }
      var entry := entries[key];
      if now >= entry.resetAt {
        entries := entries[key := Entry(1, now + WindowMs)];
        return LimitResult(true, None);
      }
      if entry.count >= max {
        return LimitResult(false, Some(CeilSeconds(entry.resetAt - now)));
      }
      entries := entries[key := entry.(count := entry.count + 1)];
      r := LimitResult(true, None);
    }
  }

  /** `getClientIdentifier`: the first comma-separated field of `x-forwarded-for`,
      trimmed, when that header is non-empty; else a non-empty `x-real-ip`; else
      "unknown". `None` stands for an absent header. */
  function ClientIdentifier(forwarded: Option<string>, realIp: Option<string>): (r: string)
    ensures forwarded.Some? && forwarded.value != "" ==>
      r == Trim(SplitOn(forwarded.value, ',')[0]) && ',' !in r
    ensures (forwarded.None? || forwarded.value == "") && realIp.Some? && realIp.value != "" ==> r == realIp.value
    ensures (forwarded.None? || forwarded.value == "") && (realIp.None? || realIp.value == "") ==> r == "unknown"
  {
    if forwarded.Some? && forwarded.value != "" then
      var first := SplitOn(forwarded.value, ',')[0];
      TrimSlice(first);
      Trim(first)
    else if realIp.Some? && realIp.value != "" then realIp.value
    else "unknown"
  }

  /** `rateLimitSearch`, `rateLimitRefine` and `rateLimitTranscribe`: the client's key in
      the route's own store, with the route's maximum. */
  method RateLimitSearch(store: Store, forwarded: Option<string>, realIp: Option<string>, now: int)
    returns (r: LimitResult)
    modifies store
    ensures (store.entries, r) == Step(old(store.entries), ClientIdentifier(forwarded, realIp), MaxSearchPerWindow, now)
  {
    r := store.CheckLimit(ClientIdentifier(forwarded, realIp), MaxSearchPerWindow, now);
  }

  method RateLimitRefine(store: Store, forwarded: Option<string>, realIp: Option<string>, now: int)
    returns (r: LimitResult)
    modifies store
    ensures (store.entries, r) == Step(old(store.entries), ClientIdentifier(forwarded, realIp), MaxRefinePerWindow, now)
  {
    r := store.CheckLimit(ClientIdentifier(forwarded, realIp), MaxRefinePerWindow, now);
  }

  method RateLimitTranscribe(store: Store, forwarded: Option<string>, realIp: Option<string>, now: int)
    returns (r: LimitResult)
    modifies store
    ensures (store.entries, r) == Step(old(store.entries), ClientIdentifier(forwarded, realIp), MaxTranscribePerWindow, now)
  {
    r := store.CheckLimit(ClientIdentifier(forwarded, realIp), MaxTranscribePerWindow, now);
  }

  // ---- Properties ----

  /** The four cases of `checkLimit`, as the entry for the key ends up. */
  lemma StepCases(entries: map<string, Entry>, key: string, max: int, now: int)
    ensures key !in entries ==>
      Step(entries, key, max, now) == (entries[key := Entry(1, now + WindowMs)], LimitResult(true, None))
    ensures key in entries && now >= entries[key].resetAt ==>
      Step(entries, key, max, now) == (entries[key := Entry(1, now + WindowMs)], LimitResult(true, None))
    ensures key in entries && now < entries[key].resetAt && entries[key].count >= max ==>
      && Step(entries, key, max, now).0 == entries
      && !Step(entries, key, max, now).1.ok
      && 1000 * (Step(entries, key, max, now).1.retryAfter.value - 1) < entries[key].resetAt - now
      && entries[key].resetAt - now <= 1000 * Step(entries, key, max, now).1.retryAfter.value
    ensures key in entries && now < entries[key].resetAt && entries[key].count < max ==>
      && Step(entries, key, max, now).0 == entries[key := Entry(entries[key].count + 1, entries[key].resetAt)]
      && Step(entries, key, max, now).1.ok
  {
  }

  /** With a maximum of at least one, no stored count ever exceeds the maximum. */
  lemma StepKeepsCountBound(entries: map<string, Entry>, key: string, max: int, now: int)
    requires max >= 1
    requires forall k :: k in entries ==> entries[k].count <= max
    ensures forall k :: k in Step(entries, key, max, now).0 ==> Step(entries, key, max, now).0[k].count <= max
  {
  }

  /** The requests admitted when the calls for one key arrive at `times`. */
  function Admitted(entries: map<string, Entry>, key: string, max: int, times: seq<int>): (n: nat)
    ensures n <= |times|
    decreases |times|
  {
    if times == [] then 0
    else
      var step := Step(entries, key, max, times[0]);
      (if step.1.ok then 1 else 0) + Admitted(step.0, key, max, times[1..])
  }

  /** Inside one open window the key is admitted at most `max - count` more times. */
  lemma {:induction false} AdmittedWithinWindow(entries: map<string, Entry>, key: string, max: int, times: seq<int>)
    requires key in entries && entries[key].count <= max
    requires forall i :: 0 <= i < |times| ==> times[i] < entries[key].resetAt
    ensures Admitted(entries, key, max, times) <= max - entries[key].count
    decreases |times|
  {
    if times != [] {
      var step := Step(entries, key, max, times[0]);
      assert step.0[key].resetAt == entries[key].resetAt;
      AdmittedWithinWindow(step.0, key, max, times[1..]);
    }
  }

  /** The fixed window: after the call at `start` that opens a window, at most `max`
      requests in all are admitted up to 60 seconds later. */
  lemma OneWindowAdmitsAtMostMax(entries: map<string, Entry>, key: string, max: int, start: int, times: seq<int>)
    requires max >= 1
    requires key !in entries || start >= entries[key].resetAt
    requires forall i :: 0 <= i < |times| ==> times[i] < start + WindowMs
    ensures Admitted(entries, key, max, [start] + times) <= max
  {
    var step := Step(entries, key, max, start);
    assert ([start] + times)[1..] == times;
    AdmittedWithinWindow(step.0, key, max, times);
  }
}
