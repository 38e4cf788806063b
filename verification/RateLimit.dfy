/**
 The token bucket of the rate limiter, exactly: a request is admitted if and only if the
 admissions since every earlier request of its key stay within the burst plus what the elapsed
 time allows. Times and allowances are reals.
 */
module RateLimit {
  /** `burst or rate`: no burst, or a burst of 0, means the rate. */
  function BurstOf(rate: int, burst: int): int { if burst == 0 then rate else burst }

  /** One key's counter: the allowance left after its last request, and when that was. */
  datatype Counter = Counter(allowance: real, lastCheck: real)

  datatype Limits = Limits(rate: real, burst: real)

  function Capped(x: real, cap: real): real { if x > cap then cap else x }

  /** The allowance a request finds; the first request of a key finds the whole burst. */
  function Allowance(l: Limits, c: Counter, now: real): real {
    Capped(c.allowance + (now - c.lastCheck) * l.rate, l.burst)
  }

  /** One request of a key: whether it is admitted, and the counter it leaves. */
  function Check(l: Limits, c: Counter, now: real): (bool, Counter) {
    var allowance := Allowance(l, c, now);
    if allowance < 1.0 then (false, Counter(allowance, now)) else (true, Counter(allowance - 1.0, now))
  }

  class RateLimitCounters {
    var counters: map<string, Counter>
    const limits: Limits

    constructor (rate: int, per: int, burst: int)
      requires per != 0
      ensures counters == map[] && limits == Limits(rate as real / per as real, BurstOf(rate, burst) as real)
    {
      counters := map[];
      limits := Limits(rate as real / per as real, BurstOf(rate, burst) as real);
    }

    /** `setdefault` of the source: the stored counter, or a full one. */
    function CounterOf(key: string, now: real): Counter
      reads this
    {
      if key in counters then counters[key] else Counter(limits.burst, now)
    }

    method CheckRequest(key: string, now: real) returns (allow: bool)
      modifies this
      ensures key in counters && (allow, counters[key]) == Check(limits, old(CounterOf(key, now)), now)
      ensures counters == old(counters)[key := counters[key]]
    {
      if key !in counters {
        counters := counters[key := Counter(limits.burst, now)];
      }
      var Counter(allowance, lastCheck) := counters[key];
      var timePassed := now - lastCheck;
      allowance := allowance + timePassed * limits.rate;
      if allowance > limits.burst {
        allowance := limits.burst;
      }
      if allowance < 1.0 {
        allow := false;
      } else {
        allow := true;
        allowance := allowance - 1.0;
      }
      counters := counters[key := Counter(allowance, now)];
    }
  }

  // ---- The requests of one key ----------------------------------------------------------------

  /** The counter before the request at `now`, after those at `times` (the last one last). */
  function CounterAfter(l: Limits, times: seq<real>, now: real): Counter {
    if times == [] then Counter(l.burst, now)
    else
      var n := |times| - 1;
      Check(l, CounterAfter(l, times[..n], times[n]), times[n]).1
  }

  predicate Admitted(l: Limits, times: seq<real>, i: nat)
    requires i < |times|
  {
    Check(l, CounterAfter(l, times[..i], times[i]), times[i]).0
  }

  /** How many of the requests `i <= k < n` were admitted. */
  function Admissions(l: Limits, times: seq<real>, i: nat, n: nat): nat
    requires i <= n <= |times|
  {
    if i == n then 0
    else Admissions(l, times, i, n - 1) + if Admitted(l, times, n - 1) then 1 else 0
  }

  /** What the bucket allows from request `i` up to the time of request `n`. */
  function Quota(l: Limits, times: seq<real>, i: nat, n: nat): real
    requires i <= n < |times|
  {
    l.burst + l.rate * (times[n] - times[i])
  }

  /** What the bucket still allows request `n` of the quota from request `i` on. */
  function Left(l: Limits, times: seq<real>, i: nat, n: nat): real
    requires i <= n < |times|
  {
    Quota(l, times, i, n) - Admissions(l, times, i, n) as real
  }

  /** The allowance that request `n` finds. */
  function Found(l: Limits, times: seq<real>, n: nat): real
    requires n < |times|
  {
    Allowance(l, CounterAfter(l, times[..n], times[n]), times[n])
  }

  /** What the bucket gains between request `n` and the next one. */
  function Refill(l: Limits, times: seq<real>, n: nat): real
    requires n + 1 < |times|
  {
    l.rate * (times[n + 1] - times[n])
  }

  function Taken(l: Limits, times: seq<real>, n: nat): real
    requires n < |times|
  {
    if Admitted(l, times, n) then 1.0 else 0.0
  }

  lemma FoundFirst(l: Limits, times: seq<real>)
    requires times != []
    ensures Found(l, times, 0) == l.burst
  {
  }

  lemma FoundNext(l: Limits, times: seq<real>, n: nat)
    requires n + 1 < |times|
    ensures Found(l, times, n + 1) == Capped(Found(l, times, n) - Taken(l, times, n) + Refill(l, times, n), l.burst)
  {
    var before := times[..n + 1];
    assert before[..n] == times[..n] && before[n] == times[n];
    assert CounterAfter(l, before, times[n + 1]) == Check(l, CounterAfter(l, times[..n], times[n]), times[n]).1;
    assert CounterAfter(l, before, times[n + 1]) == Counter(Found(l, times, n) - Taken(l, times, n), times[n]);
    assert Refill(l, times, n) == (times[n + 1] - times[n]) * l.rate;
  }

  /** The allowance never exceeds what any window leaves, and some window leaves just that. */
  lemma {:induction false} FoundIsTheLeastQuota(l: Limits, times: seq<real>, n: nat) returns (tight: nat)
    requires n < |times|
    ensures forall i | 0 <= i <= n :: Found(l, times, n) <= Left(l, times, i, n)
    ensures tight <= n && Found(l, times, n) == Left(l, times, tight, n)
    decreases n
  {
    hide Found, Left, Refill, Taken;
    if n == 0 {
      FoundFirst(l, times);
      LeftHere(l, times, 0);
      tight := 0;
    } else {
      var before := FoundIsTheLeastQuota(l, times, n - 1);
      FoundNext(l, times, n - 1);
      forall i: nat | i <= n ensures Found(l, times, n) <= Left(l, times, i, n) {
        if i < n {
          assert Found(l, times, n - 1) <= Left(l, times, i, n - 1);
          LeftNext(l, times, i, n - 1);
        } else {
          LeftHere(l, times, n);
        }
      }
      LeftNext(l, times, before, n - 1);
      LeftHere(l, times, n);
      tight := if Found(l, times, n) == l.burst then n else before;
    }
  }

  lemma LeftHere(l: Limits, times: seq<real>, n: nat)
    requires n < |times|
    ensures Left(l, times, n, n) == l.burst
  {
  }

  lemma LeftNext(l: Limits, times: seq<real>, i: nat, n: nat)
    requires i <= n && n + 1 < |times|
    ensures Left(l, times, i, n + 1) == Left(l, times, i, n) - Taken(l, times, n) + Refill(l, times, n)
  {
    hide Admitted;
  }

  /**
   A request is admitted if and only if for every request of its key so far, itself included, the
   admissions from that one on plus this one stay within the burst plus the rate times the time since.
   */
  lemma AdmittedIffWithinEveryWindow(l: Limits, times: seq<real>, n: nat)
    requires n < |times|
    ensures Admitted(l, times, n) <==>
              forall i | 0 <= i <= n :: Admissions(l, times, i, n) as real + 1.0 <= Quota(l, times, i, n)
  {
    var tight := FoundIsTheLeastQuota(l, times, n);
    AdmittedFindsAToken(l, times, n);
    hide Found, Admitted, Quota, Admissions;
    forall i: nat | i <= n
      ensures 1.0 <= Left(l, times, i, n) <==> Admissions(l, times, i, n) as real + 1.0 <= Quota(l, times, i, n)
    {
    }
  }

  lemma AdmittedFindsAToken(l: Limits, times: seq<real>, n: nat)
    requires n < |times|
    ensures Admitted(l, times, n) <==> Found(l, times, n) >= 1.0
  {
  }

  /** Hence, with a clock that does not go back, no window ever admits more than its quota. */
  lemma {:induction false} NoWindowExceedsItsQuota(l: Limits, times: seq<real>, i: nat, n: nat)
    requires l.rate >= 0.0 && l.burst >= 0.0
    requires i <= n < |times| && forall j, k | 0 <= j <= k < |times| :: times[j] <= times[k]
    ensures Admissions(l, times, i, n + 1) as real <= Quota(l, times, i, n)
    decreases n
  {
    if Admitted(l, times, n) {
      AdmittedIffWithinEveryWindow(l, times, n);
      assert Admissions(l, times, i, n) as real + 1.0 <= Quota(l, times, i, n);
    } else if i < n {
      NoWindowExceedsItsQuota(l, times, i, n - 1);
      QuotaGrows(l, times, i, n - 1);
    } else {
      assert Admissions(l, times, n, n + 1) == 0;
    }
  }

  lemma QuotaGrows(l: Limits, times: seq<real>, i: nat, n: nat)
    requires l.rate >= 0.0 && i <= n && n + 1 < |times| && times[n] <= times[n + 1]
    ensures Quota(l, times, i, n) <= Quota(l, times, i, n + 1)
  {
    assert Quota(l, times, i, n + 1) == Quota(l, times, i, n) + l.rate * (times[n + 1] - times[n]);
  }

  /** Without time in between nothing is gained. */
  lemma CheckAtOnce(l: Limits, allowance: real, now: real)
    requires allowance <= l.burst
    ensures Check(l, Counter(allowance, now), now)
         == if allowance < 1.0 then (false, Counter(allowance, now)) else (true, Counter(allowance - 1.0, now))
  {
    var passed := now - now;
    assert passed == 0.0 && passed * l.rate == 0.0;
    assert Allowance(l, Counter(allowance, now), now) == allowance;
  }

  function LeftOf(burst: int, n: nat): int { if n <= burst then burst - n else if burst < 0 then burst else 0 }

  /** What the first `n` requests of a key leave when they all come at once. */
  lemma {:induction false} LeftAtOnce(l: Limits, burst: int, now: real, n: nat)
    requires l.burst == burst as real
    ensures CounterAfter(l, seq(n, _ => now), now) == Counter(LeftOf(burst, n) as real, now)
  {
    hide Check;
    var times := seq(n, _ => now);
    if n > 0 {
      LeftAtOnce(l, burst, now, n - 1);
      assert times[..n - 1] == seq(n - 1, _ => now);
      CheckAtOnce(l, LeftOf(burst, n - 1) as real, now);
    }
  }

  /** At once a key has as many requests admitted as the burst, which is the rate if none is configured. */
  lemma BurstAtOnce(rate: int, per: int, burst: int, now: real, n: nat)
    requires per != 0
    ensures var l := Limits(rate as real / per as real, BurstOf(rate, burst) as real);
            LastAdmitted(l, seq(n + 1, _ => now)) <==> n < if burst != 0 then burst else rate
  {
    hide Check, CounterAfter;
    var l := Limits(rate as real / per as real, BurstOf(rate, burst) as real);
    var times := seq(n + 1, _ => now);
    LeftAtOnce(l, BurstOf(rate, burst), now, n);
    assert times[..n] == seq(n, _ => now);
    CheckAtOnce(l, LeftOf(BurstOf(rate, burst), n) as real, now);
  }

  // ---- Many keys share the counters -------------------------------------------------------------

  /** A request: its key and its time. */
  type Request = (string, real)

  function TimesOf(requests: seq<Request>, key: string): seq<real> {
    if requests == [] then []
    else
      var n := |requests| - 1;
      TimesOf(requests[..n], key) + if requests[n].0 == key then [requests[n].1] else []
  }

  /** Whether the last of `times` is admitted. */
  predicate LastAdmitted(l: Limits, times: seq<real>)
    requires times != []
  {
    Admitted(l, times, |times| - 1)
  }

  /** The counters after serving `requests`: every key's is the one its own requests leave. */
  ghost predicate Agrees(l: Limits, counters: map<string, Counter>, requests: seq<Request>) {
    forall key :: if key in counters
                  then TimesOf(requests, key) != [] && counters[key] == CounterAfter(l, TimesOf(requests, key), 0.0)
                  else TimesOf(requests, key) == []
  }

  lemma TimesOfNext(requests: seq<Request>, i: nat, key: string)
    requires i < |requests|
    ensures TimesOf(requests[..i + 1], key)
         == if requests[i].0 == key then TimesOf(requests[..i], key) + [requests[i].1] else TimesOf(requests[..i], key)
  {
    assert requests[..i + 1][..i] == requests[..i];
  }

  lemma CounterNext(l: Limits, past: seq<real>, now: real)
    ensures Check(l, CounterAfter(l, past, now), now)
        == (LastAdmitted(l, past + [now]), CounterAfter(l, past + [now], 0.0))
  {
    var times := past + [now];
    assert times[..|past|] == past && times[|past|] == now;
  }

  /** One more request keeps the agreement, and its verdict is that of its own key's requests. */
  lemma AgreesNext(l: Limits, before: map<string, Counter>, after: map<string, Counter>, requests: seq<Request>, i: nat)
    requires i < |requests| && Agrees(l, before, requests[..i])
    requires var (key, now) := requests[i];
             var found := if key in before then before[key] else Counter(l.burst, now);
             after == before[key := Check(l, found, now).1]
    ensures Agrees(l, after, requests[..i + 1])
    ensures var (key, now) := requests[i];
            var found := if key in before then before[key] else Counter(l.burst, now);
            TimesOf(requests[..i + 1], key) != []
                && Check(l, found, now).0 == LastAdmitted(l, TimesOf(requests[..i + 1], key))
  {
    hide Check, LastAdmitted, TimesOf;
    var (key, now) := requests[i];
    var past := TimesOf(requests[..i], key);
    TimesOfNext(requests, i, key);
    CounterNext(l, past, now);
    CounterIgnoresNow(l, past, 0.0, now);
    forall k | k != key ensures TimesOf(requests[..i + 1], k) == TimesOf(requests[..i], k) {
      TimesOfNext(requests, i, k);
    }
  }

  lemma NoRequestsYet(l: Limits, requests: seq<Request>)
    ensures Agrees(l, map[], requests[..0])
  {
  }

  lemma CounterIgnoresNow(l: Limits, past: seq<real>, now: real, later: real)
    ensures past != [] ==> CounterAfter(l, past, now) == CounterAfter(l, past, later)
    ensures past == [] ==> CounterAfter(l, past, now) == Counter(l.burst, now)
  {
  }

  /**
   Serving requests of many keys in one store: each verdict is that of its own key's requests
   alone, so other keys never matter.
   */
  method Serve(rate: int, per: int, burst: int, requests: seq<Request>) returns (verdicts: seq<bool>)
    requires per != 0
    ensures |verdicts| == |requests|
    ensures var l := Limits(rate as real / per as real, BurstOf(rate, burst) as real);
            forall i | 0 <= i < |requests| ::
              TimesOf(requests[..i + 1], requests[i].0) != []
                  && verdicts[i] == LastAdmitted(l, TimesOf(requests[..i + 1], requests[i].0))
  {
    hide Check, BurstOf, LastAdmitted, TimesOf, CounterAfter, Agrees;
    var store := new RateLimitCounters(rate, per, burst);
    ghost var l := store.limits;
    verdicts := [];
    NoRequestsYet(l, requests);
    for i := 0 to |requests|
      invariant fresh(store) && store.limits == l && |verdicts| == i
      invariant Agrees(l, store.counters, requests[..i])
      invariant forall j | 0 <= j < i ::
                  TimesOf(requests[..j + 1], requests[j].0) != []
                      && verdicts[j] == LastAdmitted(l, TimesOf(requests[..j + 1], requests[j].0))
    {
      var (key, now) := requests[i];
      ghost var before := store.counters;
      var allow := store.CheckRequest(key, now);
      AgreesNext(l, before, store.counters, requests, i);
      verdicts := verdicts + [allow];
    }
  }
}
