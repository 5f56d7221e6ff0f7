/**
  The login guard: five requests per fixed window and address, and what that
  means for an arbitrary minute.
 */
module LoginRateLimit {
  import opened Platform

  const LIMIT := 5
  const WINDOW_MS := 60_000

  /** Counts every request of the window, admitted or not. */
  datatype Entry = Entry(count: nat, resetAt: int)

  type Counters = map<string, Entry>

  datatype Request = Request(ip: string, now: int)

  /** The entry a request is counted in, after counting it. */
  function Counted(c: Counters, r: Request): Entry {
    if r.ip !in c || r.now > c[r.ip].resetAt then Entry(1, r.now + WINDOW_MS)
    else c[r.ip].(count := c[r.ip].count + 1)
  }

  class LoginRateLimitGuard {
    var counters: Counters

    constructor ()
      ensures counters == map[]
    {
      counters := map[];
    }

    method CanActivate(r: Request) returns (admitted: bool)
      modifies this
      ensures counters == old(counters)[r.ip := Counted(old(counters), r)]
      ensures admitted <==> Counted(old(counters), r).count <= LIMIT
    {
      var entry := Entry(0, 0);
      if r.ip in counters { entry := counters[r.ip]; }
      if r.ip !in counters || r.now > entry.resetAt {
        entry := Entry(0, r.now + WINDOW_MS);
        counters := counters[r.ip := entry];
      }
      entry := entry.(count := entry.count + 1);
      counters := counters[r.ip := entry];
      return entry.count <= LIMIT;
    }
  }

  /** The counters after a run of requests. */
  function After(reqs: seq<Request>): Counters {
    if reqs == [] then map[]
    else
      var c := After(reqs[..|reqs| - 1]);
      var r := reqs[|reqs| - 1];
      c[r.ip := Counted(c, r)]
  }

  /** Whether request `i` of the run is let through. */
  predicate Admitted(reqs: seq<Request>, i: nat)
    requires i < |reqs|
  {
    Counted(After(reqs[..i]), reqs[i]).count <= LIMIT
  }

  predicate Clocked(reqs: seq<Request>) {
    forall i, j :: 0 <= i < j < |reqs| ==> reqs[i].now <= reqs[j].now
  }

  /** Requests of one address let through at times lo..hi. */
  function Passed(reqs: seq<Request>, ip: string, lo: int, hi: int): nat {
    if reqs == [] then 0
    else
      var n := |reqs| - 1;
      Passed(reqs[..n], ip, lo, hi) +
      if reqs[n].ip == ip && lo <= reqs[n].now <= hi && Admitted(reqs, n) then 1 else 0
  }

  // ---- One window ----

  /** Nothing of an address passed since its window ended. */
  lemma {:induction false} NoneSince(reqs: seq<Request>, ip: string, lo: int, hi: int)
    requires ip in After(reqs) ==> After(reqs)[ip].resetAt < lo
    ensures Passed(reqs, ip, lo, hi) == 0
  {
    if reqs != [] {
      NoneSince(reqs[..|reqs| - 1], ip, lo, hi);
    }
  }

  /** Every entry has counted a request, and its window opened no later than the last request. */
  lemma {:induction false} EntryOpened(reqs: seq<Request>, ip: string)
    requires Clocked(reqs) && ip in After(reqs)
    ensures After(reqs)[ip].count >= 1
    ensures reqs != [] && After(reqs)[ip].resetAt - WINDOW_MS <= reqs[|reqs| - 1].now
  {
    var n := |reqs| - 1;
    if ip in After(reqs[..n]) {
      EntryOpened(reqs[..n], ip);
    }
  }

  /** The window opened at `start`, as later requests find it: still counting, or replaced by a later one. */
  predicate WindowSeen(e: Entry, start: int, passed: int) {
    && passed <= LIMIT
    && if e.resetAt == start + WINDOW_MS then passed <= e.count else e.resetAt - WINDOW_MS > start + WINDOW_MS
  }

  /** One more request keeps what is known about the window. */
  lemma WindowStep(reqs: seq<Request>, ip: string, start: int)
    requires Clocked(reqs) && reqs != [] && start <= reqs[|reqs| - 1].now
    requires var init := reqs[..|reqs| - 1];
             ip in After(init) && WindowSeen(After(init)[ip], start, Passed(init, ip, start, start + WINDOW_MS))
    ensures ip in After(reqs) && WindowSeen(After(reqs)[ip], start, Passed(reqs, ip, start, start + WINDOW_MS))
  {
    EntryOpened(reqs[..|reqs| - 1], ip);
  }

  lemma WindowOpens(reqs: seq<Request>, n: nat)
    requires Clocked(reqs) && n + 1 == |reqs| && Counted(After(reqs[..n]), reqs[n]).count == 1
    ensures reqs[n].ip in After(reqs)
    ensures WindowSeen(After(reqs)[reqs[n].ip], reqs[n].now, Passed(reqs, reqs[n].ip, reqs[n].now, reqs[n].now + WINDOW_MS))
  {
    var ip, start := reqs[n].ip, reqs[n].now;
    if ip in After(reqs[..n]) {
      EntryOpened(reqs[..n], ip);
    }
    NoneSince(reqs[..n], ip, start, start + WINDOW_MS);
    assert After(reqs)[ip] == Entry(1, start + WINDOW_MS);
    hide After, Counted;
    assert Passed(reqs, ip, start, start + WINDOW_MS) <= 1;
  }

  lemma {:induction false} WindowKept(reqs: seq<Request>, i: nat)
    requires Clocked(reqs) && i < |reqs| && Counted(After(reqs[..i]), reqs[i]).count == 1
    ensures reqs[i].ip in After(reqs)
    ensures WindowSeen(After(reqs)[reqs[i].ip], reqs[i].now, Passed(reqs, reqs[i].ip, reqs[i].now, reqs[i].now + WINDOW_MS))
  {
    var n := |reqs| - 1;
    var ip, start := reqs[i].ip, reqs[i].now;
    hide After, Passed, WindowSeen;
    if i == n {
      WindowOpens(reqs, n);
    } else {
      assert reqs[..n][..i] == reqs[..i];
      WindowKept(reqs[..n], i);
      WindowStep(reqs, ip, start);
    }
  }

  /** From the request that opens a window, at most five of the address pass until the window ends. */
  lemma WindowLimit(reqs: seq<Request>, i: nat)
    requires Clocked(reqs) && i < |reqs| && Counted(After(reqs[..i]), reqs[i]).count == 1
    ensures Passed(reqs, reqs[i].ip, reqs[i].now, reqs[i].now + 60_000) <= 5
  {
    WindowKept(reqs, i);
  }

  // ---- Windows, from the requests alone ----

  /** The last request of an address before place `n`, or -1. */
  function Previous(reqs: seq<Request>, ip: string, n: nat): (p: int)
    requires n <= |reqs|
    ensures -1 <= p < n && (p >= 0 ==> reqs[p].ip == ip)
  {
    if n == 0 then -1 else if reqs[n - 1].ip == ip then n - 1 else Previous(reqs, ip, n - 1)
  }

  /** The request that opened the window of request `i`: itself, if it is the address's first or came after the window of the one before. */
  function Opener(reqs: seq<Request>, i: nat): (w: nat)
    requires i < |reqs|
    ensures w <= i && reqs[w].ip == reqs[i].ip
  {
    var p := Previous(reqs, reqs[i].ip, i);
    if p < 0 || reqs[i].now > reqs[Opener(reqs, p)].now + 60_000 then i else Opener(reqs, p)
  }

  /** The requests of an address at the places from..to - 1. */
  function CountBetween(reqs: seq<Request>, ip: string, from: nat, to: nat): nat
    requires from <= to <= |reqs|
  {
    if from == to then 0 else CountBetween(reqs, ip, from, to - 1) + if reqs[to - 1].ip == ip then 1 else 0
  }

  lemma {:induction false} EntryFrom(reqs: seq<Request>, ip: string, n: nat)
    requires n <= |reqs|
    ensures var p := Previous(reqs, ip, n);
            if p < 0 then ip !in After(reqs[..n])
            else ip in After(reqs[..n]) && After(reqs[..n])[ip] == Counted(After(reqs[..p]), reqs[p])
  {
    hide Counted;
    if n > 0 {
      assert reqs[..n][..n - 1] == reqs[..n - 1];
      EntryFrom(reqs, ip, n - 1);
    }
  }

  lemma {:induction false} CountFrom(reqs: seq<Request>, ip: string, from: nat, n: nat)
    requires n <= |reqs| && from <= Previous(reqs, ip, n)
    ensures CountBetween(reqs, ip, from, n) == CountBetween(reqs, ip, from, Previous(reqs, ip, n)) + 1
  {
    if reqs[n - 1].ip != ip {
      CountFrom(reqs, ip, from, n - 1);
    }
  }

  /** The entry of a request counts its window, which ends 60 000 ms after its opener. */
  lemma {:induction false} EntryExactly(reqs: seq<Request>, i: nat)
    requires i < |reqs|
    ensures var w := Opener(reqs, i);
            Counted(After(reqs[..i]), reqs[i]) == Entry(CountBetween(reqs, reqs[i].ip, w, i) + 1, reqs[w].now + 60_000)
  {
    hide After;
    var ip := reqs[i].ip;
    EntryFrom(reqs, ip, i);
    var p := Previous(reqs, ip, i);
    if p >= 0 {
      EntryExactly(reqs, p);
      CountFrom(reqs, ip, Opener(reqs, p), i);
    }
  }

  /** A request is refused if and only if five earlier requests of its address lie in its window. */
  lemma RefusedExactly(reqs: seq<Request>, i: nat)
    requires i < |reqs|
    ensures !Admitted(reqs, i) <==> CountBetween(reqs, reqs[i].ip, Opener(reqs, i), i) >= 5
  {
    EntryExactly(reqs, i);
    hide Counted, Opener, CountBetween;
  }

  // ---- Any minute ----

  /**
    How the requests passed in t..t + WINDOW_MS split at the start of the current
    window: `older` before it, `recent` in it.
   */
  predicate SplitOk(e: Entry, t: int, older: nat, recent: nat) {
    var start := e.resetAt - WINDOW_MS;
    && e.count >= 1
    && recent <= LIMIT && recent <= e.count
    && (start < t ==> older == 0 && recent <= LIMIT - 1 && recent <= e.count - 1)
    && (t <= start <= t + WINDOW_MS ==> older <= LIMIT - 1)
    && (t + WINDOW_MS < start ==> recent == 0 && older <= 2 * LIMIT - 1)
  }

  lemma {:induction false} WindowSplit(reqs: seq<Request>, ip: string, t: int) returns (older: nat, recent: nat)
    requires Clocked(reqs)
    ensures Passed(reqs, ip, t, t + WINDOW_MS) == older + recent
    ensures ip !in After(reqs) ==> older == 0 && recent == 0
    ensures ip in After(reqs) ==> SplitOk(After(reqs)[ip], t, older, recent)
    ensures ip in After(reqs) && reqs != [] ==> After(reqs)[ip].resetAt - WINDOW_MS <= reqs[|reqs| - 1].now
    ensures reqs != [] && reqs[|reqs| - 1].now < t ==> older == 0 && recent == 0
  {
    older, recent := 0, 0;
    if reqs != [] {
      var n := |reqs| - 1;
      var r := reqs[n];
      var o, c := WindowSplit(reqs[..n], ip, t);
      older, recent := o, c;
      if r.ip == ip {
        var before := After(reqs[..n]);
        var passed := if t <= r.now <= t + WINDOW_MS && Admitted(reqs, n) then 1 else 0;
        if ip !in before || r.now > before[ip].resetAt {
          older, recent := o + c, passed;
        } else {
          recent := c + passed;
        }
      }
    }
  }

  /** However the requests of a run fall, at most nine of one address pass in any 60 000 ms. */
  lemma SlidingMinute(reqs: seq<Request>, ip: string, t: int)
    requires Clocked(reqs)
    ensures Passed(reqs, ip, t, t + 60_000) <= 9
  {
    var older, recent := WindowSplit(reqs, ip, t);
  }

  /** One request opening a window, four at its last millisecond, five just after it. */
  function Burst(): seq<Request> {
    [Request("a", 0)] + seq(4, i => Request("a", WINDOW_MS)) + seq(5, i => Request("a", WINDOW_MS + 1))
  }

  lemma {:induction false} BurstCounts(n: nat)
    requires 1 <= n <= 10
    ensures "a" in After(Burst()[..n])
    ensures After(Burst()[..n])["a"] == if n <= 5 then Entry(n, WINDOW_MS) else Entry(n - 5, 2 * WINDOW_MS + 1)
    ensures Admitted(Burst(), n - 1)
    ensures Passed(Burst()[..n], "a", WINDOW_MS, 2 * WINDOW_MS) == n - 1
  {
    var prefix := Burst()[..n];
    assert prefix[..n - 1] == Burst()[..n - 1];
    assert Admitted(prefix, n - 1) == Admitted(Burst(), n - 1);
    if n > 1 {
      BurstCounts(n - 1);
    } else {
      assert Burst()[..0] == [];
    }
  }

  /** Nine is reached: the documented five per minute holds per window, not per minute. */
  lemma SlidingMinuteTight()
    ensures Clocked(Burst())
    ensures Passed(Burst(), "a", 60_000, 120_000) == 9
  {
    BurstCounts(10);
    assert Burst()[..10] == Burst();
  }

  // ---- Other addresses ----

  /** The requests of one address, in order. */
  function Of(reqs: seq<Request>, ip: string): seq<Request> {
    if reqs == [] then []
    else
      var n := |reqs| - 1;
      Of(reqs[..n], ip) + if reqs[n].ip == ip then [reqs[n]] else []
  }

  /** An address is counted, and its requests decided, as if there were no others. */
  lemma {:induction false} OthersIrrelevant(reqs: seq<Request>, ip: string)
    ensures ip in After(reqs) <==> ip in After(Of(reqs, ip))
    ensures ip in After(reqs) ==> After(reqs)[ip] == After(Of(reqs, ip))[ip]
    ensures reqs != [] && reqs[|reqs| - 1].ip == ip ==>
              Of(reqs, ip) != [] &&
              (Admitted(reqs, |reqs| - 1) <==> Admitted(Of(reqs, ip), |Of(reqs, ip)| - 1))
  {
    if reqs != [] {
      var n := |reqs| - 1;
      OthersIrrelevant(reqs[..n], ip);
      if reqs[n].ip == ip {
        assert Of(reqs, ip)[..|Of(reqs, ip)| - 1] == Of(reqs[..n], ip);
      } else {
        assert Of(reqs, ip) == Of(reqs[..n], ip);
      }
    }
  }
}
