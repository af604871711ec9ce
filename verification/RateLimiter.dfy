/** The token bucket of explorer-api/main.go over the reals: its states, its answers, its guarantees. */
module TokenBuckets {
  datatype Bucket = Bucket(tokens: real, maxTokens: real, refillRate: real, lastRefill: real)

  function NewBucket(maxTokens: real, refillRate: real, now: real): Bucket {
    Bucket(maxTokens, maxTokens, refillRate, now)
  }

  /** The tokens a bucket gains over a stretch of time, were it never full. */
  function Earned(rate: real, start: real, end: real): real {
    (end - start) * rate
  }

  /** The tokens after the refill of a call at the given time, before one is taken. */
  function Refilled(b: Bucket, now: real): real {
    var tokens := b.tokens + Earned(b.refillRate, b.lastRefill, now);
    if tokens > b.maxTokens then b.maxTokens else tokens
  }

  predicate Allows(b: Bucket, now: real) {
    Refilled(b, now) >= 1.0
  }

  function After(b: Bucket, now: real): Bucket {
    b.(tokens := if Allows(b, now) then Refilled(b, now) - 1.0 else Refilled(b, now), lastRefill := now)
  }

  /** The bucket after calls at the given times. */
  function AfterAll(b: Bucket, times: seq<real>): Bucket
    decreases |times|
  {
    if times == [] then b else AfterAll(After(b, times[0]), times[1..])
  }

  /** How many of the calls at the given times are allowed. */
  function CountAllowed(b: Bucket, times: seq<real>): nat
    decreases |times|
  {
    if times == [] then 0
    else (if Allows(b, times[0]) then 1 else 0) + CountAllowed(After(b, times[0]), times[1..])
  }

  /** The clock the source reads never runs backwards. */
  predicate Forward(start: real, times: seq<real>) {
    && (forall i :: 0 <= i < |times| ==> start <= times[i])
    && (forall i, j :: 0 <= i < j < |times| ==> times[i] <= times[j])
  }

  predicate Sound(b: Bucket) {
    0.0 <= b.tokens <= b.maxTokens && 0.0 <= b.refillRate
  }

  lemma AfterIsSound(b: Bucket, now: real)
    requires Sound(b) && b.lastRefill <= now
    ensures Sound(After(b, now))
    ensures b.tokens <= Refilled(b, now) || b.maxTokens == Refilled(b, now)
    ensures After(b, now).maxTokens == b.maxTokens && After(b, now).refillRate == b.refillRate
  {
    hide Earned;
    EarnedAdds(b.refillRate, b.lastRefill, now, now);
  }

  lemma {:induction false} AfterAllIsSound(b: Bucket, times: seq<real>)
    requires Sound(b) && Forward(b.lastRefill, times)
    ensures var c := AfterAll(b, times);
            && Sound(c) && c.maxTokens == b.maxTokens && c.refillRate == b.refillRate
            && c.lastRefill == (if times == [] then b.lastRefill else times[|times| - 1])
    decreases |times|
  {
    hide Sound, After;
    if times == [] {
    } else {
      AfterIsSound(b, times[0]);
      AfterKeepsTime(b, times[0]);
      AfterAllIsSound(After(b, times[0]), times[1..]);
    }
  }

  lemma AfterKeepsTime(b: Bucket, now: real)
    ensures After(b, now).lastRefill == now
  {
  }

  lemma EarnedAdds(rate: real, start: real, middle: real, end: real)
    requires 0.0 <= rate && start <= middle <= end
    ensures Earned(rate, start, end) == Earned(rate, start, middle) + Earned(rate, middle, end)
    ensures 0.0 <= Earned(rate, start, middle) <= Earned(rate, start, end)
  {
    NonNegative(middle - start, rate);
    NonNegative(end - middle, rate);
    assert (end - start) * rate == (middle - start) * rate + (end - middle) * rate;
  }

  lemma NonNegative(a: real, b: real)
    requires 0.0 <= a && 0.0 <= b
    ensures 0.0 <= a * b
  {
  }

  lemma EarnedWithin(rate: real, start: real, end: real, d: real)
    requires 0.0 <= rate && end - start <= d
    ensures Earned(rate, start, end) <= Earned(rate, 0.0, d)
  {
    NonNegative(d - (end - start), rate);
    assert (d - (end - start)) * rate == (d - 0.0) * rate - (end - start) * rate;
  }

  /** One call spends what it takes: tokens left plus the answer never exceed tokens plus the refill. */
  lemma Spend(b: Bucket, now: real)
    requires Sound(b) && b.lastRefill <= now
    ensures (if Allows(b, now) then 1.0 else 0.0) + After(b, now).tokens <= b.tokens +
              Earned(b.refillRate, b.lastRefill, now)
    ensures (if Allows(b, now) then 1.0 else 0.0) + After(b, now).tokens <= b.maxTokens
  {
    hide Earned;
    EarnedAdds(b.refillRate, b.lastRefill, now, now);
  }

  /** The calls up to a time are paid for by the tokens in the bucket and the refill until then. */
  lemma {:induction false} AllowedArePaid(b: Bucket, times: seq<real>, end: real)
    requires Sound(b) && Forward(b.lastRefill, times)
    requires b.lastRefill <= end && forall i :: 0 <= i < |times| ==> times[i] <= end
    ensures CountAllowed(b, times) as real <= b.tokens + Earned(b.refillRate, b.lastRefill, end)
    decreases |times|
  {
    hide After, Allows, Earned;
    if times == [] {
      EarnedAdds(b.refillRate, b.lastRefill, end, end);
    } else {
      var c := After(b, times[0]);
      AfterIsSound(b, times[0]);
      AfterKeepsTime(b, times[0]);
      Spend(b, times[0]);
      AllowedArePaid(c, times[1..], end);
      EarnedAdds(b.refillRate, b.lastRefill, times[0], end);
    }
  }

  /** CountAllowed over a later part of the calls. */
  function CountWindow(b: Bucket, times: seq<real>, i: nat, j: nat): nat
    requires i <= j <= |times|
  {
    CountAllowed(AfterAll(b, times[..i]), times[i..j])
  }

  lemma WindowFrom(c: Bucket, window: seq<real>, d: real)
    requires Sound(c) && Forward(c.lastRefill, window)
    requires window != [] && window[|window| - 1] - window[0] <= d
    ensures CountAllowed(c, window) as real <= c.maxTokens + Earned(c.refillRate, 0.0, d)
  {
    hide After, Allows, Earned;
    var t, end := window[0], window[|window| - 1];
    AfterIsSound(c, t);
    AfterKeepsTime(c, t);
    Spend(c, t);
    AllowedArePaid(After(c, t), window[1..], end);
    EarnedWithin(c.refillRate, t, end, d);
  }

  /**
   However calls are spread, any stretch of them that fits in a window of length d has at most
   maxTokens + refillRate * d allowed.
   */
  lemma WindowBound(b: Bucket, times: seq<real>, i: nat, j: nat, d: real)
    requires Sound(b) && Forward(b.lastRefill, times)
    requires i < j <= |times| && times[j - 1] - times[i] <= d
    ensures CountWindow(b, times, i, j) as real <= b.maxTokens + b.refillRate * d
  {
    hide AfterAll, CountAllowed, Sound, Earned;
    AfterAllIsSound(b, times[..i]);
    WindowFrom(AfterAll(b, times[..i]), times[i..j], d);
    EarnedInWindow(b.refillRate, d);
  }

  lemma EarnedInWindow(rate: real, d: real)
    ensures Earned(rate, 0.0, d) == rate * d
  {
  }

  /** Each call comes at least one token's refill after the one before. */
  predicate Spaced(b: Bucket, times: seq<real>) {
    forall i :: 0 <= i < |times| ==> GapRefill(b, times, i) >= 1.0
  }

  function GapRefill(b: Bucket, times: seq<real>, i: nat): real
    requires i < |times|
  {
    Earned(b.refillRate, if i == 0 then b.lastRefill else times[i - 1], times[i])
  }

  lemma GapAllows(b: Bucket, now: real)
    requires Sound(b) && Earned(b.refillRate, b.lastRefill, now) >= 1.0
    ensures Allows(b, now) <==> b.maxTokens >= 1.0
  {
    hide Earned;
  }

  /** A spaced caller is never refused if and only if the bucket can hold a whole token. */
  lemma {:induction false} SpacedNeverRefused(b: Bucket, times: seq<real>)
    requires Sound(b) && Forward(b.lastRefill, times) && Spaced(b, times) && times != []
    ensures CountAllowed(b, times) == |times| <==> b.maxTokens >= 1.0
    decreases |times|
  {
    hide After, Allows, Earned;
    var c := After(b, times[0]);
    AfterIsSound(b, times[0]);
    AfterKeepsTime(b, times[0]);
    assert GapRefill(b, times, 0) >= 1.0;
    GapAllows(b, times[0]);
    if times[1..] == [] {
      assert CountAllowed(c, times[1..]) == 0;
    } else {
      forall i | 0 <= i < |times[1..]|
        ensures GapRefill(c, times[1..], i) >= 1.0
      {
        assert GapRefill(b, times, i + 1) >= 1.0;
      }
      CountAtMost(c, times[1..]);
      SpacedNeverRefused(c, times[1..]);
    }
  }

  lemma {:induction false} CountAtMost(b: Bucket, times: seq<real>)
    ensures CountAllowed(b, times) <= |times|
    decreases |times|
  {
    hide After, Allows;
    if times == [] {
    } else {
      CountAtMost(After(b, times[0]), times[1..]);
    }
  }

  /** The same for a new bucket, whose first call may come at once. */
  lemma NewBucketSpacedNeverRefused(maxTokens: real, refillRate: real, created: real, times: seq<real>)
    requires maxTokens >= 1.0 && refillRate >= 0.0
    requires times != [] && Forward(created, times)
    requires forall i :: 0 < i < |times| ==> Earned(refillRate, times[i - 1], times[i]) >= 1.0
    ensures CountAllowed(NewBucket(maxTokens, refillRate, created), times) == |times|
  {
    hide After, Earned;
    var b := NewBucket(maxTokens, refillRate, created);
    var c := After(b, times[0]);
    AfterIsSound(b, times[0]);
    AfterKeepsTime(b, times[0]);
    if times[1..] == [] {
      assert CountAllowed(c, times[1..]) == 0;
    } else {
      forall i | 0 <= i < |times[1..]|
        ensures GapRefill(c, times[1..], i) >= 1.0
      {
        assert times[1..][i] == times[i + 1];
      }
      SpacedNeverRefused(c, times[1..]);
    }
  }

  // ---------- Refused calls ----------

  /** The times of the calls that are allowed. */
  function AllowedTimes(b: Bucket, times: seq<real>): seq<real>
    decreases |times|
  {
    if times == [] then []
    else (if Allows(b, times[0]) then [times[0]] else []) + AllowedTimes(After(b, times[0]), times[1..])
  }

  /** A refused call does not change the answer to any later call, nor the bucket after it. */
  lemma RefusedCallCostsNothing(b: Bucket, now: real, later: real)
    requires Sound(b) && b.lastRefill <= now <= later && !Allows(b, now)
    ensures Allows(After(b, now), later) <==> Allows(b, later)
    ensures After(After(b, now), later) == After(b, later)
  {
    hide Earned;
    EarnedAdds(b.refillRate, b.lastRefill, now, later);
  }

  lemma SkipRefused(b: Bucket, now: real, times: seq<real>)
    requires Sound(b) && b.lastRefill <= now && !Allows(b, now) && Forward(now, times) && times != []
    ensures AllowedTimes(After(b, now), times) == AllowedTimes(b, times)
    ensures AfterAll(After(b, now), times) == AfterAll(b, times)
    ensures CountAllowed(After(b, now), times) == CountAllowed(b, times)
  {
    hide After, Allows, Sound;
    RefusedCallCostsNothing(b, now, times[0]);
  }

  /**
   Over any run of calls: had the refused ones never been made, all the others would have been allowed, and
   every later call would be answered as it is.
   */
  lemma {:induction false} RefusedCallsLeaveNoTrace(b: Bucket, times: seq<real>, later: real)
    requires Sound(b) && Forward(b.lastRefill, times)
    requires b.lastRefill <= later && forall i :: 0 <= i < |times| ==> times[i] <= later
    ensures CountAllowed(b, times) == |AllowedTimes(b, times)| == CountAllowed(b, AllowedTimes(b, times))
    ensures Allows(AfterAll(b, times), later) <==> Allows(AfterAll(b, AllowedTimes(b, times)), later)
    ensures After(AfterAll(b, times), later) == After(AfterAll(b, AllowedTimes(b, times)), later)
    decreases |times|
  {
    hide After, Allows, Sound;
    if times == [] {
    } else {
      var rest := times[1..];
      AfterIsSound(b, times[0]);
      AfterKeepsTime(b, times[0]);
      if Allows(b, times[0]) {
        RefusedCallsLeaveNoTrace(After(b, times[0]), rest, later);
        AllowedHead(b, times);
      } else {
        RefusedCallsLeaveNoTrace(b, rest, later);
        RefusedHead(b, times, later);
      }
    }
  }

  lemma AllowedHead(b: Bucket, times: seq<real>)
    requires times != [] && Allows(b, times[0])
    ensures var c, rest := After(b, times[0]), times[1..];
            && |AllowedTimes(b, times)| == 1 + |AllowedTimes(c, rest)|
            && CountAllowed(b, times) == 1 + CountAllowed(c, rest)
            && CountAllowed(b, AllowedTimes(b, times)) == 1 + CountAllowed(c, AllowedTimes(c, rest))
            && AfterAll(b, times) == AfterAll(c, rest)
            && AfterAll(b, AllowedTimes(b, times)) == AfterAll(c, AllowedTimes(c, rest))
  {
    hide After, Allows;
    assert AllowedTimes(b, times)[1..] == AllowedTimes(After(b, times[0]), times[1..]);
  }

  lemma RefusedHead(b: Bucket, times: seq<real>, later: real)
    requires Sound(b) && Forward(b.lastRefill, times) && times != [] && !Allows(b, times[0])
    requires forall i :: 0 <= i < |times| ==> times[i] <= later
    ensures AllowedTimes(b, times) == AllowedTimes(b, times[1..])
    ensures CountAllowed(b, times) == CountAllowed(b, times[1..])
    ensures Allows(AfterAll(b, times), later) <==> Allows(AfterAll(b, times[1..]), later)
    ensures After(AfterAll(b, times), later) == After(AfterAll(b, times[1..]), later)
  {
    hide After, Allows, Sound;
    if times[1..] == [] {
      RefusedCallCostsNothing(b, times[0], later);
    } else {
      SkipRefused(b, times[0], times[1..]);
    }
  }

  /** Of calls at one moment as many are allowed as there are whole tokens. */
  lemma {:induction false} BurstTakesTokens(b: Bucket, times: seq<real>, tokens: nat)
    requires Sound(b) && b.tokens == tokens as real && forall i :: 0 <= i < |times| ==> times[i] == b.lastRefill
    ensures CountAllowed(b, times) == if |times| <= tokens then |times| else tokens
    decreases |times|
  {
    hide Earned;
    if times == [] {
    } else {
      NothingAtOnce(b.refillRate, b.lastRefill);
      BurstTakesTokens(After(b, times[0]), times[1..], if tokens == 0 then 0 else tokens - 1);
    }
  }

  lemma NothingAtOnce(rate: real, now: real)
    ensures Earned(rate, now, now) == 0.0
  {
  }

  // ---------- One bucket per address ----------

  datatype Request = Request(ip: string, now: real)

  const CLIENT_TOKENS := 10.0
  const CLIENT_RATE := 10.0

  function ClientBucket(clients: map<string, Bucket>, r: Request): Bucket {
    if r.ip in clients then clients[r.ip] else NewBucket(CLIENT_TOKENS, CLIENT_RATE, r.now)
  }

  function AfterRequest(clients: map<string, Bucket>, r: Request): map<string, Bucket> {
    clients[r.ip := After(ClientBucket(clients, r), r.now)]
  }

  /** The answers to a sequence of requests from any addresses. */
  function Answers(clients: map<string, Bucket>, requests: seq<Request>): (answers: seq<bool>)
    ensures |answers| == |requests|
    decreases |requests|
  {
    if requests == [] then []
    else
      [Allows(ClientBucket(clients, requests[0]), requests[0].now)]
      + Answers(AfterRequest(clients, requests[0]), requests[1..])
  }

  /** The buckets after a sequence of requests. */
  function AfterRequests(clients: map<string, Bucket>, requests: seq<Request>): map<string, Bucket>
    decreases |requests|
  {
    if requests == [] then clients else AfterRequests(AfterRequest(clients, requests[0]), requests[1..])
  }

  /** The times at which an address calls. */
  function TimesOf(requests: seq<Request>, ip: string): seq<real>
    decreases |requests|
  {
    if requests == [] then []
    else (if requests[0].ip == ip then [requests[0].now] else []) + TimesOf(requests[1..], ip)
  }

  /** How many requests of an address are allowed. */
  function CountFor(requests: seq<Request>, answers: seq<bool>, ip: string): nat
    requires |requests| == |answers|
    decreases |requests|
  {
    if requests == [] then 0
    else (if requests[0].ip == ip && answers[0] then 1 else 0) + CountFor(requests[1..], answers[1..], ip)
  }

  /** The bucket an address starts from, given the calls that follow. */
  function StartBucket(clients: map<string, Bucket>, times: seq<real>, ip: string): Bucket {
    if ip in clients then clients[ip]
    else NewBucket(CLIENT_TOKENS, CLIENT_RATE, if times == [] then 0.0 else times[0])
  }

  /** What an address is allowed depends on its own calls alone. */
  lemma {:induction false} AddressesAreIsolated(clients: map<string, Bucket>, requests: seq<Request>, ip: string)
    ensures CountFor(requests, Answers(clients, requests), ip)
         == CountAllowed(StartBucket(clients, TimesOf(requests, ip), ip), TimesOf(requests, ip))
    decreases |requests|
  {
    hide After, Allows;
    if requests == [] {
    } else {
      var r := requests[0];
      var next := AfterRequest(clients, r);
      AddressesAreIsolated(next, requests[1..], ip);
      var rest := TimesOf(requests[1..], ip);
      if r.ip == ip {
        assert TimesOf(requests, ip) == [r.now] + rest;
        assert ([r.now] + rest)[1..] == rest;
      } else {
        assert TimesOf(requests, ip) == rest;
      }
    }
  }

  lemma {:induction false} TimesAreForward(requests: seq<Request>, ip: string, start: real)
    requires forall i :: 0 <= i < |requests| ==> start <= requests[i].now
    requires forall i, j :: 0 <= i < j < |requests| ==> requests[i].now <= requests[j].now
    ensures Forward(start, TimesOf(requests, ip))
    decreases |requests|
  {
    if requests == [] {
    } else {
      TimesAreForward(requests[1..], ip, requests[0].now);
      var rest := TimesOf(requests[1..], ip);
      forall i | 0 <= i < |rest|
        ensures start <= rest[i]
      {
        assert requests[0].now <= rest[i];
      }
    }
  }

  lemma {:induction false} AnswersSplit(clients: map<string, Bucket>, a: seq<Request>, b: seq<Request>)
    ensures Answers(clients, a + b) == Answers(clients, a) + Answers(AfterRequests(clients, a), b)
    decreases |a|
  {
    hide After, Allows;
    if a == [] {
      assert a + b == b;
    } else {
      assert (a + b)[0] == a[0] && (a + b)[1..] == a[1..] + b;
      AnswersSplit(AfterRequest(clients, a[0]), a[1..], b);
    }
  }

  /** The clock never runs backwards from request to request. */
  predicate InOrder(requests: seq<Request>) {
    forall k, l :: 0 <= k < l < |requests| ==> requests[k].now <= requests[l].now
  }

  /** All buckets have the limiter's size and rate and were last used by the given time. */
  predicate ClientsSound(clients: map<string, Bucket>, now: real) {
    forall ip :: ip in clients ==> ClientSound(clients[ip], now)
  }

  predicate ClientSound(b: Bucket, now: real) {
    Sound(b) && b.maxTokens == CLIENT_TOKENS && b.refillRate == CLIENT_RATE && b.lastRefill <= now
  }

  lemma {:induction false} ClientsStaySound(clients: map<string, Bucket>, requests: seq<Request>, end: real)
    requires InOrder(requests) && forall i :: 0 <= i < |requests| ==> requests[i].now <= end
    requires if requests == [] then ClientsSound(clients, end) else ClientsSound(clients, requests[0].now)
    ensures ClientsSound(AfterRequests(clients, requests), end)
    decreases |requests|
  {
    hide After, Allows, Sound;
    if requests == [] {
    } else {
      var r, rest := requests[0], requests[1..];
      NewClientIsSound(r.now);
      AfterIsSound(ClientBucket(clients, r), r.now);
      AfterKeepsTime(ClientBucket(clients, r), r.now);
      assert forall i :: 0 <= i < |rest| ==> rest[i] == requests[i + 1];
      ClientsStaySound(AfterRequest(clients, r), rest, end);
    }
  }

  lemma NewClientIsSound(now: real)
    ensures ClientSound(NewBucket(CLIENT_TOKENS, CLIENT_RATE, now), now)
  {
  }

  lemma {:induction false} TimesBetween(requests: seq<Request>, ip: string, start: real, end: real)
    requires forall i :: 0 <= i < |requests| ==> start <= requests[i].now <= end
    ensures forall i :: 0 <= i < |TimesOf(requests, ip)| ==> start <= TimesOf(requests, ip)[i] <= end
    decreases |requests|
  {
    if requests == [] {
    } else {
      TimesBetween(requests[1..], ip, start, end);
    }
  }

  lemma StartIsSound(clients: map<string, Bucket>, times: seq<real>, ip: string, start: real)
    requires ClientsSound(clients, start) && Forward(start, times)
    ensures var b := StartBucket(clients, times, ip);
            times != [] ==>
              Sound(b) && b.maxTokens == CLIENT_TOKENS && b.refillRate == CLIENT_RATE && Forward(b.lastRefill, times)
  {
    hide Sound;
    if times != [] {
      NewClientIsSound(times[0]);
    }
  }

  /** A stretch of requests that fits in a window, from sound buckets. */
  lemma StretchBound(clients: map<string, Bucket>, requests: seq<Request>, ip: string, d: real)
    requires requests != [] && InOrder(requests) && ClientsSound(clients, requests[0].now)
    requires requests[|requests| - 1].now - requests[0].now <= d
    ensures CountFor(requests, Answers(clients, requests), ip) as real <= CLIENT_TOKENS + Earned(CLIENT_RATE, 0.0, d)
  {
    hide After, Allows, Earned, CountFor, Answers, Forward, Sound, StartBucket, TimesOf, ClientsSound;
    var start, end := requests[0].now, requests[|requests| - 1].now;
    var times := TimesOf(requests, ip);
    var b := StartBucket(clients, times, ip);
    AddressesAreIsolated(clients, requests, ip);
    TimesAreForward(requests, ip, start);
    TimesBetween(requests, ip, start, end);
    StartIsSound(clients, times, ip, start);
    if times == [] {
      assert CountAllowed(b, times) == 0;
      EarnedWithin(CLIENT_RATE, 0.0, 0.0, d);
      NothingAtOnce(CLIENT_RATE, 0.0);
    } else {
      WindowFrom(b, times, d);
    }
  }

  lemma MiddleOf(whole: seq<bool>, a: seq<bool>, b: seq<bool>, c: seq<bool>)
    requires whole == a + (b + c)
    ensures whole[|a|..|a| + |b|] == b
  {
  }

  lemma AnswersMiddle(a: seq<Request>, b: seq<Request>, c: seq<Request>)
    ensures Answers(map[], a + (b + c))[|a|..|a| + |b|] == Answers(AfterRequests(map[], a), b)
  {
    hide Answers, AfterRequests;
    var clients := AfterRequests(map[], a);
    AnswersSplit(map[], a, b + c);
    AnswersSplit(clients, b, c);
    MiddleOf(Answers(map[], a + (b + c)), Answers(map[], a), Answers(clients, b),
              Answers(AfterRequests(clients, b), c));
  }

  lemma AnswersWindow(requests: seq<Request>, p: nat, q: nat)
    requires p <= q <= |requests|
    ensures Answers(map[], requests)[p..q] == Answers(AfterRequests(map[], requests[..p]), requests[p..q])
  {
    hide Answers, AfterRequests;
    AnswersMiddle(requests[..p], requests[p..q], requests[q..]);
    CutInThree(requests, p, q);
  }

  lemma CutInThree<T>(s: seq<T>, p: nat, q: nat)
    requires p <= q <= |s|
    ensures s[..p] + (s[p..q] + s[q..]) == s
  {
  }

  lemma WindowClients(requests: seq<Request>, p: nat)
    requires InOrder(requests) && p < |requests|
    ensures ClientsSound(AfterRequests(map[], requests[..p]), requests[p].now)
  {
    hide AfterRequests;
    ClientsStaySound(map[], requests[..p], requests[p].now);
  }

  lemma WindowInOrder(requests: seq<Request>, p: nat, q: nat)
    requires InOrder(requests) && p < q <= |requests|
    ensures var window := requests[p..q];
            InOrder(window) && window != [] && window[0] == requests[p] && window[|window| - 1] == requests[q - 1]
  {
  }

  /**
   From an empty limiter and among any traffic: of the requests in a window of length d, whatever
   addresses they come from, at most 10 + 10 * d of each address are allowed.
   */
  lemma AddressBound(requests: seq<Request>, ip: string, p: nat, q: nat, d: real)
    requires InOrder(requests)
    requires p < q <= |requests| && requests[q - 1].now - requests[p].now <= d
    ensures CountFor(requests[p..q], Answers(map[], requests)[p..q], ip) as real <= 10.0 + 10.0 * d
  {
    hide After, Allows, CountFor, AfterRequests, Answers, Earned, InOrder, ClientsSound;
    AnswersWindow(requests, p, q);
    WindowClients(requests, p);
    WindowInOrder(requests, p, q);
    StretchBound(AfterRequests(map[], requests[..p]), requests[p..q], ip, d);
    EarnedInWindow(CLIENT_RATE, d);
  }

  /** Of the calls an address makes at the moment it is first seen, exactly the first ten are allowed. */
  lemma FirstBurst(requests: seq<Request>, ip: string, now: real)
    requires forall i :: 0 <= i < |TimesOf(requests, ip)| ==> TimesOf(requests, ip)[i] == now
    ensures var calls := |TimesOf(requests, ip)|;
            CountFor(requests, Answers(map[], requests), ip) == if calls <= 10 then calls else 10
  {
    hide CountFor, Answers, TimesOf, CountAllowed;
    var times := TimesOf(requests, ip);
    AddressesAreIsolated(map[], requests, ip);
    BurstTakesTokens(StartBucket(map[], times, ip), times, 10);
  }

  /** Among any traffic an address that waits a tenth of a second between its calls is never refused. */
  lemma PatientAddressNeverRefused(requests: seq<Request>, ip: string)
    requires InOrder(requests)
    requires forall i :: 0 < i < |TimesOf(requests, ip)| ==>
               TimesOf(requests, ip)[i] - TimesOf(requests, ip)[i - 1] >= 0.1
    ensures CountFor(requests, Answers(map[], requests), ip) == |TimesOf(requests, ip)|
  {
    hide CountFor, Answers, TimesOf, CountAllowed;
    var times := TimesOf(requests, ip);
    AddressesAreIsolated(map[], requests, ip);
    if times == [] {
      NoneAllowedOfNone(StartBucket(map[], times, ip));
    } else {
      CallersInOrder(requests, ip);
      NewBucketSpacedNeverRefused(CLIENT_TOKENS, CLIENT_RATE, times[0], times);
    }
  }

  lemma NoneAllowedOfNone(b: Bucket)
    ensures CountAllowed(b, []) == 0
  {
  }

  lemma CallersInOrder(requests: seq<Request>, ip: string)
    requires InOrder(requests) && TimesOf(requests, ip) != []
    ensures Forward(TimesOf(requests, ip)[0], TimesOf(requests, ip))
  {
    TimesAreForward(requests, ip, requests[0].now);
  }
}

/** The code of the limiter: buckets updated in place, one per address. */
module RateLimiter {
  import opened TokenBuckets

  class TokenBucket {
    var tokens: real
    const maxTokens: real
    const refillRate: real
    var lastRefill: real

    constructor (maxTokens: real, refillRate: real, now: real)
      ensures Value() == NewBucket(maxTokens, refillRate, now)
    {
      tokens, this.maxTokens, this.refillRate, lastRefill := maxTokens, maxTokens, refillRate, now;
    }

    ghost function Value(): Bucket
      reads this
    {
      Bucket(tokens, maxTokens, refillRate, lastRefill)
    }

    method Allow(now: real) returns (allowed: bool)
      modifies this
      ensures allowed == Allows(old(Value()), now)
      ensures Value() == After(old(Value()), now)
    {
      var elapsed := now - lastRefill;
      lastRefill := now;
      tokens := tokens + elapsed * refillRate;
      if tokens > maxTokens {
        tokens := maxTokens;
      }
      assert tokens == Refilled(old(Value()), now);
      if tokens >= 1.0 {
        tokens := tokens - 1.0;
        return true;
      }
      return false;
    }
  }

  class IPRateLimiter {
    var clients: map<string, TokenBucket>

    /** No bucket is shared. */
    ghost predicate Valid()
      reads this
    {
      forall a, b :: a in clients && b in clients && clients[a] == clients[b] ==> a == b
    }

    ghost function Contents(): map<string, Bucket>
      reads this, clients.Values
    {
      map ip | ip in clients :: clients[ip].Value()
    }

    constructor ()
      ensures Valid() && Contents() == map[]
    {
      clients := map[];
    }

    method Allow(ip: string, now: real) returns (allowed: bool)
      requires Valid()
      modifies this, clients.Values
      ensures Valid() && fresh(clients.Values - old(clients.Values))
      ensures allowed == Allows(ClientBucket(old(Contents()), Request(ip, now)), now)
      ensures Contents() == AfterRequest(old(Contents()), Request(ip, now))
    {
      if ip !in clients {
        var bucket := new TokenBucket(CLIENT_TOKENS, CLIENT_RATE, now);
        clients := clients[ip := bucket];
      }
      allowed := clients[ip].Allow(now);
    }
  }
}
