/** The sliding-window rate limiter: a pruned queue per key stands for the log of accepted requests. */
module RateLimiter {
  import opened Wrappers

  const WINDOW: real := 60.0

  datatype Request = Request(key: string, at: real)

  ghost predicate Ordered(requests: seq<Request>) {
    forall i, j :: 0 <= i < j < |requests| ==> requests[i].at <= requests[j].at
  }

  ghost predicate Sorted(log: seq<real>) {
    forall i, j :: 0 <= i < j < |log| ==> log[i] <= log[j]
  }

  // ---- the reference: a log that is never pruned ----

  /** How many hits of a log fall in the closed interval from lo to hi. */
  function CountIn(log: seq<real>, lo: real, hi: real): nat {
    if log == [] then 0
    else CountIn(log[..|log| - 1], lo, hi) + if lo <= log[|log| - 1] <= hi then 1 else 0
  }

  /** The rule: fewer than `limit` accepted hits in the last 60 seconds. */
  predicate Admits(limit: int, log: seq<real>, now: real) {
    CountIn(log, now - WINDOW, now) < limit
  }

  /** The times of the accepted requests of a key. */
  function Accepted(limit: int, requests: seq<Request>, key: string): seq<real> {
    if requests == [] then []
    else
      var log := Accepted(limit, requests[..|requests| - 1], key);
      var last := requests[|requests| - 1];
      if last.key == key && Admits(limit, log, last.at) then log + [last.at] else log
  }

  /** One more request, at the end. */
  lemma AcceptedAppend(limit: int, requests: seq<Request>, next: Request, key: string)
    ensures
      var log := Accepted(limit, requests, key);
      Accepted(limit, requests + [next], key)
        == if next.key == key && Admits(limit, log, next.at) then log + [next.at] else log
  {
    assert (requests + [next])[..|requests|] == requests;
  }

  lemma OrderedWithoutLast(requests: seq<Request>, next: Request)
    requires Ordered(requests + [next])
    ensures Ordered(requests)
    ensures forall i :: 0 <= i < |requests| ==> requests[i].at <= next.at
  {
    var all := requests + [next];
    assert forall i :: 0 <= i < |requests| ==> all[i] == requests[i];
    assert forall i :: 0 <= i < |requests| ==> all[i].at <= all[|requests|].at;
  }

  /** Accepted times are sorted, and not later than the last request. */
  lemma {:induction false} AcceptedSorted(limit: int, requests: seq<Request>, key: string)
    requires Ordered(requests)
    ensures Sorted(Accepted(limit, requests, key))
    ensures forall i :: 0 <= i < |Accepted(limit, requests, key)| ==>
      Accepted(limit, requests, key)[i] <= requests[|requests| - 1].at && requests != []
  {
    if requests != [] {
      var before := requests[..|requests| - 1];
      AcceptedSorted(limit, before, key);
      assert before != [] ==> before[|before| - 1].at <= requests[|requests| - 1].at;
    }
  }

  lemma AcceptedUpTo(limit: int, requests: seq<Request>, key: string, now: real)
    requires Ordered(requests)
    requires forall i :: 0 <= i < |requests| ==> requests[i].at <= now
    ensures Sorted(Accepted(limit, requests, key))
    ensures forall i :: 0 <= i < |Accepted(limit, requests, key)| ==> Accepted(limit, requests, key)[i] <= now
  {
    AcceptedSorted(limit, requests, key);
  }

  /** Every hit of a sorted log from lo on, when the log ends by hi, is counted, and no other. */
  lemma {:induction false} CountSuffix(log: seq<real>, k: nat, lo: real, hi: real)
    requires k <= |log|
    requires forall i :: 0 <= i < k ==> log[i] < lo
    requires forall i :: k <= i < |log| ==> lo <= log[i] <= hi
    ensures CountIn(log, lo, hi) == |log| - k
  {
    if k < |log| {
      CountSuffix(log[..|log| - 1], k, lo, hi);
    } else if log != [] {
      CountSuffix(log[..|log| - 1], k - 1, lo, hi);
    }
  }

  /** The accepted hits of the last 60 seconds, both ends of the interval included. */
  ghost function LastMinute(log: seq<real>, now: real): set<int> {
    set i | 0 <= i < |log| && now - 60.0 <= log[i] <= now
  }

  /** Counting is counting: the rule compares the number of those hits with the limit. */
  lemma {:induction false} CountIsSize(log: seq<real>, now: real)
    ensures CountIn(log, now - WINDOW, now) == |LastMinute(log, now)|
  {
    hide LastMinute;
    if log == [] {
      NoneInLastMinute(now);
    } else {
      var n := |log| - 1;
      CountIsSize(log[..n], now);
      LastMinuteAppend(log[..n], log[n], now);
      assert log == log[..n] + [log[n]];
    }
  }

  lemma NoneInLastMinute(now: real)
    ensures LastMinute([], now) == {}
  {
  }

  lemma LastMinuteAppend(log: seq<real>, hit: real, now: real)
    ensures |LastMinute(log + [hit], now)| == |LastMinute(log, now)| + if now - 60.0 <= hit <= now then 1 else 0
  {
    var longer := log + [hit];
    assert LastMinute(longer, now) == LastMinute(log, now) + if now - 60.0 <= hit <= now then {|log|} else {};
  }

  // ---- the limiter ----

  /** The queue of a key: empty for a key never seen. */
  function Queue(windows: map<string, seq<real>>, key: string): seq<real> {
    if key in windows then windows[key] else []
  }

  /** A queue is the end of the unpruned log; what is missing has left the window. */
  ghost predicate Stands(queue: seq<real>, log: seq<real>, now: real) {
    && |queue| <= |log|
    && queue == log[|log| - |queue|..]
    && forall i :: 0 <= i < |log| - |queue| ==> log[i] < now - WINDOW
  }

  /** A key's queue after these requests: never longer than the limit, and standing for the log. */
  ghost predicate StandsFor(limit: int, queue: seq<real>, requests: seq<Request>, key: string) {
    && |queue| <= Max(0, limit)
    && (if requests == [] then queue == []
        else Stands(queue, Accepted(limit, requests, key), requests[|requests| - 1].at))
  }

  ghost predicate Mirrors(limit: int, windows: map<string, seq<real>>, requests: seq<Request>) {
    forall key: string :: StandsFor(limit, Queue(windows, key), requests, key)
  }

  lemma StillStands(limit: int, queue: seq<real>, requests: seq<Request>, key: string, now: real)
    requires StandsFor(limit, queue, requests, key)
    requires requests != [] ==> requests[|requests| - 1].at <= now
    ensures Stands(queue, Accepted(limit, requests, key), now)
  {
  }

  /** Once its stale front is gone, a queue holds exactly the hits of the window. */
  lemma QueueIsWindow(queue: seq<real>, log: seq<real>, now: real)
    requires Stands(queue, log, now) && (queue == [] || queue[0] >= now - WINDOW)
    requires Sorted(log) && forall i :: 0 <= i < |log| ==> log[i] <= now
    ensures CountIn(log, now - WINDOW, now) == |queue|
    ensures forall i :: 0 <= i < |queue| ==> now - WINDOW <= queue[i] <= now
  {
    var k := |log| - |queue|;
    assert forall i :: k <= i < |log| ==> log[i] == queue[i - k];
    assert forall i :: k <= i < |log| ==> log[k] <= log[i];
    CountSuffix(log, k, now - WINDOW, now);
  }

  lemma PopStands(queue: seq<real>, log: seq<real>, now: real)
    requires Stands(queue, log, now) && queue != [] && queue[0] < now - WINDOW
    ensures Stands(queue[1..], log, now)
  {
    assert log[|log| - |queue|] == queue[0];
  }

  lemma PushStands(queue: seq<real>, log: seq<real>, now: real)
    requires Stands(queue, log, now)
    ensures Stands(queue + [now], log + [now], now)
  {
  }

  /** The answer from a pruned queue, and the queue it leaves. */
  lemma CheckedKey(limit: int, requests: seq<Request>, key: string, now: real, hits: seq<real>)
    requires Ordered(requests + [Request(key, now)])
    requires Stands(hits, Accepted(limit, requests, key), now)
    requires |hits| <= Max(0, limit) && (hits == [] || hits[0] >= now - WINDOW)
    ensures
      var allowed := |hits| < limit;
      && allowed == Admits(limit, Accepted(limit, requests, key), now)
      && (forall i :: 0 <= i < |hits| ==> now - WINDOW <= hits[i] <= now)
      && StandsFor(limit, if allowed then hits + [now] else hits, requests + [Request(key, now)], key)
  {
    hide Accepted, Ordered, Stands, Sorted, CountIn;
    var log := Accepted(limit, requests, key);
    OrderedWithoutLast(requests, Request(key, now));
    AcceptedUpTo(limit, requests, key, now);
    QueueIsWindow(hits, log, now);
    PushStands(hits, log, now);
    AcceptedAppend(limit, requests, Request(key, now), key);
  }

  lemma OtherKey(limit: int, requests: seq<Request>, other: string, next: Request, queue: seq<real>)
    requires Ordered(requests + [next]) && other != next.key
    requires StandsFor(limit, queue, requests, other)
    ensures StandsFor(limit, queue, requests + [next], other)
  {
    hide Accepted, Ordered;
    OrderedWithoutLast(requests, next);
    StillStands(limit, queue, requests, other, next.at);
    AcceptedAppend(limit, requests, next, other);
  }

  /** Before a check that comes no earlier than the last one, the key's queue stands for its log. */
  lemma NextCheck(limit: int, windows: map<string, seq<real>>, requests: seq<Request>, key: string, now: real)
    requires Ordered(requests) && Mirrors(limit, windows, requests)
    requires requests != [] ==> requests[|requests| - 1].at <= now
    ensures Ordered(requests + [Request(key, now)])
    ensures Stands(Queue(windows, key), Accepted(limit, requests, key), now)
  {
    hide Accepted, Stands, Queue;
    assert StandsFor(limit, Queue(windows, key), requests, key);
    StillStands(limit, Queue(windows, key), requests, key, now);
  }

  lemma CheckMirrors(limit: int, windows: map<string, seq<real>>, requests: seq<Request>,
                     key: string, now: real, hits: seq<real>)
    requires Ordered(requests + [Request(key, now)]) && Mirrors(limit, windows, requests)
    requires Stands(hits, Accepted(limit, requests, key), now)
    requires |hits| <= |Queue(windows, key)| && (hits == [] || hits[0] >= now - WINDOW)
    ensures
      var allowed := |hits| < limit;
      && allowed == Admits(limit, Accepted(limit, requests, key), now)
      && (forall i :: 0 <= i < |hits| ==> now - WINDOW <= hits[i] <= now)
      && Mirrors(limit, windows[key := if allowed then hits + [now] else hits], requests + [Request(key, now)])
  {
    hide Accepted, Ordered, Stands;
    assert StandsFor(limit, Queue(windows, key), requests, key);
    CheckedKey(limit, requests, key, now, hits);
    var after := windows[key := if |hits| < limit then hits + [now] else hits];
    forall other: string
      ensures StandsFor(limit, Queue(after, other), requests + [Request(key, now)], other)
    {
      if other != key {
        OtherKey(limit, requests, other, Request(key, now), Queue(windows, other));
      }
    }
  }

  /** Pops the hits that have left the window off the front of a queue. */
  method Prune(queue: seq<real>, now: real, ghost log: seq<real>) returns (hits: seq<real>)
    requires Stands(queue, log, now)
    ensures Stands(hits, log, now) && |hits| <= |queue|
    ensures hits == [] || hits[0] >= now - WINDOW
  {
    hits := queue;
    var cutoff := now - 60.0;
    while |hits| > 0 && hits[0] < cutoff
      invariant |hits| <= |queue|
      invariant Stands(hits, log, now)
    {
      PopStands(hits, log, now);
      hits := hits[1..];
    }
  }

  /** What one more request adds to the logs, and by what rule. */
  lemma CheckedDecision(limit: int, requests: seq<Request>, key: string, now: real)
    ensures
      var log := Accepted(limit, requests, key);
      && (Admits(limit, log, now) <==> |LastMinute(log, now)| < limit)
      && (forall k: string :: Accepted(limit, requests + [Request(key, now)], k)
            == Accepted(limit, requests, k) + if k == key && Admits(limit, log, now) then [now] else [])
  {
    hide Accepted, CountIn;
    CountIsSize(Accepted(limit, requests, key), now);
    forall k: string ensures Accepted(limit, requests + [Request(key, now)], k)
      == Accepted(limit, requests, k)
         + if k == key && Admits(limit, Accepted(limit, requests, key), now) then [now] else []
    {
      AcceptedAppend(limit, requests, Request(key, now), k);
    }
  }

  class Limiter {
    const limit: int
    var windows: map<string, seq<real>>
    ghost var requests: seq<Request>

    ghost predicate Valid()
      reads this
    {
      Ordered(requests) && Mirrors(limit, windows, requests)
    }

    constructor (limit: int)
      ensures Valid() && this.limit == limit && requests == [] && windows == map[]
    {
      this.limit := limit;
      this.windows := map[];
      this.requests := [];
    }

    /**
     Answers exactly as the unpruned log of the key would, and touches no other key. The clock must
     not run backwards.
     */
    method Check(key: string, now: real) returns (allowed: bool)
      requires Valid()
      requires requests != [] ==> requests[|requests| - 1].at <= now
      modifies this
      ensures Valid() && requests == old(requests) + [Request(key, now)]
      ensures allowed <==> Admits(limit, Accepted(limit, old(requests), key), now)
      ensures allowed <==> |LastMinute(Accepted(limit, old(requests), key), now)| < limit
      ensures forall k: string ::
        Accepted(limit, requests, k) == Accepted(limit, old(requests), k) + if k == key && allowed then [now] else []
      ensures windows.Keys == old(windows).Keys + {key}
      ensures forall i :: 0 <= i < |windows[key]| ==> now - WINDOW <= windows[key][i] <= now
      ensures forall other :: other in old(windows) && other != key ==> windows[other] == old(windows)[other]
    {
      hide Mirrors, Accepted, Stands, Admits, Ordered;
      NextCheck(limit, windows, requests, key, now);
      CheckedDecision(limit, requests, key, now);
      var hits := Prune(Queue(windows, key), now, Accepted(limit, requests, key));
      CheckMirrors(limit, windows, requests, key, now, hits);
      allowed := |hits| < limit;
      if allowed {
        hits := hits + [now];
      }
      windows := windows[key := hits];
      requests := requests + [Request(key, now)];
    }
  }

  // ---- what the rule guarantees over whole runs ----

  /** A later end of the interval loses nothing when the log has ended before it. */
  lemma {:induction false} CountMonotone(log: seq<real>, lo: real, hi: real, lo': real, hi': real)
    requires lo' <= lo
    requires forall i :: 0 <= i < |log| ==> log[i] <= hi'
    ensures CountIn(log, lo, hi) <= CountIn(log, lo', hi')
  {
    if log != [] {
      CountMonotone(log[..|log| - 1], lo, hi, lo', hi');
    }
  }

  lemma CountAppend(log: seq<real>, hit: real, lo: real, hi: real)
    ensures CountIn(log + [hit], lo, hi) == CountIn(log, lo, hi) + if lo <= hit <= hi then 1 else 0
  {
    assert (log + [hit])[..|log|] == log;
  }

  /** An admitted hit does not bring a window past the limit. */
  lemma NextKeepsBound(limit: int, log: seq<real>, now: real, start: real)
    requires CountIn(log, start, start + WINDOW) <= Max(0, limit)
    requires forall i :: 0 <= i < |log| ==> log[i] <= now
    ensures Admits(limit, log, now) ==> CountIn(log + [now], start, start + WINDOW) <= Max(0, limit)
  {
    hide CountIn;
    CountAppend(log, now, start, start + WINDOW);
    if start <= now <= start + WINDOW {
      CountMonotone(log, start, start + WINDOW, now - WINDOW, now);
    }
  }

  /** Every closed 60-second window anywhere in a run holds at most max(0, limit) accepted hits of a key. */
  lemma {:induction false} WindowBound(limit: int, requests: seq<Request>, key: string, start: real)
    requires Ordered(requests)
    ensures CountIn(Accepted(limit, requests, key), start, start + WINDOW) <= Max(0, limit)
  {
    if requests != [] {
      hide Accepted, Ordered, CountIn, Sorted, Admits;
      var n := |requests| - 1;
      var before, last := requests[..n], requests[n];
      assert requests == before + [last];
      OrderedWithoutLast(before, last);
      WindowBound(limit, before, key, start);
      AcceptedAppend(limit, before, last, key);
      AcceptedUpTo(limit, before, key, last.at);
      NextKeepsBound(limit, Accepted(limit, before, key), last.at, start);
    }
  }

  /** The requests of one key. */
  function Only(requests: seq<Request>, key: string): seq<Request> {
    if requests == [] then []
    else
      var last := requests[|requests| - 1];
      Only(requests[..|requests| - 1], key) + if last.key == key then [last] else []
  }

  /** What a key is granted depends on that key's requests alone. */
  lemma {:induction false} KeysAreIndependent(limit: int, requests: seq<Request>, key: string)
    ensures Accepted(limit, requests, key) == Accepted(limit, Only(requests, key), key)
  {
    if requests != [] {
      var before := requests[..|requests| - 1];
      KeysAreIndependent(limit, before, key);
      var earlier, only := Only(before, key), Only(requests, key);
      if requests[|requests| - 1].key == key {
        assert only == earlier + [requests[|requests| - 1]];
        assert only[..|only| - 1] == earlier;
      } else {
        assert only == earlier;
      }
    }
  }

  // ---- greedy admission is optimal ----

  /** The times of a key that some other policy would accept: `picks` says which requests. */
  function Picked(requests: seq<Request>, picks: seq<bool>, key: string): seq<real>
    requires |requests| == |picks|
  {
    if requests == [] then []
    else
      var n := |requests| - 1;
      Picked(requests[..n], picks[..n], key) + if requests[n].key == key && picks[n] then [requests[n].at] else []
  }

  lemma PickedAppend(requests: seq<Request>, picks: seq<bool>, next: Request, pick: bool, key: string)
    requires |requests| == |picks|
    ensures Picked(requests + [next], picks + [pick], key)
      == if next.key == key && pick then Picked(requests, picks, key) + [next.at] else Picked(requests, picks, key)
  {
    assert (requests + [next])[..|requests|] == requests;
    assert (picks + [pick])[..|picks|] == picks;
  }

  /** The policy keeps the bound in every closed window. */
  ghost predicate Legal(limit: int, times: seq<real>) {
    forall start: real :: KeepsBound(limit, times, start)
  }

  ghost predicate KeepsBound(limit: int, times: seq<real>, start: real) {
    CountIn(times, start, start + WINDOW) <= Max(0, limit)
  }

  /** The i-th entry of the one list is never later than that of the other. */
  ghost predicate Ahead(log: seq<real>, rival: seq<real>) {
    && |log| >= |rival|
    && forall i :: 0 <= i < |rival| ==> log[i] <= rival[i]
  }

  lemma {:induction false} LaterCountsMore(log: seq<real>, rival: seq<real>, lo: real, hi: real)
    requires |log| == |rival| && Ahead(log, rival)
    requires forall i :: 0 <= i < |rival| ==> rival[i] <= hi
    ensures CountIn(log, lo, hi) <= CountIn(rival, lo, hi)
  {
    if log != [] {
      var n := |log| - 1;
      LaterCountsMore(log[..n], rival[..n], lo, hi);
    }
  }

  lemma PickedUpTo(requests: seq<Request>, picks: seq<bool>, key: string, now: real)
    requires |requests| == |picks|
    requires forall i :: 0 <= i < |requests| ==> requests[i].at <= now
    ensures forall i :: 0 <= i < |Picked(requests, picks, key)| ==> Picked(requests, picks, key)[i] <= now
  {
  }

  lemma LegalWithoutLast(limit: int, times: seq<real>, last: real)
    requires Legal(limit, times + [last])
    ensures Legal(limit, times)
    ensures CountIn(times, last - WINDOW, last) < Max(0, limit)
  {
    var all := times + [last];
    assert all[..|times|] == times;
    forall start: real ensures KeepsBound(limit, times, start) {
      assert KeepsBound(limit, all, start);
    }
    assert KeepsBound(limit, all, last - WINDOW);
  }

  /** One request: if the rival takes it and the limiter does not, the limiter is already one ahead. */
  lemma GreedyStep(limit: int, log: seq<real>, rival: seq<real>, now: real)
    requires Ahead(log, rival) && Legal(limit, rival + [now])
    requires forall i :: 0 <= i < |log| ==> log[i] <= now
    requires forall i :: 0 <= i < |rival| ==> rival[i] <= now
    ensures Ahead(if Admits(limit, log, now) then log + [now] else log, rival + [now])
  {
    LegalWithoutLast(limit, rival, now);
    if |log| == |rival| {
      LaterCountsMore(log, rival, now - WINDOW, now);
    }
  }

  lemma LongerStaysAhead(log: seq<real>, rival: seq<real>, more: real)
    requires Ahead(log, rival)
    ensures Ahead(log + [more], rival)
  {
  }

  lemma {:induction false} PrefixIsLegal(limit: int, requests: seq<Request>, picks: seq<bool>, key: string, n: nat)
    requires n <= |requests| == |picks|
    requires Legal(limit, Picked(requests, picks, key))
    ensures Legal(limit, Picked(requests[..n], picks[..n], key))
  {
    if n == |requests| {
      assert requests[..n] == requests && picks[..n] == picks;
    } else {
      var m := |requests| - 1;
      var shorter := Picked(requests[..m], picks[..m], key);
      if requests[m].key == key && picks[m] {
        LegalWithoutLast(limit, shorter, requests[m].at);
      } else {
        assert Picked(requests, picks, key) == shorter;
      }
      PrefixIsLegal(limit, requests[..m], picks[..m], key, n);
      assert requests[..m][..n] == requests[..n];
      assert picks[..m][..n] == picks[..n];
    }
  }

  /** One more request keeps the limiter ahead. */
  lemma StaysAhead(limit: int, before: seq<Request>, last: Request, earlier: seq<bool>, pick: bool, key: string)
    requires Ordered(before + [last]) && |before| == |earlier|
    requires Legal(limit, Picked(before + [last], earlier + [pick], key))
    requires Ahead(Accepted(limit, before, key), Picked(before, earlier, key))
    ensures Ahead(Accepted(limit, before + [last], key), Picked(before + [last], earlier + [pick], key))
  {
    hide Legal, Admits, Ordered, Ahead, Accepted, Picked;
    AcceptedAppend(limit, before, last, key);
    PickedAppend(before, earlier, last, pick, key);
    OrderedWithoutLast(before, last);
    var log, rival := Accepted(limit, before, key), Picked(before, earlier, key);
    if last.key == key && pick {
      AcceptedUpTo(limit, before, key, last.at);
      PickedUpTo(before, earlier, key, last.at);
      GreedyStep(limit, log, rival, last.at);
    } else {
      LongerStaysAhead(log, rival, last.at);
    }
  }

  /** The exchange argument: the i-th acceptance of the limiter is never later than the rival's. */
  lemma {:induction false} GreedyStaysAhead(limit: int, requests: seq<Request>, picks: seq<bool>, key: string)
    requires Ordered(requests) && |requests| == |picks|
    requires Legal(limit, Picked(requests, picks, key))
    ensures Ahead(Accepted(limit, requests, key), Picked(requests, picks, key))
  {
    if requests != [] {
      hide Legal, Ahead, Accepted, Picked;
      var n := |requests| - 1;
      assert requests == requests[..n] + [requests[n]] && picks == picks[..n] + [picks[n]];
      PrefixIsLegal(limit, requests, picks, key, n);
      GreedyStaysAhead(limit, requests[..n], picks[..n], key);
      StaysAhead(limit, requests[..n], requests[n], picks[..n], picks[n], key);
    }
  }

  /**
   Greedy admission is optimal: after every prefix of an ordered request sequence the limiter has
   accepted at least as many requests of a key as any policy that keeps the bound.
   */
  lemma GreedyIsOptimal(limit: int, requests: seq<Request>, picks: seq<bool>, key: string, n: nat)
    requires Ordered(requests) && n <= |requests| == |picks|
    requires Legal(limit, Picked(requests, picks, key))
    ensures |Accepted(limit, requests[..n], key)| >= |Picked(requests[..n], picks[..n], key)|
  {
    PrefixIsLegal(limit, requests, picks, key, n);
    GreedyStaysAhead(limit, requests[..n], picks[..n], key);
  }
}
