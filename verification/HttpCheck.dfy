/** The HTTP check: a redirect loop that resolves and validates every hop before it sends. */
module HttpCheck {
  import opened Wrappers

  datatype Failure =
    | InvalidUrl
    | LocationUnusable
    | DnsFailed
    | TargetNotAllowed
    | TimedOut
    | ConnectionRefused
    | TlsOrTransport
    | TooManyRedirects

  datatype Result<+T> = Ok(value: T) | Err(failure: Failure)

  /** How the transport may break, and how the check reports it. */
  datatype Breakage = ConnectTimeout | ReadTimeout | ConnectError | TransportError {
    function Report(): Failure {
      match this
      case ConnectTimeout => TimedOut
      case ReadTimeout => TimedOut
      case ConnectError => ConnectionRefused
      case TransportError => TlsOrTransport
    }
  }

  /** A response: whether its status is a redirect, its Location header, and the sizes of its body chunks. */
  datatype Response = Response(isRedirect: bool, location: Option<string>, chunks: seq<nat>)

  datatype Exchange = Answered(response: Response) | Broken(breakage: Breakage)

  /**
   Everything outside the loop, as arbitrary functions: the URL library, the address policy, and a
   network that may answer differently at every hop.
   */
  datatype World = World(
    validUrl: string -> bool,
    host: string -> string,
    join: (string, string) -> Option<string>,
    lookup: (nat, string) -> Option<seq<string>>,
    blocked: string -> bool,
    send: (nat, string) -> Exchange
  )

  datatype Limits = Limits(maxRedirects: int, maxResponseBytes: int, allowPrivate: bool)

  predicate AllAllowed(world: World, limits: Limits, ips: seq<string>) {
    limits.allowPrivate || forall i :: 0 <= i < |ips| ==> !world.blocked(ips[i])
  }

  // ---- reading the body ----

  /** The total size of the first n chunks. */
  function Total(chunks: seq<nat>, n: nat): nat
    requires n <= |chunks|
  {
    if n == 0 then 0 else Total(chunks, n - 1) + chunks[n - 1]
  }

  lemma {:induction false} TotalGrows(chunks: seq<nat>, m: nat, n: nat)
    requires m <= n <= |chunks|
    ensures Total(chunks, m) <= Total(chunks, n)
  {
    if m < n {
      TotalGrows(chunks, m, n - 1);
    }
  }

  /** After n chunks, at least one of them read, the limit has been reached and not before. */
  ghost predicate StopsAfter(chunks: seq<nat>, max: int, n: nat) {
    && 0 < n <= |chunks|
    && Total(chunks, n) >= max
    && forall m :: 0 < m < n ==> Total(chunks, m) < max
  }

  /** The bytes counted: the least prefix sum that reaches the limit, or all of them if none does. */
  ghost predicate BodyCount(chunks: seq<nat>, max: int, received: nat) {
    || (exists n: nat :: StopsAfter(chunks, max, n) && received == Total(chunks, n))
    || ((forall m :: 0 < m <= |chunks| ==> Total(chunks, m) < max) && received == Total(chunks, |chunks|))
  }

  method ReadBody(chunks: seq<nat>, max: int) returns (received: nat)
    ensures BodyCount(chunks, max, received)
  {
    received := 0;
    for i := 0 to |chunks|
      invariant received == Total(chunks, i)
      invariant forall m :: 0 < m <= i ==> Total(chunks, m) < max
    {
      received := received + chunks[i];
      if received >= max {
        assert StopsAfter(chunks, max, i + 1);
        return;
      }
    }
  }

  /** The count is fixed by that, and what goes past a positive limit is less than the last chunk read. */
  lemma BodyCountFixed(chunks: seq<nat>, max: int, a: nat, b: nat)
    requires BodyCount(chunks, max, a) && BodyCount(chunks, max, b)
    ensures a == b
    ensures a >= max > 0 ==>
      exists n :: 0 < n <= |chunks| && a == Total(chunks, n) && a - max < chunks[n - 1]
  {
    if n: nat :| StopsAfter(chunks, max, n) && a == Total(chunks, n) {
      assert max > 0 ==> Total(chunks, n - 1) < max;
      if m: nat :| StopsAfter(chunks, max, m) && b == Total(chunks, m) {
        StopIsUnique(chunks, max, n, m);
      }
    }
  }

  lemma StopIsUnique(chunks: seq<nat>, max: int, a: nat, b: nat)
    requires StopsAfter(chunks, max, a) && StopsAfter(chunks, max, b)
    ensures a == b
  {
  }

  // ---- what the check does to the outside ----

  datatype Action =
    | Validated(url: string)
    | Resolved(host: string, ips: seq<string>)
    | Sent(url: string)

  datatype Check = Check(finalUrl: string, resolvedIp: string, redirectCount: nat, received: nat)

  /** The URLs sent to, in order. */
  function SentUrls(trace: seq<Action>): seq<string> {
    if trace == [] then []
    else
      var last := trace[|trace| - 1];
      SentUrls(trace[..|trace| - 1]) + if last.Sent? then [last.url] else []
  }

  /**
   Every send comes right after a resolution of that URL's host whose addresses are all allowed, and
   that right after a validation of exactly that URL.
   */
  ghost predicate Guarded(world: World, limits: Limits, trace: seq<Action>) {
    forall k {:trigger GuardedAt(world, limits, trace, k)} ::
      0 <= k < |trace| && trace[k].Sent? ==> GuardedAt(world, limits, trace, k)
  }

  ghost predicate GuardedAt(world: World, limits: Limits, trace: seq<Action>, k: int)
    requires 0 <= k < |trace| && trace[k].Sent?
  {
    && k >= 2
    && trace[k - 2] == Validated(trace[k].url)
    && world.validUrl(trace[k].url)
    && trace[k - 1].Resolved?
    && trace[k - 1].host == world.host(trace[k].url)
    && trace[k - 1].ips != []
    && AllAllowed(world, limits, trace[k - 1].ips)
  }

  // ---- the reference: the walk from hop to hop ----

  /** The hop may be sent: its host resolves and every address is allowed. */
  function Clearance(world: World, limits: Limits, n: nat, url: string): Result<seq<string>> {
    match world.lookup(n, world.host(url))
    case None => Err(DnsFailed)
    case Some(ips) =>
      if ips == [] then Err(DnsFailed)
      else if !AllAllowed(world, limits, ips) then Err(TargetNotAllowed)
      else Ok(ips)
  }

  /** How a hop ends: the walk goes on to a URL, stops with a response, or fails. */
  datatype Hop = Onward(url: string) | Stop(resolvedIp: string, response: Response) | Fail(failure: Failure)

  function HopAt(world: World, limits: Limits, follow: bool, n: nat, url: string): Hop {
    match Clearance(world, limits, n, url)
    case Err(failure) => Fail(failure)
    case Ok(ips) =>
      match world.send(n, url)
      case Broken(breakage) => Fail(breakage.Report())
      case Answered(response) =>
        if follow && response.isRedirect && response.location.Some? && n < limits.maxRedirects then
          match world.join(url, response.location.value)
          case None => Fail(LocationUnusable)
          case Some(next) => if world.validUrl(next) then Onward(next) else Fail(InvalidUrl)
        else Stop(ips[0], response)
  }

  // ---- what a hop does, said of the world alone ----

  /** The host resolves, and no address is blocked unless all are let through. */
  ghost predicate Cleared(world: World, limits: Limits, n: nat, url: string) {
    var answer := world.lookup(n, world.host(url));
    && answer.Some? && |answer.value| > 0
    && (limits.allowPrivate || forall i :: 0 <= i < |answer.value| ==> !world.blocked(answer.value[i]))
  }

  /** The hop is sent and answered with a redirect that is to be followed, to the joined URL if there is one. */
  ghost predicate Redirected(world: World, limits: Limits, follow: bool, n: nat, url: string, next: Option<string>) {
    && Cleared(world, limits, n, url)
    && world.send(n, url).Answered?
    && var response := world.send(n, url).response;
       && follow && response.isRedirect && n < limits.maxRedirects
       && response.location.Some? && world.join(url, response.location.value) == next
  }

  ghost predicate HopReads(world: World, limits: Limits, follow: bool, n: nat, url: string, hop: Hop) {
    var answer, exchange := world.lookup(n, world.host(url)), world.send(n, url);
    match hop
    case Onward(next) => Redirected(world, limits, follow, n, url, Some(next)) && world.validUrl(next)
    case Stop(resolvedIp, response) =>
      && Cleared(world, limits, n, url) && resolvedIp == answer.value[0] && exchange == Answered(response)
      && (!follow || !response.isRedirect || response.location == None || n >= limits.maxRedirects)
    case Fail(DnsFailed) => answer == None || answer == Some([])
    case Fail(TargetNotAllowed) => answer.Some? && |answer.value| > 0 && !Cleared(world, limits, n, url)
    case Fail(TimedOut) =>
      Cleared(world, limits, n, url) && (exchange == Broken(ConnectTimeout) || exchange == Broken(ReadTimeout))
    case Fail(ConnectionRefused) => Cleared(world, limits, n, url) && exchange == Broken(ConnectError)
    case Fail(TlsOrTransport) => Cleared(world, limits, n, url) && exchange == Broken(TransportError)
    case Fail(LocationUnusable) => Redirected(world, limits, follow, n, url, None)
    case Fail(InvalidUrl) =>
      exists next :: Redirected(world, limits, follow, n, url, Some(next)) && !world.validUrl(next)
    case Fail(TooManyRedirects) => false
  }

  lemma ClearanceReads(world: World, limits: Limits, n: nat, url: string)
    ensures Clearance(world, limits, n, url).Ok? <==> Cleared(world, limits, n, url)
  {
  }

  /** Exactly one outcome fits what the network does at a hop, and it is the hop's. */
  lemma HopIsRead(world: World, limits: Limits, follow: bool, n: nat, url: string, hop: Hop)
    ensures HopReads(world, limits, follow, n, url, hop) <==> hop == HopAt(world, limits, follow, n, url)
  {
    hide Cleared, AllAllowed;
    ClearanceReads(world, limits, n, url);
  }

  /** A walk has a next hop exactly if the one before it is redirected there. */
  lemma NextHop(world: World, limits: Limits, follow: bool, start: string, n: nat, next: string)
    ensures UrlOfHop(world, limits, follow, start, n + 1) == Some(next) <==>
      var url := UrlOfHop(world, limits, follow, start, n);
      url.Some? && HopReads(world, limits, follow, n, url.value, Onward(next))
  {
    hide HopReads, HopAt;
    var url := UrlOfHop(world, limits, follow, start, n);
    if url.Some? {
      HopIsRead(world, limits, follow, n, url.value, Onward(next));
    }
  }

  /** With following turned off a walk ends where it starts. */
  lemma NotFollowed(world: World, limits: Limits, start: string, n: nat)
    requires EndsAt(world, limits, false, start, n)
    ensures n == 0
  {
    var url := UrlOfHop(world, limits, false, start, 0);
    if url.Some? {
      var hop := HopAt(world, limits, false, 0, url.value);
      HopIsRead(world, limits, false, 0, url.value, hop);
      assert EndsAt(world, limits, false, start, 0);
      WalkEndsOnce(world, limits, false, start, 0, n);
    } else {
      NothingWithoutStart(world, limits, false, start, n);
    }
  }

  lemma {:induction false} NothingWithoutStart(world: World, limits: Limits, follow: bool, start: string, n: nat)
    requires UrlOfHop(world, limits, follow, start, 0) == None
    ensures UrlOfHop(world, limits, follow, start, n) == None
  {
    if n > 0 {
      NothingWithoutStart(world, limits, follow, start, n - 1);
    }
  }

  // ---- the walk ----

  /** The URL of hop n, if the walk gets there. */
  function UrlOfHop(world: World, limits: Limits, follow: bool, start: string, n: nat): Option<string> {
    if n == 0 then if world.validUrl(start) then Some(start) else None
    else
      match UrlOfHop(world, limits, follow, start, n - 1)
      case None => None
      case Some(url) =>
        match HopAt(world, limits, follow, n - 1, url)
        case Onward(next) => Some(next)
        case _ => None
  }

  /** The walk ends at hop n. */
  ghost predicate EndsAt(world: World, limits: Limits, follow: bool, start: string, n: nat) {
    var url := UrlOfHop(world, limits, follow, start, n);
    url.Some? && !HopAt(world, limits, follow, n, url.value).Onward?
  }

  lemma {:induction false} NoHopBeyond(world: World, limits: Limits, follow: bool, start: string, n: nat, m: nat)
    requires EndsAt(world, limits, follow, start, n) && m > n
    ensures UrlOfHop(world, limits, follow, start, m) == None
  {
    if m > n + 1 {
      NoHopBeyond(world, limits, follow, start, n, m - 1);
    }
  }

  /** A walk ends at one hop only, and within the redirect limit. */
  lemma WalkEndsOnce(world: World, limits: Limits, follow: bool, start: string, n: nat, m: nat)
    requires EndsAt(world, limits, follow, start, n) && EndsAt(world, limits, follow, start, m)
    ensures n == m <= Max(0, limits.maxRedirects)
  {
    if n < m {
      NoHopBeyond(world, limits, follow, start, n, m);
    } else if m < n {
      NoHopBeyond(world, limits, follow, start, m, n);
    }
  }

  // ---- the trace, one hop at a time ----

  lemma GuardedAppend(world: World, limits: Limits, trace: seq<Action>, next: Action)
    requires Guarded(world, limits, trace)
    requires next.Sent? ==> GuardedAt(world, limits, trace + [next], |trace|)
    ensures Guarded(world, limits, trace + [next])
  {
    hide AllAllowed;
    var longer := trace + [next];
    forall k | 0 <= k < |longer| && longer[k].Sent?
      ensures GuardedAt(world, limits, longer, k)
    {
      if k < |trace| {
        assert GuardedAt(world, limits, trace, k);
        assert longer[k] == trace[k] && longer[k - 1] == trace[k - 1] && longer[k - 2] == trace[k - 2];
      }
    }
  }

  lemma SentAppend(trace: seq<Action>, next: Action)
    ensures SentUrls(trace + [next]) == SentUrls(trace) + if next.Sent? then [next.url] else []
  {
    assert (trace + [next])[..|trace|] == trace;
  }

  lemma SendGuarded(world: World, limits: Limits, trace: seq<Action>, url: string, ips: seq<string>)
    requires Guarded(world, limits, trace)
    requires trace != [] && trace[|trace| - 1] == Validated(url) && world.validUrl(url)
    requires ips != [] && AllAllowed(world, limits, ips)
    ensures
      var longer := trace + [Resolved(world.host(url), ips)] + [Sent(url)];
      Guarded(world, limits, longer) && SentUrls(longer) == SentUrls(trace) + [url]
  {
    hide SentUrls, Guarded, AllAllowed;
    var middle := trace + [Resolved(world.host(url), ips)];
    GuardedAppend(world, limits, trace, Resolved(world.host(url), ips));
    GuardedAppend(world, limits, middle, Sent(url));
    SentAppend(trace, Resolved(world.host(url), ips));
    SentAppend(middle, Sent(url));
  }

  lemma ValidationGuarded(world: World, limits: Limits, trace: seq<Action>, url: string)
    requires Guarded(world, limits, trace)
    ensures Guarded(world, limits, trace + [Validated(url)])
    ensures SentUrls(trace + [Validated(url)]) == SentUrls(trace)
  {
    GuardedAppend(world, limits, trace, Validated(url));
    SentAppend(trace, Validated(url));
  }

  // ---- the check ----

  /** Resolves a host and rejects it if any of its addresses is blocked. */
  method ResolveAndValidate(world: World, limits: Limits, n: nat, url: string) returns (r: Result<seq<string>>)
    ensures r == Clearance(world, limits, n, url)
  {
    var answer := world.lookup(n, world.host(url));
    if answer.None? || answer.value == [] {
      return Err(DnsFailed);
    }
    var ips := answer.value;
    if !limits.allowPrivate {
      for i := 0 to |ips|
        invariant forall k :: 0 <= k < i ==> !world.blocked(ips[k])
      {
        if world.blocked(ips[i]) {
          return Err(TargetNotAllowed);
        }
      }
    }
    return Ok(ips);
  }

  /** One turn of the loop: resolve, validate, send, and read the answer as the next URL or an end. */
  method TakeHop(world: World, limits: Limits, follow: bool, n: nat, url: string, trace: seq<Action>)
    returns (hop: Hop, longer: seq<Action>)
    requires Guarded(world, limits, trace)
    requires trace != [] && trace[|trace| - 1] == Validated(url) && world.validUrl(url)
    ensures hop == HopAt(world, limits, follow, n, url)
    ensures HopReads(world, limits, follow, n, url, hop)
    ensures Guarded(world, limits, longer)
    ensures SentUrls(longer) == SentUrls(trace) + if Clearance(world, limits, n, url).Ok? then [url] else []
    ensures hop.Onward? ==> longer[|longer| - 1] == Validated(hop.url)
  {
    hide Guarded, SentUrls, AllAllowed, HopReads;
    HopIsRead(world, limits, follow, n, url, HopAt(world, limits, follow, n, url));
    longer := trace;
    var cleared := ResolveAndValidate(world, limits, n, url);
    if cleared.Err? {
      return Fail(cleared.failure), longer;
    }
    var resolvedIp := cleared.value[0];
    ClearedIsAllowed(world, limits, n, url);
    SendGuarded(world, limits, trace, url, cleared.value);
    longer := trace + [Resolved(world.host(url), cleared.value)] + [Sent(url)];
    var exchange := world.send(n, url);
    if exchange.Broken? {
      return Fail(exchange.breakage.Report()), longer;
    }
    var response := exchange.response;
    var isRedirect := follow && response.isRedirect && response.location.Some? && n < limits.maxRedirects;
    if !isRedirect {
      return Stop(resolvedIp, response), longer;
    }
    var next := world.join(url, response.location.value);
    if next.None? {
      return Fail(LocationUnusable), longer;  // the URL library raises an error of its own
    }
    if !world.validUrl(next.value) {
      return Fail(InvalidUrl), longer;
    }
    ValidationGuarded(world, limits, longer, next.value);
    return Onward(next.value), longer + [Validated(next.value)];
  }

  lemma ClearedIsAllowed(world: World, limits: Limits, n: nat, url: string)
    requires Clearance(world, limits, n, url).Ok?
    ensures Clearance(world, limits, n, url).value != []
    ensures AllAllowed(world, limits, Clearance(world, limits, n, url).value)
  {
  }

  /** The requests sent are those of hops 0, 1, 2 and so on. */
  ghost predicate SendsHops(world: World, limits: Limits, follow: bool, start: string, urls: seq<string>) {
    forall k: nat :: k < |urls| ==> UrlOfHop(world, limits, follow, start, k) == Some(urls[k])
  }

  /** Hop n, at this URL, is validated and about to be taken; the hops before it have been sent. */
  ghost predicate Underway(world: World, limits: Limits, follow: bool, start: string, n: nat, url: string,
                           trace: seq<Action>)
  {
    && UrlOfHop(world, limits, follow, start, n) == Some(url)
    && world.validUrl(url)
    && Guarded(world, limits, trace) && trace != [] && trace[|trace| - 1] == Validated(url)
    && |SentUrls(trace)| == n <= Max(0, limits.maxRedirects)
    && SendsHops(world, limits, follow, start, SentUrls(trace))
  }

  /** The walk ends at hop n, and the trace holds every hop that was sent, n's own if it was cleared. */
  ghost predicate Ended(world: World, limits: Limits, follow: bool, start: string, n: nat, url: string,
                        trace: seq<Action>)
  {
    && UrlOfHop(world, limits, follow, start, n) == Some(url)
    && EndsAt(world, limits, follow, start, n)
    && Guarded(world, limits, trace)
    && |SentUrls(trace)| == n + (if Clearance(world, limits, n, url).Ok? then 1 else 0)
    && |SentUrls(trace)| <= Max(0, limits.maxRedirects) + 1
    && SendsHops(world, limits, follow, start, SentUrls(trace))
  }

  lemma NothingSent(world: World, limits: Limits)
    ensures Guarded(world, limits, []) && SentUrls([]) == []
  {
  }

  lemma WalkStarts(world: World, limits: Limits, follow: bool, start: string)
    requires world.validUrl(start)
    ensures Underway(world, limits, follow, start, 0, start, [Validated(start)])
  {
    NothingSent(world, limits);
    hide Guarded, SentUrls, AllAllowed;
    ValidationGuarded(world, limits, [], start);
    assert [] + [Validated(start)] == [Validated(start)];
  }

  /**
   The check stopped at hop n: it reports what the network did there, every hop before it and, if it was
   cleared, hop n itself were sent, and with following turned off there was no hop but the first.
   */
  ghost predicate Concluded(world: World, limits: Limits, follow: bool, start: string, n: nat, url: string,
                            trace: seq<Action>, r: Result<Check>)
  {
    && Ended(world, limits, follow, start, n, url, trace)
    && (exists hop :: HopReads(world, limits, follow, n, url, hop) && Reports(limits, hop, n, url, r))
    && |SentUrls(trace)| == n + (if Cleared(world, limits, n, url) then 1 else 0)
    && (!follow ==> n == 0 && |SentUrls(trace)| <= 1)
  }

  lemma Conclude(world: World, limits: Limits, follow: bool, start: string, n: nat, url: string,
                 trace: seq<Action>, hop: Hop, r: Result<Check>)
    requires Ended(world, limits, follow, start, n, url, trace)
    requires hop == HopAt(world, limits, follow, n, url) && Reports(limits, hop, n, url, r)
    ensures Concluded(world, limits, follow, start, n, url, trace, r)
  {
    hide SentUrls, Guarded, Cleared, EndsAt, HopReads, Reports;
    HopIsRead(world, limits, follow, n, url, hop);
    ClearanceReads(world, limits, n, url);
    if !follow {
      NotFollowed(world, limits, start, n);
    }
  }

  lemma HopIsReady(world: World, limits: Limits, follow: bool, start: string, n: nat, url: string, trace: seq<Action>)
    requires Underway(world, limits, follow, start, n, url, trace)
    ensures Guarded(world, limits, trace) && world.validUrl(url)
    ensures trace != [] && trace[|trace| - 1] == Validated(url)
  {
  }

  /** Taking a hop leads to the next one, within the redirect limit, or ends the walk. */
  lemma HopTaken(world: World, limits: Limits, follow: bool, start: string, n: nat, url: string,
                 trace: seq<Action>, longer: seq<Action>)
    requires Underway(world, limits, follow, start, n, url, trace)
    requires Guarded(world, limits, longer)
    requires SentUrls(longer) == SentUrls(trace) + if Clearance(world, limits, n, url).Ok? then [url] else []
    ensures
      match HopAt(world, limits, follow, n, url)
      case Fail(failure) => failure != TooManyRedirects && Ended(world, limits, follow, start, n, url, longer)
      case Stop(_, _) => Ended(world, limits, follow, start, n, url, longer)
      case Onward(next) =>
        n < limits.maxRedirects
        && (longer != [] && longer[|longer| - 1] == Validated(next) ==>
              Underway(world, limits, follow, start, n + 1, next, longer))
  {
    hide Guarded, SentUrls, SendsHops, UrlOfHop, HopAt, HopReads, Clearance, Cleared;
    var hop := HopAt(world, limits, follow, n, url);
    HopFacts(world, limits, follow, n, url);
    if Clearance(world, limits, n, url).Ok? {
      OneMoreSent(world, limits, follow, start, SentUrls(trace), url);
    } else {
      assert SentUrls(longer) == SentUrls(trace);
    }
    if hop.Onward? {
      NextHop(world, limits, follow, start, n, hop.url);
      HopIsRead(world, limits, follow, n, url, hop);
    }
  }

  lemma HopFacts(world: World, limits: Limits, follow: bool, n: nat, url: string)
    ensures
      var hop := HopAt(world, limits, follow, n, url);
      && hop != Fail(TooManyRedirects)
      && (hop.Onward? ==>
            n < limits.maxRedirects && world.validUrl(hop.url) && Clearance(world, limits, n, url).Ok?)
  {
    hide AllAllowed;
  }

  lemma OneMoreSent(world: World, limits: Limits, follow: bool, start: string, urls: seq<string>, url: string)
    requires SendsHops(world, limits, follow, start, urls)
    requires UrlOfHop(world, limits, follow, start, |urls|) == Some(url)
    ensures SendsHops(world, limits, follow, start, urls + [url])
  {
    hide UrlOfHop;
  }

  /** What the check reports about the hop it ends at. */
  ghost predicate Reports(limits: Limits, hop: Hop, n: nat, url: string, r: Result<Check>) {
    match hop
    case Fail(failure) => r == Err(failure) && failure != TooManyRedirects
    case Stop(resolvedIp, response) =>
      && r.Ok?
      && r.value == Check(url, resolvedIp, n, r.value.received)
      && BodyCount(response.chunks, limits.maxResponseBytes, r.value.received)
    case Onward(_) => false
  }

  /**
   For every world the loop ends, at the hop the walk ends at, and reports that hop's URL, address and
   byte count or its failure, with the number of hops followed; every send on the way is guarded, they
   are those of the hops in order, at most max(0, max_redirects) + 1 of them, and the redirect limit is
   never reported as exceeded.
   */
  method PerformHttpCheck(world: World, limits: Limits, url: string, follow: bool)
    returns (r: Result<Check>, trace: seq<Action>, ghost last: nat, ghost at: string)
    ensures !world.validUrl(url) ==> r == Err(InvalidUrl) && trace == []
    ensures world.validUrl(url) ==> Concluded(world, limits, follow, url, last, at, trace, r)
  {
    trace, last, at := [], 0, url;
    if !world.validUrl(url) {
      return Err(InvalidUrl), trace, last, at;
    }
    r, trace, last, at := WalkHops(world, limits, url, follow);
  }

  /** The loop, from a validated URL on. */
  method WalkHops(world: World, limits: Limits, url: string, follow: bool)
    returns (r: Result<Check>, trace: seq<Action>, ghost last: nat, ghost at: string)
    requires world.validUrl(url)
    ensures Concluded(world, limits, follow, url, last, at, trace, r)
  {
    last, at := 0, url;
    trace := [Validated(url)];
    WalkStarts(world, limits, follow, url);
    var current := url;
    var redirectCount: nat := 0;
    hide Underway, Guarded, GuardedAt, SentUrls, SendsHops, UrlOfHop, Ended, EndsAt;
    hide BodyCount, HopAt, HopReads, Clearance, Concluded, AllAllowed;
    while true
      invariant Underway(world, limits, follow, url, redirectCount, current, trace)
      decreases Max(0, limits.maxRedirects) - redirectCount
    {
      ghost var before := trace;
      HopIsReady(world, limits, follow, url, redirectCount, current, trace);
      var hop;
      hop, trace := TakeHop(world, limits, follow, redirectCount, current, trace);
      HopTaken(world, limits, follow, url, redirectCount, current, before, trace);
      last, at := redirectCount, current;
      match hop
      case Fail(failure) =>
        Conclude(world, limits, follow, url, last, at, trace, hop, Err(failure));
        return Err(failure), trace, last, at;
      case Stop(resolvedIp, response) =>
        var received := ReadBody(response.chunks, limits.maxResponseBytes);
        r := Ok(Check(current, resolvedIp, redirectCount, received));
        Conclude(world, limits, follow, url, last, at, trace, hop, r);
        return;
      case Onward(next) =>
        current := next;
        redirectCount := redirectCount + 1;
        if redirectCount > limits.maxRedirects {
          assert false;  // TooManyRedirects would be raised here, and is unreachable
        }
    }
  }
}
