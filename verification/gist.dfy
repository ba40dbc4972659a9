/** The request limiter and the three Gist API calls (src/services/gistService.js).
    The limiter's module-level counter and window end are an explicit
    `Limiter` value threaded through every call; `Date.now()` is the
    parameter `now`; the HTTP exchange is the reply the server gives,
    supplied as a parameter. */
module Gist {
  import opened Common
  import Encryption

  /** Requests allowed per window: 60, less a buffer of 5. */
  const MaxRequests := 55

  /** The window length in milliseconds: one hour. */
  const WindowMs := 3600000

  const MinuteMs := 60000

  /** The name of the one file a sync gist holds. */
  const GistFilename := "momentum-sync.json"

  datatype Limiter = Limiter(count: int, resetTime: int)

  /** The counter never exceeds the cap. */
  predicate LimiterInv(l: Limiter) {
    0 <= l.count <= MaxRequests
  }

  /** The limiter as the module is loaded at time `now`. */
  function InitialLimiter(now: int): (l: Limiter)
    ensures LimiterInv(l) && l.count == 0
  {
    Limiter(0, now + WindowMs)
  }

  /** `Math.ceil(ms / 60000)` for an integral number of milliseconds. */
  function CeilMinutes(ms: int): (m: int)
    ensures (m - 1) * MinuteMs < ms <= m * MinuteMs
  {
    if ms % MinuteMs == 0 then ms / MinuteMs else ms / MinuteMs + 1
  }

  datatype LimitOutcome = Allowed | Limited(minutesLeft: int)

  /** The limiter after the window check that opens checkRateLimit. */
  function Refresh(l: Limiter, now: int): (w: Limiter)
    ensures now > l.resetTime ==> w == Limiter(0, now + WindowMs)
    ensures now <= l.resetTime ==> w == l
  {
    if now > l.resetTime then Limiter(0, now + WindowMs) else l
  }

  /** checkRateLimit: start a new window when the old one has ended, then
      refuse when the cap is reached (the throw), else count the request. */
  function CheckRateLimit(l: Limiter, now: int): (r: (LimitOutcome, Limiter))
    ensures LimiterInv(l) ==> LimiterInv(r.1)
    ensures r.0.Allowed? <==> Refresh(l, now).count < MaxRequests
    ensures r.0.Allowed? ==> r.1 == Refresh(l, now).(count := Refresh(l, now).count + 1)
    ensures r.0.Limited? ==> r.1 == Refresh(l, now)
    ensures r.0.Limited? ==>
      r.0.minutesLeft >= 0 &&
      (r.0.minutesLeft - 1) * MinuteMs < r.1.resetTime - now <= r.0.minutesLeft * MinuteMs
  {
    var w := Refresh(l, now);
    if w.count >= MaxRequests then (Limited(CeilMinutes(w.resetTime - now)), w)
    else (Allowed, w.(count := w.count + 1))
  }

  /** A call in a fresh window is always allowed, whatever the old counter said. */
  lemma NewWindowAllows(l: Limiter, now: int)
    requires now > l.resetTime
    ensures CheckRateLimit(l, now) == (Allowed, Limiter(1, now + WindowMs))
  {
  }

  /** A refused call does not change the limiter's state. */
  lemma RefusalChangesNothing(l: Limiter, now: int)
    requires LimiterInv(l)
    requires CheckRateLimit(l, now).0.Limited?
    ensures CheckRateLimit(l, now).1 == l
  {
  }

  /** Calls at the times in `times`, in order: how many were allowed, and the final limiter. */
  function RunLimiter(l: Limiter, times: seq<int>): (r: (nat, Limiter))
    ensures LimiterInv(l) ==> LimiterInv(r.1)
    ensures r.0 <= |times|
    decreases |times|
  {
    if |times| == 0 then (0, l)
    else
      var (outcome, l') := CheckRateLimit(l, times[0]);
      var (n, final) := RunLimiter(l', times[1..]);
      (n + if outcome.Allowed? then 1 else 0, final)
  }

  /** Within one window at most `MaxRequests` calls get through: every call
      made no later than the window end counts against the same cap. */
  lemma {:induction false} WindowCap(l: Limiter, times: seq<int>)
    requires LimiterInv(l)
    requires forall i :: 0 <= i < |times| ==> times[i] <= l.resetTime
    ensures RunLimiter(l, times).0 + l.count <= MaxRequests
    ensures RunLimiter(l, times).1.count == l.count + RunLimiter(l, times).0
    ensures RunLimiter(l, times).1.resetTime == l.resetTime
    decreases |times|
  {
    if |times| > 0 {
      var (outcome, l') := CheckRateLimit(l, times[0]);
      assert l'.resetTime == l.resetTime;
      WindowCap(l', times[1..]);
    }
  }

  datatype RateStatus = RateStatus(remaining: int, resetInMinutes: int, isLimited: bool)

  /** getRateLimitStatus. It only reads the limiter, so the state after it is the state before. */
  function GetRateLimitStatus(l: Limiter, now: int): (s: RateStatus)
    ensures s.remaining >= 0 && s.resetInMinutes >= 0
    ensures LimiterInv(l) ==> s.remaining + l.count == MaxRequests
    ensures s.isLimited <==> l.count >= MaxRequests
  {
    var remaining := if MaxRequests - l.count > 0 then MaxRequests - l.count else 0;
    var minutes := CeilMinutes(l.resetTime - now);
    RateStatus(remaining, if minutes > 0 then minutes else 0, remaining == 0)
  }

  /** While the window is open, the status reports "limited" exactly when the
      next request would be refused, and the wait it shows is the wait the
      refusal would report. */
  lemma StatusPredictsCheck(l: Limiter, now: int)
    requires LimiterInv(l)
    requires now <= l.resetTime
    ensures GetRateLimitStatus(l, now).isLimited <==> CheckRateLimit(l, now).0.Limited?
    ensures CheckRateLimit(l, now).0.Limited? ==>
      CheckRateLimit(l, now).0.minutesLeft == GetRateLimitStatus(l, now).resetInMinutes
  {
  }

  // ---------------------------------------------------------------------
  // Gist ids

  predicate IsHexDigit(c: char) {
    '0' <= c <= '9' || 'a' <= c <= 'f' || 'A' <= c <= 'F'
  }

  /** validateGistId: `/^[a-f0-9]{32}$/i`. */
  predicate ValidateGistId(id: string) {
    |id| == 32 && forall i :: 0 <= i < 32 ==> IsHexDigit(id[i])
  }

  /** The lower-case hexadecimal rendering of any 16 bytes is a valid id. */
  lemma HexIdsAreValid(bytes: seq<byte>)
    requires |bytes| == 16
    ensures ValidateGistId(Encryption.HexOf(bytes))
  {
    var h := Encryption.HexOf(bytes);
    Encryption.HexOfDigits(bytes);
    forall i | 0 <= i < 32
      ensures IsHexDigit(h[i])
    {
      var k :| 0 <= k < 16 && Encryption.HexDigits()[k] == h[i];
    }
  }

  /** The test ignores case. */
  lemma GistIdIgnoresCase(id: string)
    ensures ValidateGistId(id) <==> ValidateGistId(Encryption.AsciiUpperString(id))
  {
    var u := Encryption.AsciiUpperString(id);
    if |id| == 32 {
      forall i | 0 <= i < 32
        ensures IsHexDigit(id[i]) <==> IsHexDigit(u[i])
      {
        assert u[i] == Encryption.AsciiUpper(id[i]);
      }
    }
  }

  /** An id with a character outside the hexadecimal digits is refused. */
  lemma GistIdRejectsNonHex(id: string, i: int)
    requires 0 <= i < |id| && !IsHexDigit(id[i])
    ensures !ValidateGistId(id)
  {
  }

  // ---------------------------------------------------------------------
  // The API calls

  datatype GistFile = GistFile(content: string, rawUrl: string)

  /** The parsed body of a gist response. */
  datatype GistJson = GistJson(id: string, htmlUrl: string, createdAt: string, files: Option<map<string, GistFile>>)

  /** What `fetch` produced: a response (with its body, `None` when the body
      is not JSON), or a rejected promise. */
  datatype HttpReply = Response(status: int, body: Option<GistJson>) | NetworkFailure

  /** `response.ok` */
  predicate Ok2xx(status: int) {
    200 <= status <= 299
  }

  datatype GistError =
    | RateLimitReached(minutes: int)  // the local limiter refused; nothing was sent
    | RemoteRateLimit                 // status 403
    | NotFound                        // status 404 on retrieval
    | RequestFailed                   // any other failure of the exchange
    | InvalidFormat                   // the gist lacks the sync file

  datatype GistInfo = GistInfo(id: string, url: string, rawUrl: string, createdAt: string)

  /** The outcome of a call, the limiter after it, and whether a request went out. */
  datatype Call<T> = Call(result: Result<T, GistError>, limiter: Limiter, sent: bool)

  /** createGist: the limiter runs first; only an allowed call sends the request. */
  function CreateGist(l: Limiter, now: int, reply: HttpReply): (c: Call<GistInfo>)
    ensures c.limiter == CheckRateLimit(l, now).1
    ensures c.sent <==> CheckRateLimit(l, now).0.Allowed?
    ensures !c.sent ==> c.result == Err(RateLimitReached(CheckRateLimit(l, now).0.minutesLeft))
    ensures c.sent && reply.Response? && reply.status == 403 ==> c.result == Err(RemoteRateLimit)
    ensures c.result.Ok? ==>
      reply.Response? && Ok2xx(reply.status) && reply.body.Some? && c.result.value.id == reply.body.value.id
  {
    var (outcome, l') := CheckRateLimit(l, now);
    if outcome.Limited? then Call(Err(RateLimitReached(outcome.minutesLeft)), l', false)
    else
      var result :=
        match reply
        case NetworkFailure => Err(RequestFailed)
        case Response(status, body) =>
          if !Ok2xx(status) then (if status == 403 then Err(RemoteRateLimit) else Err(RequestFailed))
          else if body.None? || body.value.files.None? || GistFilename !in body.value.files.value then
            Err(RequestFailed)  // reading `raw_url` of a missing file throws
          else
            var g := body.value;
            Ok(GistInfo(g.id, g.htmlUrl, g.files.value[GistFilename].rawUrl, g.createdAt));
      Call(result, l', true)
  }

  /** getGist: the limiter runs first; the content of the sync file is the result. */
  function GetGist(l: Limiter, now: int, reply: HttpReply): (c: Call<string>)
    ensures c.limiter == CheckRateLimit(l, now).1
    ensures c.sent <==> CheckRateLimit(l, now).0.Allowed?
    ensures !c.sent ==> c.result == Err(RateLimitReached(CheckRateLimit(l, now).0.minutesLeft))
    ensures c.sent && reply.Response? && reply.status == 404 ==> c.result == Err(NotFound)
    ensures c.sent && reply.Response? && reply.status == 403 ==> c.result == Err(RemoteRateLimit)
    ensures c.result.Ok? <==>
      c.sent && reply.Response? && Ok2xx(reply.status) && reply.body.Some? &&
      reply.body.value.files.Some? && GistFilename in reply.body.value.files.value
    ensures c.result.Ok? ==> c.result.value == reply.body.value.files.value[GistFilename].content
  {
    var (outcome, l') := CheckRateLimit(l, now);
    if outcome.Limited? then Call(Err(RateLimitReached(outcome.minutesLeft)), l', false)
    else
      var result :=
        match reply
        case NetworkFailure => Err(RequestFailed)
        case Response(status, body) =>
          if !Ok2xx(status) then
            (if status == 404 then Err(NotFound) else if status == 403 then Err(RemoteRateLimit) else Err(RequestFailed))
          else if body.None? then Err(RequestFailed)
          else if body.value.files.None? || GistFilename !in body.value.files.value then Err(InvalidFormat)
          else Ok(body.value.files.value[GistFilename].content);
      Call(result, l', true)
  }

  /** deleteGist: without a token it answers false before touching the
      limiter; with one, the limiter runs (its refusal is thrown), then the
      answer is whether the server replied with a success status. */
  function DeleteGist(l: Limiter, now: int, token: Option<string>, reply: HttpReply): (c: Call<bool>)
    ensures !Truthy(token) ==> c == Call(Ok(false), l, false)
    ensures Truthy(token) ==> c.limiter == CheckRateLimit(l, now).1
    ensures Truthy(token) ==> (c.sent <==> CheckRateLimit(l, now).0.Allowed?)
    ensures c.result == Ok(true) <==> c.sent && reply.Response? && Ok2xx(reply.status)
    ensures c.result.Err? ==> !c.sent && c.result.error.RateLimitReached?
  {
    if !Truthy(token) then Call(Ok(false), l, false)
    else
      var (outcome, l') := CheckRateLimit(l, now);
      if outcome.Limited? then Call(Err(RateLimitReached(outcome.minutesLeft)), l', false)
      else Call(Ok(reply.Response? && Ok2xx(reply.status)), l', true)
  }
}
