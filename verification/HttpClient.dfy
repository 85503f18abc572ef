/** `HttpClient`: how often a request is sent again, because a connection failed, a proxy asked for
credentials, or a response redirected it. */
module HttpClients {
  import opened Bytes
  import opened HttpAttributes
  import opened HttpWire

  const MAX_REDIRECTS: nat := 5

  const HC_SEE_OTHER: nat := 303
  const HC_PROXY_AUTHENTICATION_REQUIRED: nat := 407
  const HC_INTERNAL_SERVER_ERROR: nat := 500

  const BASIC: bytes := Ascii("basic")
  const DIGEST: bytes := Ascii("digest")

  datatype RedirectAction = REDIRECT_DEFAULT | REDIRECT_ALWAYS | REDIRECT_NEVER
  datatype HttpVerb = HV_GET | HV_POST | HV_PUT | HV_DELETE | HV_CONNECT | HV_HEAD
  datatype HttpMode = HM_NONE | HM_CONNECT | HM_RECV | HM_SEND

  /** What does not change while a request is handled. */
  datatype Config = Config(retries: nat, redirect: RedirectAction, proxyHttps: bool, hasUser: bool)

  /** The request's verb, whether it has a document, and where the client stands; `requests` counts
  the connections asked for. */
  datatype Progress = Progress(
    verb: HttpVerb, hasDocument: bool, attempt: nat, redirects: nat, context: Option<bytes>, requests: nat)

  /** A completion that HttpBase reports, with the response as it is then, whether the request's
  document can be rewound, and whether the cache can answer if the request starts again. */
  datatype Completion = Completion(
    mode: HttpMode, err: HttpError, scode: nat, hasLocation: bool, challenges: seq<bytes>, rewinds: bool, cached: bool)

  datatype Outcome = Reconnecting | Sending | Receiving | FromCache | Finished(err: HttpError)

  predicate IsRedirection(scode: nat) { scode / 100 == 3 }

  predicate IsInformational(scode: nat) { scode / 100 == 1 }

  predicate IsConnectionError(err: HttpError) {
    err == HE_DISCONNECTED || err == HE_CONNECT_FAILED || err == HE_SOCKET_ERROR
  }

  // ---------- credentials ----------

  datatype AuthResult = HAR_IGNORE | HAR_RESPONSE | HAR_CREDENTIALS

  /** HttpAuthenticate's choice by the method of a challenge and the context of the last answer. */
  function Authenticate(context: Option<bytes>, method_: bytes, hasUser: bool): (AuthResult, Option<bytes>) {
    if context.Some? && context.value != method_ then (HAR_IGNORE, context)
    else if EqualsIgnoreCase(method_, BASIC) || EqualsIgnoreCase(method_, DIGEST) then
      if context.Some? || !hasUser then (HAR_CREDENTIALS, context) else (HAR_RESPONSE, Some(method_))
    else (HAR_IGNORE, context)
  }

  /** The method of a challenge; a challenge without attributes leaves the one before. */
  function MethodOf(challenge: bytes, before: bytes): bytes {
    var attributes := AttributesFrom(challenge, 0);
    if attributes == [] then before else attributes[0].name
  }

  /** The first challenge that is not ignored decides. */
  function Answer(context: Option<bytes>, challenges: seq<bytes>, before: bytes, hasUser: bool)
    : (AuthResult, Option<bytes>)
  {
    if challenges == [] then (HAR_IGNORE, context)
    else
      var method_ := MethodOf(challenges[0], before);
      var (result, context') := Authenticate(context, method_, hasUser);
      if result == HAR_IGNORE then Answer(context', challenges[1..], method_, hasUser) else (result, context')
  }

  /** An answer is given at most once per context. */
  lemma {:induction false} AnswersOnce(context: Option<bytes>, challenges: seq<bytes>, before: bytes, hasUser: bool)
    ensures var (result, context') := Answer(context, challenges, before, hasUser);
      if result == HAR_RESPONSE then context.None? && context'.Some? else context' == context
  {
    hide MethodOf, EqualsIgnoreCase;
    if challenges != [] {
      AnswersOnce(context, challenges[1..], MethodOf(challenges[0], before), hasUser);
    }
  }

  // ---------- one completion ----------

  predicate ShouldRedirect(config: Config, s: Progress, c: Completion) {
    if config.redirect == REDIRECT_NEVER || !IsRedirection(c.scode) || !c.hasLocation
       || s.redirects >= MAX_REDIRECTS
    then false
    else config.redirect == REDIRECT_ALWAYS || c.scode == HC_SEE_OTHER || s.verb == HV_HEAD || s.verb == HV_GET
  }

  predicate ShouldRetry(config: Config, s: Progress, c: Completion) {
    IsConnectionError(c.err) && c.scode == HC_INTERNAL_SERVER_ERROR && s.attempt < config.retries
  }

  function Connected(s: Progress): Progress {
    s.(requests := s.requests + 1)
  }

  /** `start`. */
  function Started(s: Progress, cached: bool): (Progress, Outcome) {
    var s' := s.(attempt := 0);
    if cached then (s', FromCache) else (Connected(s'), Reconnecting)
  }

  function Redirected(s: Progress, c: Completion): (Progress, Outcome) {
    if c.scode != HC_SEE_OTHER && s.hasDocument && !c.rewinds then (s, Finished(HE_STREAM))
    else
      var s' := if c.scode == HC_SEE_OTHER then s.(verb := HV_GET, hasDocument := false) else s;
      Started(s'.(redirects := s'.redirects + 1, context := None), c.cached)
  }

  function Challenged(config: Config, s: Progress, c: Completion): (Progress, Outcome) {
    var (result, context) := Answer(s.context, c.challenges, [], config.hasUser);
    var s' := s.(context := context);
    if result != HAR_RESPONSE then (s', Finished(HE_NONE))
    else if s.hasDocument && !c.rewinds then (s', Finished(HE_STREAM))
    else Started(s', c.cached)
  }

  /** What onHttpComplete does. */
  function Step(config: Config, s: Progress, c: Completion): (Progress, Outcome) {
    if ShouldRetry(config, s, c) then
      var s' := s.(attempt := s.attempt + 1);
      if s.hasDocument && !c.rewinds then (s', Finished(HE_STREAM)) else (Connected(s'), Reconnecting)
    else if c.err != HE_NONE then (s, Finished(c.err))
    else if c.mode == HM_CONNECT then (s, Sending)
    else if c.mode == HM_SEND || IsInformational(c.scode) then (s, Receiving)
    else if ShouldRedirect(config, s, c) then Redirected(s, c)
    else if c.scode == HC_PROXY_AUTHENTICATION_REQUIRED && config.proxyHttps then Challenged(config, s, c)
    else (s, Finished(HE_NONE))
  }

  // ---------- the client ----------

  class HttpClient {
    const config: Config
    var verb: HttpVerb
    var hasDocument: bool
    var attempt: nat
    var redirects: nat
    var context: Option<bytes>
    ghost var requests: nat

    ghost function State(): Progress
      reads this
    {
      Progress(verb, hasDocument, attempt, redirects, context, requests)
    }

    /** A client that has been reset. */
    constructor (config: Config, verb: HttpVerb, hasDocument: bool)
      ensures State() == Progress(verb, hasDocument, 0, 0, None, 0) && this.config == config
    {
      this.config, this.verb, this.hasDocument := config, verb, hasDocument;
      attempt, redirects, context, requests := 0, 0, None, 0;
    }

    method Connect()
      modifies this`requests
      ensures State() == Connected(old(State()))
    {
      requests := requests + 1;
    }

    method Start(cached: bool) returns (outcome: Outcome)
      modifies this
      ensures (State(), outcome) == Started(old(State()), cached)
    {
      attempt := 0;
      if cached {
        return FromCache;
      }
      Connect();
      return Reconnecting;
    }

    /** The loop over the challenges. */
    method AnswerChallenges(challenges: seq<bytes>) returns (result: AuthResult)
      modifies this`context
      ensures (result, context) == Answer(old(context), challenges, [], config.hasUser)
    {
      hide MethodOf, Authenticate;
      var authMethod: bytes := [];
      var i := 0;
      assert challenges[0..] == challenges;
      while i < |challenges|
        invariant i <= |challenges|
        invariant Answer(context, challenges[i..], authMethod, config.hasUser)
                  == Answer(old(context), challenges, [], config.hasUser)
      {
        assert challenges[i..][1..] == challenges[i + 1..];
        authMethod := MethodOf(challenges[i], authMethod);
        var answer := Authenticate(context, authMethod, config.hasUser);
        result, context := answer.0, answer.1;
        if result != HAR_IGNORE {
          return;
        }
        i := i + 1;
      }
      result := HAR_IGNORE;
    }

    /** `onHttpComplete`. */
    method OnHttpComplete(c: Completion) returns (outcome: Outcome)
      modifies this
      ensures (State(), outcome) == Step(config, old(State()), c)
    {
      hide Answer;
      var err := c.err;
      if IsConnectionError(c.err) && c.scode == HC_INTERNAL_SERVER_ERROR && attempt < config.retries {
        attempt := attempt + 1;
        if hasDocument && !c.rewinds {
          err := HE_STREAM;
        } else {
          Connect();
          return Reconnecting;
        }
      } else if err != HE_NONE {
      } else if c.mode == HM_CONNECT {
        return Sending;
      } else if c.mode == HM_SEND || IsInformational(c.scode) {
        return Receiving;
      } else if ShouldRedirect(config, Progress(verb, hasDocument, attempt, redirects, context, 0), c) {
        if c.scode == HC_SEE_OTHER {
          verb := HV_GET;
          hasDocument := false;
        } else if hasDocument && !c.rewinds {
          err := HE_STREAM;
        }
        if err == HE_NONE {
          redirects := redirects + 1;
          context := None;
          outcome := Start(c.cached);
          return;
        }
      } else if c.scode == HC_PROXY_AUTHENTICATION_REQUIRED && config.proxyHttps {
        var result := AnswerChallenges(c.challenges);
        if result == HAR_RESPONSE {
          if hasDocument && !c.rewinds {
            err := HE_STREAM;
          } else {
            outcome := Start(c.cached);
            return;
          }
        }
      }
      return Finished(err);
    }
  }

  // ---------- what a completion leads to, in numbers ----------

  /** An error ends the request with that error, but a broken connection is tried again while attempts
  are left and the response still is the 500 it started as. */
  lemma ErrorsEnd(config: Config, s: Progress, c: Completion)
    requires c.err != HE_NONE
    ensures var retry := c.err in {HE_DISCONNECTED, HE_CONNECT_FAILED, HE_SOCKET_ERROR} && c.scode == 500
                         && s.attempt < config.retries;
      Step(config, s, c)
      == if !retry then (s, Finished(c.err))
         else if s.hasDocument && !c.rewinds then (s.(attempt := s.attempt + 1), Finished(HE_STREAM))
         else (s.(attempt := s.attempt + 1, requests := s.requests + 1), Reconnecting)
  {
  }

  /** The response asks to look elsewhere, and the client is to follow it. */
  predicate FollowsRedirect(action: RedirectAction, verb: HttpVerb, redirects: nat, scode: nat, hasLocation: bool) {
    && 300 <= scode <= 399 && hasLocation && redirects < 5
    && (action.REDIRECT_ALWAYS? || (action.REDIRECT_DEFAULT? && (scode == 303 || verb.HV_GET? || verb.HV_HEAD?)))
  }

  /** A response is followed elsewhere exactly if it is to be and its document, if that has to be sent
  again, can be rewound.  A 303 turns the request into a GET without document; the attempts and the
  credentials of before no longer count. */
  lemma RedirectsFollowed(config: Config, s: Progress, c: Completion)
    requires c.mode == HM_RECV && c.err == HE_NONE
    ensures var (s', outcome) := Step(config, s, c);
      var follows := FollowsRedirect(config.redirect, s.verb, s.redirects, c.scode, c.hasLocation);
      var stuck := c.scode != 303 && s.hasDocument && !c.rewinds;
      && (s'.redirects == s.redirects + 1 <==> follows && !stuck)
      && (s'.redirects == s.redirects <==> !(follows && !stuck))
      && (follows && stuck ==> (s', outcome) == (s, Finished(HE_STREAM)))
      && (follows && !stuck ==>
            && s' == Progress(if c.scode == 303 then HV_GET else s.verb, s.hasDocument && c.scode != 303, 0,
                              s.redirects + 1, None, if c.cached then s.requests else s.requests + 1)
            && outcome == if c.cached then FromCache else Reconnecting)
  {
    hide Answer;
    assert IsRedirection(c.scode) <==> 300 <= c.scode <= 399;
    assert !(c.scode / 100 == 1 && 300 <= c.scode);
  }

  function Run(config: Config, s: Progress, cs: seq<Completion>): Progress
    decreases |cs|
  {
    if cs == [] then s else Run(config, Step(config, s, cs[0]).0, cs[1..])
  }

  function Outcomes(config: Config, s: Progress, cs: seq<Completion>): seq<Outcome>
    decreases |cs|
  {
    if cs == [] then [] else [Step(config, s, cs[0]).1] + Outcomes(config, Step(config, s, cs[0]).0, cs[1..])
  }

  /** A connection, a sent request, any number of responses 100..199, and one other response. */
  ghost predicate OneExchange(cs: seq<Completion>) {
    && |cs| >= 3 && (forall i :: 0 <= i < |cs| ==> cs[i].err == HE_NONE)
    && cs[0].mode == HM_CONNECT && cs[1].mode == HM_SEND
    && (forall i :: 2 <= i < |cs| ==> cs[i].mode == HM_RECV)
    && (forall i :: 2 <= i < |cs| - 1 ==> 100 <= cs[i].scode <= 199)
    && !(100 <= cs[|cs| - 1].scode <= 199)
  }

  lemma InformationalIs(scode: nat)
    ensures IsInformational(scode) <==> 100 <= scode <= 199
  {
  }

  lemma {:induction false} Receives(config: Config, s: Progress, cs: seq<Completion>)
    requires |cs| >= 1 && forall i :: 0 <= i < |cs| ==> cs[i].err == HE_NONE && cs[i].mode == HM_RECV
    requires forall i :: 0 <= i < |cs| - 1 ==> 100 <= cs[i].scode <= 199
    ensures var last := cs[|cs| - 1];
      && Run(config, s, cs) == Step(config, s, last).0
      && Outcomes(config, s, cs) == seq(|cs| - 1, _ => Receiving) + [Step(config, s, last).1]
    decreases |cs|
  {
    if |cs| > 1 {
      InformationalIs(cs[0].scode);
      assert Step(config, s, cs[0]) == (s, Receiving);
      hide Step;
      Receives(config, s, cs[1..]);
      var n := |cs| - 1;
      assert seq(n, _ => Receiving) == [Receiving] + seq(n - 1, _ => Receiving);
    } else {
      hide Step;
      assert cs[1..] == [];
    }
  }

  /** An exchange that is neither redirected nor asked for credentials: the request is sent once, over
  one connection, every response 100..199 is followed by another one, and the client finishes without
  an error with the first other response. */
  lemma FinishesOnce(config: Config, verb: HttpVerb, hasDocument: bool, cs: seq<Completion>)
    requires OneExchange(cs)
    requires var last := cs[|cs| - 1];
      && !FollowsRedirect(config.redirect, verb, 0, last.scode, last.hasLocation)
      && !(last.scode == 407 && config.proxyHttps)
    ensures var s := Started(Progress(verb, hasDocument, 0, 0, None, 0), false).0;
      && Outcomes(config, s, cs) == [Sending, Receiving] + seq(|cs| - 3, _ => Receiving) + [Finished(HE_NONE)]
      && Run(config, s, cs) == Progress(verb, hasDocument, 0, 0, None, 1)
  {
    var s := Started(Progress(verb, hasDocument, 0, 0, None, 0), false).0;
    assert s == Progress(verb, hasDocument, 0, 0, None, 1);
    var n := |cs| - 1;
    InformationalIs(cs[n].scode);
    RedirectsFollowed(config, s, cs[n]);
    assert Step(config, s, cs[n]) == (s, Finished(HE_NONE)) by { hide Answer; }
    assert Step(config, s, cs[0]) == (s, Sending) && Step(config, s, cs[1]) == (s, Receiving) by { hide Answer; }
    hide Step, Started, FollowsRedirect;
    Receives(config, s, cs[2..]);
    assert cs[1..][1..] == cs[2..] && cs[1..][0] == cs[1];
    Unfolds(config, s, cs);
    Unfolds(config, s, cs[1..]);
  }

  lemma Unfolds(config: Config, s: Progress, cs: seq<Completion>)
    requires cs != []
    ensures Run(config, s, cs) == Run(config, Step(config, s, cs[0]).0, cs[1..])
    ensures Outcomes(config, s, cs)
            == [Step(config, s, cs[0]).1] + Outcomes(config, Step(config, s, cs[0]).0, cs[1..])
  {
  }

  // ---------- which challenge is answered ----------

  /** The method of the challenge at `i`, or of the last one before it that names one. */
  function MethodAt(challenges: seq<bytes>, i: nat, before: bytes): bytes
    requires i < |challenges|
  {
    MethodOf(challenges[i], if i == 0 then before else MethodAt(challenges, i - 1, before))
  }

  /** The method of a well-formed challenge is the word it begins with. */
  lemma MethodOfChallenge(method_: bytes, items: seq<Item>, before: bytes)
    requires PlainOrQuoted(items) && GoodNames(items) && GoodName(method_) && method_ != []
    ensures MethodOf(Challenge(method_, items), before) == method_
  {
    hide AttributesFrom, Challenge;
    ChallengeReadsBack(method_, items);
  }

  /** A method the client knows, and, if it has answered before, the one it answered then. */
  ghost predicate Known(context: Option<bytes>, m: bytes) {
    && (SameButCase(m, Ascii("basic")) || SameButCase(m, Ascii("digest")))
    && (context.Some? ==> context.value == m)
  }

  lemma {:induction false} MethodAtRest(challenges: seq<bytes>, i: nat, before: bytes)
    requires i + 1 < |challenges|
    ensures MethodAt(challenges, i + 1, before) == MethodAt(challenges[1..], i, MethodOf(challenges[0], before))
  {
    if i > 0 {
      MethodAtRest(challenges, i - 1, before);
    }
  }

  lemma AuthenticateKnown(context: Option<bytes>, m: bytes, hasUser: bool)
    ensures Authenticate(context, m, hasUser)
      == if !Known(context, m) then (HAR_IGNORE, context)
         else if context == None && hasUser then (HAR_RESPONSE, Some(m))
         else (HAR_CREDENTIALS, context)
  {
    EqualsIgnoreCaseMeans(m, BASIC);
    EqualsIgnoreCaseMeans(m, DIGEST);
    hide SameButCase, EqualsIgnoreCase;
  }

  /** The client answers the first challenge whose method it knows, if it has a user and has not answered
  before; it gives up on it otherwise; and it ignores challenges none of which it knows. */
  lemma {:induction false} FirstKnownDecides(context: Option<bytes>, challenges: seq<bytes>, before: bytes,
      hasUser: bool, k: nat)
    requires k <= |challenges|
    requires forall i :: 0 <= i < k ==> !Known(context, MethodAt(challenges, i, before))
    requires k < |challenges| ==> Known(context, MethodAt(challenges, k, before))
    ensures Answer(context, challenges, before, hasUser)
      == if k == |challenges| then (HAR_IGNORE, context)
         else if context == None && hasUser then (HAR_RESPONSE, Some(MethodAt(challenges, k, before)))
         else (HAR_CREDENTIALS, context)
    decreases |challenges|
  {
    hide Known, MethodOf, Authenticate;
    if challenges != [] {
      var m := MethodOf(challenges[0], before);
      assert m == MethodAt(challenges, 0, before);
      AuthenticateKnown(context, m, hasUser);
      if k > 0 {
        assert !Known(context, MethodAt(challenges, 0, before));
        forall i | 0 <= i < k - 1
          ensures !Known(context, MethodAt(challenges[1..], i, m))
        {
          MethodAtRest(challenges, i, before);
          assert !Known(context, MethodAt(challenges, i + 1, before));
        }
        if k < |challenges| {
          MethodAtRest(challenges, k - 1, before);
        }
        FirstKnownDecides(context, challenges[1..], m, hasUser, k - 1);
      }
    }
  }

  /** A proxy that asks for credentials gets the request again exactly if the client has an answer (and
  the document can be rewound); the answer is remembered, and every other time the client is done. */
  lemma ProxyAsks(config: Config, s: Progress, c: Completion, k: nat)
    requires c.mode == HM_RECV && c.err == HE_NONE && c.scode == 407 && config.proxyHttps
    requires k <= |c.challenges|
    requires forall i :: 0 <= i < k ==> !Known(s.context, MethodAt(c.challenges, i, []))
    requires k < |c.challenges| ==> Known(s.context, MethodAt(c.challenges, k, []))
    ensures var answers := k < |c.challenges| && s.context == None && config.hasUser;
      Step(config, s, c)
      == if !answers then (s, Finished(HE_NONE))
         else
           var s' := s.(context := Some(MethodAt(c.challenges, k, [])));
           if s.hasDocument && !c.rewinds then (s', Finished(HE_STREAM))
           else if c.cached then (s'.(attempt := 0), FromCache)
           else (s'.(attempt := 0, requests := s.requests + 1), Reconnecting)
  {
    FirstKnownDecides(s.context, c.challenges, [], config.hasUser, k);
    hide Answer, Known, MethodAt;
    assert !(407 / 100 == 1) && !(407 / 100 == 3);
  }

  // ---------- restarts come to an end ----------

  predicate InLimits(config: Config, s: Progress) {
    s.redirects <= MAX_REDIRECTS && s.attempt <= config.retries
  }

  /** The requests that can still follow: for each redirect left one round of attempts with and one
  without a context, and the attempts left in this round. */
  function Potential(config: Config, s: Progress): (p: nat)
    requires InLimits(config, s)
  {
    (2 * (MAX_REDIRECTS - s.redirects) + if s.context.None? then 1 else 0) * (config.retries + 1)
    + (config.retries - s.attempt)
  }

  lemma Rounds(a: nat, b: nat, perRound: nat)
    requires a < b
    ensures a * perRound + perRound <= b * perRound
  {
    assert b * perRound == a * perRound + (b - a) * perRound;
    assert (b - a) * perRound == perRound + (b - a - 1) * perRound;
  }

  /** Every reconnection uses up some of the potential, and nothing brings any back. */
  lemma StepDecreases(config: Config, s: Progress, c: Completion)
    requires InLimits(config, s)
    ensures var (s', outcome) := Step(config, s, c);
      && InLimits(config, s')
      && s'.requests == s.requests + (if outcome == Reconnecting then 1 else 0)
      && Potential(config, s') + (if outcome == Reconnecting || outcome == FromCache then 1 else 0)
         <= Potential(config, s)
  {
    hide Answer, Potential;
    var (s', outcome) := Step(config, s, c);
    AnswersOnce(s.context, c.challenges, [], config.hasUser);
    if s' != s && s'.redirects == s.redirects && s'.context == s.context {
      assert s'.attempt == s.attempt + 1;
      SameRound(config, s, s');
    } else if s' != s {
      NextRound(config, s, s');
    }
  }

  lemma SameRound(config: Config, s: Progress, s': Progress)
    requires InLimits(config, s) && InLimits(config, s')
    requires s'.redirects == s.redirects && s'.context == s.context && s'.attempt == s.attempt + 1
    ensures Potential(config, s') + 1 == Potential(config, s)
  {
  }

  function RoundsLeft(s: Progress): nat
    requires s.redirects <= MAX_REDIRECTS
  {
    2 * (MAX_REDIRECTS - s.redirects) + if s.context.None? then 1 else 0
  }

  lemma NextRound(config: Config, s: Progress, s': Progress)
    requires InLimits(config, s) && InLimits(config, s') && RoundsLeft(s') < RoundsLeft(s)
    ensures Potential(config, s') + 1 <= Potential(config, s)
  {
    Rounds(RoundsLeft(s'), RoundsLeft(s), config.retries + 1);
  }

  lemma {:induction false} RunBounded(config: Config, s: Progress, cs: seq<Completion>)
    requires InLimits(config, s)
    ensures Run(config, s, cs).requests <= s.requests + Potential(config, s)
    decreases |cs|
  {
    hide Step, Potential;
    if cs != [] {
      StepDecreases(config, s, cs[0]);
      RunBounded(config, Step(config, s, cs[0]).0, cs[1..]);
    }
  }

  /** Whatever is reported, a request that starts from a reset client asks for at most
  2 * (MAX_REDIRECTS + 1) * (retries + 1) connections. */
  lemma RequestsBounded(config: Config, verb: HttpVerb, hasDocument: bool, cached: bool, cs: seq<Completion>)
    ensures Run(config, Started(Progress(verb, hasDocument, 0, 0, None, 0), cached).0, cs).requests
            <= 2 * (MAX_REDIRECTS + 1) * (config.retries + 1)
  {
    RunBounded(config, Started(Progress(verb, hasDocument, 0, 0, None, 0), cached).0, cs);
  }

  // ---------- and the bound is met ----------

  /** The next completion that costs a request. */
  function Worst(config: Config, s: Progress): Completion {
    if s.attempt < config.retries then Completion(HM_RECV, HE_DISCONNECTED, 500, false, [], true, false)
    else if s.context.None? then Completion(HM_RECV, HE_NONE, 407, false, [Challenge(BASIC, [])], true, false)
    else Completion(HM_RECV, HE_NONE, 303, true, [], true, false)
  }

  lemma ChallengeAnswered()
    ensures Answer(None, [Challenge(BASIC, [])], [], true) == (HAR_RESPONSE, Some(BASIC))
  {
    hide AttributesFrom, Challenge;
    assert forall i :: 0 <= i < |BASIC| ==> !IsSpace(BASIC[i]) && BASIC[i] != EQUALS;
    assert GoodName(BASIC);
    MethodOfChallenge(BASIC, [], []);
  }

  lemma WorstStep(config: Config, s: Progress)
    requires InLimits(config, s) && Potential(config, s) > 0
    requires config.redirect != REDIRECT_NEVER && config.proxyHttps && config.hasUser
    ensures var (s', outcome) := Step(config, s, Worst(config, s));
      InLimits(config, s') && s'.requests == s.requests + 1 && Potential(config, s') == Potential(config, s) - 1
  {
    hide Answer, Challenge;
    ChallengeAnswered();
  }

  lemma {:induction false} Exhaust(config: Config, s: Progress) returns (cs: seq<Completion>)
    requires InLimits(config, s)
    requires config.redirect != REDIRECT_NEVER && config.proxyHttps && config.hasUser
    ensures Run(config, s, cs).requests == s.requests + Potential(config, s)
    decreases Potential(config, s)
  {
    if Potential(config, s) == 0 {
      cs := [];
    } else {
      hide Step, Potential;
      WorstStep(config, s);
      var s' := Step(config, s, Worst(config, s)).0;
      var rest := Exhaust(config, s');
      cs := [Worst(config, s)] + rest;
    }
  }

  /** A proxy and a server that keep failing, asking and redirecting make the client use all of it. */
  lemma BoundIsMet(config: Config, verb: HttpVerb, hasDocument: bool) returns (cs: seq<Completion>)
    requires config.redirect != REDIRECT_NEVER && config.proxyHttps && config.hasUser
    ensures Run(config, Started(Progress(verb, hasDocument, 0, 0, None, 0), false).0, cs).requests
            == 2 * (MAX_REDIRECTS + 1) * (config.retries + 1)
  {
    cs := Exhaust(config, Started(Progress(verb, hasDocument, 0, 0, None, 0), false).0);
  }
}
