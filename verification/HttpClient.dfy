/** HttpClient of src/talk/base/httpclient.cc: when one request leads to another, by retry,
    redirect or proxy authentication (as outside Windows), and how often that can happen. */
module HttpClients {
  import opened HttpText
  import opened HttpParsing

  const MAX_REDIRECTS: nat := 5

  datatype Verb = Get | Post | Put | Delete | ConnectVerb | Head
  datatype RedirectAction = RedirectDefault | RedirectNever | RedirectAlways
  datatype AuthResult = HarResponse | HarIgnore | HarCredentials
  datatype Option<T> = None | Some(value: T)

  /** What the server said: a status, a Location (which may name its host by address, so that
      there is nothing to resolve), and the authentication methods of the challenges. */
  datatype Response = Response(code: nat, location: Option<bool>, challenges: seq<string>)

  /** `response().clear(false)`. */
  const NO_RESPONSE := Response(500, None, [])

  datatype Phase = NotStarted | Resolving | UnderWay(mode: Mode) | Over(error: HttpError)

  predicate IsRedirection(code: nat) { code / 100 == 3 }

  predicate IsInformational(code: nat) { code / 100 == 1 }

  predicate IsTransient(error: HttpError) {
    error == HeDisconnected || error == HeConnectFailed || error == HeSocketError
  }

  /** Connections that `levels` more redirects can lead to: each allows two starts, the second
      with an authorization, and each start allows all its retries. */
  function Rounds(levels: nat, retries: nat): nat {
    if levels == 0 then 0 else 2 * (retries + 1) + Rounds(levels - 1, retries)
  }

  lemma {:induction false} RoundsProduct(levels: nat, retries: nat)
    ensures Rounds(levels, retries) == levels * (2 * (retries + 1))
  {
    if levels > 0 {
      RoundsProduct(levels - 1, retries);
      assert levels * (2 * (retries + 1)) == (levels - 1) * (2 * (retries + 1)) + 2 * (retries + 1);
    }
  }

  /** What becomes of a completed connect, send or receive. */
  datatype Decision =
    | TryAgain               // a retry
    | GoOnWith(mode: Mode)   // the next phase of the same request
    | Follow                 // a redirect
    | AnswerProxy            // a challenge of the proxy
    | Finish(error: HttpError)

  function Decide(mode: Mode, error: HttpError, r: Response, mayRetry: bool, follows: bool, httpsProxy: bool):
    Decision
  {
    if IsTransient(error) && r.code == 500 && mayRetry then TryAgain
    else if error != HeNone then Finish(error)
    else if mode == HmConnect then GoOnWith(HmSend)
    else if mode == HmSend || IsInformational(r.code) then GoOnWith(HmRecv)
    else if follows then Follow
    else if r.code == 407 && httpsProxy then AnswerProxy
    else Finish(HeNone)
  }

  /** The cases by name: what was not answered at all is tried again; an error ends the request; a
      response of 1xx is not the last one; then redirects go before challenges, and everything else
      is the result. */
  lemma DecideMeans(mode: Mode, error: HttpError, r: Response, mayRetry: bool, follows: bool, httpsProxy: bool)
    ensures var d := Decide(mode, error, r, mayRetry, follows, httpsProxy);
            && (d == TryAgain <==> mayRetry && r.code == 500
                                   && (error == HeDisconnected || error == HeConnectFailed || error == HeSocketError))
            && (error != HeNone && d != TryAgain ==> d == Finish(error))
            && (error == HeNone && mode == HmConnect ==> d == GoOnWith(HmSend))
            && (error == HeNone && mode == HmSend ==> d == GoOnWith(HmRecv))
            && (error == HeNone && (mode == HmRecv || mode == HmNone) ==>
                  d == if 100 <= r.code < 200 then GoOnWith(HmRecv) else if follows then Follow
                       else if r.code == 407 && httpsProxy then AnswerProxy else Finish(HeNone))
  {
  }

  /** Which redirects are followed, by the user's choice. */
  predicate Follows(action: RedirectAction, verb: Verb, redirects: nat, r: Response) {
    && 300 <= r.code <= 399 && r.location.Some? && redirects < 5
    && match action
       case RedirectNever => false
       case RedirectAlways => true
       case RedirectDefault => r.code == 303 || verb == Get || verb == Head
  }

  /** HttpAuthenticate as a function of the challenge, the context and the credentials. */
  function AuthOf(scheme: string, context: Option<string>, hasUsername: bool): AuthResult {
    if context.Some? then
      if context.value == scheme && (SameText(scheme, "basic") || SameText(scheme, "digest")) then HarCredentials
      else HarIgnore
    else if SameText(scheme, "basic") || SameText(scheme, "digest") then
      if hasUsername then HarResponse else HarCredentials
    else HarIgnore
  }

  /** The challenge that is answered, of those from `i` on: the first that is not ignored, if it can
      be answered. */
  function FirstAnswer(cs: seq<string>, i: nat, context: Option<string>, hasUsername: bool): (r: Option<nat>)
    requires i <= |cs|
    ensures r.Some? ==> i <= r.value < |cs| && AuthOf(cs[r.value], context, hasUsername) == HarResponse
    ensures r.Some? ==> forall j :: i <= j < r.value ==> AuthOf(cs[j], context, hasUsername) == HarIgnore
    ensures r.None? ==> forall k :: i <= k < |cs| && AuthOf(cs[k], context, hasUsername) == HarResponse ==>
                          exists j :: i <= j < k && AuthOf(cs[j], context, hasUsername) == HarCredentials
    decreases |cs| - i
  {
    if i == |cs| then None
    else match AuthOf(cs[i], context, hasUsername)
      case HarResponse => Some(i)
      case HarCredentials => None
      case HarIgnore => FirstAnswer(cs, i + 1, context, hasUsername)
  }

  class HttpClient {
    const retries: nat
    const action: RedirectAction
    const httpsProxy: bool
    const hasUsername: bool
    const rewinds: nat -> bool      // what the document answers to the n-th Rewind
    const pool: nat -> bool         // whether the n-th request for a connection gets a stream
    var verb: Verb
    var hasDocument: bool
    var resolved: bool
    var attempt: nat
    var redirects: nat
    var context: Option<string>
    var phase: Phase
    var connects: nat               // requests for a connection so far
    var rewound: nat                // and for the document to go back to its beginning

    ghost predicate Valid()
      reads this
    {
      attempt <= retries && redirects <= MAX_REDIRECTS
    }

    /** How many more connections the present state can lead to, after the one under way. */
    function Left(): nat
      reads this
      requires Valid()
    {
      Rounds(MAX_REDIRECTS - redirects, retries)
      + (if context.None? then retries + 1 else 0)
      + (retries - attempt)
    }

    /** Those made, the one that waits for a name to be resolved, and those that may follow. */
    function Total(): nat
      reads this
      requires Valid()
    {
      connects + (if phase == Resolving then 1 else 0) + Left()
    }

    /** A request is under way that can be repeated at once: no document to send again and no
        name to resolve. */
    ghost predicate At(made: nat, tries: nat, followed: nat, authorized: bool)
      reads this
    {
      && connects == made && attempt == tries && redirects == followed && context.Some? == authorized
      && phase.UnderWay? && phase.mode != HmNone && resolved && !hasDocument
    }

    /** A name is being looked up, and no connection has been requested since. */
    ghost predicate LookingUp(made: nat, tries: nat)
      reads this
    {
      phase == Resolving && connects == made && attempt == tries
    }

    constructor (retries: nat, action: RedirectAction, httpsProxy: bool, hasUsername: bool, rewinds: nat -> bool,
                 pool: nat -> bool, verb: Verb, hasDocument: bool, resolved: bool)
      ensures Valid() && redirects == 0 && context.None? && connects == 0 && phase == NotStarted
      ensures this.retries == retries && this.pool == pool && this.action == action
      ensures this.httpsProxy == httpsProxy && this.hasUsername == hasUsername
      ensures this.verb == verb && this.hasDocument == hasDocument && this.resolved == resolved
    {
      this.retries, this.action, this.httpsProxy, this.hasUsername := retries, action, httpsProxy, hasUsername;
      this.rewinds, this.pool := rewinds, pool;
      this.verb, this.hasDocument, this.resolved := verb, hasDocument, resolved;
      attempt, redirects, context, phase, connects, rewound := 0, 0, None, NotStarted, 0, 0;
    }

    predicate ShouldRedirect(r: Response)
      reads this
    {
      && action != RedirectNever && IsRedirection(r.code) && r.location.Some? && redirects < MAX_REDIRECTS
      && (action == RedirectAlways || r.code == 303 || verb == Head || verb == Get)
    }

    lemma RedirectIff(r: Response)
      ensures ShouldRedirect(r) <==> Follows(action, verb, redirects, r)
    {
    }

    /** The request is over, and nothing else has happened. */
    ghost predicate Ended(error: HttpError, made: nat, tries: nat, followed: nat, ctx: Option<string>)
      reads this
    {
      phase == Over(error) && connects == made && attempt == tries && redirects == followed && context == ctx
    }

    /** HttpAuthenticate: a second challenge is never answered. */
    method Authenticate(scheme: string) returns (result: AuthResult)
      modifies this`context
      ensures result == HarResponse ==> old(context).None? && context == Some(scheme)
      ensures result != HarResponse ==> context == old(context)
      ensures result == AuthOf(scheme, old(context), hasUsername)
    {
      if context.Some? && context.value != scheme { return HarIgnore; }
      if SameText(scheme, "basic") || SameText(scheme, "digest") {
        if context.Some? { return HarCredentials; }
        if !hasUsername { return HarCredentials; }
        context := Some(scheme);
        return HarResponse;
      }
      return HarIgnore;
    }

    method Start()
      requires Valid()
      modifies this
      ensures Valid()
      ensures Total() <= old(connects) + 1
                + Rounds(MAX_REDIRECTS - old(redirects), retries)
                + (if old(context).None? then retries + 1 else 0) + retries
      ensures (forall n :: pool(n)) && old(resolved) && !old(hasDocument) ==>
                At(old(connects) + 1, 0, old(redirects), old(context).Some?)
      ensures !old(resolved) ==> LookingUp(old(connects), 0)
      ensures redirects == old(redirects) && context == old(context)
      ensures verb == old(verb) && hasDocument == old(hasDocument)
      decreases MAX_REDIRECTS - redirects, if context.None? then 1 else 0, retries + 1, 0
    {
      attempt := 0;
      Connect();
    }

    method Connect()
      requires Valid()
      modifies this
      ensures Valid()
      ensures Total() <= old(connects) + 1 + old(Left())
      ensures (forall n :: pool(n)) && old(resolved) && !old(hasDocument) ==>
                At(old(connects) + 1, old(attempt), old(redirects), old(context).Some?)
      ensures !old(resolved) ==> LookingUp(old(connects), old(attempt))
      ensures old(resolved) && pool(old(connects) + 1) ==>
                phase.UnderWay? && connects == old(connects) + 1 && attempt == old(attempt)
      ensures old(resolved) && !pool(old(connects) + 1) && old(attempt) == retries ==>
                Ended(HeConnectFailed, old(connects) + 1, old(attempt), old(redirects), old(context))
      ensures attempt >= old(attempt)
      ensures redirects == old(redirects) && context == old(context)
      ensures verb == old(verb) && hasDocument == old(hasDocument)
      decreases MAX_REDIRECTS - redirects, if context.None? then 1 else 0, retries - attempt, 3
    {
      if !resolved {
        phase := Resolving;
        return;
      }
      connects := connects + 1;
      if !pool(connects) {
        OnHttpComplete(HmConnect, HeConnectFailed, NO_RESPONSE);
      } else {
        var open: bool := *;
        phase := UnderWay(if open then HmSend else HmConnect);
      }
    }

    /** The end of a lookup: `ok` if it reports no error, `found` if it has brought an address.
        Without one the name stays unresolved, and the next connect looks it up again. */
    method OnResolveResult(ok: bool, found: bool)
      requires Valid() && phase == Resolving
      modifies this
      ensures Valid() && Total() <= old(Total())
      ensures ok && !found ==> LookingUp(old(connects), old(attempt))
      ensures ok && found && pool(old(connects) + 1) ==>
                phase.UnderWay? && connects == old(connects) + 1 && attempt == old(attempt)
      ensures !ok && old(attempt) < retries && !old(hasDocument) ==> LookingUp(old(connects), old(attempt) + 1)
      ensures !ok && old(attempt) == retries ==>
                Ended(HeConnectFailed, old(connects), old(attempt), old(redirects), old(context))
    {
      resolved := ok && found;
      if ok {
        Connect();
      } else {
        OnHttpComplete(HmConnect, HeConnectFailed, NO_RESPONSE);
      }
    }

    /** Whether the document, if there is one, can be sent again. */
    method CanReplay() returns (ok: bool)
      modifies this`rewound
      ensures ok == (!hasDocument || rewinds(old(rewound)))
      ensures rewound == old(rewound) + (if hasDocument then 1 else 0)
    {
      if !hasDocument { return true; }
      ok := rewinds(rewound);
      rewound := rewound + 1;
    }

    /** Tries once more, unless the document cannot be sent again. */
    method Retry() returns (error: HttpError)
      requires Valid() && attempt < retries
      modifies this
      ensures Valid() && Total() <= old(connects) + old(Left())
      ensures (forall n :: pool(n)) && old(At(connects, attempt, redirects, context.Some?)) ==>
                At(old(connects) + 1, old(attempt) + 1, old(redirects), old(context).Some?) && error == HeNone
      ensures !old(resolved) && !old(hasDocument) ==>
                LookingUp(old(connects), old(attempt) + 1) && error == HeNone
      ensures error == if !old(hasDocument) || rewinds(old(rewound)) then HeNone else HeStream
      ensures redirects == old(redirects) && context == old(context)
      ensures verb == old(verb) && hasDocument == old(hasDocument) && attempt > old(attempt)
      ensures error == HeStream ==> connects == old(connects) && attempt == old(attempt) + 1 && Left() < old(Left())
      ensures error == HeStream ==> phase == Over(HeStream)
      decreases MAX_REDIRECTS - redirects, if context.None? then 1 else 0, retries - attempt, 0
    {
      attempt := attempt + 1;
      var again := CanReplay();
      if !again {
        phase := Over(HeStream);
        return HeStream;
      }
      Connect();
      return HeNone;
    }

    /** Goes to the new location, unless the document cannot be sent again. */
    method Redirect(r: Response) returns (error: HttpError)
      requires Valid() && ShouldRedirect(r)
      modifies this
      ensures Valid() && Total() <= old(connects) + old(Left())
      ensures (forall n :: pool(n)) && r.location == Some(true)
              && old(At(connects, attempt, redirects, context.Some?)) ==>
                At(old(connects) + 1, 0, old(redirects) + 1, false) && error == HeNone
      ensures error == if r.code == 303 || !old(hasDocument) || rewinds(old(rewound)) then HeNone else HeStream
      ensures error == HeNone ==> redirects == old(redirects) + 1 && context.None?
      ensures error == HeNone && r.code == 303 ==> verb == Get && !hasDocument
      ensures error == HeNone && r.location == Some(false) ==> LookingUp(old(connects), 0)
      ensures error == HeStream ==> connects == old(connects) && attempt == old(attempt)
                                    && redirects == old(redirects) && context == old(context)
                                    && phase == Over(HeStream)
      decreases MAX_REDIRECTS - redirects, if context.None? then 1 else 0, retries - attempt, 0
    {
      resolved := r.location.value;
      if r.code == 303 {
        verb, hasDocument := Get, false;
      } else {
        var again := CanReplay();
        if !again {
          phase := Over(HeStream);
          return HeStream;
        }
      }
      redirects, context := redirects + 1, None;
      Start();
      return HeNone;
    }

    /** Answers the first challenge that can be answered. */
    method AnswerChallenges(r: Response) returns (started: bool, error: HttpError)
      requires Valid()
      modifies this
      ensures Valid() && Total() <= old(connects) + old(Left()) + (if phase == Resolving then 1 else 0)
      ensures started || connects == old(connects)
      ensures started ==> Total() <= old(connects) + old(Left()) && error == HeNone
      // Exactly the first challenge that is not ignored is answered, if it can be and the document can
      // be sent again.
      ensures var answered := FirstAnswer(r.challenges, 0, old(context), hasUsername);
              && (started <==> answered.Some? && (!old(hasDocument) || rewinds(old(rewound))))
              && (!started ==> error == if answered.Some? then HeStream else HeNone)
              && (!started && answered.None? ==> context == old(context))
      ensures redirects == old(redirects) && verb == old(verb) && hasDocument == old(hasDocument)
      ensures !started ==> attempt == old(attempt)
      ensures (forall n :: pool(n)) && old(At(connects, attempt, redirects, context.Some?)) && started ==>
                At(old(connects) + 1, 0, old(redirects), true)
      decreases MAX_REDIRECTS - redirects, if context.None? then 1 else 0, retries - attempt, 0
    {
      hide Rounds, LookingUp, AuthOf;
      error, started := HeNone, false;
      ghost var answered := FirstAnswer(r.challenges, 0, context, hasUsername);
      for i := 0 to |r.challenges|
        invariant Valid() && Left() <= old(Left()) && connects == old(connects) && phase == old(phase)
        invariant redirects == old(redirects) && attempt == old(attempt) && resolved == old(resolved)
        invariant verb == old(verb) && hasDocument == old(hasDocument) && !started
        invariant old(context).Some? ==> context.Some?
        invariant error == HeNone ==> context == old(context) && rewound == old(rewound)
        invariant error == HeNone ==> answered == FirstAnswer(r.challenges, i, context, hasUsername)
        invariant error != HeNone ==> error == HeStream && answered.Some? && context.Some?
                                      && old(hasDocument) && !rewinds(old(rewound))
      {
        var result := Authenticate(r.challenges[i]);
        if result == HarResponse {
          var again := CanReplay();
          if !again {
            error := HeStream;
          } else {
            Start();
            return true, HeNone;
          }
        } else if result != HarIgnore {
          break;
        }
      }
    }

    method GoOn(mode: Mode)
      requires Valid() && mode != HmNone
      modifies this`phase
      ensures Valid() && phase == UnderWay(mode) && Total() == connects + old(Left())
      ensures old(At(connects, attempt, redirects, context.Some?)) ==>
                At(connects, attempt, redirects, context.Some?)
    {
      phase := UnderWay(mode);
    }

    /** The end of a request that went well: its response may ask for another one. */
    method OnResponse(r: Response) returns (more: bool, error: HttpError)
      requires Valid()
      modifies this
      ensures Valid() && Total() <= old(connects) + old(Left()) + (if more || phase != Resolving then 0 else 1)
      ensures !more ==> Left() <= old(Left()) && connects == old(connects) && attempt == old(attempt)
                        && redirects == old(redirects)
      ensures var again := !old(hasDocument) || rewinds(old(rewound));
              if Follows(action, old(verb), old(redirects), r) then
                && more == (r.code == 303 || again) && error == (if more then HeNone else HeStream)
                && (more ==> redirects == old(redirects) + 1 && context.None?
                             && (r.code == 303 ==> verb == Get && !hasDocument))
                && (!more ==> context == old(context))
              else if r.code == 407 && httpsProxy then
                var answered := FirstAnswer(r.challenges, 0, old(context), hasUsername);
                && more == (answered.Some? && again)
                && error == (if answered.Some? && !again then HeStream else HeNone)
                && redirects == old(redirects) && verb == old(verb) && hasDocument == old(hasDocument)
                && (answered.None? ==> context == old(context))
              else
                && !more && error == HeNone
                && redirects == old(redirects) && verb == old(verb) && hasDocument == old(hasDocument)
                && context == old(context)
      ensures (forall n :: pool(n)) && old(At(connects, attempt, redirects, context.Some?)) && more ==>
                if Follows(action, old(verb), old(redirects), r) then
                  r.location == Some(true) ==> At(old(connects) + 1, 0, old(redirects) + 1, false)
                else At(old(connects) + 1, 0, old(redirects), true)
      decreases MAX_REDIRECTS - redirects, if context.None? then 1 else 0, retries - attempt, 1
    {
      hide At, Rounds, LookingUp, FirstAnswer, Follows;
      RedirectIff(r);
      more, error := false, HeNone;
      if ShouldRedirect(r) {
        error := Redirect(r);
        more := error == HeNone;
      } else if r.code == 407 && httpsProxy {
        more, error := AnswerChallenges(r);
      }
    }

    /** The end of a connect, a send or a receive, with the response as far as it has come. */
    method OnHttpComplete(mode: Mode, error: HttpError, r: Response)
      requires Valid()
      modifies this
      ensures Valid()
      ensures Total() <= old(connects) + old(Left())
      ensures IsTransient(error) && r.code == 500 && old(attempt) < retries && !old(resolved) && !old(hasDocument) ==>
                LookingUp(old(connects), old(attempt) + 1)
      // What is under way goes on: after the connection the request, then the response.
      ensures error == HeNone && (mode == HmConnect || mode == HmSend) ==>
                && phase == UnderWay(if mode == HmConnect then HmSend else HmRecv)
                && (old(At(connects, attempt, redirects, context.Some?)) ==>
                      At(old(connects), old(attempt), old(redirects), old(context).Some?))
      // Each decision, as DecideMeans names them.
      ensures var d := Decide(mode, error, r, old(attempt) < retries, Follows(action, old(verb), old(redirects), r),
                              httpsProxy);
              var again := !old(hasDocument) || rewinds(old(rewound));
              && (!d.Follow? ==> redirects == old(redirects) && verb == old(verb) && hasDocument == old(hasDocument))
              && (!d.Follow? && !d.AnswerProxy? ==> context == old(context))
              && match d
                 case Finish(e) => Ended(e, old(connects), old(attempt), old(redirects), old(context))
                 case GoOnWith(m) => phase == UnderWay(m) && connects == old(connects) && attempt == old(attempt)
                 case TryAgain =>
                   && attempt > old(attempt)
                   && (!again ==> Ended(HeStream, old(connects), old(attempt) + 1, old(redirects), old(context)))
                 case Follow =>
                   if r.code == 303 || again then
                     redirects == old(redirects) + 1 && (r.code == 303 ==> verb == Get && !hasDocument)
                   else Ended(HeStream, old(connects), old(attempt), old(redirects), old(context))
                 case AnswerProxy =>
                   var answered := FirstAnswer(r.challenges, 0, old(context), hasUsername);
                   && (answered.None? ==> Ended(HeNone, old(connects), old(attempt), old(redirects), old(context)))
                   && (answered.Some? && !again ==> phase == Over(HeStream) && connects == old(connects))
      // With a pool that gives streams, what is to be repeated is under way again.
      ensures (forall n :: pool(n)) && old(At(connects, attempt, redirects, context.Some?)) ==>
                match Decide(mode, error, r, old(attempt) < retries, Follows(action, old(verb), old(redirects), r),
                             httpsProxy)
                case TryAgain => At(old(connects) + 1, old(attempt) + 1, old(redirects), old(context).Some?)
                case Follow => r.location == Some(true) ==> At(old(connects) + 1, 0, old(redirects) + 1, false)
                case AnswerProxy =>
                  FirstAnswer(r.challenges, 0, old(context), hasUsername).Some? ==>
                    At(old(connects) + 1, 0, old(redirects), true)
                case _ => true
      decreases MAX_REDIRECTS - redirects, if context.None? then 1 else 0, retries - attempt, 2
    {
      hide At, Rounds, LookingUp, FirstAnswer, Follows, Total, Left;
      AtHasNoDocument(connects, attempt, redirects, context.Some?);
      var err := error;
      if IsTransient(err) && r.code == 500 && attempt < retries {
        err := Retry();
        if err == HeNone { return; }
      } else if err != HeNone {
      } else if mode == HmConnect {
        GoOn(HmSend);
        return;
      } else if mode == HmSend || IsInformational(r.code) {
        GoOn(HmRecv);
        return;
      } else {
        var more;
        more, err := OnResponse(r);
        if more { return; }
      }
      End(err);
    }

    method End(error: HttpError)
      requires Valid()
      modifies this`phase
      ensures Valid() && phase == Over(error) && Total() == connects + old(Left())
    {
      phase := Over(error);
    }

    lemma AtHasNoDocument(made: nat, tries: nat, followed: nat, authorized: bool)
      ensures At(made, tries, followed, authorized) ==> !hasDocument
    {
    }
  }

  /** Any server and network, for any number of events: one start leads to no more than
      (kMaxRedirects + 1) * 2 * (retries + 1) connections. */
  method AnyServer(retries: nat, action: RedirectAction, httpsProxy: bool, hasUsername: bool, rewinds: nat -> bool,
                   pool: nat -> bool, verb: Verb, hasDocument: bool, resolved: bool, events: nat)
    returns (connects: nat)
    ensures connects <= 12 * (retries + 1)
  {
    var c := new HttpClient(retries, action, httpsProxy, hasUsername, rewinds, pool, verb, hasDocument, resolved);
    RoundsProduct(MAX_REDIRECTS, retries);
    c.Start();
    for i := 0 to events
      invariant fresh(c) && c.Valid() && c.retries == retries
      invariant c.Total() <= (MAX_REDIRECTS + 1) * 2 * (retries + 1)
    {
      var ok: bool, found: bool, error: HttpError, r: Response := *, *, *, *;
      match c.phase {
        case Resolving => c.OnResolveResult(ok, found);
        case UnderWay(mode) => c.OnHttpComplete(mode, error, r);
        case _ =>
      }
    }
    connects := c.connects;
  }

  /** The bound is met: a server that lets every attempt but the last of a start fail, then asks
      for an authorization, and the next time redirects. */
  method WorstServer(retries: nat) returns (connects: nat)
    ensures connects == 12 * (retries + 1)
  {
    var c := new HttpClient(retries, RedirectAlways, true, true, _ => true, _ => true, Get, false, true);
    c.Start();
    var starts := 1;
    var left := 2 * MAX_REDIRECTS + 1;
    while left > 0
      invariant fresh(c) && Willing(c) && c.retries == retries && starts + left == 2 * (MAX_REDIRECTS + 1)
      invariant c.At(c.connects, 0, (starts - 1) / 2, starts % 2 == 0)
      invariant c.connects == (starts - 1) * (retries + 1) + 1
    {
      hide HttpClient.At, Willing;
      OneStart(c);
      NextStart(starts, retries);
      starts, left := starts + 1, left - 1;
    }
    FailAll(c);
    NextStart(starts, retries);
    return c.connects;
  }

  /** All attempts of a start but the last one fail; then a challenge or a redirect makes the next. */
  method OneStart(c: HttpClient)
    requires Willing(c) && c.At(c.connects, 0, c.redirects, c.context.Some?)
    requires c.context.Some? ==> c.redirects < MAX_REDIRECTS
    modifies c
    ensures Willing(c)
    ensures c.At(old(c.connects) + c.retries + 1, 0, old(c.redirects) + (if old(c.context).Some? then 1 else 0),
                 old(c.context).None?)
  {
    FailAll(c);
    Deliver(c);
    if c.context.None? {
      c.OnHttpComplete(HmRecv, HeNone, Response(407, None, ["basic"]));
    } else {
      c.OnHttpComplete(HmRecv, HeNone, Response(302, Some(true), []));
    }
  }

  lemma NextStart(starts: nat, retries: nat)
    requires starts > 0
    ensures ((starts - 1) * (retries + 1) + 1) + retries == starts * (retries + 1)
  {
  }

  ghost predicate Willing(c: HttpClient)
    reads c
  {
    c.Valid() && c.action == RedirectAlways && c.httpsProxy && c.hasUsername && forall n :: c.pool(n)
  }

  /** Every attempt of a start fails but for the last. */
  method FailAll(c: HttpClient)
    requires Willing(c) && c.At(c.connects, 0, c.redirects, c.context.Some?)
    modifies c
    ensures Willing(c)
    ensures c.At(old(c.connects) + c.retries, c.retries, old(c.redirects), old(c.context).Some?)
  {
    for i := 0 to c.retries
      invariant Willing(c) && c.At(old(c.connects) + i, i, old(c.redirects), old(c.context).Some?)
    {
      c.OnHttpComplete(c.phase.mode, HeDisconnected, NO_RESPONSE);
    }
  }

  /** The connection is made and the request sent, so that a response can come. */
  method Deliver(c: HttpClient)
    requires Willing(c) && c.At(c.connects, c.attempt, c.redirects, c.context.Some?)
    modifies c
    ensures Willing(c) && c.phase == UnderWay(HmRecv)
    ensures c.At(old(c.connects), old(c.attempt), old(c.redirects), old(c.context).Some?)
  {
    if c.phase.mode == HmConnect {
      c.OnHttpComplete(HmConnect, HeNone, NO_RESPONSE);
    }
    if c.phase.mode == HmSend {
      c.OnHttpComplete(HmSend, HeNone, NO_RESPONSE);
    }
  }
}
