/**
 What a caller of the authorizer is told, seen from the server: over every run, the
 result of a call is the cached token or the fate of the one request the call made.
 */
module OAuthOutcome {
  import opened Bytes
  import opened OAuthRefresh

  /** The goroutine whose step an event is. */
  function Actor(e: Event): Option<nat> {
    match e
    case Call(t, _) => Some(t)
    case Acquire(t) => Some(t)
    case Check(t, _) => Some(t)
    case Serve(t, _, _) => Some(t)
    case Receive(t, _) => Some(t)
    case Revoke => None
  }

  predicate IsAt(s: State, g: nat, pc: Pc) {
    g in s.threads && s.threads[g] == pc
  }

  /** A request of `g` reaches the server, which has a token to hand out that it never did
      before. */
  predicate Reaches(s: State, g: nat, e: Event) {
    && e.Serve? && e.t == g && g in s.threads && s.threads[g].InFlight?
    && e.issued.refresh !in s.server.used && e.issued.refresh != s.server.current
  }

  /** `res` is the fate of the request that event `e` carries out, or not, in state `s`. */
  predicate Fate(s: State, e: Event, res: Result<Token, TokenError>)
    requires e.Serve?
  {
    var refused := e.refusal == Some(RateLimited) || e.refusal == Some(Unreachable);
    && (res == Err(TokenRateLimited) <==> e.refusal == Some(RateLimited))
    && (res == Err(Transport) <==> e.refusal == Some(Unreachable))
    && (res == Err(SessionExpired) <==> !refused && !s.server.live)
    && (res == Ok(e.issued) <==> !refused && s.server.live)
  }

  ghost predicate NoNewCall(g: nat, events: seq<Event>) {
    forall k :: 0 <= k < |events| ==> !(events[k].Call? && events[k].t == g)
  }

  // ----- A step of another goroutine, and one of its own -----

  lemma OthersLeave(s: State, g: nat, e: Event, pc: Pc)
    requires IsAt(s, g, pc) && Actor(e) != Some(g)
    ensures IsAt(Step(s, e), g, pc)
  {
    hide Grant, Received;
  }

  /** Waiting or holding the mutex: only taking it and checking the cached token matter. */
  lemma BeforeCheck(s: State, g: nat, force: bool, e: Event)
    requires IsAt(s, g, Waiting(force)) || IsAt(s, g, Holding(force))
    requires Actor(e) == Some(g) && !e.Call?
    ensures var t := Step(s, e);
            || (&& (IsAt(t, g, Waiting(force)) || IsAt(t, g, Holding(force)))
                && !(e.Check? && IsAt(s, g, Holding(force))))
            || (e.Check? && IsAt(t, g, InFlight(s.mem.tok.refresh)) && (force || !e.valid)
                && IsAt(s, g, Holding(force)))
            || (e.Check? && IsAt(t, g, Returned(Ok(s.mem.tok))) && !force && e.valid && IsAt(s, g, Holding(force)))
  {
    hide Grant, Received;
  }

  lemma WhileInFlight(s: State, g: nat, presented: nat, e: Event)
    requires Inv(s) && IsAt(s, g, InFlight(presented)) && Actor(e) == Some(g)
    ensures !Reaches(s, g, e) ==> IsAt(Step(s, e), g, InFlight(presented))
    ensures Reaches(s, g, e) ==> exists reply :: IsAt(Step(s, e), g, Answered(reply)) && TellsFate(s, e, reply)
  {
    if Reaches(s, g, e) {
      assert presented == s.server.current && s.server.current !in s.server.used;
      hide Inv;
      var reply := Grant(s.server, presented, e.issued, e.refusal).1;
      GrantTells(s, e);
      assert IsAt(Step(s, e), g, Answered(reply)) && TellsFate(s, e, reply);
    }
  }

  lemma GrantTells(s: State, e: Event)
    requires e.Serve? && s.server.current !in s.server.used
    ensures TellsFate(s, e, Grant(s.server, s.server.current, e.issued, e.refusal).1)
  {
  }

  /** However and whenever the reply is taken, the caller learns the request's fate. */
  ghost predicate TellsFate(s: State, e: Event, reply: Reply)
    requires e.Serve?
  {
    forall m: Memory, saved: bool :: Fate(s, e, Received(m, reply, saved).1)
  }

  lemma WhileAnswered(s: State, g: nat, reply: Reply, e: Event)
    requires IsAt(s, g, Answered(reply)) && Actor(e) == Some(g)
    ensures IsAt(Step(s, e), g, Answered(reply))
            || exists m: Memory, saved: bool :: IsAt(Step(s, e), g, Returned(Received(m, reply, saved).1))
  {
  }

  lemma OnceReturned(s: State, g: nat, res: Result<Token, TokenError>, e: Event)
    requires IsAt(s, g, Returned(res)) && Actor(e) == Some(g) && !e.Call?
    ensures IsAt(Step(s, e), g, Returned(res))
  {
    hide Grant, Received;
  }

  // ----- The rest of a call -----

  lemma FewerEvents(g: nat, events: seq<Event>)
    requires events != [] && NoNewCall(g, events)
    ensures NoNewCall(g, events[1..]) && !(events[0].Call? && events[0].t == g)
  {
    assert forall k :: 0 <= k < |events[1..]| ==> events[1..][k] == events[k + 1];
  }

  /** The requests of `g` that reach the server in the course of a run, and the server's
      state when they do. */
  function Requests(s: State, g: nat, events: seq<Event>): seq<(State, Event)>
    ensures forall k :: 0 <= k < |Requests(s, g, events)| ==> Requests(s, g, events)[k].1.Serve?
    decreases |events|
  {
    if events == [] then []
    else
      (if Reaches(s, g, events[0]) then [(s, events[0])] else []) + Requests(Step(s, events[0]), g, events[1..])
  }

  /** When `g`, holding the mutex, checks the cached token, and whether it has time left. */
  function Checks(s: State, g: nat, events: seq<Event>): seq<(State, bool)>
    decreases |events|
  {
    if events == [] then []
    else
      var e := events[0];
      (if e.Check? && e.t == g && g in s.threads && s.threads[g].Holding? then [(s, e.valid)] else [])
      + Checks(Step(s, e), g, events[1..])
  }

  lemma {:induction false} StaysReturned(s: State, g: nat, res: Result<Token, TokenError>, events: seq<Event>)
    requires IsAt(s, g, Returned(res)) && NoNewCall(g, events)
    ensures IsAt(Run(s, events), g, Returned(res))
    ensures Requests(s, g, events) == [] && Checks(s, g, events) == []
    decreases |events|
  {
    hide Step;
    if events != [] {
      FewerEvents(g, events);
      if Actor(events[0]) == Some(g) {
        OnceReturned(s, g, res, events[0]);
      } else {
        OthersLeave(s, g, events[0], Returned(res));
      }
      StaysReturned(Step(s, events[0]), g, res, events[1..]);
    }
  }

  /** A goroutine with its answer returns what the answer says, whenever it takes it. */
  lemma {:induction false} AnswerReturns(s: State, g: nat, reply: Reply, asked: State, e: Event, events: seq<Event>)
    requires IsAt(s, g, Answered(reply)) && NoNewCall(g, events) && e.Serve? && TellsFate(asked, e, reply)
    ensures var t := Run(s, events); g in t.threads && (t.threads[g].Returned? ==> Fate(asked, e, t.threads[g].res))
    ensures Requests(s, g, events) == [] && Checks(s, g, events) == []
    decreases |events|
  {
    hide Step, Received, Fate;
    if events != [] {
      FewerEvents(g, events);
      var t := Step(s, events[0]);
      if Actor(events[0]) != Some(g) {
        OthersLeave(s, g, events[0], Answered(reply));
      } else {
        WhileAnswered(s, g, reply, events[0]);
      }
      if IsAt(t, g, Answered(reply)) {
        AnswerReturns(t, g, reply, asked, e, events[1..]);
      } else {
        var m: Memory, saved: bool :| IsAt(t, g, Returned(Received(m, reply, saved).1));
        StaysReturned(t, g, Received(m, reply, saved).1, events[1..]);
      }
    }
  }

  /** A goroutine with a request under way returns that request's fate. */
  lemma {:induction false} RequestReturns(s: State, g: nat, presented: nat, events: seq<Event>)
    requires Inv(s) && IsAt(s, g, InFlight(presented)) && NoNewCall(g, events)
    ensures g in Run(s, events).threads && Checks(s, g, events) == []
    ensures var t, asked := Run(s, events), Requests(s, g, events);
            t.threads[g].Returned? ==> |asked| == 1 && Fate(asked[0].0, asked[0].1, t.threads[g].res)
    decreases |events|
  {
    hide Step, Received, Fate, Inv, Reaches, TellsFate;
    if events != [] {
      FewerEvents(g, events);
      var e, t := events[0], Step(s, events[0]);
      StepKeeps(s, e);
      if Actor(e) == Some(g) {
        WhileInFlight(s, g, presented, e);
      } else {
        OthersLeave(s, g, e, InFlight(presented));
        assert !Reaches(s, g, e) by { NotMine(s, g, e); }
      }
      if Reaches(s, g, e) {
        IsServe(s, g, e);
        var reply :| IsAt(t, g, Answered(reply)) && TellsFate(s, e, reply);
        AnswerReturns(t, g, reply, s, e, events[1..]);
      } else {
        RequestReturns(t, g, presented, events[1..]);
      }
    }
  }

  lemma NotMine(s: State, g: nat, e: Event)
    requires Actor(e) != Some(g)
    ensures !Reaches(s, g, e)
  {
  }

  lemma IsServe(s: State, g: nat, e: Event)
    requires Reaches(s, g, e)
    ensures e.Serve?
  {
  }

  /** What a call that returns has done and been told. */
  ghost predicate Explains(s: State, g: nat, force: bool, events: seq<Event>) {
    var t, looked, asked := Run(s, events), Checks(s, g, events), Requests(s, g, events);
    g in t.threads && (t.threads[g].Returned? ==>
      && |looked| == 1
      && if !force && looked[0].1
         then asked == [] && t.threads[g].res == Ok(looked[0].0.mem.tok)
              && looked[0].0.mem.tok.refresh == looked[0].0.server.current
         else |asked| == 1 && Fate(asked[0].0, asked[0].1, t.threads[g].res))
  }

  lemma {:induction false} CallReturns(s: State, g: nat, force: bool, events: seq<Event>)
    requires Inv(s) && (IsAt(s, g, Waiting(force)) || IsAt(s, g, Holding(force))) && NoNewCall(g, events)
    ensures Explains(s, g, force, events)
    decreases |events|
  {
    hide Step, Received, Fate, Inv, Reaches;
    if events != [] {
      FewerEvents(g, events);
      var e, t, more := events[0], Step(s, events[0]), events[1..];
      StepKeeps(s, e);
      NotUnderWay(s, g, e);
      if Actor(e) == Some(g) {
        BeforeCheck(s, g, force, e);
        if IsAt(t, g, InFlight(s.mem.tok.refresh)) {
          RequestReturns(t, g, s.mem.tok.refresh, more);
        } else if IsAt(t, g, Returned(Ok(s.mem.tok))) {
          StaysReturned(t, g, Ok(s.mem.tok), more);
          HolderAgrees(s, g);
        } else {
          CallReturns(t, g, force, more);
        }
      } else {
        OthersLeave(s, g, e, if IsAt(s, g, Waiting(force)) then Waiting(force) else Holding(force));
        CallReturns(t, g, force, more);
      }
    }
  }

  lemma NotUnderWay(s: State, g: nat, e: Event)
    requires g in s.threads && !s.threads[g].InFlight?
    ensures !Reaches(s, g, e)
  {
  }

  /** The goroutine that holds the mutex finds the server's current token in memory. */
  lemma HolderAgrees(s: State, g: nat)
    requires Inv(s) && g in s.threads && s.threads[g].Holding?
    ensures s.mem.tok.refresh == s.server.current
  {
  }

  /** Over every run and whatever the other goroutines do, a call by `g` that returns has
      looked at the cached token once.  Unforced and with time left on that token, it made
      no request and got that token, the server's current one.  Otherwise exactly one
      request of it reached the server, and it is told the fate of that request: too many
      requests, no delivery, an ended session, or the very token that was issued. */
  lemma CallsAreTold(start: State, before: seq<Event>, g: nat, force: bool, events: seq<Event>)
    requires Start(start) && IsAt(Run(start, before), g, Waiting(force)) && NoNewCall(g, events)
    ensures Explains(Run(start, before), g, force, events)
  {
    hide Explains;
    RunKeeps(start, before);
    CallReturns(Run(start, before), g, force, events);
  }

  // ----- Which token is in memory and in the store -----

  /** Event `e` hands out its token. */
  predicate Grants(s: State, e: Event) {
    && e.Serve? && Reaches(s, e.t, e) && s.server.live
    && e.refusal != Some(RateLimited) && e.refusal != Some(Unreachable)
  }

  /** The last token handed out in the course of a run, `last` before it. */
  function Issued(s: State, last: Token, events: seq<Event>): Token
    decreases |events|
  {
    if events == [] then last
    else Issued(Step(s, events[0]), if Grants(s, events[0]) then events[0].issued else last, events[1..])
  }

  /** A granted answer is taken and its token stored. */
  predicate Stores(s: State, e: Event) {
    && e.Receive? && e.saved && e.t in s.threads
    && s.threads[e.t].Answered? && s.threads[e.t].reply.Granted?
  }

  /** The last token in memory when it was stored, `last` before the run. */
  function Stored(s: State, last: Token, events: seq<Event>): Token
    decreases |events|
  {
    if events == [] then last
    else
      var t := Step(s, events[0]);
      Stored(t, if Stores(s, events[0]) then t.mem.tok else last, events[1..])
  }

  /** `last` is in memory, or on its way to the goroutine that holds the mutex. */
  predicate Latest(s: State, last: Token) {
    if s.lock.Some? && s.lock.value in s.threads && s.threads[s.lock.value].Answered?
       && s.threads[s.lock.value].reply.Granted?
    then s.threads[s.lock.value].reply.tok == last
    else s.mem.tok == last
  }

  lemma LatestStep(s: State, last: Token, e: Event)
    requires Inv(s) && Latest(s, last)
    ensures Latest(Step(s, e), if Grants(s, e) then e.issued else last)
    ensures Step(s, e).mem.stored == if Stores(s, e) then Step(s, e).mem.tok else s.mem.stored
  {
  }

  lemma GrantIsServe(s: State, e: Event)
    ensures Grants(s, e) ==> e.Serve?
  {
  }

  lemma {:induction false} RunLatest(s: State, last: Token, events: seq<Event>)
    requires Inv(s) && Latest(s, last)
    ensures Latest(Run(s, events), Issued(s, last, events))
    ensures Run(s, events).mem.stored == Stored(s, s.mem.stored, events)
    decreases |events|
  {
    hide Step, Grants, Stores, Inv, Latest;
    if events != [] {
      var e := events[0];
      StepKeeps(s, e);
      LatestStep(s, last, e);
      GrantIsServe(s, e);
      RunLatest(Step(s, e), if Grants(s, e) then e.issued else last, events[1..]);
    }
  }

  /** Over every run, whenever the mutex is free the token in memory is the last one the
      server handed out, and the stored one is the last that was in memory when a save
      succeeded. */
  lemma MemoryIsLatest(start: State, events: seq<Event>)
    requires Start(start)
    ensures var t := Run(start, events);
            && (t.lock.None? ==> t.mem.tok == Issued(start, start.mem.tok, events))
            && t.mem.stored == Stored(start, start.mem.tok, events)
  {
    RunLatest(start, start.mem.tok, events);
  }

  // ----- Why it matters -----

  /** A refresh token presented a second time ends the session, so what NeverReused rules
      out would be noticed by every later call. */
  lemma ReuseEndsSession(s: Server, presented: nat, issued: Token)
    requires presented in s.used
    ensures var (after, reply) := Grant(s, presented, issued, None);
            && !after.live && reply == InvalidGrant
            && forall next: nat, tok: Token :: Grant(after, next, tok, None).1 == InvalidGrant
  {
  }
}
