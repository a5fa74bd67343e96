/**
 Refresh-token rotation under a mutex.  Goroutines ask one authorizer for tokens; the
 server hands out a new refresh token with every refresh and rejects the old ones.
 Runs are interleavings of the goroutines' steps.
 */
module OAuthRefresh {
  import opened Bytes

  datatype Token = Token(access: nat, refresh: nat)

  /** What the token endpoint answers; `Unreachable` and `RateLimited` requests were not
      carried out. */
  datatype Reply = Granted(tok: Token) | InvalidGrant | RateLimited | Unreachable

  datatype TokenError = SessionExpired | TokenRateLimited | Transport

  // ----- The authorization server -----

  /** `used` are the refresh tokens that have been exchanged. */
  datatype Server = Server(current: nat, live: bool, used: set<nat>)

  predicate Refusal(r: Reply) {
    r == RateLimited || r == Unreachable
  }

  /** One token request: refused without effect, rejected, or granted with `issued`.
      A used token ends the session. */
  function Grant(s: Server, presented: nat, issued: Token, refusal: Option<Reply>): (r: (Server, Reply))
  {
    if refusal.Some? && Refusal(refusal.value) then (s, refusal.value)
    else if presented in s.used then (s.(live := false), InvalidGrant)
    else if !s.live || presented != s.current then (s, InvalidGrant)
    else (Server(issued.refresh, true, s.used + {presented}), Granted(issued))
  }

  // ----- The authorizer's memory -----

  /** The cached token, the session it belongs to, the session last stored, and whether
      the latest attempt to store it succeeded. */
  datatype Memory = Memory(tok: Token, sess: Token, stored: Token, saved: bool)

  function Received(m: Memory, reply: Reply, saved: bool): (r: (Memory, Result<Token, TokenError>)) {
    match reply
    case Granted(tok) => (Memory(tok, tok, if saved then tok else m.stored, saved), Ok(tok))
    case InvalidGrant => (m, Err(SessionExpired))
    case RateLimited => (m, Err(TokenRateLimited))
    case Unreachable => (m, Err(Transport))
  }

  /** Everything the goroutines share. */
  datatype Shared = Shared(mem: Memory, server: Server)

  /** One undisturbed call of `token`: `valid` says whether the cached access token has
      time left, `issued` and `refusal` what the server would answer with, `savable`
      whether storing works. */
  function TokenCall(x: Shared, force: bool, valid: bool, issued: Token, refusal: Option<Reply>, savable: bool)
    : (r: (Shared, Result<Token, TokenError>))
  {
    if !force && valid then (x, Ok(x.mem.tok))
    else
      var (server, reply) := Grant(x.server, x.mem.tok.refresh, issued, refusal);
      var (mem, res) := Received(x.mem, reply, savable);
      (Shared(mem, server), res)
  }

  /** The authorizer with the mutex held: one call of `token` from check to return. */
  class OAuthAuthorizer {
    var tok: Token
    var sess: Token
    var stored: Token
    var saved: bool

    function State(): Memory
      reads this
    {
      Memory(tok, sess, stored, saved)
    }

    constructor (session: Token)
      ensures State() == Memory(session, session, session, true)
    {
      tok, sess, stored, saved := session, session, session, true;
    }

    /** The code between taking and releasing the mutex has the effect of one call. */
    method GetToken(force: bool, valid: bool, server: Server, issued: Token, refusal: Option<Reply>, savable: bool)
      returns (res: Result<Token, TokenError>, after: Server)
      modifies this
      ensures (Shared(State(), after), res) ==
              TokenCall(Shared(old(State()), server), force, valid, issued, refusal, savable)
    {
      after := server;
      if !force && valid {
        return Ok(tok), after;
      }
      var (now, reply) := Grant(server, tok.refresh, issued, refusal);
      after := now;
      if !reply.Granted? {
        if reply == InvalidGrant {
          return Err(SessionExpired), after;
        }
        return Err(if reply == RateLimited then TokenRateLimited else Transport), after;
      }
      tok := reply.tok;
      sess := tok;
      saved := savable;
      if savable {
        stored := sess;
      }
      return Ok(tok), after;
    }
  }

  // ----- Interleavings -----

  /** Where a goroutine is in its call. */
  datatype Pc =
    | Waiting(force: bool)
    | Holding(force: bool)
    | InFlight(presented: nat)
    | Answered(reply: Reply)
    | Returned(res: Result<Token, TokenError>)

  datatype State = State(threads: map<nat, Pc>, lock: Option<nat>, mem: Memory, server: Server)

  /** A goroutine starts a call (ForceRefresh with `force`, Authorize and BearerToken
      without), gets the mutex, checks the cached token, has its request carried out,
      and takes the answer; or the server revokes the session. */
  datatype Event =
    | Call(t: nat, force: bool)
    | Acquire(t: nat)
    | Check(t: nat, valid: bool)
    | Serve(t: nat, issued: Token, refusal: Option<Reply>)
    | Receive(t: nat, saved: bool)
    | Revoke

  predicate Busy(pc: Pc) {
    pc.Holding? || pc.InFlight? || pc.Answered?
  }

  function Step(s: State, e: Event): State {
    match e
    case Call(t, force) =>
      if t !in s.threads || s.threads[t].Returned? then s.(threads := s.threads[t := Waiting(force)]) else s
    case Acquire(t) =>
      if t in s.threads && s.threads[t].Waiting? && s.lock.None?
      then s.(threads := s.threads[t := Holding(s.threads[t].force)], lock := Some(t))
      else s
    case Check(t, valid) =>
      if t in s.threads && s.threads[t].Holding? then
        if !s.threads[t].force && valid
        then s.(threads := s.threads[t := Returned(Ok(s.mem.tok))], lock := None)
        else s.(threads := s.threads[t := InFlight(s.mem.tok.refresh)])
      else s
    case Serve(t, issued, refusal) =>
      if t in s.threads && s.threads[t].InFlight?
         && issued.refresh !in s.server.used && issued.refresh != s.server.current
      then
        var (server, reply) := Grant(s.server, s.threads[t].presented, issued, refusal);
        s.(threads := s.threads[t := Answered(reply)], server := server)
      else s
    case Receive(t, saved) =>
      if t in s.threads && s.threads[t].Answered? then
        var (mem, res) := Received(s.mem, s.threads[t].reply, saved);
        s.(threads := s.threads[t := Returned(res)], lock := None, mem := mem)
      else s
    case Revoke => s.(server := s.server.(live := false))
  }

  function Run(s: State, events: seq<Event>): State
    decreases |events|
  {
    if events == [] then s else Run(Step(s, events[0]), events[1..])
  }

  /** The process starts from the stored session, which the server honours. */
  predicate Start(s: State) {
    && s.threads == map[] && s.lock.None?
    && s.mem.tok == s.mem.sess == s.mem.stored && s.mem.saved
    && s.server.current == s.mem.tok.refresh && s.server.current !in s.server.used
  }

  /** Memory and server agree, except while the answer to a granted refresh is on its
      way to the goroutine that holds the mutex. */
  predicate Agree(s: State) {
    if s.lock.Some? && s.lock.value in s.threads && s.threads[s.lock.value].Answered?
       && s.threads[s.lock.value].reply.Granted?
    then s.threads[s.lock.value].reply.tok.refresh == s.server.current
    else s.mem.tok.refresh == s.server.current
  }

  predicate Exclusive(s: State) {
    && (s.lock.Some? ==> s.lock.value in s.threads && Busy(s.threads[s.lock.value]))
    && forall t :: t in s.threads && Busy(s.threads[t]) ==> s.lock == Some(t)
  }

  /** What goroutines have seen is explained by the server's state. */
  predicate Explained(s: State) {
    forall t :: t in s.threads ==>
      match s.threads[t]
      case InFlight(p) => p == s.server.current
      case Answered(reply) => reply == InvalidGrant ==> !s.server.live
      case Returned(res) => res == Err(SessionExpired) ==> !s.server.live
      case _ => true
  }

  predicate Inv(s: State) {
    && s.server.current !in s.server.used
    && s.mem.sess == s.mem.tok && (s.mem.saved ==> s.mem.stored == s.mem.sess)
    && Exclusive(s) && Agree(s) && Explained(s)
  }

  lemma {:induction false} StepKeeps(s: State, e: Event)
    requires Inv(s)
    ensures Inv(Step(s, e)) && s.server.used <= Step(s, e).server.used
    ensures !s.server.live ==> !Step(s, e).server.live
  {
  }

  /** Over every interleaving. */
  lemma {:induction false} RunKeeps(s: State, events: seq<Event>)
    requires Inv(s)
    ensures Inv(Run(s, events)) && s.server.used <= Run(s, events).server.used
    decreases |events|
  {
    if events != [] {
      StepKeeps(s, events[0]);
      RunKeeps(Step(s, events[0]), events[1..]);
    }
  }

  /** Whatever the interleaving, whenever the mutex is free the token in memory is the
      server's current one, and so is the stored one if the latest save succeeded. */
  lemma RestsInAgreement(s: State, events: seq<Event>)
    requires Start(s)
    ensures var t := Run(s, events);
            t.lock.None? ==> t.mem.tok.refresh == t.server.current && (t.mem.saved ==> t.mem.stored == t.mem.tok)
  {
    RunKeeps(s, events);
  }

  /** No refresh token is presented after the server has rotated it: a request on its way
      always carries the current one. */
  lemma NeverReused(s: State, events: seq<Event>, g: nat)
    requires Start(s)
    ensures var t := Run(s, events);
            g in t.threads && t.threads[g].InFlight? ==>
              t.threads[g].presented == t.server.current && t.threads[g].presented !in t.server.used
  {
    RunKeeps(s, events);
  }

  /** A caller is told the session has expired only if the server did end it. */
  lemma ExpiryIsReal(s: State, events: seq<Event>, g: nat)
    requires Start(s)
    ensures var t := Run(s, events);
            g in t.threads && t.threads[g] == Returned(Err(SessionExpired)) ==> !t.server.live
  {
    RunKeeps(s, events);
  }

  /** At most one goroutine at a time is past the mutex, so refreshes never overlap. */
  lemma OneRefreshAtATime(s: State, events: seq<Event>, g: nat, h: nat)
    requires Start(s)
    ensures var t := Run(s, events);
            g in t.threads && h in t.threads && Busy(t.threads[g]) && Busy(t.threads[h]) ==> g == h
  {
    RunKeeps(s, events);
  }

  /** The server ends a session only by revoking it: nothing the goroutines do can. */
  lemma {:induction false} SessionSurvives(s: State, events: seq<Event>)
    requires Inv(s) && s.server.live && forall k :: 0 <= k < |events| ==> !events[k].Revoke?
    ensures Run(s, events).server.live
    decreases |events|
  {
    if events != [] {
      StepKeeps(s, events[0]);
      assert Step(s, events[0]).server.live;
      assert forall k :: 0 <= k < |events[1..]| ==> events[1..][k] == events[k + 1];
      SessionSurvives(Step(s, events[0]), events[1..]);
    }
  }

  // ----- One call after another -----

  /** A completed call by goroutine `caller`, with what its steps were told, or the server
      ending the session. */
  datatype Op =
    | Called(caller: nat, force: bool, valid: bool, issued: Token, refusal: Option<Reply>, saved: bool)
    | Revocation

  function After(x: Shared, op: Op): Shared {
    match op
    case Called(_, force, valid, issued, refusal, saved) => TokenCall(x, force, valid, issued, refusal, saved).0
    case Revocation => x.(server := x.server.(live := false))
  }

  /** The operations executed one after another, each call undisturbed. */
  function Serial(x: Shared, ops: seq<Op>): Shared {
    if ops == [] then x else After(Serial(x, ops[..|ops| - 1]), ops[|ops| - 1])
  }

  /** What goroutine `g` got from its latest call, executed that way. */
  function Outcome(x: Shared, ops: seq<Op>, g: nat): Option<Result<Token, TokenError>> {
    if ops == [] then None
    else
      var last, earlier := ops[|ops| - 1], ops[..|ops| - 1];
      if last.Called? && last.caller == g then
        Some(TokenCall(Serial(x, earlier), last.force, last.valid, last.issued, last.refusal, last.saved).1)
      else Outcome(x, earlier, g)
  }

  function Callers(ops: seq<Op>): seq<nat> {
    if ops == [] then []
    else
      var last := ops[|ops| - 1];
      Callers(ops[..|ops| - 1]) + if last.Called? then [last.caller] else []
  }

  /** What has been observed of the call that holds the mutex. */
  datatype Phase =
    | Idle
    | Asked(force: bool, valid: bool)
    | Answering(force: bool, valid: bool, issued: Token, refusal: Option<Reply>, revoked: bool)

  /** The completed operations of a run, the call in progress, and the goroutines that
      took the mutex, in the order they took it. */
  datatype History = History(ops: seq<Op>, phase: Phase, acquired: seq<nat>)

  /** A call is entered when it gives the mutex back; the server ending the session right
      away, unless an answer is on its way: then right after that call. */
  function Record(s: State, h: History, e: Event): History {
    match e
    case Acquire(t) =>
      if t in s.threads && s.threads[t].Waiting? && s.lock.None? then h.(acquired := h.acquired + [t]) else h
    case Check(t, valid) =>
      if t in s.threads && s.threads[t].Holding? then
        var force := s.threads[t].force;
        if !force && valid
        then h.(ops := h.ops + [Called(t, force, valid, s.mem.tok, None, true)])
        else h.(phase := Asked(force, valid))
      else h
    case Serve(t, issued, refusal) =>
      if h.phase.Asked? && t in s.threads && s.threads[t].InFlight?
         && issued.refresh !in s.server.used && issued.refresh != s.server.current
      then h.(phase := Answering(h.phase.force, h.phase.valid, issued, refusal, false))
      else h
    case Receive(t, saved) =>
      if h.phase.Answering? && t in s.threads && s.threads[t].Answered? then
        var call := Called(t, h.phase.force, h.phase.valid, h.phase.issued, h.phase.refusal, saved);
        History(if h.phase.revoked then h.ops + [call] + [Revocation] else h.ops + [call], Idle, h.acquired)
      else h
    case Revoke =>
      if h.phase.Answering? then h.(phase := h.phase.(revoked := true)) else h.(ops := h.ops + [Revocation])
    case Call(_, _) => h
  }

  function RunHistory(s: State, h: History, events: seq<Event>): History
    decreases |events|
  {
    if events == [] then h else RunHistory(Step(s, events[0]), Record(s, h, events[0]), events[1..])
  }

  lemma SerialLast(x: Shared, ops: seq<Op>, op: Op)
    ensures Serial(x, ops + [op]) == After(Serial(x, ops), op)
    ensures Callers(ops + [op]) == Callers(ops) + if op.Called? then [op.caller] else []
  {
    hide After;
    var all := ops + [op];
    assert all[|all| - 1] == op && all[..|all| - 1] == ops;
  }

  lemma OutcomeLast(x: Shared, ops: seq<Op>, op: Op, g: nat)
    ensures Outcome(x, ops + [op], g) ==
            if op.Called? && op.caller == g
            then Some(TokenCall(Serial(x, ops), op.force, op.valid, op.issued, op.refusal, op.saved).1)
            else Outcome(x, ops, g)
  {
    hide Serial, TokenCall;
    var all := ops + [op];
    assert all[|all| - 1] == op && all[..|all| - 1] == ops;
  }

  function Holder(lock: Option<nat>): seq<nat> {
    if lock.Some? then [lock.value] else []
  }

  /** Between memory and server and the serial execution there is only the call in progress. */
  predicate Serialized(x: Shared, s: State, h: History) {
    var y := Serial(x, h.ops);
    && s.mem == y.mem
    && match h.phase
       case Idle =>
         s.server == y.server && forall t :: t in s.threads ==> !s.threads[t].InFlight? && !s.threads[t].Answered?
       case Asked(force, valid) =>
         && s.server == y.server && (force || !valid)
         && s.lock.Some? && s.lock.value in s.threads
         && s.threads[s.lock.value] == InFlight(y.mem.tok.refresh)
       case Answering(force, valid, issued, refusal, revoked) =>
         var (server, reply) := Grant(y.server, y.mem.tok.refresh, issued, refusal);
         && (force || !valid)
         && s.server == (if revoked then server.(live := false) else server)
         && s.lock.Some? && s.lock.value in s.threads && s.threads[s.lock.value] == Answered(reply)
  }

  /** Every goroutine that has returned got what its latest call gives. */
  predicate Answers(x: Shared, threads: map<nat, Pc>, ops: seq<Op>) {
    forall t :: t in threads && threads[t].Returned? ==> Outcome(x, ops, t) == Some(threads[t].res)
  }

  predicate Linked(x: Shared, s: State, h: History) {
    Serialized(x, s, h) && Answers(x, s.threads, h.ops) && Callers(h.ops) + Holder(s.lock) == h.acquired
  }

  lemma {:induction false} LinkedStep(x: Shared, s: State, h: History, e: Event)
    requires Exclusive(s) && Linked(x, s, h)
    ensures Linked(x, Step(s, e), Record(s, h, e))
  {
    match e
    case Call(t, force) => LinkedCall(x, s, h, t, force);
    case Acquire(t) => LinkedAcquire(x, s, h, t);
    case Check(t, valid) => LinkedCheck(x, s, h, t, valid);
    case Serve(t, issued, refusal) => LinkedServe(x, s, h, t, issued, refusal);
    case Receive(t, saved) => LinkedReceive(x, s, h, t, saved);
    case Revoke => LinkedRevoke(x, s, h);
  }

  lemma {:induction false} LinkedCall(x: Shared, s: State, h: History, t: nat, force: bool)
    requires Exclusive(s) && Linked(x, s, h)
    ensures Linked(x, Step(s, Call(t, force)), Record(s, h, Call(t, force)))
  {
    hide Serial, Outcome, Callers, Grant;
  }

  lemma {:induction false} LinkedAcquire(x: Shared, s: State, h: History, t: nat)
    requires Exclusive(s) && Linked(x, s, h)
    ensures Linked(x, Step(s, Acquire(t)), Record(s, h, Acquire(t)))
  {
    hide Serial, Outcome, Callers, Grant;
  }

  lemma AnswersRevoked(x: Shared, threads: map<nat, Pc>, ops: seq<Op>)
    requires Answers(x, threads, ops)
    ensures Answers(x, threads, ops + [Revocation])
  {
    hide Outcome, Serial;
    forall t | t in threads && threads[t].Returned?
      ensures Outcome(x, ops + [Revocation], t) == Some(threads[t].res)
    {
      OutcomeLast(x, ops, Revocation, t);
    }
  }

  lemma AnswersCalled(x: Shared, threads: map<nat, Pc>, ops: seq<Op>, op: Op)
    requires Answers(x, threads, ops) && op.Called?
    ensures var res := TokenCall(Serial(x, ops), op.force, op.valid, op.issued, op.refusal, op.saved).1;
            Answers(x, threads[op.caller := Returned(res)], ops + [op])
  {
    hide Outcome, Serial, TokenCall;
    var res := TokenCall(Serial(x, ops), op.force, op.valid, op.issued, op.refusal, op.saved).1;
    var after := threads[op.caller := Returned(res)];
    forall t | t in after && after[t].Returned? ensures Outcome(x, ops + [op], t) == Some(after[t].res) {
      OutcomeLast(x, ops, op, t);
    }
  }

  lemma {:induction false} LinkedCheck(x: Shared, s: State, h: History, t: nat, valid: bool)
    requires Exclusive(s) && Linked(x, s, h)
    ensures Linked(x, Step(s, Check(t, valid)), Record(s, h, Check(t, valid)))
  {
    hide Serial, Outcome, Callers, Grant, Answers;
    if t in s.threads && s.threads[t].Holding? && !s.threads[t].force && valid {
      var op := Called(t, false, true, s.mem.tok, None, true);
      SerialLast(x, h.ops, op);
      AnswersCalled(x, s.threads, h.ops, op);
    }
    if t in s.threads && s.threads[t].Holding? && (s.threads[t].force || !valid) {
      AnswersBusy(x, s.threads, h.ops, t, InFlight(s.mem.tok.refresh));
    }
  }

  /** A goroutine that is not done yet need not be explained. */
  lemma AnswersBusy(x: Shared, threads: map<nat, Pc>, ops: seq<Op>, t: nat, pc: Pc)
    requires Answers(x, threads, ops) && !pc.Returned?
    ensures Answers(x, threads[t := pc], ops)
  {
    hide Outcome;
  }

  lemma {:induction false} LinkedServe(x: Shared, s: State, h: History, t: nat, issued: Token, refusal: Option<Reply>)
    requires Exclusive(s) && Linked(x, s, h)
    ensures Linked(x, Step(s, Serve(t, issued, refusal)), Record(s, h, Serve(t, issued, refusal)))
  {
    hide Serial, Outcome, Callers, Grant, Answers;
    if t in s.threads && s.threads[t].InFlight? {
      AnswersBusy(x, s.threads, h.ops, t, Answered(Grant(s.server, s.threads[t].presented, issued, refusal).1));
    }
  }

  lemma {:induction false} LinkedReceive(x: Shared, s: State, h: History, t: nat, saved: bool)
    requires Exclusive(s) && Linked(x, s, h)
    ensures Linked(x, Step(s, Receive(t, saved)), Record(s, h, Receive(t, saved)))
  {
    hide Serial, Outcome, Callers, Answers;
    if h.phase.Answering? && t in s.threads && s.threads[t].Answered? {
      var op := Called(t, h.phase.force, h.phase.valid, h.phase.issued, h.phase.refusal, saved);
      SerialLast(x, h.ops, op);
      SerialLast(x, h.ops + [op], Revocation);
      AnswersCalled(x, s.threads, h.ops, op);
      hide Grant, Received;
      AnswersRevoked(x, Step(s, Receive(t, saved)).threads, h.ops + [op]);
    }
  }

  lemma {:induction false} LinkedRevoke(x: Shared, s: State, h: History)
    requires Exclusive(s) && Linked(x, s, h)
    ensures Linked(x, Step(s, Revoke), Record(s, h, Revoke))
  {
    hide Serial, Outcome, Callers, Grant, Answers;
    SerialLast(x, h.ops, Revocation);
    AnswersRevoked(x, s.threads, h.ops);
  }

  lemma {:induction false} RunLinked(x: Shared, s: State, h: History, events: seq<Event>)
    requires Inv(s) && Linked(x, s, h)
    ensures Linked(x, Run(s, events), RunHistory(s, h, events))
    decreases |events|
  {
    if events != [] {
      StepKeeps(s, events[0]);
      LinkedStep(x, s, h, events[0]);
      hide Step, Record, Linked, Inv;
      RunLinked(x, Step(s, events[0]), Record(s, h, events[0]), events[1..]);
    }
  }

  /** Every interleaving amounts to undisturbed calls one after another, in the order in
      which the mutex was taken: memory is what they leave, so is the server unless an
      answer is on its way, and every goroutine was told what its own call returns. */
  lemma Linearizable(s: State, events: seq<Event>)
    requires Start(s)
    ensures var (t, h) := (Run(s, events), RunHistory(s, History([], Idle, []), events));
            var y := Serial(Shared(s.mem, s.server), h.ops);
            && t.mem == y.mem
            && ((forall g :: g in t.threads ==> !t.threads[g].Answered?) ==> t.server == y.server)
            && (forall g :: g in t.threads && t.threads[g].Returned? ==>
                  Outcome(Shared(s.mem, s.server), h.ops, g) == Some(t.threads[g].res))
            && Callers(h.ops) + Holder(t.lock) == h.acquired
  {
    var h := History([], Idle, []);
    assert Linked(Shared(s.mem, s.server), s, h);
    RunLinked(Shared(s.mem, s.server), s, h, events);
    hide Run, RunHistory, Serial, Outcome, Callers, Grant;
  }
}
