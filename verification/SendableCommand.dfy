/** A command to a Matter device: it needs a session, may be retried once, reports to one callback
    and frees its own context. Which callback comes next is up to the network. */
module SendableCommand {
  import opened Wrappers
  import opened FailingNode

  const MPC_MAX_COMMAND_RETRY := 1

  /** What the command does to the world, in order. */
  datatype Effect =
    | RequestSession
    | SendDone(result: Option<ChipError>)
    | RecoverNode
    | CheckAndMark(error: ChipError)
    | Free

  /** What the network owes the command: an answer to a session request or to an invoke request,
      or nothing more. `Stuck` is a context that nothing will free. */
  datatype Phase = AwaitsSession | AwaitsReply | Freed | Stuck

  /** The callbacks. `sendError` is what the synchronous invoke request returns. */
  datatype Event =
    | Connected(sendError: Option<ChipError>)
    | ConnectFailed(error: ChipError)
    | Succeeded(status: Option<ChipError>)
    | Failed(error: ChipError)

  datatype Command = Command(retries: nat, hasCallback: bool, phase: Phase, trace: seq<Effect>)

  /** A session request is answered once, by either callback; so is an invoke request. */
  predicate Enabled(phase: Phase, e: Event) {
    match phase
    case AwaitsSession => e.Connected? || e.ConnectFailed?
    case AwaitsReply => e.Succeeded? || e.Failed?
    case _ => false
  }

  function Did(c: Command, effects: seq<Effect>): Command {
    c.(trace := c.trace + effects)
  }

  function Notify(c: Command, error: Option<ChipError>): seq<Effect> {
    if c.hasCallback then [SendDone(error)] else []
  }

  function Sent(hasCallback: bool): Command {
    Command(0, hasCallback, AwaitsSession, [RequestSession])
  }

  function Next(c: Command, e: Event): Command
    requires Enabled(c.phase, e)
  {
    match e
    case Connected(err) =>
      if err.None? then c.(phase := AwaitsReply)
      else if c.retries < MPC_MAX_COMMAND_RETRY then
        Did(c.(retries := c.retries + 1, phase := AwaitsSession), [RequestSession])
      else Did(c.(retries := c.retries + 1), [CheckAndMark(err.value)]).(phase := Stuck)
    case ConnectFailed(err) =>
      if c.retries < MPC_MAX_COMMAND_RETRY then Did(c.(retries := c.retries + 1), [RequestSession])
      else Did(c.(retries := c.retries + 1),
               Notify(c, Some(err)) + [CheckAndMark(ConnectionClosedUnexpectedly), Free]).(phase := Freed)
    case Succeeded(status) =>
      Did(c, Notify(c, status) + [RecoverNode, Free]).(phase := Freed)
    case Failed(err) =>
      Did(c, Notify(c, Some(err)) + [CheckAndMark(err), Free]).(phase := Freed)
  }

  /** The context that `Send` spawns. Its callbacks run only while it has not been freed. */
  class Context {
    var mRetryCount: nat
    var mSendDone: bool
    var phase: Phase
    var trace: seq<Effect>

    function State(): Command
      reads this
    {
      Command(mRetryCount, mSendDone, phase, trace)
    }

    constructor Send(callback: bool)
      ensures State() == Sent(callback)
    {
      mRetryCount, mSendDone, phase := 0, callback, AwaitsSession;
      trace := [RequestSession];
    }

    method FindOrEstablishSession()
      modifies this`trace, this`phase
      ensures trace == old(trace) + [RequestSession] && phase == AwaitsSession
    {
      trace, phase := trace + [RequestSession], AwaitsSession;
    }

    method Delete()
      modifies this`trace, this`phase
      ensures trace == old(trace) + [Free] && phase == Freed
    {
      trace, phase := trace + [Free], Freed;
    }

    method CallSendDone(error: Option<ChipError>)
      modifies this`trace
      ensures trace == old(trace) + Notify(old(State()), error)
    {
      if mSendDone {
        trace := trace + [SendDone(error)];
      }
    }

    method OnConnected(err: Option<ChipError>)
      requires phase == AwaitsSession
      modifies this
      ensures State() == Next(old(State()), Connected(err))
    {
      phase := AwaitsReply;
      if err.Some? {
        var retry := mRetryCount < MPC_MAX_COMMAND_RETRY;
        mRetryCount := mRetryCount + 1;
        if retry {
          FindOrEstablishSession();
        } else {
          trace, phase := trace + [CheckAndMark(err.value)], Stuck;
        }
      }
    }

    method OnConnectFailure(error: ChipError)
      requires phase == AwaitsSession
      modifies this
      ensures State() == Next(old(State()), ConnectFailed(error))
    {
      var retry := mRetryCount < MPC_MAX_COMMAND_RETRY;
      mRetryCount := mRetryCount + 1;
      if retry {
        FindOrEstablishSession();
        return;
      }
      CallSendDone(Some(error));
      trace := trace + [CheckAndMark(ConnectionClosedUnexpectedly)];
      Delete();
    }

    method OnSuccess(status: Option<ChipError>)
      requires phase == AwaitsReply
      modifies this
      ensures State() == Next(old(State()), Succeeded(status))
    {
      CallSendDone(status);
      trace := trace + [RecoverNode];
      Delete();
    }

    method OnFailure(error: ChipError)
      requires phase == AwaitsReply
      modifies this
      ensures State() == Next(old(State()), Failed(error))
    {
      CallSendDone(Some(error));
      trace := trace + [CheckAndMark(error)];
      Delete();
    }
  }

  // ---------- every run ----------

  ghost predicate Legal(c: Command, events: seq<Event>)
    decreases |events|
  {
    events == [] || (Enabled(c.phase, events[0]) && Legal(Next(c, events[0]), events[1..]))
  }

  function Run(c: Command, events: seq<Event>): Command
    requires Legal(c, events)
    decreases |events|
  {
    if events == [] then c else Run(Next(c, events[0]), events[1..])
  }

  function Requests(retries: nat): seq<Effect> {
    if retries == 0 then [RequestSession] else [RequestSession, RequestSession]
  }

  /** The traces a command can have made, by the phase it is in. */
  predicate Inv(c: Command) {
    var k, n := |Requests(c.retries)|, |c.trace|;
    && k <= n && c.trace[..k] == Requests(c.retries)
    && match c.phase
       case AwaitsSession => c.retries <= 1 && n == k
       case AwaitsReply => c.retries <= 1 && n == k
       case Stuck => c.retries == 2 && n == k + 1 && c.trace[k].CheckAndMark?
       case Freed =>
         && c.retries <= 2 && n == k + (if c.hasCallback then 3 else 2)
         && (c.hasCallback ==> c.trace[k].SendDone?)
         && (c.trace[n - 2].RecoverNode? || c.trace[n - 2].CheckAndMark?)
         && c.trace[n - 1].Free?
  }

  /** How many callbacks can still come. */
  function Budget(c: Command): int {
    match c.phase
    case AwaitsSession => 3 - c.retries
    case AwaitsReply => 1
    case _ => 0
  }

  lemma NextKeeps(c: Command, e: Event)
    requires Inv(c) && Enabled(c.phase, e)
    ensures Inv(Next(c, e)) && Next(c, e).hasCallback == c.hasCallback
    ensures Budget(Next(c, e)) < Budget(c)
  {
    match e {
      case Connected(err) => assert c.phase.AwaitsSession?;
      case ConnectFailed(err) => assert c.phase.AwaitsSession?;
      case _ => assert c.phase.AwaitsReply?;
    }
  }

  lemma {:induction false} RunKeeps(c: Command, events: seq<Event>)
    requires Inv(c) && Legal(c, events)
    ensures Inv(Run(c, events)) && Run(c, events).hasCallback == c.hasCallback
    ensures |events| <= Budget(c)
    decreases |events|
  {
    if events != [] {
      NextKeeps(c, events[0]);
      RunKeeps(Next(c, events[0]), events[1..]);
    }
  }

  /** Over every run one `Send` ends within three callbacks, makes at most two session requests,
      calls back at most once and frees its context at most once, with nothing done after that. A
      freed command has called any callback it was given; no other command has. */
  lemma {:induction false} CommandSafety(hasCallback: bool, events: seq<Event>)
    requires Legal(Sent(hasCallback), events)
    ensures |events| <= 3
    ensures var c := Run(Sent(hasCallback), events); var t := c.trace;
      && (forall i :: 0 <= i < |t| && t[i].RequestSession? ==> i < 2)
      && (forall i, j :: 0 <= i < j < |t| ==> !(t[i].SendDone? && t[j].SendDone?))
      && (forall i :: 0 <= i < |t| && t[i].Free? ==> i == |t| - 1)
      && t != [] && (c.phase.Freed? <==> t[|t| - 1].Free?)
      && ((exists i :: 0 <= i < |t| && t[i].SendDone?) <==> c.phase.Freed? && hasCallback)
  {
    RunKeeps(Sent(hasCallback), events);
    var c := Run(Sent(hasCallback), events);
    var k := |Requests(c.retries)|;
    assert forall i :: 0 <= i < k ==> c.trace[i] == Requests(c.retries)[i];
    if c.phase.Freed? && hasCallback {
      assert c.trace[k].SendDone?;
    }
  }

  /** The last effects of a command that ended with this callback. */
  function Ending(c: Command, last: Event): seq<Effect> {
    match last
    case Succeeded(status) => Notify(c, status) + [RecoverNode, Free]
    case Failed(error) => Notify(c, Some(error)) + [CheckAndMark(error), Free]
    case ConnectFailed(error) => Notify(c, Some(error)) + [CheckAndMark(ConnectionClosedUnexpectedly), Free]
    case Connected(sendError) => if sendError.Some? then [CheckAndMark(sendError.value)] else []
  }

  /** How runs end: a reply, or a connection failure after the retry was used up, frees the context;
      a send error after the retry was used up leaves it for ever, neither freed nor called back. */
  lemma {:induction false} CommandEnds(c: Command, events: seq<Event>)
    requires Inv(c) && Legal(c, events) && events != []
    ensures var d, last := Run(c, events), events[|events| - 1];
      && (d.phase.Freed? <==> last.Succeeded? || last.Failed? || (last.ConnectFailed? && d.retries == 2))
      && (d.phase.Stuck? <==> last.Connected? && last.sendError.Some? && d.retries == 2)
      && (d.phase.Stuck? ==> forall i :: 0 <= i < |d.trace| ==> !d.trace[i].Free? && !d.trace[i].SendDone?)
      && (d.phase.Freed? || d.phase.Stuck? ==> d.trace == Requests(d.retries) + Ending(c, last))
    decreases |events|
  {
    if |events| > 1 {
      CommandEnds(Next(c, events[0]), events[1..]);
    } else {
      assert Run(Next(c, events[0]), events[1..]) == Next(c, events[0]);
    }
    RunKeeps(c, events);
    var d := Run(c, events);
    assert forall i :: 0 <= i < |Requests(d.retries)| ==> d.trace[i] == Requests(d.retries)[i];
  }
}
