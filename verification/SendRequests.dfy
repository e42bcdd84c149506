/**
 The coordination of DHCP requests (`SendRequests` of `dhclient.go`) as
 interleaved steps.

 The goroutines are the caller, one worker for each interface, up to two lease
 workers for each interface, and the closer.  They share a WaitGroup and a
 channel with room for three results for each interface.  Whether a link comes
 up and what a request yields is up to the step; somebody may or may not
 receive from the channel.
 */
module SendRequests {
  import opened Wrappers

  datatype Protocol = IPv4 | IPv6

  datatype Result = Result(protocol: Protocol, interface: nat, leased: bool)

  datatype Config = Config(interfaces: nat, ipv4: bool, ipv6: bool)

  // ----- where the goroutines are

  /** The caller: before `wg.Add` or `go` for an interface, or done. */
  datatype Caller = AtAdd(k: nat) | AtGo(k: nat) | Returned

  datatype IfaceWorker = NotYet | IfUp | Add4 | Go4 | Add6 | Go6 | Leave | Left

  datatype LeaseWorker = NoLease | Lease | Send(leased: bool) | LeaveLease | LeftLease

  datatype Closer = NoCloser | Waiting | Closing | Closed

  datatype Worker = Worker(iface: IfaceWorker, v4: LeaseWorker, v6: LeaseWorker, up: bool)

  datatype State = State(
    caller: Caller,
    workers: seq<Worker>,
    closer: Closer,
    counter: int,
    buffer: seq<Result>,
    received: seq<Result>,
    closed: bool,
    panicked: bool)

  /** A goroutine that takes a step, or a receiver. */
  datatype Step =
    | ByCaller
    | ByInterface(i: nat, up: bool)
    | ByLease(i: nat, protocol: Protocol, leased: bool)
    | ByCloser
    | Receive

  function Capacity(c: Config): nat {
    3 * c.interfaces
  }

  function Start(c: Config): State {
    State(AtAdd(0), seq(c.interfaces, i => Worker(NotYet, NoLease, NoLease, false)), NoCloser, 0, [], [], false, false)
  }

  // ----- the steps

  /** `wg.Done`, which panics below zero. */
  function Done(s: State): State {
    s.(counter := s.counter - 1, panicked := s.panicked || s.counter - 1 < 0)
  }

  function CallerStep(c: Config, s: State): Option<State>
    requires |s.workers| == c.interfaces
  {
    match s.caller
    case AtAdd(k) =>
      if k < c.interfaces then Some(s.(counter := s.counter + 1, caller := AtGo(k)))
      else Some(s.(closer := Waiting, caller := Returned))
    case AtGo(k) =>
      if k < c.interfaces then
        Some(s.(workers := s.workers[k := s.workers[k].(iface := IfUp)], caller := AtAdd(k + 1)))
      else None
    case Returned => None
  }

  /** The worker goes on to the next request that is wanted. */
  function After4(c: Config): IfaceWorker {
    if c.ipv6 then Add6 else Leave
  }

  function AfterUp(c: Config): IfaceWorker {
    if c.ipv4 then Add4 else After4(c)
  }

  function InterfaceStep(c: Config, s: State, i: nat, up: bool): Option<State>
    requires i < |s.workers|
  {
    var w := s.workers[i];
    match w.iface
    case NotYet => None
    case IfUp => Some(s.(workers := s.workers[i := w.(iface := if up then AfterUp(c) else Leave, up := up)]))
    case Add4 => Some(s.(counter := s.counter + 1, workers := s.workers[i := w.(iface := Go4)]))
    case Go4 => Some(s.(workers := s.workers[i := w.(iface := After4(c), v4 := Lease)]))
    case Add6 => Some(s.(counter := s.counter + 1, workers := s.workers[i := w.(iface := Go6)]))
    case Go6 => Some(s.(workers := s.workers[i := w.(iface := Leave, v6 := Lease)]))
    case Leave => Some(Done(s).(workers := s.workers[i := w.(iface := Left)]))
    case Left => None
  }

  function Of(w: Worker, p: Protocol): LeaseWorker {
    if p == IPv4 then w.v4 else w.v6
  }

  function With(w: Worker, p: Protocol, l: LeaseWorker): Worker {
    if p == IPv4 then w.(v4 := l) else w.(v6 := l)
  }

  /** A send blocks on a full channel and panics on a closed one. */
  function LeaseStep(c: Config, s: State, i: nat, p: Protocol, leased: bool): Option<State>
    requires i < |s.workers|
  {
    var w := s.workers[i];
    match Of(w, p)
    case NoLease => None
    case Lease => Some(s.(workers := s.workers[i := With(w, p, Send(leased))]))
    case Send(l) =>
      if s.closed then Some(s.(panicked := true))
      else if |s.buffer| >= Capacity(c) then None
      else Some(s.(buffer := s.buffer + [Result(p, i, l)], workers := s.workers[i := With(w, p, LeaveLease)]))
    case LeaveLease => Some(Done(s).(workers := s.workers[i := With(w, p, LeftLease)]))
    case LeftLease => None
  }

  function CloserStep(s: State): Option<State> {
    match s.closer
    case NoCloser => None
    case Waiting => if s.counter == 0 then Some(s.(closer := Closing)) else None
    case Closing => Some(s.(closed := true, panicked := s.panicked || s.closed, closer := Closed))
    case Closed => None
  }

  function ReceiveStep(s: State): Option<State> {
    if s.buffer == [] then None else Some(s.(buffer := s.buffer[1..], received := s.received + [s.buffer[0]]))
  }

  function Apply(c: Config, s: State, step: Step): (r: Option<State>)
    requires |s.workers| == c.interfaces
    ensures r.Some? ==> |r.value.workers| == c.interfaces
  {
    match step
    case ByCaller => CallerStep(c, s)
    case ByInterface(i, up) => if i < c.interfaces then InterfaceStep(c, s, i, up) else None
    case ByLease(i, p, leased) => if i < c.interfaces then LeaseStep(c, s, i, p, leased) else None
    case ByCloser => CloserStep(s)
    case Receive => ReceiveStep(s)
  }

  /** The state after some steps, if all of them are possible. */
  function Run(c: Config, steps: seq<Step>): (r: Option<State>)
    ensures r.Some? ==> |r.value.workers| == c.interfaces
  {
    if steps == [] then Some(Start(c))
    else
      var before := Run(c, steps[..|steps| - 1]);
      if before == None then None else Apply(c, before.value, steps[|steps| - 1])
  }

  // ----- the invariant

  function Active(l: LeaseWorker): nat {
    if l.NoLease? || l.LeftLease? then 0 else 1
  }

  /** The workers that have been added for an interface and are not finished. */
  function Unfinished(w: Worker): nat {
    (if w.iface == NotYet || w.iface == Left then 0 else 1) + Active(w.v4) + Active(w.v6)
    + (if w.iface == Go4 || w.iface == Go6 then 1 else 0)
  }

  function Sum(ws: seq<Worker>, f: Worker -> nat): nat {
    if ws == [] then 0 else Sum(ws[..|ws| - 1], f) + f(ws[|ws| - 1])
  }

  /** The unfinished workers, with the one that the caller has added and not started. */
  function AllUnfinished(s: State): nat {
    Sum(s.workers, Unfinished) + if s.caller.AtGo? then 1 else 0
  }

  function HasSent(l: LeaseWorker): nat {
    if l.LeaveLease? || l.LeftLease? then 1 else 0
  }

  function SentBy(w: Worker): nat {
    HasSent(w.v4) + HasSent(w.v6)
  }

  /** Everything that has been sent, received already or not. */
  function Sent(s: State): seq<Result> {
    s.received + s.buffer
  }

  /** The results for an interface and a protocol. */
  function Results(rs: seq<Result>, i: nat, p: Protocol): nat {
    if rs == [] then 0
    else Results(rs[..|rs| - 1], i, p) + if rs[|rs| - 1].interface == i && rs[|rs| - 1].protocol == p then 1 else 0
  }

  function Reached(c: Config, s: State): nat {
    match s.caller
    case AtAdd(k) => k
    case AtGo(k) => k
    case Returned => c.interfaces
  }

  /** The requests that go with the place where the worker is. */
  predicate WorkerOk(c: Config, w: Worker) {
    && (w.iface == NotYet || w.iface == IfUp || !w.up ==> w.v4.NoLease? && w.v6.NoLease?)
    && (w.iface == NotYet || w.iface == IfUp || (!w.up ==> w.iface == Leave || w.iface == Left))
    && (w.iface == Add4 || w.iface == Go4 ==> c.ipv4 && w.v4.NoLease? && w.v6.NoLease?)
    && (w.iface == Add6 || w.iface == Go6 ==> c.ipv6 && w.v6.NoLease? && (w.v4.NoLease? <==> !c.ipv4))
    && (w.up && (w.iface == Leave || w.iface == Left) ==> (w.v4.NoLease? <==> !c.ipv4) && (w.v6.NoLease? <==> !c.ipv6))
  }

  /** The interfaces up to where the caller is have workers, and the closer exists after that. */
  predicate PlacesOk(c: Config, s: State)
    requires |s.workers| == c.interfaces
  {
    && Reached(c, s) <= c.interfaces && (s.caller.AtGo? ==> s.caller.k < c.interfaces)
    && (forall i :: 0 <= i < c.interfaces ==>
          WorkerOk(c, s.workers[i]) && (s.workers[i].iface == NotYet <==> i >= Reached(c, s)))
    && (s.closer != NoCloser <==> s.caller == Returned)
  }

  /** The counter is exact, and zero when the closer has stopped waiting. */
  predicate CounterOk(s: State) {
    && s.counter == AllUnfinished(s)
    && (s.closer == Closing || s.closer == Closed ==> s.counter == 0)
    && (s.closed <==> s.closer == Closed) && !s.panicked
  }

  /** The channel has got one result from every lease worker that is past its send. */
  predicate ChannelOk(c: Config, s: State)
    requires |s.workers| == c.interfaces
  {
    && |Sent(s)| == Sum(s.workers, SentBy)
    && (forall i, p :: 0 <= i < c.interfaces ==> Results(Sent(s), i, p) == HasSent(Of(s.workers[i], p)))
  }

  predicate Inv(c: Config, s: State) {
    |s.workers| == c.interfaces && PlacesOk(c, s) && CounterOk(s) && ChannelOk(c, s)
  }

  lemma {:induction false} SumUpdate(ws: seq<Worker>, f: Worker -> nat, i: nat, w: Worker)
    requires i < |ws|
    ensures Sum(ws[i := w], f) + f(ws[i]) == Sum(ws, f) + f(w)
  {
    var init := ws[..|ws| - 1];
    if i == |ws| - 1 {
      assert ws[i := w][..|ws| - 1] == init;
    } else {
      SumUpdate(init, f, i, w);
      assert ws[i := w][..|ws| - 1] == init[i := w];
    }
  }

  lemma {:induction false} SumBound(ws: seq<Worker>, f: Worker -> nat, max: nat)
    requires forall w :: f(w) <= max
    ensures Sum(ws, f) <= max * |ws|
  {
    if ws != [] {
      SumBound(ws[..|ws| - 1], f, max);
    }
  }

  lemma {:induction false} SumZero(ws: seq<Worker>, f: Worker -> nat)
    ensures Sum(ws, f) == 0 <==> forall i :: 0 <= i < |ws| ==> f(ws[i]) == 0
  {
    if ws != [] {
      var init := ws[..|ws| - 1];
      SumZero(init, f);
      assert forall i :: 0 <= i < |init| ==> ws[i] == init[i];
    }
  }

  lemma ResultsMore(rs: seq<Result>, r: Result, i: nat, p: Protocol)
    ensures Results(rs + [r], i, p) == Results(rs, i, p) + if r.interface == i && r.protocol == p then 1 else 0
  {
    assert (rs + [r])[..|rs|] == rs;
  }

  lemma {:induction false} NoWorkersYet(n: nat)
    ensures Sum(seq(n, i => Worker(NotYet, NoLease, NoLease, false)), Unfinished) == 0
    ensures Sum(seq(n, i => Worker(NotYet, NoLease, NoLease, false)), SentBy) == 0
  {
    SumZero(seq(n, i => Worker(NotYet, NoLease, NoLease, false)), Unfinished);
    SumZero(seq(n, i => Worker(NotYet, NoLease, NoLease, false)), SentBy);
  }

  lemma CallerKeeps(c: Config, s: State)
    requires Inv(c, s) && CallerStep(c, s).Some?
    ensures Inv(c, CallerStep(c, s).value)
  {
    if s.caller.AtGo? {
      GoKeeps(c, s);
    }
    hide Sum, Results, Unfinished, SentBy, HasSent;
  }

  /** The worker of an interface is started. */
  lemma GoKeeps(c: Config, s: State)
    requires Inv(c, s) && s.caller.AtGo?
    ensures CallerStep(c, s).Some? && Inv(c, CallerStep(c, s).value)
  {
    var s', k := CallerStep(c, s).value, s.caller.k;
    var w := s.workers[k].(iface := IfUp);
    SumUpdate(s.workers, Unfinished, k, w);
    SumUpdate(s.workers, SentBy, k, w);
    assert PlacesOk(c, s') by { hide Sum, Results; }
    hide PlacesOk, Sum, Results, WorkerOk;
  }

  /** After the closer has seen zero, no worker can take a step. */
  lemma ZeroMeansFinished(c: Config, s: State, i: nat)
    requires Inv(c, s) && s.counter == 0 && i < c.interfaces
    ensures Unfinished(s.workers[i]) == 0
  {
    SumZero(s.workers, Unfinished);
  }

  lemma PlacesChange(c: Config, s: State, i: nat, w: Worker)
    requires |s.workers| == c.interfaces && PlacesOk(c, s) && i < c.interfaces
    requires WorkerOk(c, w) && s.workers[i].iface != NotYet && w.iface != NotYet
    ensures PlacesOk(c, s.(workers := s.workers[i := w]))
  {
    hide WorkerOk;
  }

  lemma ChannelChange(c: Config, s: State, i: nat, w: Worker, buffer: seq<Result>)
    requires |s.workers| == c.interfaces && ChannelOk(c, s) && i < c.interfaces
    requires |buffer| == |s.buffer| + SentBy(w) - SentBy(s.workers[i])
    requires forall j, p :: Results(s.received + buffer, j, p)
                         == Results(Sent(s), j, p)
                            + if j == i then HasSent(Of(w, p)) - HasSent(Of(s.workers[i], p)) else 0
    ensures ChannelOk(c, s.(workers := s.workers[i := w], buffer := buffer))
  {
    var s' := s.(workers := s.workers[i := w], buffer := buffer);
    SumUpdate(s.workers, SentBy, i, w);
    hide Sum, Results, SentBy, HasSent, Of;
    forall j, p | 0 <= j < c.interfaces ensures Results(Sent(s'), j, p) == HasSent(Of(s'.workers[j], p)) {
      assert Sent(s') == s.received + buffer;
    }
  }

  /** One worker changes, with the counter and the results that go with it. */
  lemma WorkerChange(c: Config, s: State, i: nat, w: Worker, counter: int, buffer: seq<Result>)
    requires Inv(c, s) && i < c.interfaces
    requires WorkerOk(c, w) && s.workers[i].iface != NotYet && w.iface != NotYet
    requires counter == s.counter + Unfinished(w) - Unfinished(s.workers[i]) && (s.counter == 0 ==> counter == 0)
    requires |buffer| == |s.buffer| + SentBy(w) - SentBy(s.workers[i])
    requires forall j, p :: Results(s.received + buffer, j, p)
                         == Results(Sent(s), j, p)
                            + if j == i then HasSent(Of(w, p)) - HasSent(Of(s.workers[i], p)) else 0
    ensures Inv(c, s.(workers := s.workers[i := w], counter := counter, buffer := buffer))
  {
    hide Sum, Results, Unfinished, SentBy, WorkerOk, HasSent, PlacesOk, ChannelOk, CounterOk, Of;
    var s' := s.(workers := s.workers[i := w], counter := counter, buffer := buffer);
    PlacesChange(c, s, i, w);
    PlacesSame(c, s.(workers := s.workers[i := w]), s');
    ChannelChange(c, s, i, w, buffer);
    ChannelSame(c, s.(workers := s.workers[i := w], buffer := buffer), s');
    CounterChange(s, i, w, counter, buffer);
  }

  lemma PlacesSame(c: Config, s: State, s': State)
    requires |s.workers| == c.interfaces && PlacesOk(c, s)
    requires s'.workers == s.workers && s'.caller == s.caller && s'.closer == s.closer
    ensures PlacesOk(c, s')
  {
    hide WorkerOk;
  }

  lemma ChannelSame(c: Config, s: State, s': State)
    requires |s.workers| == c.interfaces && ChannelOk(c, s)
    requires s'.workers == s.workers && s'.buffer == s.buffer && s'.received == s.received
    ensures ChannelOk(c, s')
  {
    hide Sum, Results, SentBy, HasSent, Of;
  }

  lemma CounterChange(s: State, i: nat, w: Worker, counter: int, buffer: seq<Result>)
    requires CounterOk(s) && i < |s.workers|
    requires counter == s.counter + Unfinished(w) - Unfinished(s.workers[i]) && (s.counter == 0 ==> counter == 0)
    ensures CounterOk(s.(workers := s.workers[i := w], counter := counter, buffer := buffer))
  {
    SumUpdate(s.workers, Unfinished, i, w);
    hide Sum, Unfinished;
  }

  lemma InvWorker(c: Config, s: State, i: nat)
    requires Inv(c, s) && i < c.interfaces
    ensures WorkerOk(c, s.workers[i]) && (s.counter == 0 ==> Unfinished(s.workers[i]) == 0)
    ensures s.workers[i].iface == NotYet ==> Active(s.workers[i].v4) == 0 && Active(s.workers[i].v6) == 0
    ensures s.counter >= Unfinished(s.workers[i]) && !s.panicked
  {
    SumZero(s.workers, Unfinished);
    SumUpdate(s.workers, Unfinished, i, Worker(NotYet, NoLease, NoLease, false));
  }

  lemma InterfaceKeeps(c: Config, s: State, i: nat, up: bool)
    requires Inv(c, s) && i < c.interfaces && InterfaceStep(c, s, i, up).Some?
    ensures Inv(c, InterfaceStep(c, s, i, up).value)
  {
    hide PlacesOk, CounterOk, ChannelOk, Results, InterfaceStep, Unfinished, WorkerOk, Of, SentBy, HasSent;
    InvWorker(c, s, i);
    InterfaceChanges(c, s, i, up);
    var s' := InterfaceStep(c, s, i, up).value;
    WorkerChange(c, s, i, s'.workers[i], s'.counter, s.buffer);
  }

  /** What a step of an interface worker does, for a worker that is counted. */
  lemma InterfaceChanges(c: Config, s: State, i: nat, up: bool)
    requires i < |s.workers| && WorkerOk(c, s.workers[i]) && InterfaceStep(c, s, i, up).Some?
    requires s.counter >= Unfinished(s.workers[i]) && !s.panicked
    ensures var s' := InterfaceStep(c, s, i, up).value;
            var w := s'.workers[i];
            && s' == s.(workers := s.workers[i := w], counter := s'.counter, buffer := s.buffer)
            && WorkerOk(c, w) && s.workers[i].iface != NotYet && w.iface != NotYet
            && s'.counter == s.counter + Unfinished(w) - Unfinished(s.workers[i]) && s.counter > 0
            && SentBy(w) == SentBy(s.workers[i]) && (forall p :: HasSent(Of(w, p)) == HasSent(Of(s.workers[i], p)))
  {
  }

  /** There is always room for a result. */
  lemma RoomToSend(c: Config, s: State, i: nat, p: Protocol)
    requires Inv(c, s) && i < c.interfaces && Of(s.workers[i], p).Send?
    ensures |s.buffer| < Capacity(c) && !s.closed
  {
    SumBound(s.workers, SentBy, 2);
    if s.counter == 0 {
      ZeroMeansFinished(c, s, i);
    }
    hide Sum, Results;
  }

  /** `wg.Done` finds a positive counter, and the channel is closed only once. */
  lemma NoPanicAhead(c: Config, s: State, i: nat, p: Protocol)
    requires Inv(c, s)
    ensures i < c.interfaces && (s.workers[i].iface == Leave || Of(s.workers[i], p).LeaveLease?) ==> s.counter > 0
    ensures s.closer == Closing ==> !s.closed
  {
    if i < c.interfaces {
      InvWorker(c, s, i);
    }
    hide Sum, Results, WorkerOk;
  }

  lemma LeaseKeeps(c: Config, s: State, i: nat, p: Protocol, leased: bool)
    requires Inv(c, s) && i < c.interfaces && LeaseStep(c, s, i, p, leased).Some?
    ensures Inv(c, LeaseStep(c, s, i, p, leased).value)
  {
    hide PlacesOk, CounterOk, ChannelOk, Results, LeaseStep, Unfinished, WorkerOk, Of, SentBy, HasSent;
    InvWorker(c, s, i);
    if Of(s.workers[i], p).Send? {
      SendKeeps(c, s, i, p, leased);
    } else {
      LeaseChanges(c, s, i, p, leased);
      var s' := LeaseStep(c, s, i, p, leased).value;
      WorkerChange(c, s, i, s'.workers[i], s'.counter, s.buffer);
    }
  }

  /** The same for a lease worker that does not send. */
  lemma LeaseChanges(c: Config, s: State, i: nat, p: Protocol, leased: bool)
    requires i < |s.workers| && WorkerOk(c, s.workers[i]) && LeaseStep(c, s, i, p, leased).Some?
    requires !Of(s.workers[i], p).Send? && !s.panicked && s.counter >= Unfinished(s.workers[i])
    ensures var s' := LeaseStep(c, s, i, p, leased).value;
            var w := s'.workers[i];
            && s' == s.(workers := s.workers[i := w], counter := s'.counter, buffer := s.buffer)
            && WorkerOk(c, w) && s.workers[i].iface != NotYet && w.iface != NotYet
            && s'.counter == s.counter + Unfinished(w) - Unfinished(s.workers[i]) && s.counter > 0
            && SentBy(w) == SentBy(s.workers[i]) && (forall q :: HasSent(Of(w, q)) == HasSent(Of(s.workers[i], q)))
  {
  }

  lemma SendKeeps(c: Config, s: State, i: nat, p: Protocol, leased: bool)
    requires Inv(c, s) && i < c.interfaces && Of(s.workers[i], p).Send?
    ensures LeaseStep(c, s, i, p, leased).Some? && Inv(c, LeaseStep(c, s, i, p, leased).value)
  {
    hide PlacesOk, CounterOk, ChannelOk, Results, Unfinished, WorkerOk;
    InvWorker(c, s, i);
    RoomToSend(c, s, i, p);
    var r := Result(p, i, Of(s.workers[i], p).leased);
    var w := With(s.workers[i], p, LeaveLease);
    SendChanges(c, s.workers[i], p);
    SendResults(s, r);
    WorkerChange(c, s, i, w, s.counter, s.buffer + [r]);
  }

  /** A send leaves the worker unfinished, with one result more. */
  lemma SendChanges(c: Config, w: Worker, p: Protocol)
    requires Of(w, p).Send? && WorkerOk(c, w)
    ensures var w' := With(w, p, LeaveLease);
            && Unfinished(w') == Unfinished(w) && WorkerOk(c, w') && w.iface != NotYet && SentBy(w') == SentBy(w) + 1
  {
  }

  lemma SendResults(s: State, r: Result)
    ensures forall j, q :: Results(s.received + (s.buffer + [r]), j, q)
                        == Results(Sent(s), j, q) + if r.interface == j && r.protocol == q then 1 else 0
  {
    assert s.received + (s.buffer + [r]) == Sent(s) + [r];
    forall j, q
      ensures Results(s.received + (s.buffer + [r]), j, q)
           == Results(Sent(s), j, q) + if r.interface == j && r.protocol == q then 1 else 0
    {
      ResultsMore(Sent(s), r, j, q);
    }
  }

  lemma StepKeeps(c: Config, s: State, step: Step)
    requires Inv(c, s) && Apply(c, s, step).Some?
    ensures Inv(c, Apply(c, s, step).value)
  {
    match step {
      case ByCaller => CallerKeeps(c, s);
      case ByInterface(i, up) => InterfaceKeeps(c, s, i, up);
      case ByLease(i, p, leased) => LeaseKeeps(c, s, i, p, leased);
      case ByCloser =>
        hide Sum, Results;
      case Receive =>
        assert s.received + [s.buffer[0]] + s.buffer[1..] == s.received + s.buffer;
        hide Sum, Results;
    }
  }

  // ----- what holds in every interleaving

  /**
   However the goroutines are interleaved: the counter is the number of
   unfinished workers, nothing panics (no send after the close, no second
   close, no negative counter), and no send finds the channel full.
   */
  lemma {:induction false} AlwaysSafe(c: Config, steps: seq<Step>)
    requires Run(c, steps).Some?
    ensures var s := Run(c, steps).value;
            && Inv(c, s) && !s.panicked && s.counter == AllUnfinished(s)
            && forall i, p :: 0 <= i < c.interfaces && Of(s.workers[i], p).Send? ==>
                 |s.buffer| < Capacity(c) && !s.closed
  {
    var s := Run(c, steps).value;
    if steps == [] {
      NoWorkersYet(c.interfaces);
      assert Sent(s) == [];
      hide Sum;
    } else {
      AlwaysSafe(c, steps[..|steps| - 1]);
      StepKeeps(c, Run(c, steps[..|steps| - 1]).value, steps[|steps| - 1]);
    }
    hide Inv, Run;
    forall i, p | 0 <= i < c.interfaces && Of(s.workers[i], p).Send? ensures |s.buffer| < Capacity(c) && !s.closed {
      RoomToSend(c, s, i, p);
    }
  }

  /**
   When the channel is closed, exactly one result has been sent for each
   requested protocol of each interface that came up, and nothing else.
   */
  lemma ClosedMeansComplete(c: Config, steps: seq<Step>)
    requires Run(c, steps).Some? && Run(c, steps).value.closed
    ensures var s := Run(c, steps).value;
            forall i :: 0 <= i < c.interfaces ==>
              && s.workers[i].iface == Left
              && Results(Sent(s), i, IPv4) == (if s.workers[i].up && c.ipv4 then 1 else 0)
              && Results(Sent(s), i, IPv6) == (if s.workers[i].up && c.ipv6 then 1 else 0)
    ensures var s := Run(c, steps).value; |Sent(s)| <= 2 * c.interfaces
  {
    AlwaysSafe(c, steps);
    var s := Run(c, steps).value;
    hide Run, Results, Sum;
    SumBound(s.workers, SentBy, 2);
    forall i | 0 <= i < c.interfaces ensures Unfinished(s.workers[i]) == 0 {
      ZeroMeansFinished(c, s, i);
    }
  }

  // ----- what the results say

  /** The lease worker waits with this result, or has sent it. */
  predicate Has(c: Config, s: State, r: Result)
    requires |s.workers| == c.interfaces
  {
    r in Sent(s) || (r.interface < c.interfaces && Of(s.workers[r.interface], r.protocol) == Send(r.leased))
  }

  /** The request that the step completes has the outcome of the result. */
  predicate Yields(c: Config, s: State, step: Step, r: Result)
    requires |s.workers| == c.interfaces
  {
    step == ByLease(r.interface, r.protocol, r.leased) && r.interface < c.interfaces
    && Of(s.workers[r.interface], r.protocol) == Lease
  }

  lemma SentIsKept(s: State)
    requires s.buffer != []
    ensures Sent(ReceiveStep(s).value) == Sent(s)
  {
    assert s.buffer == [s.buffer[0]] + s.buffer[1..];
  }

  lemma SentMore(s: State, x: Result)
    ensures s.received + (s.buffer + [x]) == Sent(s) + [x]
  {
  }

  lemma NewResult(c: Config, s: State, step: Step, r: Result)
    requires |s.workers| == c.interfaces && Apply(c, s, step).Some? && Has(c, Apply(c, s, step).value, r)
    ensures Has(c, s, r) || Yields(c, s, step, r)
  {
    match step {
      case ByLease(i, p, leased) =>
        hide Has, Yields, LeaseStep;
        LeaseResult(c, s, i, p, leased, r);
      case Receive =>
        SentIsKept(s);
        hide Sent;
      case _ =>
    }
  }

  lemma LeaseResult(c: Config, s: State, i: nat, p: Protocol, leased: bool, r: Result)
    requires |s.workers| == c.interfaces && i < c.interfaces
    requires LeaseStep(c, s, i, p, leased).Some? && Has(c, LeaseStep(c, s, i, p, leased).value, r)
    ensures Has(c, s, r) || Yields(c, s, ByLease(i, p, leased), r)
  {
    var l := Of(s.workers[i], p);
    if l.Send? {
      SentMore(s, Result(p, i, l.leased));
    } else {
      assert Sent(LeaseStep(c, s, i, p, leased).value) == Sent(s);
    }
    hide Sent;
  }

  /** In step k of the run the request of the result comes out as the result says. */
  predicate YieldsAt(c: Config, steps: seq<Step>, k: nat, r: Result)
    requires k < |steps|
  {
    var s := Run(c, steps[..k]);
    s.Some? && Yields(c, s.value, steps[k], r)
  }

  /** Every result is the outcome of the request for its interface and protocol. */
  lemma {:induction false} ResultsAreOutcomes(c: Config, steps: seq<Step>, r: Result)
    requires Run(c, steps).Some? && Has(c, Run(c, steps).value, r)
    ensures exists k :: 0 <= k < |steps| && YieldsAt(c, steps, k, r)
  {
    if steps != [] {
      var init, last := steps[..|steps| - 1], steps[|steps| - 1];
      var s := Run(c, init).value;
      hide Apply, Has, Yields;
      NewResult(c, s, last, r);
      if Has(c, s, r) {
        ResultsAreOutcomes(c, init, r);
        var k :| 0 <= k < |init| && YieldsAt(c, init, k, r);
        assert init[..k] == steps[..k];
        assert YieldsAt(c, steps, k, r);
      } else {
        assert YieldsAt(c, steps, |init|, r);
      }
    } else {
      NothingYet(c, r);
    }
  }

  lemma NothingYet(c: Config, r: Result)
    ensures !Has(c, Start(c), r)
  {
  }

  // ----- the channel is closed in the end

  function LeaseWork(l: LeaseWorker): nat {
    match l
    case NoLease => 4
    case Lease => 3
    case Send(_) => 2
    case LeaveLease => 1
    case LeftLease => 0
  }

  function IfaceWork(w: IfaceWorker): nat {
    match w
    case NotYet => 7
    case IfUp => 6
    case Add4 => 5
    case Go4 => 4
    case Add6 => 3
    case Go6 => 2
    case Leave => 1
    case Left => 0
  }

  function Work(w: Worker): nat {
    IfaceWork(w.iface) + LeaseWork(w.v4) + LeaseWork(w.v6)
  }

  /** What is left to do, without receiving. */
  function Remaining(c: Config, s: State): int {
    Sum(s.workers, Work)
    + (match s.caller
       case AtAdd(k) => 2 * (c.interfaces - k) + 1
       case AtGo(k) => 2 * (c.interfaces - k)
       case Returned => 0)
    + (match s.closer case NoCloser => 3 case Waiting => 2 case Closing => 1 case Closed => 0)
  }

  /** Every step but a receive leaves less to do, and a receive makes the buffer shorter. */
  lemma StepWorks(c: Config, s: State, step: Step)
    requires Inv(c, s) && Apply(c, s, step).Some?
    ensures var s' := Apply(c, s, step).value;
            Remaining(c, s') + (if step.Receive? then 0 else 1) <= Remaining(c, s)
  {
    match step {
      case ByCaller => CallerWorks(c, s);
      case ByInterface(i, up) => InterfaceWorks(c, s, i, up);
      case ByLease(i, p, leased) => LeaseWorks(c, s, i, p, leased);
      case ByCloser =>
        hide Sum, Results;
      case Receive =>
        hide Sum, Results;
    }
  }

  lemma CallerWorks(c: Config, s: State)
    requires Inv(c, s) && CallerStep(c, s).Some?
    ensures Remaining(c, CallerStep(c, s).value) < Remaining(c, s)
  {
    var s' := CallerStep(c, s).value;
    if s.caller.AtGo? {
      SumUpdate(s.workers, Work, s.caller.k, s'.workers[s.caller.k]);
    }
    hide Sum, Results;
  }

  /** One worker has less to do. */
  lemma WorkChange(c: Config, s: State, s': State, i: nat, w: Worker)
    requires |s.workers| == c.interfaces && i < c.interfaces && s'.workers == s.workers[i := w]
    requires s'.caller == s.caller && s'.closer == s.closer && Work(w) < Work(s.workers[i])
    ensures Remaining(c, s') < Remaining(c, s)
  {
    SumUpdate(s.workers, Work, i, w);
    hide Sum, Work;
  }

  /** A step of an interface worker moves that worker on. */
  lemma InterfaceMoves(c: Config, s: State, i: nat, up: bool)
    requires i < |s.workers| && WorkerOk(c, s.workers[i]) && InterfaceStep(c, s, i, up).Some?
    ensures var s' := InterfaceStep(c, s, i, up).value;
            && s'.workers == s.workers[i := s'.workers[i]] && s'.caller == s.caller && s'.closer == s.closer
            && Work(s'.workers[i]) < Work(s.workers[i])
  {
  }

  lemma InterfaceWorks(c: Config, s: State, i: nat, up: bool)
    requires Inv(c, s) && i < c.interfaces && InterfaceStep(c, s, i, up).Some?
    ensures Remaining(c, InterfaceStep(c, s, i, up).value) < Remaining(c, s)
  {
    hide InterfaceStep, Remaining, Work, WorkerOk, PlacesOk, CounterOk, ChannelOk;
    InvWorker(c, s, i);
    InterfaceMoves(c, s, i, up);
    var s' := InterfaceStep(c, s, i, up).value;
    WorkChange(c, s, s', i, s'.workers[i]);
  }

  /** So does a step of a lease worker, as long as the channel is open. */
  lemma LeaseMoves(c: Config, s: State, i: nat, p: Protocol, leased: bool)
    requires i < |s.workers| && LeaseStep(c, s, i, p, leased).Some? && (Of(s.workers[i], p).Send? ==> !s.closed)
    ensures var s' := LeaseStep(c, s, i, p, leased).value;
            && s'.workers == s.workers[i := s'.workers[i]] && s'.caller == s.caller && s'.closer == s.closer
            && Work(s'.workers[i]) < Work(s.workers[i])
  {
    hide Capacity;
  }

  lemma LeaseWorks(c: Config, s: State, i: nat, p: Protocol, leased: bool)
    requires Inv(c, s) && i < c.interfaces && LeaseStep(c, s, i, p, leased).Some?
    ensures Remaining(c, LeaseStep(c, s, i, p, leased).value) < Remaining(c, s)
  {
    hide LeaseStep, Remaining, Work, PlacesOk, CounterOk, ChannelOk, Capacity;
    if Of(s.workers[i], p).Send? {
      RoomToSend(c, s, i, p);
    }
    LeaseMoves(c, s, i, p, leased);
    var s' := LeaseStep(c, s, i, p, leased).value;
    WorkChange(c, s, s', i, s'.workers[i]);
  }

  /** A worker that is not finished can go on. */
  function NextOf(w: Worker, i: nat): Step {
    if w.iface != Left then ByInterface(i, true)
    else if w.v4.NoLease? || w.v4.LeftLease? then ByLease(i, IPv6, true)
    else ByLease(i, IPv4, true)
  }

  /** Until the channel is closed, some goroutine can take a step, even if nobody receives. */
  lemma NeverStuck(c: Config, steps: seq<Step>) returns (step: Step)
    requires Run(c, steps).Some? && !Run(c, steps).value.closed
    ensures !step.Receive? && Run(c, steps + [step]).Some?
  {
    hide Inv, Apply;
    AlwaysSafe(c, steps);
    var s := Run(c, steps).value;
    step := CanStep(c, s);
    assert (steps + [step])[..|steps|] == steps;
  }

  lemma CanStep(c: Config, s: State) returns (step: Step)
    requires Inv(c, s) && !s.closed
    ensures !step.Receive? && Apply(c, s, step).Some?
  {
    hide Sum, Results, ChannelOk, WorkerOk, LeaseStep, InterfaceStep;
    if s.caller != Returned {
      step := ByCaller;
    } else if s.closer == Closing || s.counter == 0 {
      step := ByCloser;
    } else {
      SumZero(s.workers, Unfinished);
      var i :| 0 <= i < c.interfaces && Unfinished(s.workers[i]) != 0;
      step := NextOf(s.workers[i], i);
      WorkerCanStep(c, s, i);
    }
  }

  lemma WorkerCanStep(c: Config, s: State, i: nat)
    requires Inv(c, s) && i < c.interfaces && Unfinished(s.workers[i]) != 0 && s.workers[i].iface != NotYet
    ensures Apply(c, s, NextOf(s.workers[i], i)).Some?
  {
    hide Sum, Results, Capacity, WorkerOk;
    forall p | Of(s.workers[i], p).Send? ensures |s.buffer| < Capacity(c) {
      RoomToSend(c, s, i, p);
    }
    hide Inv;
  }

  /** The number of steps that are not receives. */
  function Own(steps: seq<Step>): nat {
    if steps == [] then 0 else Own(steps[..|steps| - 1]) + if steps[|steps| - 1].Receive? then 0 else 1
  }

  /** No run takes more than 17 steps for each interface and four more. */
  lemma {:induction false} RunsEnd(c: Config, steps: seq<Step>)
    requires Run(c, steps).Some?
    ensures 0 <= Remaining(c, Run(c, steps).value)
            && Own(steps) + Remaining(c, Run(c, steps).value) <= 17 * c.interfaces + 4
  {
    AlwaysSafe(c, steps);
    if steps == [] {
      SumBound(Start(c).workers, Work, 15);
    } else {
      var init := steps[..|steps| - 1];
      RunsEnd(c, init);
      AlwaysSafe(c, init);
      StepWorks(c, Run(c, init).value, steps[|steps| - 1]);
    }
    hide Sum, Results;
  }
}
