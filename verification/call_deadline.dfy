/** One Stripe call's time bound: requests and body reads raced against a timer. */
module CallDeadlines {

  /** The caller's promise of one operation. */
  datatype Outcome = NotStarted | Racing | Got | TimedOut | Failed

  /** A response's body.  `Plain` has no stream; a body being read is locked by its reader,
      and stays locked once read. */
  datatype Body = NotArrived | Plain | Unread | Reading | FullyRead | Cancelled | Broken

  /** One request with the response it may get and the one read of it. */
  datatype Exchange = Exchange(request: Outcome, body: Body, read: Outcome)

  datatype State = State(expired: bool, closed: bool, handedOut: seq<nat>, exchanges: seq<Exchange>)

  datatype Event =
    | Request
    | Arrive(id: nat, streamed: bool)
    | FetchFails(id: nat)
    | Expire
    | BeginRead(id: nat)
    | EndRead(id: nat, parses: bool)
    | FailRead(id: nat)
    | Close

  /** `cancelBody`: a body that is absent or locked is left alone. */
  function CancelBody(b: Body): Body {
    if b == Unread then Cancelled else b
  }

  /** Expiry rejects whatever is racing; a read that loses has its reader cancelled. */
  function Expired(x: Exchange): Exchange {
    Exchange(if x.request == Racing then TimedOut else x.request,
             if x.read == Racing && x.body == Reading then Cancelled else x.body,
             if x.read == Racing then TimedOut else x.read)
  }

  function Arrived(x: Exchange, streamed: bool, late: bool): Exchange {
    x.(request := if x.request == Racing then Got else x.request,
       body := if !streamed then Plain else if late then CancelBody(Unread) else Unread)
  }

  function ReadBegun(x: Exchange, expired: bool): Exchange {
    if expired then x.(read := TimedOut)
    else match x.body
      case Plain => x.(read := Racing)
      case Unread => x.(body := Reading, read := Racing)
      case _ => x.(read := Failed)
  }

  predicate Awaits(s: State, id: nat) {
    id < |s.exchanges| && s.exchanges[id].body == NotArrived && s.exchanges[id].request != Failed
  }

  predicate CanRead(s: State, id: nat) {
    id < |s.exchanges| && s.exchanges[id].request == Got && s.exchanges[id].read == NotStarted
  }

  predicate IsReading(s: State, id: nat) {
    id < |s.exchanges| && s.exchanges[id].read == Racing
  }

  function Step(s: State, e: Event): State {
    match e
    case Request =>
      if s.expired then s else s.(exchanges := s.exchanges + [Exchange(Racing, NotArrived, NotStarted)])
    case Arrive(id, streamed) =>
      if !Awaits(s, id) then s else
      var late := s.expired || s.closed;
      s.(exchanges := s.exchanges[id := Arrived(s.exchanges[id], streamed, late)],
         handedOut := if late then s.handedOut else s.handedOut + [id])
    case FetchFails(id) =>
      if Awaits(s, id) && s.exchanges[id].request == Racing
      then s.(exchanges := s.exchanges[id := s.exchanges[id].(request := Failed)]) else s
    case Expire =>
      if s.expired || s.closed then s
      else s.(expired := true, exchanges := seq(|s.exchanges|, i requires 0 <= i < |s.exchanges| => Expired(s.exchanges[i])))
    case BeginRead(id) =>
      if CanRead(s, id) then s.(exchanges := s.exchanges[id := ReadBegun(s.exchanges[id], s.expired)]) else s
    case EndRead(id, parses) =>
      if !IsReading(s, id) then s else
      var x := s.exchanges[id];
      s.(exchanges := s.exchanges[id := x.(body := if x.body == Reading then FullyRead else x.body,
                                           read := if parses then Got else Failed)])
    case FailRead(id) =>
      if !IsReading(s, id) then s else
      var x := s.exchanges[id];
      s.(exchanges := s.exchanges[id := x.(body := if x.body == Reading then Broken else x.body, read := Failed)])
    case Close =>
      s.(closed := true,
         exchanges := seq(|s.exchanges|, i requires 0 <= i < |s.exchanges| =>
           if i in s.handedOut then s.exchanges[i].(body := CancelBody(s.exchanges[i].body)) else s.exchanges[i]))
  }

  function Run(s: State, events: seq<Event>): State {
    if events == [] then s else Step(Run(s, events[..|events| - 1]), events[|events| - 1])
  }

  const START := State(false, false, [], [])

  // ---- the object ----------------------------------------------------------------------

  class CallDeadline {
    var expired: bool
    var closed: bool
    var handedOut: seq<nat>
    var exchanges: seq<Exchange>

    ghost function Now(): State
      reads this
    {
      State(expired, closed, handedOut, exchanges)
    }

    constructor ()
      ensures Now() == START
    {
      expired, closed, handedOut, exchanges := false, false, [], [];
    }

    /** Sends a request, or throws before it when the bound has passed. */
    method SendRequest() returns (sent: bool)
      modifies this
      ensures Now() == Step(old(Now()), Request) && sent == !old(expired)
    {
      if expired { return false; }
      exchanges := exchanges + [Exchange(Racing, NotArrived, NotStarted)];
      return true;
    }

    /** The answer's own callback, registered before the race. */
    method OnArrival(id: nat, streamed: bool)
      requires Awaits(Now(), id)
      modifies this
      ensures Now() == Step(old(Now()), Arrive(id, streamed))
    {
      var body := if streamed then Unread else Plain;
      if expired || closed {
        body := CancelBody(body);
      } else {
        handedOut := handedOut + [id];
      }
      var request := if exchanges[id].request == Racing then Got else exchanges[id].request;
      exchanges := exchanges[id := exchanges[id].(request := request, body := body)];
    }

    /** The timer's callback; a cleared timer never fires. */
    method OnTimer()
      requires !expired && !closed
      modifies this
      ensures Now() == Step(old(Now()), Expire)
    {
      expired := true;
      var i := 0;
      while i < |exchanges|
        invariant 0 <= i <= |exchanges| == |old(exchanges)|
        invariant expired && closed == old(closed) && handedOut == old(handedOut)
        invariant forall j :: 0 <= j < i ==> exchanges[j] == Expired(old(exchanges)[j])
        invariant forall j :: i <= j < |exchanges| ==> exchanges[j] == old(exchanges)[j]
      {
        exchanges := exchanges[i := Expired(exchanges[i])];
        i := i + 1;
      }
    }

    /** `readJson` up to its first wait. */
    method StartRead(id: nat) returns (threw: bool)
      requires CanRead(Now(), id)
      modifies this
      ensures Now() == Step(old(Now()), BeginRead(id))
      ensures threw <==> old(expired) || old(exchanges)[id].body !in {Plain, Unread}
    {
      if expired {
        exchanges := exchanges[id := exchanges[id].(read := TimedOut)];
        return true;
      }
      match exchanges[id].body {
        case Plain =>
          exchanges := exchanges[id := exchanges[id].(read := Racing)];
          return false;
        case Unread =>
          exchanges := exchanges[id := exchanges[id].(body := Reading, read := Racing)];
          return false;
        case _ =>
          exchanges := exchanges[id := exchanges[id].(read := Failed)];
          return true;
      }
    }

    /** Clears the timer and cancels every body handed out and left unread. */
    method EndCall()
      modifies this
      ensures Now() == Step(old(Now()), Close)
    {
      closed := true;
      var k := 0;
      while k < |handedOut|
        invariant 0 <= k <= |handedOut| && handedOut == old(handedOut)
        invariant closed && expired == old(expired) && |exchanges| == |old(exchanges)|
        invariant forall i :: 0 <= i < |exchanges| ==>
          exchanges[i] == if i in handedOut[..k] then old(exchanges)[i].(body := CancelBody(old(exchanges)[i].body))
                          else old(exchanges)[i]
      {
        var id := handedOut[k];
        assert handedOut[..k + 1] == handedOut[..k] + [id];
        if id < |exchanges| {
          exchanges := exchanges[id := exchanges[id].(body := CancelBody(exchanges[id].body))];
        }
        k := k + 1;
      }
      assert handedOut[..k] == handedOut;
    }
  }

  // ---- what every step keeps -----------------------------------------------------------

  ghost predicate ExchangeOk(s: State, i: nat)
    requires i < |s.exchanges|
  {
    var x := s.exchanges[i];
    && x.request != NotStarted
    && (x.request == Racing || x.request == Failed ==> x.body == NotArrived)
    && (x.read != NotStarted ==> x.request == Got)
    && (x.request == Got ==> x.body != NotArrived)
    && (x.body == Reading ==> x.read == Racing)
    && (x.read == Racing ==> x.body == Reading || x.body == Plain)
    && (x.body == Unread ==> !s.closed && i in s.handedOut)
    && (s.expired ==> x.request != Racing && x.read != Racing)
  }

  ghost predicate Inv(s: State) {
    forall i :: 0 <= i < |s.exchanges| ==> ExchangeOk(s, i)
  }

  /** Events that touch one exchange leave the others as they are. */
  predicate TouchesOne(e: Event) {
    !e.Request? && !e.Expire? && !e.Close?
  }

  lemma {:induction false} TouchedStaysOk(s: State, e: Event, i: nat)
    requires TouchesOne(e) && i < |s.exchanges| && ExchangeOk(s, i)
    ensures |Step(s, e).exchanges| == |s.exchanges| && ExchangeOk(Step(s, e), i)
  {
  }

  lemma {:induction false} SweptStaysOk(s: State, e: Event, i: nat)
    requires (e.Expire? || e.Close?) && i < |s.exchanges| && ExchangeOk(s, i)
    ensures |Step(s, e).exchanges| == |s.exchanges| && ExchangeOk(Step(s, e), i)
  {
  }

  lemma {:induction false} StepKeeps(s: State, e: Event)
    requires Inv(s)
    ensures Inv(Step(s, e))
  {
    var s' := Step(s, e);
    if e.Request? {
      forall i | 0 <= i < |s'.exchanges| ensures ExchangeOk(s', i) {
        assert i < |s.exchanges| ==> ExchangeOk(s, i);
      }
    } else {
      forall i | 0 <= i < |s.exchanges| ensures |s'.exchanges| == |s.exchanges| && ExchangeOk(s', i) {
        assert ExchangeOk(s, i);
        if TouchesOne(e) {
          TouchedStaysOk(s, e, i);
        } else {
          SweptStaysOk(s, e, i);
        }
      }
      SameLength(s, e);
    }
  }

  lemma {:induction false} SameLength(s: State, e: Event)
    requires !e.Request?
    ensures |Step(s, e).exchanges| == |s.exchanges|
  {
  }

  lemma {:induction false} RunKeeps(s: State, events: seq<Event>)
    requires Inv(s)
    ensures Inv(Run(s, events))
  {
    if events != [] {
      RunKeeps(s, events[..|events| - 1]);
      StepKeeps(Run(s, events[..|events| - 1]), events[|events| - 1]);
    }
  }

  // ---- what each operation comes to --------------------------------------------------------

  /** In time, an operation gets what was sent back: the response, and then the text of its body
      if that parses, and a failure if it does not.  A stream is read to its end. */
  lemma {:induction false} InTimeItIsDelivered(s: State, streamed: bool, parses: bool)
    requires !s.expired && !s.closed
    ensures var id := |s.exchanges|;
      var sent := Step(s, Request);
      var arrived := Step(sent, Arrive(id, streamed));
      var reading := Step(arrived, BeginRead(id));
      var done := Step(reading, EndRead(id, parses));
      && sent.exchanges == s.exchanges + [Exchange(Racing, NotArrived, NotStarted)]
      && arrived.exchanges == s.exchanges + [Exchange(Got, if streamed then Unread else Plain, NotStarted)]
      && arrived.handedOut == s.handedOut + [id]
      && reading.exchanges == s.exchanges + [Exchange(Got, if streamed then Reading else Plain, Racing)]
      && done.exchanges
         == s.exchanges + [Exchange(Got, if streamed then FullyRead else Plain, if parses then Got else Failed)]
  {
    var id, sent := |s.exchanges|, Step(s, Request);
    var arrived := Step(sent, Arrive(id, streamed));
    assert sent.exchanges[id] == Exchange(Racing, NotArrived, NotStarted);
    assert arrived.exchanges[id] == Exchange(Got, if streamed then Unread else Plain, NotStarted);
    var reading := Step(arrived, BeginRead(id));
    assert reading.exchanges[id] == Exchange(Got, if streamed then Reading else Plain, Racing);
  }

  /** A request or a read that fails answers its caller with the failure, and a stream that
      failed is done with. */
  lemma {:induction false} FailuresAreAnswered(s: State, id: nat)
    requires id < |s.exchanges|
    ensures s.exchanges[id] == Exchange(Racing, NotArrived, NotStarted) ==>
      Step(s, FetchFails(id)).exchanges[id] == Exchange(Failed, NotArrived, NotStarted)
    ensures s.exchanges[id] == Exchange(Got, Reading, Racing) ==>
      Step(s, FailRead(id)).exchanges[id] == Exchange(Got, Broken, Failed)
    ensures s.exchanges[id] == Exchange(Got, Plain, Racing) ==>
      Step(s, FailRead(id)).exchanges[id] == Exchange(Got, Plain, Failed)
  {
  }

  /** Once the bound has passed nothing is sent; a request it caught is answered late by a body
      that is cancelled unread and handed to nobody; and a body that came in time is not read
      any more, and cancelled when the call closes. */
  lemma {:induction false} TooLateIsRefused(s: State, id: nat, streamed: bool)
    requires id < |s.exchanges| && !s.expired && !s.closed
    ensures var late := Step(s, Expire);
      && Step(late, Request) == late && |late.exchanges| == |s.exchanges| && late.handedOut == s.handedOut
      && (s.exchanges[id] == Exchange(Racing, NotArrived, NotStarted) ==>
            var arrived := Step(late, Arrive(id, streamed));
            arrived.exchanges[id] == Exchange(TimedOut, if streamed then Cancelled else Plain, NotStarted)
            && arrived.handedOut == s.handedOut)
      && (s.exchanges[id] == Exchange(Got, Unread, NotStarted) && id in s.handedOut ==>
            var refused := Step(late, BeginRead(id));
            refused.exchanges[id] == Exchange(Got, Unread, TimedOut)
            && Step(refused, Close).exchanges[id] == Exchange(Got, Cancelled, TimedOut))
  {
    var late := Step(s, Expire);
    assert late.exchanges[id] == Expired(s.exchanges[id]);
  }

  // ---- no body leaks -------------------------------------------------------------------

  /** No streamed body is left unread or half read. */
  predicate Leakless(s: State) {
    forall i :: 0 <= i < |s.exchanges| ==> s.exchanges[i].body != Unread && s.exchanges[i].body != Reading
  }

  /** No streamed read is under way, so every `readJson` of a stream has answered its caller. */
  predicate NoReadUnderWay(s: State) {
    forall i :: 0 <= i < |s.exchanges| ==> s.exchanges[i].body != Reading
  }

  lemma {:induction false} ClosedStaysLeakless(s: State, e: Event)
    requires Inv(s) && s.closed && Leakless(s)
    ensures Step(s, e).closed && Leakless(Step(s, e))
  {
    if e.BeginRead? && e.id < |s.exchanges| {
      assert ExchangeOk(s, e.id);
    }
  }

  lemma {:induction false} RunStaysLeakless(s: State, later: seq<Event>)
    requires Inv(s) && s.closed && Leakless(s)
    ensures Run(s, later).closed && Leakless(Run(s, later))
  {
    if later != [] {
      RunStaysLeakless(s, later[..|later| - 1]);
      RunKeeps(s, later[..|later| - 1]);
      ClosedStaysLeakless(Run(s, later[..|later| - 1]), later[|later| - 1]);
    }
  }

  /** In no order of later events is a body left unread or half read. */
  ghost predicate NeverLeaks(s: State) {
    forall later: seq<Event> :: Leakless(Run(s, later))
  }

  lemma {:induction false} CloseSettles(s: State)
    requires Inv(s) && NoReadUnderWay(s)
    ensures Leakless(Step(s, Close))
  {
    var closed := Step(s, Close);
    StepKeeps(s, Close);
    forall i | 0 <= i < |closed.exchanges|
      ensures closed.exchanges[i].body != Unread && closed.exchanges[i].body != Reading
    {
      assert ExchangeOk(s, i) && ExchangeOk(closed, i);
    }
  }

  lemma {:induction false} CloseLeavesARead(s: State)
    requires !NoReadUnderWay(s)
    ensures !NeverLeaks(Step(s, Close))
  {
    var i :| 0 <= i < |s.exchanges| && s.exchanges[i].body == Reading;
    var none: seq<Event> := [];
    assert Step(s, Close).exchanges[i].body == Reading;
    assert !Leakless(Run(Step(s, Close), none));
  }

  /** Nothing leaks after `close`, whatever arrives later, exactly when no streamed read was
      under way when it ran.  `close` clears the timer that would have cancelled such a read,
      and passes over its locked body. */
  lemma {:induction false} CloseLeaksNothingExactlyWhenNoReadIsUnderWay(events: seq<Event>)
    ensures NeverLeaks(Step(Run(START, events), Close)) <==> NoReadUnderWay(Run(START, events))
  {
    var s := Run(START, events);
    RunKeeps(START, events);
    StepKeeps(s, Close);
    if NoReadUnderWay(s) {
      CloseSettles(s);
      forall later ensures Leakless(Run(Step(s, Close), later)) {
        RunStaysLeakless(Step(s, Close), later);
      }
    } else {
      CloseLeavesARead(s);
    }
  }

  /** A caller that closes only once its reads have answered leaks nothing. */
  lemma {:induction false} AwaitedReadsAreNotUnderWay(events: seq<Event>)
    requires forall i :: 0 <= i < |Run(START, events).exchanges| ==> Run(START, events).exchanges[i].read != Racing
    ensures NoReadUnderWay(Run(START, events))
  {
    var s := Run(START, events);
    RunKeeps(START, events);
    forall i | 0 <= i < |s.exchanges| ensures s.exchanges[i].body != Reading {
      assert ExchangeOk(s, i);
    }
  }

  /** A stalled read closed over stays open whatever else happens, its own timer included. */
  lemma {:induction false} StalledReadLeaks(s: State, later: seq<Event>, i: nat)
    requires s.closed && i < |s.exchanges|
    requires s.exchanges[i].body == Reading && s.exchanges[i].read == Racing
    requires forall k :: 0 <= k < |later| ==> !((later[k].EndRead? || later[k].FailRead?) && later[k].id == i)
    ensures var s' := Run(s, later);
      s'.closed && i < |s'.exchanges| && s'.exchanges[i].body == Reading && s'.exchanges[i].read == Racing
  {
    if later != [] {
      StalledReadLeaks(s, later[..|later| - 1], i);
    }
  }

  /** A request answered with a stream whose read has begun. */
  const READ_BEGUN: seq<Event> := [Request, Arrive(0, true), BeginRead(0)]

  lemma {:induction false} ReadBegins()
    ensures Run(START, READ_BEGUN) == State(false, false, [0], [Exchange(Got, Reading, Racing)])
  {
    assert READ_BEGUN[..2] == [Request, Arrive(0, true)] && READ_BEGUN[..2][..1] == [Request];
    assert READ_BEGUN[..2][..1][..0] == [];
    assert Run(START, []) == START;
    assert Run(START, READ_BEGUN[..2][..1]) == State(false, false, [], [Exchange(Racing, NotArrived, NotStarted)]);
    assert Run(START, READ_BEGUN[..2]) == State(false, false, [0], [Exchange(Got, Unread, NotStarted)]);
  }

  /** The leak is reachable: close a call whose one read has begun, and as long as that read
      neither ends nor fails its body stays open through anything, the expiry included. */
  lemma {:induction false} ClosingARunningReadLeaks(later: seq<Event>)
    requires forall k :: 0 <= k < |later| ==> !((later[k].EndRead? || later[k].FailRead?) && later[k].id == 0)
    ensures !NoReadUnderWay(Run(START, READ_BEGUN))
    ensures var s := Run(Step(Run(START, READ_BEGUN), Close), later);
      s.closed && |s.exchanges| > 0 && s.exchanges[0].body == Reading && !Leakless(s)
  {
    ReadBegins();
    assert Run(START, READ_BEGUN).exchanges[0].body == Reading;
    StalledReadLeaks(Step(Run(START, READ_BEGUN), Close), later, 0);
  }

  // ---- nothing is delivered late -------------------------------------------------------

  /** Each operation answers its caller once. */
  predicate AnswersOnce(x: Exchange, x': Exchange) {
    && (x.request != Racing ==> x'.request == x.request)
    && (x.read != Racing && x.read != NotStarted ==> x'.read == x.read)
  }

  /** Once the bound has passed nothing new is sent, and no response and no text reaches a
      caller any more. */
  predicate NoneDelivered(s: State, s': State) {
    && |s'.exchanges| == |s.exchanges|
    && forall i :: 0 <= i < |s.exchanges| ==>
         && (s'.exchanges[i].request == Got ==> s.exchanges[i].request == Got)
         && (s'.exchanges[i].read == Got ==> s.exchanges[i].read == Got)
  }

  lemma {:induction false} StepAnswersOnce(s: State, e: Event, i: nat)
    requires Inv(s) && i < |s.exchanges|
    ensures i < |Step(s, e).exchanges| && AnswersOnce(s.exchanges[i], Step(s, e).exchanges[i])
  {
    assert ExchangeOk(s, i);
  }

  lemma {:induction false} EveryOperationAnswersOnce(s: State, later: seq<Event>, i: nat)
    requires Inv(s) && i < |s.exchanges|
    ensures i < |Run(s, later).exchanges| && AnswersOnce(s.exchanges[i], Run(s, later).exchanges[i])
  {
    if later != [] {
      EveryOperationAnswersOnce(s, later[..|later| - 1], i);
      RunKeeps(s, later[..|later| - 1]);
      StepAnswersOnce(Run(s, later[..|later| - 1]), later[|later| - 1], i);
    }
  }

  lemma {:induction false} StepDeliversNothing(s: State, e: Event)
    requires Inv(s) && s.expired
    ensures Step(s, e).expired && NoneDelivered(s, Step(s, e))
  {
    var s' := Step(s, e);
    forall i | 0 <= i < |s.exchanges|
      ensures s'.exchanges[i].request == Got ==> s.exchanges[i].request == Got
      ensures s'.exchanges[i].read == Got ==> s.exchanges[i].read == Got
    {
      assert ExchangeOk(s, i);
    }
  }

  /** Whatever races when the timer fires is answered with the timeout, each body being read
      is cancelled, and no response or text is delivered in any order of later events. */
  lemma {:induction false} NothingIsDeliveredAfterExpiry(events: seq<Event>, later: seq<Event>, i: nat)
    requires !Run(START, events).closed && !Run(START, events).expired
    requires i < |Run(START, events).exchanges|
    ensures var s := Run(START, events);
      var expired := Step(s, Expire);
      && (s.exchanges[i].request == Racing ==> expired.exchanges[i].request == TimedOut)
      && (s.exchanges[i].read == Racing ==> expired.exchanges[i].read == TimedOut)
      && NoReadUnderWay(expired)
      && NoneDelivered(expired, Run(expired, later))
    decreases |later|
  {
    var s := Run(START, events);
    RunKeeps(START, events);
    var expired := Step(s, Expire);
    StepKeeps(s, Expire);
    forall j | 0 <= j < |expired.exchanges| ensures expired.exchanges[j].body != Reading {
      assert ExchangeOk(expired, j);
    }
    ExpiredRunDeliversNothing(expired, later);
  }

  lemma {:induction false} ExpiredRunDeliversNothing(s: State, later: seq<Event>)
    requires Inv(s) && s.expired
    ensures Run(s, later).expired && NoneDelivered(s, Run(s, later))
  {
    if later != [] {
      var init := later[..|later| - 1];
      ExpiredRunDeliversNothing(s, init);
      RunKeeps(s, init);
      StepDeliversNothing(Run(s, init), later[|later| - 1]);
    }
  }

  /** With no close and no late arrival unread, expiry itself leaves only bodies nobody began
      to read, and `close` cancels those: a call that times out leaks nothing. */
  lemma {:induction false} TimedOutCallLeaksNothing(events: seq<Event>, between: seq<Event>)
    requires Run(START, events).expired
    ensures var s := Run(Run(START, events), between); NoReadUnderWay(s) && Leakless(Step(s, Close))
  {
    var s := Run(START, events);
    RunKeeps(START, events);
    ExpiredRunDeliversNothing(s, between);
    RunKeeps(s, between);
    var t := Run(s, between);
    StepKeeps(t, Close);
    forall i | 0 <= i < |t.exchanges|
      ensures t.exchanges[i].body != Reading
      ensures Step(t, Close).exchanges[i].body !in {Reading, Unread}
    {
      assert ExchangeOk(t, i) && ExchangeOk(Step(t, Close), i);
    }
  }
}
