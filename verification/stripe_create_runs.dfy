/** Any number of concurrent `createIntent` calls for one order, against a provider that is
    idempotent per key.

    Each call runs at most two create loops over its own key: the buyer's Customer (when the
    order needs one), then the intent.  The provider holds one slot per key: vacant, working
    on the first request, done with it, or keeping a refusal of it that every replay gets.  A
    request over a key still working is answered 409 in flight; one over a finished key gets
    its result back when the parameters match and is refused when they do not.  An action
    names one step of a call or of the provider, so a sequence of actions is one
    interleaving; an action that cannot be taken changes nothing. */
module StripeCreateRuns {
  import opened Options

  /** A text that is only ever compared: an id, a key, a currency, an address. */
  type Text = nat

  datatype Shipping = Shipping(name: Text, address: Text)

  /** The input every call of the order shares; the description is the text rendered from the
      order's lines. */
  datatype Order = Order(id: Text, key: Text, amount: int, currency: Text, description: Text,
                         shipping: Option<Shipping>, customerRequired: Option<bool>)

  /** What the order's record says about its Customer when a call starts. */
  datatype Recorded = Undecided | DecidedNone | DecidedRef(customer: nat)

  datatype Choice = Name(customer: nat) | Create | Without

  /** The Customer precedence: a recorded id, the order's own answer, a recorded "none", and
      only then the gateway's resolver (`needs`). */
  function Choose(o: Order, recorded: Recorded, needs: bool): Choice {
    if recorded.DecidedRef? then Name(recorded.customer)
    else if o.customerRequired.Some? then
      if o.customerRequired.value && o.shipping.Some? then Create else Without
    else if recorded.DecidedNone? then Without
    else if o.shipping.Some? && needs then Create
    else Without
  }

  datatype Kind = OfCustomer | OfIntent

  datatype Request =
    | CustomerRequest(order: Text, shipping: Option<Shipping>)
    | IntentRequest(order: Text, amount: int, currency: Text, key: Text, description: Text,
                    shipping: Option<Shipping>, customer: Option<nat>)

  datatype Slot =
    | Vacant
    | Working(owner: nat, request: Request)
    | Minted(request: Request, id: nat)
    | Kept(request: Request)

  datatype Stage = AskCustomer | AskIntent(ref: Option<nat>)

  datatype Why = StillInFlight | Refused | Mismatch | Lost

  /** `tries` counts the requests the call has sent at this stage. */
  datatype Call =
    | Idle
    | Sending(stage: Stage, tries: nat)
    | Waiting(stage: Stage, tries: nat)
    | Pausing(stage: Stage, tries: nat)
    | Done(intent: nat, ref: Option<nat>)
    | Threw(why: Why)

  datatype Sent = Sent(caller: nat, request: Request)

  /** `minted` is every object the provider ever created, by id. */
  datatype World = World(customers: Slot, intents: Slot, minted: seq<Request>, recorded: Recorded,
                         calls: seq<Call>, traffic: seq<Sent>)

  datatype Action =
    | Begin(call: nat, needs: bool)
    | Send(call: nat)
    | Unsent(call: nat)
    | Replay(call: nat)
    | GiveUp(call: nat)
    | LoseAnswer(call: nat)
    | Finish(kind: Kind)
    | Refuse(kind: Kind, kept: bool)
    | Record(call: nat)

  function KindOf(s: Stage): Kind {
    if s.AskCustomer? then OfCustomer else OfIntent
  }

  function RequestAt(o: Order, s: Stage): Request {
    match s
    case AskCustomer => CustomerRequest(o.id, o.shipping)
    case AskIntent(ref) => IntentRequest(o.id, o.amount, o.currency, o.key, o.description, o.shipping, ref)
  }

  function SlotOf(w: World, k: Kind): Slot {
    if k == OfCustomer then w.customers else w.intents
  }

  function WithSlot(w: World, k: Kind, s: Slot): World {
    if k == OfCustomer then w.(customers := s) else w.(intents := s)
  }

  function Move(w: World, c: nat, to: Call): World
    requires c < |w.calls|
  {
    w.(calls := w.calls[c := to])
  }

  /** A created object's id in hand: a Customer leads on to the intent, an intent ends the call. */
  function Answered(s: Stage, id: nat): Call {
    match s
    case AskCustomer => Sending(AskIntent(Some(id)), 0)
    case AskIntent(ref) => Done(id, ref)
  }

  /** The call's state after its `tries`th request meets the slot. */
  function Reply(slot: Slot, s: Stage, r: Request, tries: nat, retries: nat): Call {
    match slot
    case Vacant => Waiting(s, tries)
    case Working(_, _) => if tries <= retries then Pausing(s, tries) else Threw(StillInFlight)
    case Minted(first, id) => if first == r then Answered(s, id) else Threw(Mismatch)
    case Kept(first) => Threw(if first == r then Refused else Mismatch)
  }

  function AfterSend(w: World, o: Order, c: nat, retries: nat): World
    requires c < |w.calls| && w.calls[c].Sending?
  {
    var s, tries := w.calls[c].stage, w.calls[c].tries + 1;
    var r, slot := RequestAt(o, s), SlotOf(w, KindOf(s));
    var w1 := Move(w, c, Reply(slot, s, r, tries, retries)).(traffic := w.traffic + [Sent(c, r)]);
    if slot.Vacant? then WithSlot(w1, KindOf(s), Working(c, r)) else w1
  }

  /** Whether the owner is still waiting for the answer to this kind of request. */
  predicate Listens(w: World, k: Kind) {
    var slot := SlotOf(w, k);
    slot.Working? && slot.owner < |w.calls| && w.calls[slot.owner].Waiting? && KindOf(w.calls[slot.owner].stage) == k
  }

  function AfterFinish(w: World, k: Kind): World
    requires SlotOf(w, k).Working?
  {
    var slot, id := SlotOf(w, k), |w.minted|;
    var w1 := WithSlot(w, k, Minted(slot.request, id)).(minted := w.minted + [slot.request]);
    if Listens(w, k) then Move(w1, slot.owner, Answered(w.calls[slot.owner].stage, id)) else w1
  }

  function AfterRefuse(w: World, k: Kind, kept: bool): World
    requires SlotOf(w, k).Working?
  {
    var slot := SlotOf(w, k);
    var w1 := WithSlot(w, k, if kept then Kept(slot.request) else Vacant);
    if Listens(w, k) then Move(w1, slot.owner, Threw(Refused)) else w1
  }

  function Opening(choice: Choice): Call {
    match choice
    case Name(id) => Sending(AskIntent(Some(id)), 0)
    case Create => Sending(AskCustomer, 0)
    case Without => Sending(AskIntent(None), 0)
  }

  function Step(w: World, o: Order, a: Action, retries: nat): World {
    match a
    case Begin(c, needs) =>
      if c < |w.calls| && w.calls[c].Idle? then Move(w, c, Opening(Choose(o, w.recorded, needs))) else w
    case Send(c) =>
      if c < |w.calls| && w.calls[c].Sending? then AfterSend(w, o, c, retries) else w
    case Unsent(c) =>
      if c < |w.calls| && w.calls[c].Sending? then Move(w, c, Threw(Lost)) else w
    case Replay(c) =>
      if c < |w.calls| && w.calls[c].Pausing? then Move(w, c, Sending(w.calls[c].stage, w.calls[c].tries)) else w
    case GiveUp(c) =>
      if c < |w.calls| && w.calls[c].Pausing? then Move(w, c, Threw(StillInFlight)) else w
    case LoseAnswer(c) =>
      if c < |w.calls| && w.calls[c].Waiting? then Move(w, c, Threw(Lost)) else w
    case Finish(k) => if SlotOf(w, k).Working? then AfterFinish(w, k) else w
    case Refuse(k, kept) => if SlotOf(w, k).Working? then AfterRefuse(w, k, kept) else w
    case Record(c) =>
      if c < |w.calls| && w.calls[c].Done? then
        w.(recorded := if w.calls[c].ref.Some? then DecidedRef(w.calls[c].ref.value) else DecidedNone)
      else w
  }

  function Run(w: World, o: Order, acts: seq<Action>, retries: nat): World {
    if acts == [] then w else Step(Run(w, o, acts[..|acts| - 1], retries), o, acts[|acts| - 1], retries)
  }

  function Start(n: nat): World {
    World(Vacant, Vacant, [], Undecided, seq(n, _ => Idle), [])
  }

  function SentBy(traffic: seq<Sent>, c: nat, k: Kind): nat {
    if traffic == [] then 0
    else
      var t := traffic[|traffic| - 1];
      SentBy(traffic[..|traffic| - 1], c, k)
      + if t.caller == c && t.request.CustomerRequest? == (k == OfCustomer) then 1 else 0
  }

  // ---- what every step keeps -----------------------------------------------------------

  /** The order fixes the answer without asking the gateway's resolver. */
  predicate Fixed(o: Order) {
    o.customerRequired.Some? || o.shipping.None?
  }

  predicate Wants(o: Order) {
    o.customerRequired == Some(true) && o.shipping.Some?
  }

  /** `ref` is the order's one Customer: the minted one when it wants one, none otherwise. */
  predicate RightRef(w: World, o: Order, ref: Option<nat>) {
    if Wants(o) then w.customers.Minted? && ref == Some(w.customers.id) else ref == None
  }

  predicate RightRequest(w: World, o: Order, r: Request) {
    if r.CustomerRequest? then Wants(o) && r == RequestAt(o, AskCustomer)
    else RightRef(w, o, r.customer) && r == RequestAt(o, AskIntent(r.customer))
  }

  predicate SlotOk(w: World, o: Order, k: Kind) {
    var s := SlotOf(w, k);
    && (!s.Vacant? ==> s.request.CustomerRequest? == (k == OfCustomer) && RightRequest(w, o, s.request))
    && (s.Minted? ==> s.id < |w.minted| && w.minted[s.id] == s.request)
  }

  /** An object of a kind is the one its slot names. */
  predicate MintOk(w: World, i: nat)
    requires i < |w.minted|
  {
    SlotOf(w, if w.minted[i].CustomerRequest? then OfCustomer else OfIntent) == Minted(w.minted[i], i)
  }

  predicate RecordOk(w: World, o: Order) {
    match w.recorded
    case Undecided => true
    case DecidedNone => RightRef(w, o, None)
    case DecidedRef(id) => RightRef(w, o, Some(id))
  }

  predicate StageOk(w: World, o: Order, s: Stage) {
    if s.AskCustomer? then Wants(o) else RightRef(w, o, s.ref)
  }

  predicate CallOk(w: World, o: Order, c: nat, retries: nat)
    requires c < |w.calls|
  {
    var forCustomer, forIntent := SentBy(w.traffic, c, OfCustomer), SentBy(w.traffic, c, OfIntent);
    && forCustomer <= retries + 1 && forIntent <= retries + 1
    && match w.calls[c]
       case Idle => forCustomer == 0 && forIntent == 0
       case Sending(s, tries) => StageOk(w, o, s) && tries <= retries && Counts(s, tries, forCustomer, forIntent)
       case Waiting(s, tries) => StageOk(w, o, s) && Counts(s, tries, forCustomer, forIntent)
       case Pausing(s, tries) => StageOk(w, o, s) && tries <= retries && Counts(s, tries, forCustomer, forIntent)
       case Done(id, ref) => RightRef(w, o, ref) && w.intents.Minted? && w.intents.id == id
       case Threw(why) => why != Mismatch
  }

  predicate Counts(s: Stage, tries: nat, forCustomer: nat, forIntent: nat) {
    if s.AskCustomer? then forCustomer == tries && forIntent == 0 else forIntent == tries
  }

  ghost predicate Inv(w: World, o: Order, retries: nat) {
    && SlotOk(w, o, OfCustomer) && SlotOk(w, o, OfIntent) && RecordOk(w, o)
    && (forall i :: 0 <= i < |w.minted| ==> MintOk(w, i))
    && (forall i :: 0 <= i < |w.traffic| ==> RightRequest(w, o, w.traffic[i].request))
    && (forall c :: 0 <= c < |w.calls| ==> CallOk(w, o, c, retries))
  }

  /** A minted slot is final, and only the mover's call and traffic change. */
  ghost predicate Grows(w: World, w': World, mover: nat) {
    && |w'.calls| == |w.calls|
    && (w.customers.Minted? ==> w'.customers == w.customers)
    && (w.intents.Minted? ==> w'.intents == w.intents)
    && w.minted <= w'.minted
    && (w'.traffic == w.traffic
        || (|w'.traffic| == |w.traffic| + 1 && w'.traffic[..|w.traffic|] == w.traffic
            && w'.traffic[|w.traffic|].caller == mover))
    && forall d :: 0 <= d < |w.calls| && d != mover ==> w'.calls[d] == w.calls[d]
  }

  function Mover(w: World, a: Action): nat {
    match a
    case Finish(k) => if SlotOf(w, k).Working? then SlotOf(w, k).owner else 0
    case Refuse(k, _) => if SlotOf(w, k).Working? then SlotOf(w, k).owner else 0
    case _ => a.call
  }

  lemma {:induction false} StepExtends(w: World, o: Order, a: Action, retries: nat)
    ensures Grows(w, Step(w, o, a, retries), Mover(w, a))
  {
  }

  lemma {:induction false} OtherCallsKeep(w: World, w': World, o: Order, mover: nat, d: nat, retries: nat)
    requires Grows(w, w', mover) && d != mover && d < |w.calls| && CallOk(w, o, d, retries)
    ensures CallOk(w', o, d, retries)
  {
    assert SentBy(w'.traffic, d, OfCustomer) == SentBy(w.traffic, d, OfCustomer);
    assert SentBy(w'.traffic, d, OfIntent) == SentBy(w.traffic, d, OfIntent);
  }

  lemma {:induction false} SendIsCounted(w: World, o: Order, c: nat, retries: nat)
    requires c < |w.calls| && w.calls[c].Sending?
    ensures var w', s := AfterSend(w, o, c, retries), w.calls[c].stage;
      && SentBy(w'.traffic, c, KindOf(s)) == SentBy(w.traffic, c, KindOf(s)) + 1
      && (s.AskCustomer? ==> SentBy(w'.traffic, c, OfIntent) == SentBy(w.traffic, c, OfIntent))
      && (s.AskIntent? ==> SentBy(w'.traffic, c, OfCustomer) == SentBy(w.traffic, c, OfCustomer))
  {
    assert AfterSend(w, o, c, retries).traffic[..|w.traffic|] == w.traffic;
  }

  /** The provider answers a call whose stage is right with nothing but a right next stage. */
  lemma {:induction false} ReplyIsRight(w: World, o: Order, s: Stage, tries: nat, retries: nat)
    requires SlotOk(w, o, KindOf(s)) && StageOk(w, o, s)
    ensures match Reply(SlotOf(w, KindOf(s)), s, RequestAt(o, s), tries, retries)
      case Idle => false
      case Sending(s', n) => s.AskCustomer? && s'.AskIntent? && StageOk(w, o, s') && n == 0
      case Waiting(s', n) => s' == s && n == tries
      case Pausing(s', n) => s' == s && n == tries <= retries
      case Done(id, ref) => RightRef(w, o, ref) && w.intents.Minted? && w.intents.id == id
      case Threw(why) => why != Mismatch
  {
  }

  lemma {:induction false} SendKeepsCall(w: World, o: Order, c: nat, retries: nat)
    requires SlotOk(w, o, OfCustomer) && SlotOk(w, o, OfIntent)
    requires c < |w.calls| && w.calls[c].Sending? && CallOk(w, o, c, retries)
    ensures CallOk(AfterSend(w, o, c, retries), o, c, retries)
  {
    var w', s := AfterSend(w, o, c, retries), w.calls[c].stage;
    SendIsCounted(w, o, c, retries);
    ReplyIsRight(w, o, s, w.calls[c].tries + 1, retries);
    assert w'.customers.Minted? <==> w.customers.Minted?;
    assert w'.intents.Minted? <==> w.intents.Minted?;
    assert w'.calls[c] == Reply(SlotOf(w, KindOf(s)), s, RequestAt(o, s), w.calls[c].tries + 1, retries);
  }

  /** The owner of finished or refused work moves to a right stage. */
  lemma {:induction false} FinishKeepsCall(w: World, o: Order, k: Kind, retries: nat)
    requires SlotOk(w, o, k) && SlotOf(w, k).Working? && SlotOf(w, k).owner < |w.calls|
    requires CallOk(w, o, SlotOf(w, k).owner, retries)
    ensures CallOk(AfterFinish(w, k), o, SlotOf(w, k).owner, retries)
  {
    assert AfterFinish(w, k).traffic == w.traffic;
  }

  lemma {:induction false} RefuseKeepsCall(w: World, o: Order, k: Kind, kept: bool, retries: nat)
    requires SlotOk(w, o, k) && SlotOf(w, k).Working? && SlotOf(w, k).owner < |w.calls|
    requires CallOk(w, o, SlotOf(w, k).owner, retries)
    ensures CallOk(AfterRefuse(w, k, kept), o, SlotOf(w, k).owner, retries)
  {
    assert AfterRefuse(w, k, kept).traffic == w.traffic;
  }

  lemma {:induction false} BeginKeepsCall(w: World, o: Order, c: nat, needs: bool, retries: nat)
    requires RecordOk(w, o) && Fixed(o) && c < |w.calls| && CallOk(w, o, c, retries)
    ensures CallOk(Step(w, o, Begin(c, needs), retries), o, c, retries)
  {
    assert Step(w, o, Begin(c, needs), retries).traffic == w.traffic;
  }

  /** Giving up, losing an answer, and pausing before the next request. */
  lemma {:induction false} QuietMoveKeepsCall(w: World, o: Order, a: Action, retries: nat)
    requires a.Unsent? || a.Replay? || a.GiveUp? || a.LoseAnswer?
    requires a.call < |w.calls| && CallOk(w, o, a.call, retries)
    ensures CallOk(Step(w, o, a, retries), o, a.call, retries)
  {
    assert Step(w, o, a, retries).traffic == w.traffic;
  }

  lemma {:induction false} RecordKeepsCall(w: World, o: Order, c: nat, retries: nat)
    requires c < |w.calls| && CallOk(w, o, c, retries)
    ensures CallOk(Step(w, o, Record(c), retries), o, c, retries)
  {
    assert Step(w, o, Record(c), retries).traffic == w.traffic;
  }

  lemma {:induction false} ActorKeeps(w: World, o: Order, a: Action, retries: nat)
    requires SlotOk(w, o, OfCustomer) && SlotOk(w, o, OfIntent) && RecordOk(w, o) && Fixed(o)
    requires Mover(w, a) < |w.calls| && CallOk(w, o, Mover(w, a), retries)
    ensures CallOk(Step(w, o, a, retries), o, Mover(w, a), retries)
  {
    match a
    case Begin(c, needs) => BeginKeepsCall(w, o, c, needs, retries);
    case Send(c) =>
      if w.calls[c].Sending? {
        SendKeepsCall(w, o, c, retries);
      }
    case Finish(k) =>
      if SlotOf(w, k).Working? {
        FinishKeepsCall(w, o, k, retries);
      }
    case Refuse(k, kept) =>
      if SlotOf(w, k).Working? {
        RefuseKeepsCall(w, o, k, kept, retries);
      }
    case Record(_) => RecordKeepsCall(w, o, a.call, retries);
    case _ => QuietMoveKeepsCall(w, o, a, retries);
  }

  lemma {:induction false} RequestStays(w: World, w': World, o: Order, mover: nat, r: Request)
    requires Grows(w, w', mover) && RightRequest(w, o, r)
    ensures RightRequest(w', o, r)
  {
  }

  lemma {:induction false} RecordStays(w: World, w': World, o: Order, mover: nat)
    requires Grows(w, w', mover) && w'.recorded == w.recorded && RecordOk(w, o)
    ensures RecordOk(w', o)
  {
  }

  /** A slot left alone, or given a right request, stays right. */
  lemma {:induction false} SlotStays(w: World, w': World, o: Order, k: Kind, mover: nat)
    requires Grows(w, w', mover) && SlotOk(w, o, k)
    requires SlotOf(w', k) == SlotOf(w, k)
    ensures SlotOk(w', o, k)
  {
    if !SlotOf(w, k).Vacant? {
      RequestStays(w, w', o, mover, SlotOf(w, k).request);
    }
  }

  lemma {:induction false} SendKeepsSlots(w: World, o: Order, c: nat, retries: nat)
    requires SlotOk(w, o, OfCustomer) && SlotOk(w, o, OfIntent)
    requires c < |w.calls| && w.calls[c].Sending? && CallOk(w, o, c, retries)
    ensures SlotOk(AfterSend(w, o, c, retries), o, OfCustomer) && SlotOk(AfterSend(w, o, c, retries), o, OfIntent)
  {
    var w', s := AfterSend(w, o, c, retries), w.calls[c].stage;
    StepExtends(w, o, Send(c), retries);
    assert StageOk(w, o, s) && RightRequest(w, o, RequestAt(o, s));
    RequestStays(w, w', o, c, RequestAt(o, s));
    if s.AskCustomer? {
      SlotStays(w, w', o, OfIntent, c);
      if !SlotOf(w, OfCustomer).Vacant? { SlotStays(w, w', o, OfCustomer, c); }
    } else {
      SlotStays(w, w', o, OfCustomer, c);
      if !SlotOf(w, OfIntent).Vacant? { SlotStays(w, w', o, OfIntent, c); }
    }
  }

  lemma {:induction false} FinishKeepsSlots(w: World, o: Order, k: Kind, retries: nat)
    requires SlotOk(w, o, OfCustomer) && SlotOk(w, o, OfIntent) && SlotOf(w, k).Working?
    ensures SlotOk(AfterFinish(w, k), o, OfCustomer) && SlotOk(AfterFinish(w, k), o, OfIntent)
  {
    var w', mover := AfterFinish(w, k), SlotOf(w, k).owner;
    StepExtends(w, o, Finish(k), retries);
    RequestStays(w, w', o, mover, SlotOf(w, k).request);
    SlotStays(w, w', o, if k == OfCustomer then OfIntent else OfCustomer, mover);
    assert w'.minted[|w.minted|] == SlotOf(w, k).request;
  }

  lemma {:induction false} RefuseKeepsSlots(w: World, o: Order, k: Kind, kept: bool, retries: nat)
    requires SlotOk(w, o, OfCustomer) && SlotOk(w, o, OfIntent) && SlotOf(w, k).Working?
    ensures SlotOk(AfterRefuse(w, k, kept), o, OfCustomer) && SlotOk(AfterRefuse(w, k, kept), o, OfIntent)
  {
    var w', mover := AfterRefuse(w, k, kept), SlotOf(w, k).owner;
    StepExtends(w, o, Refuse(k, kept), retries);
    RequestStays(w, w', o, mover, SlotOf(w, k).request);
    SlotStays(w, w', o, if k == OfCustomer then OfIntent else OfCustomer, mover);
  }

  lemma {:induction false} StepKeepsSlots(w: World, o: Order, a: Action, retries: nat)
    requires Inv(w, o, retries)
    ensures SlotOk(Step(w, o, a, retries), o, OfCustomer) && SlotOk(Step(w, o, a, retries), o, OfIntent)
  {
    StepExtends(w, o, a, retries);
    match a
    case Send(c) =>
      if c < |w.calls| && w.calls[c].Sending? {
        assert CallOk(w, o, c, retries);
        SendKeepsSlots(w, o, c, retries);
      }
    case Finish(k) =>
      if SlotOf(w, k).Working? {
        FinishKeepsSlots(w, o, k, retries);
      }
    case Refuse(k, kept) =>
      if SlotOf(w, k).Working? {
        RefuseKeepsSlots(w, o, k, kept, retries);
      }
    case _ =>
      SlotStays(w, Step(w, o, a, retries), o, OfCustomer, Mover(w, a));
      SlotStays(w, Step(w, o, a, retries), o, OfIntent, Mover(w, a));
  }

  lemma {:induction false} StepKeepsRecord(w: World, o: Order, a: Action, retries: nat)
    requires Inv(w, o, retries)
    ensures RecordOk(Step(w, o, a, retries), o)
  {
    StepExtends(w, o, a, retries);
    if a.Record? && a.call < |w.calls| {
      assert CallOk(w, o, a.call, retries);
    } else {
      RecordStays(w, Step(w, o, a, retries), o, Mover(w, a));
    }
  }

  lemma {:induction false} StepKeepsMinted(w: World, o: Order, a: Action, retries: nat)
    requires Inv(w, o, retries)
    ensures var w' := Step(w, o, a, retries); forall i :: 0 <= i < |w'.minted| ==> MintOk(w', i)
  {
    var w' := Step(w, o, a, retries);
    forall i | 0 <= i < |w'.minted| ensures MintOk(w', i) {
      if i < |w.minted| {
        assert MintOk(w, i);
      }
    }
  }

  lemma {:induction false} StepKeepsTraffic(w: World, o: Order, a: Action, retries: nat)
    requires Inv(w, o, retries)
    ensures var w' := Step(w, o, a, retries);
      forall i :: 0 <= i < |w'.traffic| ==> RightRequest(w', o, w'.traffic[i].request)
  {
    var w' := Step(w, o, a, retries);
    StepExtends(w, o, a, retries);
    forall i | 0 <= i < |w'.traffic| ensures RightRequest(w', o, w'.traffic[i].request) {
      var r := w'.traffic[i].request;
      if i < |w.traffic| {
        assert w'.traffic[..|w.traffic|][i] == w.traffic[i];
        assert RightRequest(w, o, w.traffic[i].request);
      } else {
        NewTrafficIsRight(w, o, a, retries);
      }
      RequestStays(w, w', o, Mover(w, a), r);
    }
  }

  lemma {:induction false} NewTrafficIsRight(w: World, o: Order, a: Action, retries: nat)
    requires Inv(w, o, retries) && |Step(w, o, a, retries).traffic| > |w.traffic|
    ensures RightRequest(w, o, Step(w, o, a, retries).traffic[|w.traffic|].request)
  {
    assert a.Send? && a.call < |w.calls| && w.calls[a.call].Sending?;
    assert CallOk(w, o, a.call, retries);
  }

  lemma {:induction false} StepKeeps(w: World, o: Order, a: Action, retries: nat)
    requires Inv(w, o, retries) && Fixed(o)
    ensures Inv(Step(w, o, a, retries), o, retries)
  {
    var w' := Step(w, o, a, retries);
    StepExtends(w, o, a, retries);
    StepKeepsSlots(w, o, a, retries);
    StepKeepsRecord(w, o, a, retries);
    StepKeepsMinted(w, o, a, retries);
    StepKeepsTraffic(w, o, a, retries);
    forall c | 0 <= c < |w'.calls| ensures CallOk(w', o, c, retries) {
      assert CallOk(w, o, c, retries);
      if c == Mover(w, a) {
        ActorKeeps(w, o, a, retries);
      } else {
        OtherCallsKeep(w, w', o, Mover(w, a), c, retries);
      }
    }
  }

  lemma {:induction false} RunKeeps(o: Order, n: nat, acts: seq<Action>, retries: nat)
    requires Fixed(o)
    ensures Inv(Run(Start(n), o, acts, retries), o, retries)
    ensures |Run(Start(n), o, acts, retries).calls| == n
    decreases |acts|
  {
    if acts != [] {
      RunKeeps(o, n, acts[..|acts| - 1], retries);
      var w := Run(Start(n), o, acts[..|acts| - 1], retries);
      StepKeeps(w, o, acts[|acts| - 1], retries);
      StepExtends(w, o, acts[|acts| - 1], retries);
    }
  }

  // ---- whole runs ----------------------------------------------------------------------

  /** At most one Customer and one intent are ever created, however many calls run. */
  lemma {:induction false} OneOfEachIsMinted(o: Order, n: nat, acts: seq<Action>, retries: nat, i: nat, j: nat)
    requires Fixed(o)
    requires i < |Run(Start(n), o, acts, retries).minted| && j < |Run(Start(n), o, acts, retries).minted|
    ensures var m := Run(Start(n), o, acts, retries).minted;
      && (m[i].CustomerRequest? == m[j].CustomerRequest? ==> i == j)
      && (m[i].CustomerRequest? ==> Wants(o))
  {
    var w := Run(Start(n), o, acts, retries);
    RunKeeps(o, n, acts, retries);
    assert MintOk(w, i) && MintOk(w, j);
  }

  /** Every call that succeeds returns the one intent.  It was created for exactly what the
      order says, and names the Customer created for the order's address when the order wants
      one, and no Customer otherwise. */
  lemma {:induction false} OneAnswer(o: Order, n: nat, acts: seq<Action>, retries: nat, c: nat, d: nat)
    requires Fixed(o) && c < n && d < n
    ensures var w := Run(Start(n), o, acts, retries);
      && |w.calls| == n
      && (w.calls[c].Done? && w.calls[d].Done? ==> w.calls[c] == w.calls[d])
      && (w.calls[c].Done? ==>
            && w.calls[c].intent < |w.minted|
            && var intent, ref := w.minted[w.calls[c].intent], w.calls[c].ref;
            && intent.IntentRequest?
            && intent.order == o.id && intent.key == o.key
            && intent.amount == o.amount && intent.currency == o.currency
            && intent.description == o.description && intent.shipping == o.shipping
            && intent.customer == ref
            && (ref.Some? <==> o.customerRequired == Some(true) && o.shipping.Some?)
            && (ref.Some? ==>
                  && ref.value < |w.minted| && w.minted[ref.value].CustomerRequest?
                  && w.minted[ref.value].order == o.id && w.minted[ref.value].shipping == o.shipping))
  {
    var w := Run(Start(n), o, acts, retries);
    RunKeeps(o, n, acts, retries);
    assert CallOk(w, o, c, retries) && CallOk(w, o, d, retries);
  }

  /** No call is ever refused for changed parameters: all requests over one key are the same
      request.  Each call sends either of its requests at most once plus once a pause. */
  lemma {:induction false} RequestsAreOneRequest(o: Order, n: nat, acts: seq<Action>, retries: nat, i: nat, j: nat, c: nat)
    requires Fixed(o) && c < n
    requires i < |Run(Start(n), o, acts, retries).traffic| && j < |Run(Start(n), o, acts, retries).traffic|
    ensures var w := Run(Start(n), o, acts, retries);
      && (w.traffic[i].request.CustomerRequest? == w.traffic[j].request.CustomerRequest? ==>
            w.traffic[i].request == w.traffic[j].request)
      && |w.calls| == n && w.calls[c] != Threw(Mismatch)
      && SentBy(w.traffic, c, OfCustomer) <= retries + 1 && SentBy(w.traffic, c, OfIntent) <= retries + 1
  {
    var w := Run(Start(n), o, acts, retries);
    RunKeeps(o, n, acts, retries);
    assert CallOk(w, o, c, retries);
    assert RightRequest(w, o, w.traffic[i].request) && RightRequest(w, o, w.traffic[j].request);
  }

  /** What is sent is the order's: its own id, amount, currency, key, description and address,
      and to the Customer's key its own address, whichever call sends it. */
  lemma {:induction false} OnlyTheOrderIsSent(o: Order, n: nat, acts: seq<Action>, retries: nat, i: nat)
    requires i < |Run(Start(n), o, acts, retries).traffic|
    ensures var r := Run(Start(n), o, acts, retries).traffic[i].request;
      && r.order == o.id && r.shipping == o.shipping
      && (r.IntentRequest? ==>
            r.amount == o.amount && r.currency == o.currency && r.key == o.key && r.description == o.description)
    decreases |acts|
  {
    var before, a := acts[..|acts| - 1], acts[|acts| - 1];
    var w := Run(Start(n), o, before, retries);
    StepExtends(w, o, a, retries);
    if i < |w.traffic| {
      OnlyTheOrderIsSent(o, n, before, retries, i);
      assert Step(w, o, a, retries).traffic[..|w.traffic|][i] == w.traffic[i];
    }
  }

  // ---- who decides about the Customer ------------------------------------------------------

  /** A recorded Customer is named again; without one the order's own answer decides; without
      that a recorded "none" does; and only then the gateway's resolver.  No Customer is asked
      for without an address. */
  lemma {:induction false} WhoDecides(w: World, o: Order, c: nat, needs: bool, retries: nat)
    requires c < |w.calls| && w.calls[c].Idle?
    ensures var call := Step(w, o, Begin(c, needs), retries).calls[c];
      && (w.recorded.DecidedRef? ==> call == Sending(AskIntent(Some(w.recorded.customer)), 0))
      && (!w.recorded.DecidedRef? ==>
            && (o.shipping.None? ==> call == Sending(AskIntent(None), 0))
            && (o.shipping.Some? && o.customerRequired == Some(true) ==> call == Sending(AskCustomer, 0))
            && (o.customerRequired == Some(false) ==> call == Sending(AskIntent(None), 0))
            && (o.customerRequired.None? && w.recorded.DecidedNone? ==> call == Sending(AskIntent(None), 0))
            && (o.customerRequired.None? && w.recorded.Undecided? && o.shipping.Some? ==>
                  call == if needs then Sending(AskCustomer, 0) else Sending(AskIntent(None), 0)))
  {
  }

  /** Until a decision is recorded the gateway's resolver keeps answering `needs`. */
  ghost predicate Steady(o: Order, n: nat, acts: seq<Action>, retries: nat, needs: bool) {
    forall i :: 0 <= i < |acts| && acts[i].Begin? && Run(Start(n), o, acts[..i], retries).recorded.Undecided? ==>
      acts[i].needs == needs
  }

  lemma {:induction false} SteadyBefore(o: Order, n: nat, acts: seq<Action>, retries: nat, needs: bool)
    requires acts != [] && Steady(o, n, acts, retries, needs)
    ensures Steady(o, n, acts[..|acts| - 1], retries, needs)
  {
    var before := acts[..|acts| - 1];
    forall i | 0 <= i < |before| && before[i].Begin? && Run(Start(n), o, before[..i], retries).recorded.Undecided?
      ensures before[i].needs == needs
    {
      assert before[..i] == acts[..i] && before[i] == acts[i];
    }
  }

  /** An order that left the question open runs, under a steady resolver, exactly as one that
      had it answered: so all that is proved of such orders holds of its runs too, and once a
      decision is recorded the resolver may say what it likes. */
  lemma {:induction false} SteadyRunsAreFixed(o: Order, n: nat, acts: seq<Action>, retries: nat, needs: bool)
    requires o.customerRequired.None? && Steady(o, n, acts, retries, needs)
    ensures Run(Start(n), o, acts, retries) == Run(Start(n), o.(customerRequired := Some(needs)), acts, retries)
    decreases |acts|
  {
    if acts != [] {
      var before, a := acts[..|acts| - 1], acts[|acts| - 1];
      var answered := o.(customerRequired := Some(needs));
      SteadyBefore(o, n, acts, retries, needs);
      SteadyRunsAreFixed(o, n, before, retries, needs);
      var w := Run(Start(n), o, before, retries);
      RunKeeps(answered, n, before, retries);
      assert acts[..|acts| - 1] == before;
      if a.Begin? {
        assert w.recorded.Undecided? ==> a.needs == needs;
        assert Choose(o, w.recorded, a.needs) == Choose(answered, w.recorded, a.needs);
      } else if a.Send? && a.call < |w.calls| && w.calls[a.call].Sending? {
        assert RequestAt(o, w.calls[a.call].stage) == RequestAt(answered, w.calls[a.call].stage);
      }
    }
  }

  /** A request that never left, an answer that never came and a wait that is given up each end
      their own call, and change nothing else. */
  lemma {:induction false} CallsGiveUp(w: World, o: Order, c: nat, retries: nat)
    requires c < |w.calls|
    ensures w.calls[c].Sending? ==> Step(w, o, Unsent(c), retries) == w.(calls := w.calls[c := Threw(Lost)])
    ensures w.calls[c].Waiting? ==> Step(w, o, LoseAnswer(c), retries) == w.(calls := w.calls[c := Threw(Lost)])
    ensures w.calls[c].Pausing? ==> Step(w, o, GiveUp(c), retries) == w.(calls := w.calls[c := Threw(StillInFlight)])
  {
  }

  // ---- waiting for the key's first request -------------------------------------------------

  /** The call sends and, refused as in flight, waits and sends again, `k` times. */
  function SendsAndWaits(c: nat, k: nat): seq<Action> {
    if k == 0 then [] else SendsAndWaits(c, k - 1) + [Send(c)] + [Replay(c)]
  }

  lemma {:induction false} RunOn(w: World, o: Order, acts: seq<Action>, a: Action, b: Action, retries: nat)
    ensures Run(w, o, acts + [a] + [b], retries) == Step(Step(Run(w, o, acts, retries), o, a, retries), o, b, retries)
  {
    RunOne(w, o, acts + [a], b, retries);
    RunOne(w, o, acts, a, retries);
  }

  /** One request over a key in flight, and the wait after it. */
  lemma {:induction false} OneWait(w: World, o: Order, c: nat, s: Stage, k: nat, retries: nat)
    requires c < |w.calls| && w.calls[c] == Sending(s, k) && SlotOf(w, KindOf(s)).Working? && k < retries
    ensures var w' := Step(Step(w, o, Send(c), retries), o, Replay(c), retries);
      && |w'.calls| == |w.calls| && w'.calls[c] == Sending(s, k + 1) && SlotOf(w', KindOf(s)) == SlotOf(w, KindOf(s))
      && SentBy(w'.traffic, c, KindOf(s)) == SentBy(w.traffic, c, KindOf(s)) + 1 && w'.minted == w.minted
  {
    SendIsCounted(w, o, c, retries);
    var sent := Step(w, o, Send(c), retries);
    assert sent.calls[c] == Pausing(s, k + 1);
    assert Step(sent, o, Replay(c), retries) == Move(sent, c, Sending(s, k + 1));
  }

  /** After `k` such waits only the call's count and the traffic have moved. */
  predicate Waited(w: World, w': World, c: nat, s: Stage, k: nat) {
    && |w'.calls| == |w.calls| && c < |w'.calls| && w'.calls[c] == Sending(s, k)
    && SlotOf(w', KindOf(s)) == SlotOf(w, KindOf(s))
    && SentBy(w'.traffic, c, KindOf(s)) == SentBy(w.traffic, c, KindOf(s)) + k && w'.minted == w.minted
  }

  lemma {:induction false} OneMoreWait(w: World, before: World, o: Order, c: nat, s: Stage, k: nat, retries: nat)
    requires SlotOf(w, KindOf(s)).Working? && Waited(w, before, c, s, k) && k < retries
    ensures Waited(w, Step(Step(before, o, Send(c), retries), o, Replay(c), retries), c, s, k + 1)
  {
    OneWait(before, o, c, s, k, retries);
  }

  lemma {:induction false} WaitsAndSendsAgain(w: World, o: Order, c: nat, s: Stage, k: nat, retries: nat)
    requires c < |w.calls| && w.calls[c] == Sending(s, 0) && SlotOf(w, KindOf(s)).Working? && k <= retries
    ensures Waited(w, Run(w, o, SendsAndWaits(c, k), retries), c, s, k)
  {
    if k > 0 {
      var acts := SendsAndWaits(c, k - 1);
      WaitsAndSendsAgain(w, o, c, s, k - 1, retries);
      OneMoreWait(w, Run(w, o, acts, retries), o, c, s, k - 1, retries);
      RunOn(w, o, acts, Send(c), Replay(c), retries);
      assert SendsAndWaits(c, k) == acts + [Send(c)] + [Replay(c)];
    }
  }

  /** While the key's first request stays in flight a call sends its own once and once more for
      each retry, and only then gives up: still in flight, with nothing created. */
  lemma {:induction false} InFlightIsWaitedOut(w: World, o: Order, c: nat, s: Stage, retries: nat)
    requires c < |w.calls| && w.calls[c] == Sending(s, 0) && SlotOf(w, KindOf(s)).Working?
    ensures var w' := Run(w, o, SendsAndWaits(c, retries) + [Send(c)], retries);
      && |w'.calls| == |w.calls| && w'.calls[c] == Threw(StillInFlight) && w'.minted == w.minted
      && SentBy(w'.traffic, c, KindOf(s)) == SentBy(w.traffic, c, KindOf(s)) + 1 + retries
  {
    WaitsAndSendsAgain(w, o, c, s, retries, retries);
    RunOne(w, o, SendsAndWaits(c, retries), Send(c), retries);
    SendIsCounted(Run(w, o, SendsAndWaits(c, retries), retries), o, c, retries);
  }

  /** Once the first request is done, the same request gets its object whatever the call's
      waits: the Customer's id goes into the intent, and the intent's ends the call. */
  lemma {:induction false} FinishedIsAnswered(w: World, o: Order, c: nat, retries: nat)
    requires c < |w.calls| && w.calls[c].Sending? && SlotOf(w, KindOf(w.calls[c].stage)).Minted?
    requires SlotOf(w, KindOf(w.calls[c].stage)).request == RequestAt(o, w.calls[c].stage)
    ensures var w' := Step(w, o, Send(c), retries);
      var id := SlotOf(w, KindOf(w.calls[c].stage)).id;
      && w'.minted == w.minted
      && w'.calls[c] == match w.calls[c].stage
                        case AskCustomer => Sending(AskIntent(Some(id)), 0)
                        case AskIntent(ref) => Done(id, ref)
  {
  }

  /** The provider's answer to the key's first request: its object, or a refusal that is kept or
      forgotten; the call that sent it, if it still waits, hears it either way. */
  lemma {:induction false} FirstRequestIsAnswered(w: World, o: Order, k: Kind, kept: bool, retries: nat)
    requires SlotOf(w, k).Working?
    ensures var done, refused := Step(w, o, Finish(k), retries), Step(w, o, Refuse(k, kept), retries);
      var slot := SlotOf(w, k);
      && SlotOf(done, k) == Minted(slot.request, |w.minted|) && done.minted == w.minted + [slot.request]
      && SlotOf(refused, k) == (if kept then Kept(slot.request) else Vacant) && refused.minted == w.minted
      && (slot.owner < |w.calls| && w.calls[slot.owner].Waiting? && KindOf(w.calls[slot.owner].stage) == k ==>
            && refused.calls[slot.owner] == Threw(Refused)
            && done.calls[slot.owner] == match w.calls[slot.owner].stage
                                         case AskCustomer => Sending(AskIntent(Some(|w.minted|)), 0)
                                         case AskIntent(ref) => Done(|w.minted|, ref))
  {
  }

  /** The first call to be recorded settles what the next ones name. */
  lemma {:induction false} RecordedIsNamedAgain(w: World, o: Order, c: nat, d: nat, needs: bool, retries: nat)
    requires c < |w.calls| && w.calls[c].Done? && d < |w.calls| && w.calls[d].Idle? && o.customerRequired.None?
    ensures Step(Step(w, o, Record(c), retries), o, Begin(d, needs), retries).calls[d]
            == Sending(AskIntent(w.calls[c].ref), 0)
  {
    WhoDecides(Step(w, o, Record(c), retries), o, d, needs, retries);
  }

  lemma {:induction false} KeptStays(w: World, o: Order, later: seq<Action>, k: Kind, retries: nat)
    requires SlotOf(w, k).Kept?
    ensures SlotOf(Run(w, o, later, retries), k) == SlotOf(w, k)
    decreases |later|
  {
    if later != [] {
      KeptStays(w, o, later[..|later| - 1], k, retries);
    }
  }

  /** A refusal the provider keeps is final for its key: nothing is ever created under it, and
      every call that asks again is refused. */
  lemma {:induction false} KeptRefusalIsFinal(o: Order, n: nat, acts: seq<Action>, later: seq<Action>, k: Kind,
                                              retries: nat, c: nat)
    requires Fixed(o) && c < n && SlotOf(Run(Start(n), o, acts, retries), k).Kept?
    ensures var w := Run(Start(n), o, acts + later, retries);
      && |w.calls| == n
      && (forall i :: 0 <= i < |w.minted| ==> w.minted[i].CustomerRequest? != (k == OfCustomer))
      && (w.calls[c].Sending? && KindOf(w.calls[c].stage) == k ==>
            Step(w, o, Send(c), retries).calls[c] == Threw(Refused))
  {
    var w := Run(Start(n), o, acts + later, retries);
    RunSplits(Start(n), o, acts, later, retries);
    KeptStays(Run(Start(n), o, acts, retries), o, later, k, retries);
    RunKeeps(o, n, acts + later, retries);
    assert CallOk(w, o, c, retries);
    forall i | 0 <= i < |w.minted| ensures w.minted[i].CustomerRequest? != (k == OfCustomer) {
      assert MintOk(w, i);
    }
  }

  lemma {:induction false} RunSplits(w: World, o: Order, acts: seq<Action>, later: seq<Action>, retries: nat)
    ensures Run(w, o, acts + later, retries) == Run(Run(w, o, acts, retries), o, later, retries)
  {
    if later == [] {
      assert acts + later == acts;
    } else {
      var init := later[..|later| - 1];
      RunSplits(w, o, acts, init, retries);
      assert (acts + later)[..|acts + later| - 1] == acts + init;
    }
  }

  /** Once the intent exists, a call at a right stage gets stored results at once. */
  lemma {:induction false} SendFindsTheIntent(w: World, o: Order, c: nat, retries: nat)
    requires SlotOk(w, o, OfCustomer) && SlotOk(w, o, OfIntent) && w.intents.Minted?
    requires c < |w.calls| && w.calls[c].Sending? && StageOk(w, o, w.calls[c].stage)
    ensures var w' := AfterSend(w, o, c, retries);
      && w'.intents == w.intents && w'.minted == w.minted && w'.customers == w.customers
      && if w.calls[c].stage.AskIntent? then w'.calls[c].Done? && w'.calls[c].intent == w.intents.id
         else w'.calls[c].Sending? && w'.calls[c].stage.AskIntent? && StageOk(w', o, w'.calls[c].stage)
  {
    assert RightRequest(w, o, w.intents.request);
  }

  /** Once the intent exists, a call that runs its steps uninterrupted ends in it, after one
      request of each kind it needs, and creates nothing. */
  lemma {:induction false} ReplayReturnsTheIntent(o: Order, n: nat, acts: seq<Action>, retries: nat, c: nat, needs: bool)
    requires Fixed(o) && c < n
    requires Run(Start(n), o, acts, retries).intents.Minted?
    requires |Run(Start(n), o, acts, retries).calls| == n && Run(Start(n), o, acts, retries).calls[c].Idle?
    ensures var w := Run(Start(n), o, acts, retries);
      var w1 := Step(Step(w, o, Begin(c, needs), retries), o, Send(c), retries);
      var w2 := if w1.calls[c].Done? then w1 else Step(w1, o, Send(c), retries);
      w2.calls[c].Done? && w2.calls[c].intent == w.intents.id && w2.minted == w.minted
  {
    var w := Run(Start(n), o, acts, retries);
    RunKeeps(o, n, acts, retries);
    assert CallOk(w, o, c, retries);
    BeginKeepsCall(w, o, c, needs, retries);
    var w0 := Step(w, o, Begin(c, needs), retries);
    StepKeepsSlots(w, o, Begin(c, needs), retries);
    SendFindsTheIntent(w0, o, c, retries);
    var w1 := Step(w0, o, Send(c), retries);
    if !w1.calls[c].Done? {
      SendKeepsSlots(w0, o, c, retries);
      SendFindsTheIntent(w1, o, c, retries);
    }
  }

  /** A run of two calls whose second is refused for changed parameters. */
  ghost predicate Refuses(o: Order, acts: seq<Action>, retries: nat) {
    var w := Run(Start(2), o, acts, retries);
    |w.calls| == 2 && w.calls[1] == Threw(Mismatch)
  }

  lemma {:induction false} RunOne(w: World, o: Order, acts: seq<Action>, a: Action, retries: nat)
    ensures Run(w, o, acts + [a], retries) == Step(Run(w, o, acts, retries), o, a, retries)
  {
    assert (acts + [a])[..|acts|] == acts;
  }

  /** The first call settles on no Customer and its intent is created. */
  function OneWithout(o: Order): World {
    var r := RequestAt(o, AskIntent(None));
    World(Vacant, Minted(r, 0), [r], Undecided, [Done(0, None), Idle], [Sent(0, r)])
  }

  /** The second call settles on a Customer, which is created. */
  function OneWith(o: Order): World {
    var r, q := RequestAt(o, AskIntent(None)), RequestAt(o, AskCustomer);
    World(Minted(q, 1), Minted(r, 0), [r, q], Undecided, [Done(0, None), Sending(AskIntent(Some(1)), 0)],
          [Sent(0, r), Sent(1, q)])
  }

  lemma {:induction false} FirstSends(o: Order, retries: nat)
    requires !Fixed(o)
    ensures Step(Step(Start(2), o, Begin(0, false), retries), o, Send(0), retries)
            == World(Vacant, Working(0, RequestAt(o, AskIntent(None))), [], Undecided,
                     [Waiting(AskIntent(None), 1), Idle], [Sent(0, RequestAt(o, AskIntent(None)))])
  {
    var begun := Step(Start(2), o, Begin(0, false), retries);
    assert begun.calls == [Sending(AskIntent(None), 0), Idle];
    assert Step(begun, o, Send(0), retries).calls == [Waiting(AskIntent(None), 1), Idle];
  }

  lemma {:induction false} FirstThree(o: Order, retries: nat)
    requires !Fixed(o)
    ensures Run(Start(2), o, [] + [Begin(0, false)] + [Send(0)] + [Finish(OfIntent)], retries) == OneWithout(o)
  {
    FirstSends(o, retries);
    RunOn(Start(2), o, [], Begin(0, false), Send(0), retries);
    RunOne(Start(2), o, [] + [Begin(0, false)] + [Send(0)], Finish(OfIntent), retries);
    assert OneWithout(o).calls == [Waiting(AskIntent(None), 1), Idle][0 := Done(0, None)];
  }

  lemma {:induction false} NextThree(o: Order, acts: seq<Action>, retries: nat)
    requires !Fixed(o) && Run(Start(2), o, acts, retries) == OneWithout(o)
    ensures Run(Start(2), o, acts + [Begin(1, true)] + [Send(1)] + [Finish(OfCustomer)], retries) == OneWith(o)
  {
    RunOne(Start(2), o, acts, Begin(1, true), retries);
    RunOne(Start(2), o, acts + [Begin(1, true)], Send(1), retries);
    RunOne(Start(2), o, acts + [Begin(1, true)] + [Send(1)], Finish(OfCustomer), retries);
  }

  /** Exactly the orders that fix the answer are never refused.  One whose requirement was
      never recorded asks the gateway's resolver in each call; when its answer moves between
      two calls, the second sends a different body over the same key. */
  lemma {:induction false} RefusedExactlyWhenNotFixed(o: Order, retries: nat)
    ensures (exists acts :: Refuses(o, acts, retries)) <==> !Fixed(o)
  {
    if Fixed(o) {
      forall acts ensures !Refuses(o, acts, retries) {
        RunKeeps(o, 2, acts, retries);
        assert CallOk(Run(Start(2), o, acts, retries), o, 1, retries);
      }
    } else {
      var first := [] + [Begin(0, false)] + [Send(0)] + [Finish(OfIntent)];
      var next := first + [Begin(1, true)] + [Send(1)] + [Finish(OfCustomer)];
      FirstThree(o, retries);
      NextThree(o, first, retries);
      var acts := next + [Send(1)];
      RunOne(Start(2), o, next, Send(1), retries);
      assert Refuses(o, acts, retries);
    }
  }
}
