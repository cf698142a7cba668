/** Any number of re-save calls, on any number of isolates, among operator saves.

    Each call is a program counter over the awaits of `encryptStoredPaymentSecrets`; an
    action lets one call take its next step, makes the host refuse that step, or is an
    operator's save.  A sequence of actions is one interleaving. */
module PaymentSecretRuns {
  import opened Options
  import opened PaymentSecretsHost

  datatype Outcome = Encrypted | AlreadyDone | Retry

  /** The re-save loop: what was read, what is still to do (its head is the current key), and
      the revisions to record. */
  datatype Job = Job(stored: seq<Item>, pending: seq<Item>, revisions: map<string, string>)

  /** `Skipped` is a call that found its isolate settled and returned already done, having read
      nothing; one that `Returned` already done found the marker matching what it had read. */
  datatype Pc =
    | Begin
    | Skipped
    | Preflight(stored: seq<Item>, next: nat)
    | KeyProblem(stored: seq<Item>)
    | ReadingMarker(stored: seq<Item>)
    | Resaving(job: Job)
    | ReReading(job: Job)
    | FallingBack(job: Job)
    | ReadingBack(job: Job, written: string)
    | Recording(job: Job)
    | Finishing(job: Job)
    | Cleaning(job: Job)
    | Returned(outcome: Outcome, job: Job)

  /** `issued` counts the writes the call has asked the host for. */
  datatype Call = Call(isolate: nat, pc: Pc, issued: nat)

  datatype World = World(host: Host, done: set<nat>, calls: seq<Call>)

  datatype Action = Operator(save: Save) | Advance(call: nat) | Refuse(call: nat, keyProblem: bool)

  function Stored(pc: Pc): seq<Item> {
    match pc
    case Begin => []
    case Skipped => []
    case Preflight(stored, _) => stored
    case KeyProblem(stored) => stored
    case ReadingMarker(stored) => stored
    case _ => pc.job.stored
  }

  function GiveUp(pc: Pc): Pc {
    Returned(Retry, Job(Stored(pc), [], map[]))
  }

  function NextKey(job: Job): Pc {
    if job.pending == [] then Finishing(job) else Resaving(job)
  }

  predicate CanTake(pc: Pc) {
    && (pc.Preflight? ==> pc.next < |ENCRYPTED_PAYMENT_SECRET_KEYS|)
    && (pc.Resaving? || pc.ReReading? || pc.FallingBack? || pc.ReadingBack? || pc.Recording? ==> pc.job.pending != [])
  }

  /** The call's next step against this host: its new counter, the host it leaves, whether it
      asked for a write, and whether it settles its isolate. */
  datatype Effect = Effect(pc: Pc, host: Host, issued: nat, settles: bool)

  function Take(h: Host, pc: Pc, isolateDone: bool): Effect
    requires CanTake(pc)
  {
    match pc
    case Begin =>
      Effect(if isolateDone then Skipped else Preflight([], 0), h, 0, false)
    case Skipped =>
      Effect(pc, h, 0, false)
    case Preflight(stored, next) =>
      var key := ENCRYPTED_PAYMENT_SECRET_KEYS[next];
      var stored' := match GetVersioned(h, key)
        case None => stored
        case Some(v) => stored + [Item(key, v.value, v.revision, v.sealed)];
      Effect(if next + 1 < |ENCRYPTED_PAYMENT_SECRET_KEYS| then Preflight(stored', next + 1) else ReadingMarker(stored'),
             h, 0, false)
    case KeyProblem(_) =>
      Effect(GiveUp(pc), h, 0, ReadMarker(h.marker).Some?)
    case ReadingMarker(stored) =>
      var recorded := ReadMarker(h.marker);
      if MarkerMatches(stored, recorded) then
        Effect(Returned(AlreadyDone, Job(stored, [], recorded.value)), h, 0, true)
      else
        Effect(NextKey(Job(stored, Pending(stored, recorded), Kept(stored, recorded))), h, 0, false)
    case Resaving(job) =>
      var item := job.pending[0];
      if CasApplies(h, item.key, Some(item.revision)) then
        Effect(ReadingBack(job, Mint(h)), CasWrite(h, item.key, item.value), 1, false)
      else Effect(ReReading(job), h, 1, false)
    case ReReading(job) =>
      var again := GetVersioned(h, job.pending[0].key);
      if again.None? || again.value.revision != job.pending[0].revision then Effect(GiveUp(pc), h, 0, false)
      else Effect(FallingBack(job), h, 0, false)
    case FallingBack(job) =>
      var item := job.pending[0];
      if CasApplies(h, item.key, None) then
        Effect(ReadingBack(job, Mint(h)), CasWrite(h, item.key, item.value), 1, false)
      else Effect(GiveUp(pc), h, 1, false)
    case ReadingBack(job, written) =>
      var item := job.pending[0];
      var back := GetVersioned(h, item.key);
      if back.None? || back.value.revision != written || !Identical(back.value.value, item.value) then
        Effect(GiveUp(pc), h, 0, false)
      else Effect(Recording(job.(revisions := job.revisions[item.key := written])), h, 0, false)
    case Recording(job) =>
      Effect(NextKey(job.(pending := job.pending[1..])), SetMarker(h, job.revisions), 1, false)
    case Finishing(job) =>
      Effect(Cleaning(job), SetMarker(h, job.revisions), 1, false)
    case Cleaning(job) =>
      Effect(Returned(Encrypted, job), h, 0, true)
    case Returned(_, _) =>
      Effect(pc, h, 0, false)
  }

  /** The host refused the step: a key problem in the preflight looks at the marker first. */
  function RefusedPc(pc: Pc, keyProblem: bool): Pc {
    match pc
    case Begin => pc
    case Skipped => pc
    case Returned(_, _) => pc
    case Preflight(stored, _) => if keyProblem then KeyProblem(stored) else GiveUp(pc)
    case _ => GiveUp(pc)
  }

  function Step(w: World, a: Action): World {
    match a
    case Operator(save) => w.(host := ApplySave(w.host, save))
    case Advance(c) =>
      if c >= |w.calls| || !CanTake(w.calls[c].pc) then w else
      var me := w.calls[c];
      var e := Take(w.host, me.pc, me.isolate in w.done);
      World(e.host, if e.settles then w.done + {me.isolate} else w.done,
            w.calls[c := Call(me.isolate, e.pc, me.issued + e.issued)])
    case Refuse(c, keyProblem) =>
      if c >= |w.calls| then w else
      w.(calls := w.calls[c := w.calls[c].(pc := RefusedPc(w.calls[c].pc, keyProblem))])
  }

  function Run(w: World, acts: seq<Action>): World
    decreases |acts|
  {
    if acts == [] then w else Step(Run(w, acts[..|acts| - 1]), acts[|acts| - 1])
  }

  /** Calls that have not begun, one per listed isolate, over any good host. */
  function Start(h: Host, isolates: seq<nat>): World {
    World(h, {}, seq(|isolates|, i requires 0 <= i < |isolates| => Call(isolates[i], Begin, 0)))
  }

  // ---- what every step keeps ----------------------------------------------------------

  ghost predicate JobOk(h: Host, job: Job) {
    && (forall x :: x in job.stored ==> ItemOk(h, x))
    && (forall x :: x in job.pending ==> x in job.stored)
    && MarkerSound(job.revisions, h)
    && (forall x :: x in job.stored ==> x in job.pending || x.key in job.revisions)
  }

  ghost predicate PcOk(h: Host, pc: Pc) {
    && CanTake(pc)
    && (forall x :: x in Stored(pc) ==> ItemOk(h, x))
    && match pc
      case Resaving(job) => JobOk(h, job)
      case ReReading(job) => JobOk(h, job)
      case FallingBack(job) => JobOk(h, job) && FallbackOk(h, job.pending[0])
      case ReadingBack(job, written) =>
        JobOk(h, job) && (job.pending[0].key, written) in h.sealings
      case Recording(job) => JobOk(h, job) && job.pending[0].key in job.revisions
      case Finishing(job) => JobOk(h, job) && job.pending == []
      case Cleaning(job) => JobOk(h, job) && job.pending == []
      case Returned(Encrypted, job) => JobOk(h, job) && job.pending == []
      case Returned(AlreadyDone, job) => forall x :: x in job.stored ==> x.sealed
      case _ => true
  }

  ghost predicate CallOk(h: Host, call: Call) {
    && PcOk(h, call.pc)
    && (call.pc.Begin? || call.pc.Skipped? || call.pc.Preflight? || call.pc.KeyProblem? || call.pc.ReadingMarker? ==> call.issued == 0)
    && (call.pc.Returned? && call.pc.outcome.AlreadyDone? ==> call.issued == 0)
  }

  ghost predicate Inv(w: World) {
    HostOk(w.host) && forall c :: 0 <= c < |w.calls| ==> CallOk(w.host, w.calls[c])
  }

  lemma {:induction false} CallStays(h: Host, h': Host, call: Call)
    requires CallOk(h, call) && Evolves(h, h')
    ensures CallOk(h', call)
  {
    forall x | ItemOk(h, x) ensures ItemOk(h', x) && (FallbackOk(h, x) ==> FallbackOk(h', x)) {
      ItemStays(h, h', x);
    }
  }

  lemma {:induction false} MarkerReadKeeps(h: Host, stored: seq<Item>)
    requires HostOk(h) && forall x :: x in stored ==> ItemOk(h, x)
    ensures PcOk(h, Take(h, ReadingMarker(stored), false).pc)
  {
    var recorded := ReadMarker(h.marker);
    PendingIsUnrecorded(stored, recorded);
    if MarkerMatches(stored, recorded) {
      forall x | x in stored ensures x.sealed {
        assert x !in Pending(stored, recorded);
      }
    } else {
      var job := Job(stored, Pending(stored, recorded), Kept(stored, recorded));
      assert JobOk(h, job);
    }
  }

  lemma {:induction false} PreflightKeeps(h: Host, stored: seq<Item>, next: nat)
    requires HostOk(h) && PcOk(h, Preflight(stored, next))
    ensures Take(h, Preflight(stored, next), false).host == h && PcOk(h, Take(h, Preflight(stored, next), false).pc)
  {
    ReadIsOk(h, ENCRYPTED_PAYMENT_SECRET_KEYS[next]);
  }

  lemma {:induction false} ReReadKeeps(h: Host, job: Job)
    requires HostOk(h) && PcOk(h, ReReading(job))
    ensures Take(h, ReReading(job), false).host == h && PcOk(h, Take(h, ReReading(job), false).pc)
  {
    if GetVersioned(h, job.pending[0].key).Some?
       && GetVersioned(h, job.pending[0].key).value.revision == job.pending[0].revision {
      ReReadLicenses(h, job.pending[0]);
    }
  }

  lemma {:induction false} ReadBackKeeps(h: Host, job: Job, written: string)
    requires HostOk(h) && PcOk(h, ReadingBack(job, written))
    ensures Take(h, ReadingBack(job, written), false).host == h && PcOk(h, Take(h, ReadingBack(job, written), false).pc)
  {
    var recorded := job.(revisions := job.revisions[job.pending[0].key := written]);
    assert JobOk(h, recorded);
  }

  /** Reads and returns: the host is untouched and what was learnt is good. */
  lemma {:induction false} ReadKeeps(h: Host, call: Call, isolateDone: bool)
    requires HostOk(h) && CallOk(h, call)
    requires !call.pc.Resaving? && !call.pc.FallingBack? && !call.pc.Recording? && !call.pc.Finishing?
    ensures var e := Take(h, call.pc, isolateDone);
      e.host == h && e.issued == 0 && CallOk(h, Call(call.isolate, e.pc, call.issued))
  {
    match call.pc
    case Preflight(stored, next) => PreflightKeeps(h, stored, next);
    case ReadingMarker(stored) => MarkerReadKeeps(h, stored);
    case ReReading(job) => ReReadKeeps(h, job);
    case ReadingBack(job, written) => ReadBackKeeps(h, job, written);
    case _ =>
  }

  /** The two conditional writes: each leaves every key readable as it was. */
  lemma {:induction false} WriteKeeps(h: Host, call: Call)
    requires HostOk(h) && CallOk(h, call) && (call.pc.Resaving? || call.pc.FallingBack?)
    ensures var e := Take(h, call.pc, false);
      && HostOk(e.host) && Evolves(h, e.host) && CallOk(e.host, Call(call.isolate, e.pc, call.issued + e.issued))
      && e.host.truth == h.truth && forall k :: Readable(e.host, k) == Readable(h, k)
  {
    var job := call.pc.job;
    var item := job.pending[0];
    var expected := if call.pc.Resaving? then Some(item.revision) else None;
    if CasApplies(h, item.key, expected) {
      if call.pc.Resaving? {
        ResaveReadsItsValue(h, item);
      } else {
        FallbackReadsItsValue(h, item);
      }
      WriteIsOk(h, item.key, item.value);
      CallStays(h, CasWrite(h, item.key, item.value), call);
    }
  }

  lemma {:induction false} RestIsOk(h: Host, job: Job)
    requires JobOk(h, job) && job.pending != [] && job.pending[0].key in job.revisions
    ensures JobOk(h, job.(pending := job.pending[1..]))
  {
    assert job.pending == [job.pending[0]] + job.pending[1..];
  }

  /** The marker writes record only revisions this call or a sound marker vouched for. */
  lemma {:induction false} MarkKeeps(h: Host, call: Call)
    requires HostOk(h) && CallOk(h, call) && (call.pc.Recording? || call.pc.Finishing?)
    ensures var e := Take(h, call.pc, false);
      && HostOk(e.host) && Evolves(h, e.host) && CallOk(e.host, Call(call.isolate, e.pc, call.issued + e.issued))
      && e.host.truth == h.truth && forall k :: Readable(e.host, k) == Readable(h, k)
  {
    var job := call.pc.job;
    var h' := SetMarker(h, job.revisions);
    MarkIsOk(h, job.revisions);
    CallStays(h, h', call);
    if call.pc.Recording? {
      RestIsOk(h', job);
    }
  }

  lemma {:induction false} TakeKeeps(h: Host, call: Call, isolateDone: bool)
    requires HostOk(h) && CallOk(h, call)
    ensures var e := Take(h, call.pc, isolateDone);
      && HostOk(e.host) && Evolves(h, e.host) && CallOk(e.host, Call(call.isolate, e.pc, call.issued + e.issued))
      && e.host.truth == h.truth && forall k :: Readable(e.host, k) == Readable(h, k)
  {
    match call.pc
    case Resaving(_) => WriteKeeps(h, call);
    case FallingBack(_) => WriteKeeps(h, call);
    case Recording(_) => MarkKeeps(h, call);
    case Finishing(_) => MarkKeeps(h, call);
    case _ => ReadKeeps(h, call, isolateDone);
  }

  lemma {:induction false} OthersStay(w: World, h: Host, c: nat)
    requires Inv(w) && Evolves(w.host, h)
    ensures forall d :: 0 <= d < |w.calls| && d != c ==> CallOk(h, w.calls[d])
  {
    forall d | 0 <= d < |w.calls| && d != c ensures CallOk(h, w.calls[d]) {
      CallStays(w.host, h, w.calls[d]);
    }
  }

  lemma {:induction false} RefusalKeeps(h: Host, call: Call, keyProblem: bool)
    requires CallOk(h, call)
    ensures CallOk(h, call.(pc := RefusedPc(call.pc, keyProblem)))
  {
  }

  lemma {:induction false} StepKeeps(w: World, a: Action)
    requires Inv(w)
    ensures Inv(Step(w, a)) && |Step(w, a).calls| == |w.calls|
  {
    match a
    case Operator(save) =>
      SaveIsOk(w.host, save);
      OthersStay(w, ApplySave(w.host, save), |w.calls|);
    case Advance(c) =>
      if c < |w.calls| && CanTake(w.calls[c].pc) {
        TakeKeeps(w.host, w.calls[c], w.calls[c].isolate in w.done);
        OthersStay(w, Step(w, a).host, c);
      }
    case Refuse(c, keyProblem) =>
      if c < |w.calls| {
        RefusalKeeps(w.host, w.calls[c], keyProblem);
      }
  }

  lemma {:induction false} RunKeeps(h: Host, isolates: seq<nat>, acts: seq<Action>)
    requires HostOk(h)
    ensures Inv(Run(Start(h, isolates), acts)) && |Run(Start(h, isolates), acts).calls| == |isolates|
    decreases |acts|
  {
    if acts != [] {
      RunKeeps(h, isolates, acts[..|acts| - 1]);
      StepKeeps(Run(Start(h, isolates), acts[..|acts| - 1]), acts[|acts| - 1]);
    }
  }

  // ---- what every run shows -------------------------------------------------------------

  /** The value an operator last saved under `key` during the run, or what was readable
      before it. */
  function LastSaved(h: Host, acts: seq<Action>, key: string): Option<StoredValue>
    decreases |acts|
  {
    if acts == [] then Readable(h, key)
    else match acts[|acts| - 1]
      case Operator(save) => if save.key == key then Some(save.value) else LastSaved(h, acts[..|acts| - 1], key)
      case _ => LastSaved(h, acts[..|acts| - 1], key)
  }

  /** No step of any call changes what is readable under any key. */
  lemma {:induction false} OnlySavesChangeValues(w: World, a: Action, key: string)
    requires Inv(w) && !a.Operator?
    ensures Readable(Step(w, a).host, key) == Readable(w.host, key)
  {
    if a.Advance? && a.call < |w.calls| && CanTake(w.calls[a.call].pc) {
      TakeKeeps(w.host, w.calls[a.call], w.calls[a.call].isolate in w.done);
    }
  }

  /** In every interleaving of any number of re-save calls with operator saves, each key
      reads as its last operator-saved value, or as it did at the start. */
  lemma {:induction false} ReadersSeeTheLastSave(h: Host, isolates: seq<nat>, acts: seq<Action>, key: string)
    requires HostOk(h)
    ensures Readable(Run(Start(h, isolates), acts).host, key) == LastSaved(h, acts, key)
    decreases |acts|
  {
    if acts != [] {
      var before, a := acts[..|acts| - 1], acts[|acts| - 1];
      ReadersSeeTheLastSave(h, isolates, before, key);
      RunKeeps(h, isolates, before);
      var w := Run(Start(h, isolates), before);
      if a.Operator? {
        SaveIsOk(w.host, a.save);
      } else {
        OnlySavesChangeValues(w, a, key);
      }
    }
  }

  /** A marker entry is only ever trusted for an encrypted row: while the row is at the
      recorded revision it is encrypted, in every reachable state. */
  lemma {:induction false} MarkerNamesSealedRows(h: Host, isolates: seq<nat>, acts: seq<Action>, key: string)
    requires HostOk(h)
    ensures var h' := Run(Start(h, isolates), acts).host;
      ReadMarker(h'.marker).Some? && key in ReadMarker(h'.marker).value ==>
        var revision := ReadMarker(h'.marker).value[key];
        && (key, revision) in h'.sealings
        && (GetVersioned(h', key).Some? && GetVersioned(h', key).value.revision == revision ==>
              GetVersioned(h', key).value.sealed)
  {
    RunKeeps(h, isolates, acts);
    var h' := Run(Start(h, isolates), acts).host;
    assert CellOk(h', key);
  }

  /** A call that returns because the marker matched wrote nothing, and every key it read in
      its preflight was encrypted when read.  A call that returns having re-saved leaves each
      of the keys it read recorded at a revision an encrypting write of that key made. */
  lemma {:induction false} ReturnsAreSealed(h: Host, isolates: seq<nat>, acts: seq<Action>, c: nat)
    requires HostOk(h) && c < |isolates|
    ensures var w := Run(Start(h, isolates), acts);
      && |w.calls| == |isolates|
      && (w.calls[c].pc.Returned? && w.calls[c].pc.outcome.AlreadyDone? ==>
            w.calls[c].issued == 0 && forall x :: x in w.calls[c].pc.job.stored ==> x.sealed)
      && (w.calls[c].pc.Returned? && w.calls[c].pc.outcome.Encrypted? ==>
            forall x :: x in w.calls[c].pc.job.stored ==>
              && x.key in w.calls[c].pc.job.revisions
              && (x.key, w.calls[c].pc.job.revisions[x.key]) in w.host.sealings)
  {
    RunKeeps(h, isolates, acts);
    var w := Run(Start(h, isolates), acts);
    assert CallOk(w.host, w.calls[c]);
  }

  // ---- no readable key is left out ---------------------------------------------------------

  ghost predicate HasItem(stored: seq<Item>, key: string) {
    exists x :: x in stored && x.key == key
  }

  /** Key number `i`, readable since the call began, has its item once its turn is over. */
  ghost predicate LookedAt(pc: Pc, i: nat)
    requires i < |ENCRYPTED_PAYMENT_SECRET_KEYS|
  {
    match pc
    case Begin => true
    case Skipped => true
    case KeyProblem(_) => true
    case Preflight(stored, next) => i < next ==> HasItem(stored, ENCRYPTED_PAYMENT_SECRET_KEYS[i])
    case Returned(Retry, _) => true
    case _ => HasItem(Stored(pc), ENCRYPTED_PAYMENT_SECRET_KEYS[i])
  }

  lemma {:induction false} ReadAddsItem(stored: seq<Item>, item: Item, key: string)
    requires HasItem(stored, key) || item.key == key
    ensures HasItem(stored + [item], key)
  {
    if item.key == key {
      assert item in stored + [item];
    } else {
      var x :| x in stored && x.key == key;
      assert x in stored + [item];
    }
  }

  lemma {:induction false} TakeLooks(h: Host, pc: Pc, isolateDone: bool, i: nat)
    requires CanTake(pc) && i < |ENCRYPTED_PAYMENT_SECRET_KEYS| && LookedAt(pc, i)
    requires Readable(h, ENCRYPTED_PAYMENT_SECRET_KEYS[i]).Some?
    ensures LookedAt(Take(h, pc, isolateDone).pc, i)
  {
    if pc.Preflight? && GetVersioned(h, ENCRYPTED_PAYMENT_SECRET_KEYS[pc.next]).Some? && i <= pc.next {
      var key := ENCRYPTED_PAYMENT_SECRET_KEYS[pc.next];
      var v := GetVersioned(h, key).value;
      ReadAddsItem(pc.stored, Item(key, v.value, v.revision, v.sealed), ENCRYPTED_PAYMENT_SECRET_KEYS[i]);
    }
  }

  lemma {:induction false} StepLooks(w: World, a: Action, c: nat, i: nat)
    requires Inv(w) && c < |w.calls| && i < |ENCRYPTED_PAYMENT_SECRET_KEYS| && LookedAt(w.calls[c].pc, i)
    requires Readable(w.host, ENCRYPTED_PAYMENT_SECRET_KEYS[i]).Some?
    ensures |Step(w, a).calls| == |w.calls| && LookedAt(Step(w, a).calls[c].pc, i)
    ensures Readable(Step(w, a).host, ENCRYPTED_PAYMENT_SECRET_KEYS[i]).Some?
  {
    if a.Operator? {
      SaveIsOk(w.host, a.save);
    } else {
      OnlySavesChangeValues(w, a, ENCRYPTED_PAYMENT_SECRET_KEYS[i]);
      if a == Advance(c) && CanTake(w.calls[c].pc) {
        TakeLooks(w.host, w.calls[c].pc, w.calls[c].isolate in w.done, i);
      }
    }
  }

  lemma {:induction false} RunLooks(w: World, later: seq<Action>, c: nat, i: nat)
    requires Inv(w) && c < |w.calls| && i < |ENCRYPTED_PAYMENT_SECRET_KEYS| && LookedAt(w.calls[c].pc, i)
    requires Readable(w.host, ENCRYPTED_PAYMENT_SECRET_KEYS[i]).Some?
    ensures Inv(Run(w, later)) && |Run(w, later).calls| == |w.calls| && LookedAt(Run(w, later).calls[c].pc, i)
    ensures Readable(Run(w, later).host, ENCRYPTED_PAYMENT_SECRET_KEYS[i]).Some?
  {
    if later != [] {
      RunLooks(w, later[..|later| - 1], c, i);
      StepKeeps(Run(w, later[..|later| - 1]), later[|later| - 1]);
      StepLooks(Run(w, later[..|later| - 1]), later[|later| - 1], c, i);
    }
  }

  /** The three keys, by name. */
  lemma {:induction false} TheKeys(key: string) returns (i: nat)
    requires key == "settings:stripeSecretKey" || key == "settings:stripeWebhookSecret" || key == "settings:otta-wh-token"
    ensures i < |ENCRYPTED_PAYMENT_SECRET_KEYS| && ENCRYPTED_PAYMENT_SECRET_KEYS[i] == key
  {
    i := if key == "settings:stripeSecretKey" then 0 else if key == "settings:stripeWebhookSecret" then 1 else 2;
  }

  /** No readable key is left out.  A key that is readable when a call begins, plain or
      encrypted, in the options table or outside it, has been sealed when the call returns: one
      that re-saved recorded it at a revision an encrypting write of that key made, and one that
      found the marker matching had read it encrypted and wrote nothing. */
  lemma {:induction false} NoReadableKeyIsLeftOut(h: Host, isolates: seq<nat>, before: seq<Action>, later: seq<Action>,
                                                  c: nat, key: string)
    requires HostOk(h) && c < |isolates|
    requires key == "settings:stripeSecretKey" || key == "settings:stripeWebhookSecret" || key == "settings:otta-wh-token"
    requires |Run(Start(h, isolates), before).calls| == |isolates| && Run(Start(h, isolates), before).calls[c].pc.Begin?
    requires Readable(Run(Start(h, isolates), before).host, key).Some?
    ensures var w := Run(Run(Start(h, isolates), before), later);
      && |w.calls| == |isolates|
      && var pc := w.calls[c].pc;
      && (pc.Returned? && pc.outcome == Encrypted ==>
            && HasItem(pc.job.stored, key)
            && key in pc.job.revisions && (key, pc.job.revisions[key]) in w.host.sealings)
      && (pc.Returned? && pc.outcome == AlreadyDone ==>
            && w.calls[c].issued == 0
            && exists x :: x in pc.job.stored && x.key == key && x.sealed && (key, x.revision) in w.host.sealings)
  {
    var i := TheKeys(key);
    RunKeeps(h, isolates, before);
    RunLooks(Run(Start(h, isolates), before), later, c, i);
    var w := Run(Run(Start(h, isolates), before), later);
    assert CallOk(w.host, w.calls[c]);
    var pc := w.calls[c].pc;
    if pc.Returned? && pc.outcome != Retry {
      var x :| x in pc.job.stored && x.key == key;
      assert ItemOk(w.host, x);
    }
  }

  // ---- settled isolates --------------------------------------------------------------------

  /** A call that entitles its isolate to look no further: it re-saved, or found the marker
      matching, or was stopped by a key problem without having written anything. */
  predicate Earned(call: Call) {
    call.pc.Returned? && (call.pc.outcome == Encrypted || call.pc.outcome == AlreadyDone || call.issued == 0)
  }

  ghost predicate Settles(w: World) {
    && (forall i :: i in w.done ==> exists c :: 0 <= c < |w.calls| && w.calls[c].isolate == i && Earned(w.calls[c]))
    && (forall c :: 0 <= c < |w.calls| && (w.calls[c].pc.Skipped? || (w.calls[c].pc.Returned? && w.calls[c].pc.outcome != Retry)) ==>
          w.calls[c].isolate in w.done)
  }

  /** What one step does to the settled isolates: a call that finishes, or finds the marker
      matching, settles its own; so does one stopped by a key problem, exactly when a marker is
      there to be read. */
  lemma {:induction false} WhatSettles(w: World, c: nat)
    requires c < |w.calls| && CanTake(w.calls[c].pc)
    ensures var pc := w.calls[c].pc;
      Step(w, Advance(c)).done
      == w.done + if || pc.Cleaning?
                     || (pc.ReadingMarker? && MarkerMatches(pc.stored, ReadMarker(w.host.marker)))
                     || (pc.KeyProblem? && ReadMarker(w.host.marker).Some?) then {w.calls[c].isolate} else {}
  {
  }

  lemma {:induction false} StepSettles(w: World, a: Action)
    requires Inv(w) && Settles(w)
    ensures Settles(Step(w, a))
  {
    var w' := Step(w, a);
    if !a.Operator? && a.call < |w.calls| {
      assert CallOk(w.host, w.calls[a.call]);
      forall i | i in w'.done ensures exists c :: 0 <= c < |w'.calls| && w'.calls[c].isolate == i && Earned(w'.calls[c]) {
        if i in w.done {
          var c :| 0 <= c < |w.calls| && w.calls[c].isolate == i && Earned(w.calls[c]);
          assert w'.calls[c].isolate == i && Earned(w'.calls[c]);
        } else {
          assert w'.calls[a.call].isolate == i && Earned(w'.calls[a.call]);
        }
      }
    }
  }

  /** A call skips its preflight only where some call of that isolate earned it. */
  lemma {:induction false} SkippedWasEarned(h: Host, isolates: seq<nat>, acts: seq<Action>)
    requires HostOk(h)
    ensures Settles(Run(Start(h, isolates), acts))
    decreases |acts|
  {
    if acts != [] {
      SkippedWasEarned(h, isolates, acts[..|acts| - 1]);
      RunKeeps(h, isolates, acts[..|acts| - 1]);
      StepSettles(Run(Start(h, isolates), acts[..|acts| - 1]), acts[|acts| - 1]);
    }
  }

  /** A call that begins in a settled isolate reads and writes nothing at all. */
  lemma {:induction false} SettledIsolatesSkip(w: World, c: nat, later: seq<Action>)
    requires c < |w.calls| && w.calls[c].pc.Begin? && w.calls[c].isolate in w.done && w.calls[c].issued == 0
    ensures Step(w, Advance(c)).host == w.host
    ensures var w' := Run(Step(w, Advance(c)), later);
      |w'.calls| == |w.calls| && w'.calls[c] == Call(w.calls[c].isolate, Skipped, 0)
  {
    if later != [] {
      SettledIsolatesSkip(w, c, later[..|later| - 1]);
    }
  }

  /** A refused preflight read: a key problem looks at the marker before it gives up, anything
      else gives up at once; a refusal later on ends in a retry with what was done left done. */
  lemma {:induction false} RefusalsAre(w: World, c: nat, keyProblem: bool)
    requires c < |w.calls| && !w.calls[c].pc.Begin? && !w.calls[c].pc.Skipped? && !w.calls[c].pc.Returned?
    ensures var w' := Step(w, Refuse(c, keyProblem));
      && w'.host == w.host && w'.done == w.done && |w'.calls| == |w.calls| && w'.calls[c].issued == w.calls[c].issued
      && (w.calls[c].pc.Preflight? && keyProblem ==>
            && w'.calls[c].pc == KeyProblem(w.calls[c].pc.stored)
            && Step(w', Advance(c)).calls[c].pc.Returned? && Step(w', Advance(c)).calls[c].pc.outcome == Retry
            && Step(w', Advance(c)).host == w.host)
      && (!(w.calls[c].pc.Preflight? && keyProblem) ==>
            w'.calls[c].pc.Returned? && w'.calls[c].pc.outcome == Retry)
  {
  }

  /** As soon as a key is read back its revision is in the marker, and so it is again at the
      end: what one call did is not done again by the next. */
  lemma {:induction false} ProgressIsRecorded(w: World, c: nat)
    requires Inv(w) && c < |w.calls| && (w.calls[c].pc.Recording? || w.calls[c].pc.Finishing?)
    ensures ReadMarker(Step(w, Advance(c)).host.marker) == Some(w.calls[c].pc.job.revisions)
    ensures w.calls[c].pc.Recording? ==>
      w.calls[c].pc.job.pending != [] && w.calls[c].pc.job.pending[0].key in w.calls[c].pc.job.revisions
  {
    assert CallOk(w.host, w.calls[c]);
    MarkerRoundTrip(w.calls[c].pc.job.revisions);
  }

  predicate StoppedInPreflight(call: Call) {
    call.issued == 0 && (call.pc.KeyProblem? || (call.pc.Returned? && call.pc.outcome.Retry?))
  }

  lemma {:induction false} StoppedStays(w: World, a: Action, c: nat)
    requires c < |w.calls| && StoppedInPreflight(w.calls[c])
    ensures |Step(w, a).calls| == |w.calls| && StoppedInPreflight(Step(w, a).calls[c])
  {
  }

  lemma {:induction false} RunStaysStopped(w: World, later: seq<Action>, c: nat)
    requires c < |w.calls| && StoppedInPreflight(w.calls[c])
    ensures |Run(w, later).calls| == |w.calls| && StoppedInPreflight(Run(w, later).calls[c])
  {
    if later != [] {
      RunStaysStopped(w, later[..|later| - 1], c);
      StoppedStays(Run(w, later[..|later| - 1]), later[|later| - 1], c);
    }
  }

  /** A preflight read the host refuses ends the call with nothing written, whatever else
      happens afterwards. */
  lemma {:induction false} FailedPreflightWritesNothing(h: Host, isolates: seq<nat>, acts: seq<Action>, c: nat,
                                                        keyProblem: bool, later: seq<Action>)
    requires HostOk(h) && c < |isolates|
    requires |Run(Start(h, isolates), acts).calls| == |isolates|
    requires Run(Start(h, isolates), acts).calls[c].pc.Preflight?
    ensures var w := Step(Run(Start(h, isolates), acts), Refuse(c, keyProblem));
      && w.host == Run(Start(h, isolates), acts).host
      && |Run(w, later).calls| == |isolates| && StoppedInPreflight(Run(w, later).calls[c])
  {
    RunKeeps(h, isolates, acts);
    assert CallOk(Run(Start(h, isolates), acts).host, Run(Start(h, isolates), acts).calls[c]);
    RunStaysStopped(Step(Run(Start(h, isolates), acts), Refuse(c, keyProblem)), later, c);
  }
}
