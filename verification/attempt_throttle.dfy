/** The sliding-window attempt throttle over one compare-and-set document.

    Instants are integers: the store's fixed-width ISO-8601 stamps compare as they do. */
module AttemptThrottle {
  import opened Options
  import opened CasMachine
  import opened CasRetry
  import opened VersionedDocs

  datatype Slot = Slot(challengeId: nat, expiresAt: int)

  /** One `admit` call: its slot's id and the clock reading it took once, before its loop. */
  datatype Call = Call(slotId: nat, now: int)

  /** The slots still holding the window at `now`. */
  function LiveSlots(slots: seq<Slot>, now: int): seq<Slot> {
    if slots == [] then []
    else LiveSlots(slots[..|slots| - 1], now)
         + if slots[|slots| - 1].expiresAt > now then [slots[|slots| - 1]] else []
  }

  lemma {:induction false} LiveIsUnexpired(slots: seq<Slot>, now: int)
    ensures forall s :: s in LiveSlots(slots, now) <==> s in slots && s.expiresAt > now
    ensures |LiveSlots(slots, now)| <= |slots|
  {
    if slots != [] {
      LiveIsUnexpired(slots[..|slots| - 1], now);
      assert slots == slots[..|slots| - 1] + [slots[|slots| - 1]];
    }
  }

  /** Each unexpired slot stays as often as it was there, and no other does. */
  lemma {:induction false} LiveCounts(slots: seq<Slot>, now: int, s: Slot)
    ensures multiset(LiveSlots(slots, now))[s] == if s.expiresAt > now then multiset(slots)[s] else 0
  {
    if slots != [] {
      LiveCounts(slots[..|slots| - 1], now, s);
      assert slots == slots[..|slots| - 1] + [slots[|slots| - 1]];
    }
  }

  /** The filter keeps order: it works part by part. */
  lemma {:induction false} LiveSplits(a: seq<Slot>, b: seq<Slot>, now: int)
    ensures LiveSlots(a + b, now) == LiveSlots(a, now) + LiveSlots(b, now)
  {
    if b == [] {
      assert a + b == a;
    } else {
      assert (a + b)[..|a + b| - 1] == a + b[..|b| - 1];
      LiveSplits(a, b[..|b| - 1], now);
    }
  }

  function Slots(doc: Option<seq<Slot>>): seq<Slot> {
    match doc case None => [] case Some(slots) => slots
  }

  function SlotOf(call: Call, windowMs: int): Slot {
    Slot(call.slotId, call.now + windowMs)
  }

  /** One attempt of `admit`: refuse on a full window, otherwise write the live slots and
      the call's own. */
  function AdmitDecision(call: Call, cap: int, windowMs: int, doc: Option<seq<Slot>>): Decision<seq<Slot>, bool> {
    var live := LiveSlots(Slots(doc), call.now);
    if |live| >= cap then Resolve(false) else Write(live + [SlotOf(call, windowMs)], true)
  }

  function Admits(calls: seq<Call>, cap: int, windowMs: int): Program<seq<Slot>, bool> {
    (c: nat, attempt: nat, doc: Option<seq<Slot>>) =>
      if c < |calls| then AdmitDecision(calls[c], cap, windowMs, doc) else Resolve(false)
  }

  /** The world after one interleaving of the calls. */
  function After(calls: seq<Call>, cap: int, windowMs: int, max: nat, init: Option<seq<Slot>>, acts: seq<Action>):
    World<seq<Slot>, bool>
  {
    Run(Start(init, |calls|, max), acts, Admits(calls, cap, windowMs), max)
  }

  ghost predicate Granted(calls: seq<Call>, w: World<seq<Slot>, bool>) {
    forall i :: 0 <= i < |w.log| ==> w.log[i].writer < |calls|
  }

  /** Every commit is what `admit` decides from the document the commit before it left. */
  ghost predicate Admitted(calls: seq<Call>, cap: int, windowMs: int, w: World<seq<Slot>, bool>) {
    && Granted(calls, w)
    && forall i: nat :: i < |w.log| ==> ExtendsAt(calls, cap, windowMs, w, i)
  }

  ghost predicate ExtendsAt(calls: seq<Call>, cap: int, windowMs: int, w: World<seq<Slot>, bool>, i: nat)
    requires i < |w.log| && Granted(calls, w)
  {
    Extends(calls[w.log[i].writer], cap, windowMs, ValueAt(w, i), w.log[i])
  }

  ghost predicate Extends(call: Call, cap: int, windowMs: int, before: Option<seq<Slot>>, k: Commit<seq<Slot>, bool>) {
    && k.outcome
    && k.after == LiveSlots(Slots(before), call.now) + [SlotOf(call, windowMs)]
    && |k.after| <= cap
  }

  lemma {:induction false} AfterKeeps(calls: seq<Call>, cap: int, windowMs: int, max: nat, init: Option<seq<Slot>>, acts: seq<Action>)
    ensures var w := After(calls, cap, windowMs, max, init, acts);
      && Inv(w, Admits(calls, cap, windowMs), max) && |w.callers| == |calls| && w.init == init
      && Admitted(calls, cap, windowMs, w)
  {
    RunKeeps(init, |calls|, acts, Admits(calls, cap, windowMs), max);
    var w := After(calls, cap, windowMs, max, init, acts);
    forall i | 0 <= i < |w.log|
      ensures w.log[i].writer < |calls|
      ensures Extends(calls[w.log[i].writer], cap, windowMs, ValueAt(w, i), w.log[i])
    {
      assert DecidedAt(w, i, Admits(calls, cap, windowMs));
    }
  }

  // ---- safety ------------------------------------------------------------------

  /** The document never holds more than the cap, at any point of any interleaving; one that
      starts over a lowered cap is within it from the first write on. */
  lemma {:induction false} CapHolds(calls: seq<Call>, cap: int, windowMs: int, max: nat, init: Option<seq<Slot>>,
                                    acts: seq<Action>, n: nat)
    ensures var w := After(calls, cap, windowMs, max, init, acts);
            n <= |w.log| && (n > 0 || |Slots(init)| <= cap) ==> |Slots(ValueAt(w, n))| <= cap
  {
    AfterKeeps(calls, cap, windowMs, max, init, acts);
    var w := After(calls, cap, windowMs, max, init, acts);
    if 0 < n <= |w.log| {
      assert ExtendsAt(calls, cap, windowMs, w, n - 1);
    }
  }

  /** A call answers true exactly when its own slot was written, exactly once, however many
      times it retried; a refused or exhausted call wrote nothing. */
  lemma {:induction false} TrueIffOwnSlotWritten(calls: seq<Call>, cap: int, windowMs: int, max: nat, init: Option<seq<Slot>>,
                              acts: seq<Action>, c: nat)
    requires c < |calls|
    ensures var w := After(calls, cap, windowMs, max, init, acts);
      && |w.callers| == |calls|
      && (w.callers[c].pc.Finished? && w.callers[c].pc.result
          <==> exists i :: 0 <= i < |w.log| && w.log[i].writer == c)
      && (forall i, j :: 0 <= i < |w.log| && 0 <= j < |w.log| && w.log[i].writer == c && w.log[j].writer == c ==> i == j)
      && (forall i :: 0 <= i < |w.log| && w.log[i].writer == c ==>
            w.log[i].after == LiveSlots(Slots(ValueAt(w, i)), calls[c].now) + [Slot(calls[c].slotId, calls[c].now + windowMs)])
      && (w.callers[c].pc.Finished? && !w.callers[c].pc.result ==>
            && w.callers[c].pc.at <= |w.log|
            && |LiveSlots(Slots(ValueAt(w, w.callers[c].pc.at)), calls[c].now)| >= cap)
  {
    AfterKeeps(calls, cap, windowMs, max, init, acts);
    var w := After(calls, cap, windowMs, max, init, acts);
    assert CallerInv(w, c, Admits(calls, cap, windowMs), max);
    if w.callers[c].pc.Finished? && w.callers[c].pc.wrote {
      assert ExtendsAt(calls, cap, windowMs, w, w.callers[c].pc.at);
      assert w.log[w.callers[c].pc.at].writer == c;
    }
    forall i | 0 <= i < |w.log| && w.log[i].writer == c
      ensures w.log[i].after == LiveSlots(Slots(ValueAt(w, i)), calls[c].now) + [Slot(calls[c].slotId, calls[c].now + windowMs)]
    {
      assert ExtendsAt(calls, cap, windowMs, w, i);
    }
  }

  // ---- the window ----------------------------------------------------------------

  /** The granted calls in commit order. */
  function Grants(calls: seq<Call>, w: World<seq<Slot>, bool>): (g: seq<Call>)
    requires Granted(calls, w)
    ensures |g| == |w.log|
  {
    seq(|w.log|, i requires 0 <= i < |w.log| => calls[w.log[i].writer])
  }

  ghost predicate StampsOrdered(grants: seq<Call>) {
    forall i, j :: 0 <= i <= j < |grants| ==> grants[i].now <= grants[j].now
  }

  /** How many grants were stamped in the half-open interval of one window from `from`. */
  function GrantsWithin(grants: seq<Call>, from: int, windowMs: int): nat {
    if grants == [] then 0
    else GrantsWithin(grants[..|grants| - 1], from, windowMs)
         + if from <= grants[|grants| - 1].now < from + windowMs then 1 else 0
  }

  /** The grants' slots. */
  function SlotsOf(grants: seq<Call>, windowMs: int): seq<Slot> {
    if grants == [] then [] else SlotsOf(grants[..|grants| - 1], windowMs) + [SlotOf(grants[|grants| - 1], windowMs)]
  }

  lemma {:induction false} LiveAppend(a: seq<Slot>, s: Slot, t: int)
    ensures LiveSlots(a + [s], t) == LiveSlots(a, t) + if s.expiresAt > t then [s] else []
  {
    assert (a + [s])[..|a|] == a;
  }

  lemma {:induction false} LaterWindowForgets(slots: seq<Slot>, t: int, t': int)
    requires t <= t'
    ensures LiveSlots(LiveSlots(slots, t), t') == LiveSlots(slots, t')
  {
    if slots != [] {
      var init, last := slots[..|slots| - 1], slots[|slots| - 1];
      LaterWindowForgets(init, t, t');
      if last.expiresAt > t {
        LiveAppend(LiveSlots(init, t), last, t');
      } else {
        assert LiveSlots(slots, t) == LiveSlots(init, t);
      }
    }
  }

  lemma {:induction false} GrantJoinsTheLive(slots: seq<Slot>, t: int, next: Slot, t': int)
    requires t <= t' < next.expiresAt
    ensures LiveSlots(LiveSlots(slots, t), t') + [next] == LiveSlots(slots + [next], t')
  {
    LaterWindowForgets(slots, t, t');
    LiveAppend(slots, next, t');
  }

  lemma {:induction false} SlotsOfSnoc(grants: seq<Call>, n: nat, windowMs: int)
    requires 0 < n <= |grants|
    ensures SlotsOf(grants[..n], windowMs) == SlotsOf(grants[..n - 1], windowMs) + [SlotOf(grants[n - 1], windowMs)]
  {
    assert grants[..n][..n - 1] == grants[..n - 1];
  }

  /** The document after each grant is exactly what is still live of the document the run
      started from and of the grants so far. */
  lemma {:induction false} DocumentIsTheLiveGrants(calls: seq<Call>, cap: int, windowMs: int, w: World<seq<Slot>, bool>, n: nat)
    requires Admitted(calls, cap, windowMs, w) && StampsOrdered(Grants(calls, w))
    requires 0 < n <= |w.log| && windowMs > 0
    ensures w.log[n - 1].after
         == LiveSlots(Slots(w.init) + SlotsOf(Grants(calls, w)[..n], windowMs), Grants(calls, w)[n - 1].now)
  {
    var g, first := Grants(calls, w), Slots(w.init);
    assert ExtendsAt(calls, cap, windowMs, w, n - 1);
    SlotsOfSnoc(g, n, windowMs);
    Regrouped(first, SlotsOf(g[..n - 1], windowMs), SlotOf(g[n - 1], windowMs));
    if n > 1 {
      DocumentIsTheLiveGrants(calls, cap, windowMs, w, n - 1);
      assert g[n - 2].now <= g[n - 1].now;
      GrantJoinsTheLive(first + SlotsOf(g[..n - 1], windowMs), g[n - 2].now, SlotOf(g[n - 1], windowMs), g[n - 1].now);
    } else {
      assert first + SlotsOf(g[..0], windowMs) == first;
      LiveAppend(first, SlotOf(g[0], windowMs), g[0].now);
    }
  }

  lemma {:induction false} Regrouped(a: seq<Slot>, b: seq<Slot>, s: Slot)
    ensures a + (b + [s]) == (a + b) + [s]
  {
  }

  lemma {:induction false} WithinIsLive(first: seq<Slot>, grants: seq<Call>, from: int, t: int, windowMs: int)
    requires t < from + windowMs
    ensures GrantsWithin(grants, from, windowMs) <= |LiveSlots(first + SlotsOf(grants, windowMs), t)|
  {
    if grants != [] {
      var init := grants[..|grants| - 1];
      WithinIsLive(first, init, from, t, windowMs);
      Regrouped(first, SlotsOf(init, windowMs), SlotOf(grants[|grants| - 1], windowMs));
      LiveAppend(first + SlotsOf(init, windowMs), SlotOf(grants[|grants| - 1], windowMs), t);
    }
  }

  lemma {:induction false} WindowCapUpTo(calls: seq<Call>, cap: int, windowMs: int, w: World<seq<Slot>, bool>, n: nat, from: int)
    requires cap >= 0 && Admitted(calls, cap, windowMs, w) && StampsOrdered(Grants(calls, w))
    requires n <= |w.log|
    ensures GrantsWithin(Grants(calls, w)[..n], from, windowMs) <= cap
  {
    if n > 0 {
      var g := Grants(calls, w);
      assert g[..n][..n - 1] == g[..n - 1];
      if from <= g[n - 1].now < from + windowMs {
        DocumentIsTheLiveGrants(calls, cap, windowMs, w, n);
        WithinIsLive(Slots(w.init), g[..n], from, g[n - 1].now, windowMs);
        assert ExtendsAt(calls, cap, windowMs, w, n - 1);
      } else {
        WindowCapUpTo(calls, cap, windowMs, w, n - 1, from);
      }
    }
  }

  /** When clock readings do not go backwards in commit order, no half-open interval of one
      window's length holds more grants than the cap, whatever the interleaving and whatever
      document the run started from. */
  lemma {:induction false} WindowCap(calls: seq<Call>, cap: int, windowMs: int, max: nat, init: Option<seq<Slot>>,
                                     acts: seq<Action>, from: int)
    requires cap >= 0
    ensures var w := After(calls, cap, windowMs, max, init, acts);
      && Granted(calls, w)
      && (StampsOrdered(Grants(calls, w)) ==> GrantsWithin(Grants(calls, w), from, windowMs) <= cap)
  {
    AfterKeeps(calls, cap, windowMs, max, init, acts);
    var w := After(calls, cap, windowMs, max, init, acts);
    if StampsOrdered(Grants(calls, w)) {
      WindowCapUpTo(calls, cap, windowMs, w, |w.log|, from);
      assert Grants(calls, w)[..|w.log|] == Grants(calls, w);
    }
  }

  // ---- progress ---------------------------------------------------------------------

  /** Every slot is live for all of the calls or lapsed for all of them. */
  ghost predicate SameForAll(calls: seq<Call>, slots: seq<Slot>) {
    forall s, c, d :: s in slots && 0 <= c < |calls| && 0 <= d < |calls| ==>
      (s.expiresAt > calls[c].now <==> s.expiresAt > calls[d].now)
  }

  /** No slot of the document has lapsed for any of the calls. */
  ghost predicate Unlapsed(calls: seq<Call>, slots: seq<Slot>) {
    forall s, c :: s in slots && 0 <= c < |calls| ==> s.expiresAt > calls[c].now
  }

  /** The calls are all within one window of each other. */
  ghost predicate OneWindow(calls: seq<Call>, windowMs: int) {
    forall c, d :: 0 <= c < |calls| && 0 <= d < |calls| ==> calls[d].now + windowMs > calls[c].now
  }

  /** No slot lapses between the calls: not one they found, whether live or lapsed long ago,
      and not one they take. */
  ghost predicate NoLapse(calls: seq<Call>, windowMs: int, init: Option<seq<Slot>>) {
    SameForAll(calls, Slots(init)) && OneWindow(calls, windowMs)
  }

  /** The slots already live when the calls begin. */
  function AlreadyLive(calls: seq<Call>, init: Option<seq<Slot>>): nat {
    if calls == [] then 0 else |LiveSlots(Slots(init), calls[0].now)|
  }

  function FreeSlots(calls: seq<Call>, cap: int, init: Option<seq<Slot>>): nat {
    if AlreadyLive(calls, init) >= cap then 0 else cap - AlreadyLive(calls, init)
  }

  ghost predicate NoAborts(acts: seq<Action>) {
    forall i :: 0 <= i < |acts| ==> !acts[i].Abort?
  }

  lemma {:induction false} AllLive(slots: seq<Slot>, now: int)
    requires forall s :: s in slots ==> s.expiresAt > now
    ensures LiveSlots(slots, now) == slots
  {
    if slots != [] {
      var init, last := slots[..|slots| - 1], slots[|slots| - 1];
      assert slots == init + [last];
      AllLive(init, now);
    }
  }

  lemma {:induction false} SameLive(slots: seq<Slot>, t: int, t': int)
    requires forall s :: s in slots ==> (s.expiresAt > t <==> s.expiresAt > t')
    ensures LiveSlots(slots, t) == LiveSlots(slots, t')
  {
    if slots != [] {
      assert slots == slots[..|slots| - 1] + [slots[|slots| - 1]];
      SameLive(slots[..|slots| - 1], t, t');
    }
  }

  lemma {:induction false} CommitAddsOne(calls: seq<Call>, windowMs: int, before: seq<Slot>, after: seq<Slot>, d: nat)
    requires SameForAll(calls, before) && OneWindow(calls, windowMs) && d < |calls|
    requires after == LiveSlots(before, calls[d].now) + [SlotOf(calls[d], windowMs)]
    ensures |after| == |LiveSlots(before, calls[0].now)| + 1 && Unlapsed(calls, after)
  {
    SameLive(before, calls[d].now, calls[0].now);
    LiveIsUnexpired(before, calls[d].now);
    forall s, c | s in after && 0 <= c < |calls| ensures s.expiresAt > calls[c].now {
      if s != SlotOf(calls[d], windowMs) {
        assert s in before && s.expiresAt > calls[d].now;
      }
    }
  }

  /** Without lapses every commit adds one slot to those live at the start, and a full window
      takes no more.  What had lapsed before is gone from the first write on. */
  lemma {:induction false} EachCommitAddsOne(calls: seq<Call>, cap: int, windowMs: int, w: World<seq<Slot>, bool>, n: nat)
    requires NoLapse(calls, windowMs, w.init) && Admitted(calls, cap, windowMs, w) && n <= |w.log| && calls != []
    ensures SameForAll(calls, Slots(ValueAt(w, n)))
    ensures |LiveSlots(Slots(ValueAt(w, n)), calls[0].now)| == AlreadyLive(calls, w.init) + n
    ensures n > 0 ==> Unlapsed(calls, Slots(ValueAt(w, n)))
    ensures n > 0 ==> |Slots(ValueAt(w, n))| == AlreadyLive(calls, w.init) + n <= cap
  {
    if n > 0 {
      EachCommitAddsOne(calls, cap, windowMs, w, n - 1);
      assert ExtendsAt(calls, cap, windowMs, w, n - 1);
      CommitAddsOne(calls, windowMs, Slots(ValueAt(w, n - 1)), w.log[n - 1].after, w.log[n - 1].writer);
      AllLive(w.log[n - 1].after, calls[0].now);
    }
  }

  /** Every call counts the same live slots at a point of the log. */
  lemma {:induction false} EveryCallSeesThem(calls: seq<Call>, cap: int, windowMs: int, w: World<seq<Slot>, bool>, n: nat, c: nat)
    requires NoLapse(calls, windowMs, w.init) && Admitted(calls, cap, windowMs, w) && n <= |w.log| && c < |calls|
    ensures |LiveSlots(Slots(ValueAt(w, n)), calls[c].now)| == AlreadyLive(calls, w.init) + n
  {
    EachCommitAddsOne(calls, cap, windowMs, w, n);
    SameLive(Slots(ValueAt(w, n)), calls[c].now, calls[0].now);
  }

  lemma {:induction false} StepAddsNoAbort(w: World<seq<Slot>, bool>, a: Action, prog: Program<seq<Slot>, bool>, max: nat, c: nat)
    requires !a.Abort? && c < |w.callers|
    ensures |Step(w, a, prog, max).callers| == |w.callers|
    ensures Aborts(Step(w, a, prog, max).callers[c].failures) == Aborts(w.callers[c].failures)
  {
    var me, me' := w.callers[c], Step(w, a, prog, max).callers[c];
    if me'.failures != me.failures {
      assert me'.failures[..|me.failures|] == me.failures;
    }
  }

  lemma {:induction false} NoAbortsNoAbortFailures(init: Option<seq<Slot>>, n: nat, acts: seq<Action>,
                                                   prog: Program<seq<Slot>, bool>, max: nat, c: nat)
    requires NoAborts(acts) && c < n
    ensures var w := Run(Start<seq<Slot>, bool>(init, n, max), acts, prog, max);
            |w.callers| == n && Aborts(w.callers[c].failures) == 0
    decreases |acts|
  {
    if acts != [] {
      NoAbortsNoAbortFailures(init, n, acts[..|acts| - 1], prog, max, c);
      StepAddsNoAbort(Run(Start<seq<Slot>, bool>(init, n, max), acts[..|acts| - 1], prog, max), acts[|acts| - 1], prog, max, c);
    }
  }

  lemma {:induction false} PeersAreCommits<V, T>(log: seq<Commit<V, T>>, c: nat)
    ensures PeerCommits(log, c) <= |log|
  {
    if log != [] {
      PeersAreCommits(log[..|log| - 1], c);
    }
  }

  /** With no lapse, no host abort and fewer free slots than attempts (so whenever the cap is
      below the ceiling), no interleaving exhausts a caller: each call spends at most one
      attempt per free slot plus one. */
  lemma {:induction false} NobodyIsExhausted(calls: seq<Call>, cap: int, windowMs: int, max: nat, init: Option<seq<Slot>>,
                          acts: seq<Action>, c: nat)
    requires c < |calls| && FreeSlots(calls, cap, init) < max && NoLapse(calls, windowMs, init) && NoAborts(acts)
    ensures var w := After(calls, cap, windowMs, max, init, acts);
      && |w.callers| == |calls|
      && !w.callers[c].pc.Exhausted?
      && |w.callers[c].failures| + 1 <= FreeSlots(calls, cap, init) + 1
      && |w.log| <= FreeSlots(calls, cap, init)
  {
    AfterKeeps(calls, cap, windowMs, max, init, acts);
    var w := After(calls, cap, windowMs, max, init, acts);
    FailuresArePaidFor(init, |calls|, acts, Admits(calls, cap, windowMs), max, c);
    NoAbortsNoAbortFailures(init, |calls|, acts, Admits(calls, cap, windowMs), max, c);
    PeersAreCommits(w.log, c);
    EachCommitAddsOne(calls, cap, windowMs, w, |w.log|);
  }

  /** The calls that answered true. */
  function Winners(w: World<seq<Slot>, bool>): set<nat> {
    set c: nat | c < |w.callers| && w.callers[c].pc.Finished? && w.callers[c].pc.result
  }

  function Writers(log: seq<Commit<seq<Slot>, bool>>): set<nat> {
    set i | 0 <= i < |log| :: log[i].writer
  }

  lemma {:induction false} OneWriterPerCommit(log: seq<Commit<seq<Slot>, bool>>)
    requires forall i, j :: 0 <= i < j < |log| ==> log[i].writer != log[j].writer
    ensures |Writers(log)| == |log|
  {
    if log != [] {
      var init, last := log[..|log| - 1], log[|log| - 1].writer;
      OneWriterPerCommit(init);
      assert Writers(log) == Writers(init) + {last} by {
        forall c | c in Writers(init) + {last} ensures c in Writers(log) {
          if c in Writers(init) {
            var i :| 0 <= i < |init| && init[i].writer == c;
            assert log[i].writer == c;
          } else {
            assert log[|log| - 1].writer == c;
          }
        }
        forall i | 0 <= i < |log| ensures log[i].writer in Writers(init) + {last} {
          if i < |init| {
            assert init[i].writer == log[i].writer;
          }
        }
      }
      assert last !in Writers(init);
    }
  }

  lemma {:induction false} WinnersAreWriters(calls: seq<Call>, cap: int, windowMs: int, max: nat, init: Option<seq<Slot>>,
                                             acts: seq<Action>)
    ensures var w := After(calls, cap, windowMs, max, init, acts);
            Winners(w) == Writers(w.log) && |Winners(w)| == |w.log|
  {
    AfterKeeps(calls, cap, windowMs, max, init, acts);
    var w := After(calls, cap, windowMs, max, init, acts);
    forall c: nat | c < |calls| ensures c in Winners(w) <==> c in Writers(w.log) {
      TrueIffOwnSlotWritten(calls, cap, windowMs, max, init, acts, c);
    }
    forall i, j | 0 <= i < j < |w.log| ensures w.log[i].writer != w.log[j].writer {
      TrueIffOwnSlotWritten(calls, cap, windowMs, max, init, acts, w.log[i].writer);
    }
    OneWriterPerCommit(w.log);
  }

  function Everyone(n: nat): (all: set<nat>)
    ensures |all| == n && forall c: nat :: c in all <==> c < n
  {
    if n == 0 then {} else Everyone(n - 1) + {n - 1}
  }

  /** A refusal means the window was full, and then every free slot was handed out. */
  lemma {:induction false} RefusalMeansFull(calls: seq<Call>, cap: int, windowMs: int, max: nat, init: Option<seq<Slot>>,
                         acts: seq<Action>, c: nat)
    requires c < |calls| && FreeSlots(calls, cap, init) < max && NoLapse(calls, windowMs, init) && NoAborts(acts)
    ensures var w := After(calls, cap, windowMs, max, init, acts);
      && |w.callers| == |calls|
      && (w.callers[c].pc.Finished? && !w.callers[c].pc.result ==> |w.log| == FreeSlots(calls, cap, init))
  {
    AfterKeeps(calls, cap, windowMs, max, init, acts);
    var w := After(calls, cap, windowMs, max, init, acts);
    var pc := w.callers[c].pc;
    TrueIffOwnSlotWritten(calls, cap, windowMs, max, init, acts, c);
    if pc.Finished? && !pc.result {
      NobodyIsExhausted(calls, cap, windowMs, max, init, acts, c);
      EveryCallSeesThem(calls, cap, windowMs, w, pc.at, c);
    }
  }

  ghost predicate AllFinished(w: World<seq<Slot>, bool>) {
    forall c :: 0 <= c < |w.callers| ==> w.callers[c].pc.Finished?
  }

  /** At most every caller wins; when all have finished and some did not, one was refused. */
  lemma {:induction false} WinnersAreCallers(w: World<seq<Slot>, bool>)
    ensures |Winners(w)| <= |w.callers|
    ensures AllFinished(w) && |Winners(w)| < |w.callers| ==>
              exists c :: 0 <= c < |w.callers| && w.callers[c].pc.Finished? && !w.callers[c].pc.result
  {
    var everyone := Everyone(|w.callers|);
    assert everyone == Winners(w) + (everyone - Winners(w));
    if AllFinished(w) && |Winners(w)| < |w.callers| {
      assert everyone != Winners(w);
      var c: nat :| c in everyone && c !in Winners(w);
      assert w.callers[c].pc.Finished?;
    }
  }

  /** Under the same conditions, once every call has finished exactly as many answered true
      as there were calls or free slots, whichever is less; the free slots are the cap less
      the slots live when the calls began, lapsed ones not counted. */
  lemma {:induction false} ExactlyTheFreeSlotsAreGranted(calls: seq<Call>, cap: int, windowMs: int, max: nat, init: Option<seq<Slot>>,
                                      acts: seq<Action>)
    requires FreeSlots(calls, cap, init) < max && NoLapse(calls, windowMs, init) && NoAborts(acts)
    ensures var w := After(calls, cap, windowMs, max, init, acts);
      AllFinished(w) ==>
      |Winners(w)| == if |calls| <= FreeSlots(calls, cap, init) then |calls| else FreeSlots(calls, cap, init)
  {
    AfterKeeps(calls, cap, windowMs, max, init, acts);
    WinnersAreWriters(calls, cap, windowMs, max, init, acts);
    var w := After(calls, cap, windowMs, max, init, acts);
    WinnersAreCallers(w);
    if calls != [] {
      NobodyIsExhausted(calls, cap, windowMs, max, init, acts, 0);
    }
    if AllFinished(w) && |Winners(w)| < |calls| {
      var c :| 0 <= c < |calls| && w.callers[c].pc.Finished? && !w.callers[c].pc.result;
      RefusalMeansFull(calls, cap, windowMs, max, init, acts, c);
    }
  }

  // ---- the admit loop itself -------------------------------------------------------

  datatype AdmitOutcome = Answer(admitted: bool) | TooBusy(attempts: nat)

  /** What peers write between the read and the write of attempt `k`. */
  function Burst(peers: seq<seq<seq<Slot>>>, k: nat): seq<seq<Slot>> {
    if 1 <= k <= |peers| then peers[k - 1] else []
  }

  /** The document as attempt `k + 1` reads it, when the caller itself has written nothing. */
  function Left(init: Option<seq<Slot>>, peers: seq<seq<seq<Slot>>>, k: nat): Option<seq<Slot>> {
    if k == 0 then init else LastOf(Left(init, peers, k - 1), Burst(peers, k))
  }

  /** Each attempt before `n` found room and lost its revision to a peer. */
  ghost predicate LostRaces(call: Call, cap: int, init: Option<seq<Slot>>, peers: seq<seq<seq<Slot>>>, n: nat) {
    n <= 1 || (LostRaces(call, cap, init, peers, n - 1) && Lost(call, cap, init, peers, n - 1))
  }

  ghost predicate Lost(call: Call, cap: int, init: Option<seq<Slot>>, peers: seq<seq<seq<Slot>>>, k: nat)
    requires k >= 1
  {
    Burst(peers, k) != [] && |LiveSlots(Slots(Left(init, peers, k - 1)), call.now)| < cap
  }

  /** How a call ends: its answer, the document it leaves, and the attempts it spent. */
  datatype AdmitEnd = AdmitEnd(outcome: AdmitOutcome, value: Option<seq<Slot>>, attempts: nat)

  /** The call from attempt `k` on, over the document as that attempt finds it. */
  function AdmitFrom(call: Call, cap: int, windowMs: int, max: nat, value: Option<seq<Slot>>, peers: seq<seq<seq<Slot>>>,
                     k: nat): AdmitEnd
    decreases max + 1 - k
  {
    if k > max then AdmitEnd(TooBusy(max), value, k)
    else
      var live := LiveSlots(Slots(value), call.now);
      if |live| >= cap then AdmitEnd(Answer(false), value, k)
      else if Burst(peers, k) == [] then AdmitEnd(Answer(true), Some(live + [SlotOf(call, windowMs)]), k)
      else AdmitFrom(call, cap, windowMs, max, LastOf(value, Burst(peers, k)), peers, k + 1)
  }

  /** An answer of true leaves exactly the live slots its last read saw and its own; an answer
      of false means that read was full; in both cases, and when the budget runs out, every
      failed attempt had peers commit under it and nothing else was written. */
  ghost predicate EndsRight(call: Call, cap: int, windowMs: int, max: nat, init: Option<seq<Slot>>,
                            peers: seq<seq<seq<Slot>>>, end: AdmitEnd)
  {
    && end.attempts >= 1
    && LostRaces(call, cap, init, peers, end.attempts)
    && var read := Left(init, peers, end.attempts - 1);
       var live := LiveSlots(Slots(read), call.now);
       match end.outcome
       case Answer(true) =>
         end.attempts <= max && Burst(peers, end.attempts) == [] && |live| < cap
         && end.value == Some(live + [SlotOf(call, windowMs)])
       case Answer(false) => end.attempts <= max && |live| >= cap && end.value == read
       case TooBusy(n) => n == max && end.attempts == max + 1 && end.value == read
  }

  /** The attempt on this read ends the call. */
  predicate EndsHere(call: Call, cap: int, max: nat, read: Option<seq<Slot>>, peers: seq<seq<seq<Slot>>>, k: nat) {
    k > max || |LiveSlots(Slots(read), call.now)| >= cap || Burst(peers, k) == []
  }

  lemma {:induction false} OneMoreLoss(call: Call, cap: int, max: nat, init: Option<seq<Slot>>, peers: seq<seq<seq<Slot>>>, k: nat)
    requires k >= 1 && LostRaces(call, cap, init, peers, k) && !EndsHere(call, cap, max, Left(init, peers, k - 1), peers, k)
    ensures LostRaces(call, cap, init, peers, k + 1)
    ensures Left(init, peers, k) == LastOf(Left(init, peers, k - 1), Burst(peers, k))
  {
  }

  lemma {:induction false} AdmitEndsHere(call: Call, cap: int, windowMs: int, max: nat, init: Option<seq<Slot>>,
                                         peers: seq<seq<seq<Slot>>>, k: nat)
    requires 1 <= k <= max + 1 && LostRaces(call, cap, init, peers, k)
    requires EndsHere(call, cap, max, Left(init, peers, k - 1), peers, k)
    ensures EndsRight(call, cap, windowMs, max, init, peers,
                      AdmitFrom(call, cap, windowMs, max, Left(init, peers, k - 1), peers, k))
  {
  }

  lemma {:induction false} AdmitGoesOn(call: Call, cap: int, windowMs: int, max: nat, read: Option<seq<Slot>>,
                                       peers: seq<seq<seq<Slot>>>, k: nat)
    requires !EndsHere(call, cap, max, read, peers, k)
    ensures AdmitFrom(call, cap, windowMs, max, read, peers, k)
            == AdmitFrom(call, cap, windowMs, max, LastOf(read, Burst(peers, k)), peers, k + 1)
  {
  }

  lemma {:induction false} AdmitEndsRight(call: Call, cap: int, windowMs: int, max: nat, init: Option<seq<Slot>>,
                                          peers: seq<seq<seq<Slot>>>, k: nat, read: Option<seq<Slot>>)
    requires 1 <= k <= max + 1 && LostRaces(call, cap, init, peers, k) && read == Left(init, peers, k - 1)
    ensures EndsRight(call, cap, windowMs, max, init, peers, AdmitFrom(call, cap, windowMs, max, read, peers, k))
    decreases max + 1 - k
  {
    if EndsHere(call, cap, max, read, peers, k) {
      AdmitEndsHere(call, cap, windowMs, max, init, peers, k);
    } else {
      OneMoreLoss(call, cap, max, init, peers, k);
      AdmitGoesOn(call, cap, windowMs, max, read, peers, k);
      AdmitEndsRight(call, cap, windowMs, max, init, peers, k + 1, LastOf(read, Burst(peers, k)));
    }
  }

  class EmdashAttemptThrottle {
    const docs: VersionedDoc<seq<Slot>>
    const windowMs: int
    const maxAttempts: int
    const maxCasAttempts: nat

    constructor (docs: VersionedDoc<seq<Slot>>, windowMs: int, maxAttempts: int, maxCasAttempts: nat)
      ensures this.docs == docs && this.windowMs == windowMs
      ensures this.maxAttempts == maxAttempts && this.maxCasAttempts == maxCasAttempts
    {
      this.docs, this.windowMs, this.maxAttempts, this.maxCasAttempts := docs, windowMs, maxAttempts, maxCasAttempts;
    }

    /** One attempt: read, decide, and write against the revision read, with `burst` what
        peers commit in between. */
    method Attempt(call: Call, burst: seq<seq<Slot>>) returns (step: StepOutcome<bool>)
      modifies docs
      ensures var live := LiveSlots(Slots(old(docs.value)), call.now);
        if |live| >= maxAttempts then step == Done(false) && docs.value == old(docs.value)
        else if burst == [] then
          step == Done(true) && docs.value == Some(live + [Slot(call.slotId, call.now + windowMs)])
        else step == Moved && docs.value == LastOf(old(docs.value), burst)
    {
      var doc, expected := docs.GetVersioned();
      var live := LiveSlots(Slots(doc), call.now);
      if |live| >= maxAttempts {
        return Done(false);
      }
      docs.PeerWrites(burst);
      var applied := docs.CompareAndSet(expected, live + [Slot(call.slotId, call.now + windowMs)]);
      step := if applied then Done(true) else Moved;
    }

    /** One call among peers that may commit anything while it is in flight. */
    method Admit(call: Call, peers: seq<seq<seq<Slot>>>) returns (r: AdmitOutcome, attempts: nat)
      modifies docs
      ensures AdmitEnd(r, docs.value, attempts)
              == AdmitFrom(call, maxAttempts, windowMs, maxCasAttempts, old(docs.value), peers, 1)
      ensures EndsRight(call, maxAttempts, windowMs, maxCasAttempts, old(docs.value), peers, AdmitEnd(r, docs.value, attempts))
    {
      ghost var end := AdmitFrom(call, maxAttempts, windowMs, maxCasAttempts, docs.value, peers, 1);
      AdmitEndsRight(call, maxAttempts, windowMs, maxCasAttempts, docs.value, peers, 1, docs.value);
      attempts := 1;
      while attempts <= maxCasAttempts
        invariant AdmitFrom(call, maxAttempts, windowMs, maxCasAttempts, docs.value, peers, attempts) == end
      {
        var step := Attempt(call, Burst(peers, attempts));
        match step {
          case Done(admitted) => return Answer(admitted), attempts;
          case _ =>
        }
        attempts := attempts + 1;
      }
      r := TooBusy(maxCasAttempts);
    }
  }
}
