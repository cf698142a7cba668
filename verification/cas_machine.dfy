/** One versioned document shared by any number of bounded compare-and-set callers.

    Every caller runs the loop of `withCasRetry`: read the document with its revision,
    decide from the value read, and either resolve without a write or commit the decided
    value against the revision read.  The world is a step machine: an action names the
    caller that moves and whether its step reads, writes, or is aborted by the host, so a
    sequence of actions is one interleaving.  An action that its caller cannot take leaves
    the world as it is, so theorems quantify over all action sequences. */
module CasMachine {
  import opened Options

  /** What one attempt decides from the value it has just read. */
  datatype Decision<V, T> =
    | Resolve(result: T)
    | Write(next: V, outcome: T)

  /** Why one attempt failed.  A lost revision race names the commit it is charged to,
      with the length of the commit log at this attempt's read and at its write. */
  datatype Failure =
    | LostTo(commit: nat, readAt: nat, wroteAt: nat)
    | HostAbort

  datatype Pc<V, T> =
    | Reading
    | Holding(seen: nat, next: V, outcome: T)
    | Finished(result: T, at: nat, wrote: bool)
    | Exhausted

  datatype Caller<V, T> = Caller(pc: Pc<V, T>, failures: seq<Failure>)

  datatype Commit<V, T> = Commit(writer: nat, attempt: nat, after: V, outcome: T)

  /** The document is the initial value with the log of applied writes over it; its
      revision is the length of that log, so no revision is ever reused. */
  datatype World<V, T> = World(init: Option<V>, log: seq<Commit<V, T>>, callers: seq<Caller<V, T>>)

  datatype Action = Read(caller: nat) | TryCommit(caller: nat) | Abort(caller: nat)

  type Program<!V, !T> = (nat, nat, Option<V>) -> Decision<V, T>

  /** The document's value after the first `n` commits. */
  function ValueAt<V, T>(w: World<V, T>, n: nat): Option<V>
    requires n <= |w.log|
  {
    if n == 0 then w.init else Some(w.log[n - 1].after)
  }

  /** The revision a read returns after `n` commits; `None` while the document is absent. */
  function RevisionAt<V, T>(w: World<V, T>, n: nat): Option<nat> {
    if n == 0 && w.init.None? then None else Some(n)
  }

  /** `compareAndSet` applies exactly when the expected revision is still the current one. */
  predicate Applies<V, T>(w: World<V, T>, expected: Option<nat>) {
    expected == RevisionAt(w, |w.log|)
  }

  function Fail<V, T>(me: Caller<V, T>, f: Failure, max: nat): Caller<V, T> {
    Caller(if |me.failures| + 1 < max then Reading else Exhausted, me.failures + [f])
  }

  function Step<V, T>(w: World<V, T>, a: Action, prog: Program<V, T>, max: nat): World<V, T> {
    if a.caller >= |w.callers| then w else
    var me := w.callers[a.caller];
    match a
    case Read(c) =>
      if !me.pc.Reading? then w else
      var pc := match prog(c, |me.failures| + 1, ValueAt(w, |w.log|))
        case Resolve(t) => Finished(t, |w.log|, false)
        case Write(v, t) => Holding(|w.log|, v, t);
      w.(callers := w.callers[c := me.(pc := pc)])
    case TryCommit(c) =>
      if !me.pc.Holding? then w else
      if Applies(w, RevisionAt(w, me.pc.seen)) then
        w.(log := w.log + [Commit(c, |me.failures| + 1, me.pc.next, me.pc.outcome)],
           callers := w.callers[c := me.(pc := Finished(me.pc.outcome, |w.log|, true))])
      else
        w.(callers := w.callers[c := Fail(me, LostTo(me.pc.seen, me.pc.seen, |w.log|), max)])
    case Abort(c) =>
      if !me.pc.Reading? && !me.pc.Holding? then w else
      w.(callers := w.callers[c := Fail(me, HostAbort, max)])
  }

  function Run<V, T>(w: World<V, T>, acts: seq<Action>, prog: Program<V, T>, max: nat): World<V, T>
    decreases |acts|
  {
    if acts == [] then w else Step(Run(w, acts[..|acts| - 1], prog, max), acts[|acts| - 1], prog, max)
  }

  /** `n` calls that have not started yet.  A ceiling of zero never enters the loop. */
  function Start<V, T>(init: Option<V>, n: nat, max: nat): World<V, T> {
    World(init, [], seq(n, i => Caller(if max == 0 then Exhausted else Reading, [])))
  }

  /** An attempt nobody gets between ends the call: with the program's answer, or with its write
      applied over the value it read. */
  lemma {:induction false} UninterruptedFinishes<V, T>(w: World<V, T>, c: nat, prog: Program<V, T>, max: nat)
    requires c < |w.callers| && w.callers[c].pc.Reading?
    ensures var me, n := w.callers[c], |w.log|;
      var w' := Step(Step(w, Read(c), prog, max), TryCommit(c), prog, max);
      && |w'.callers| == |w.callers| && w'.callers[c].failures == me.failures
      && match prog(c, |me.failures| + 1, ValueAt(w, n))
         case Resolve(t) => w'.log == w.log && w'.callers[c].pc == Finished(t, n, false)
         case Write(v, t) =>
           w'.log == w.log + [Commit(c, |me.failures| + 1, v, t)] && w'.callers[c].pc == Finished(t, n, true)
  {
  }

  /** An attempt whose revision moved, or that the host aborted, writes nothing and is one
      failure more; the call tries again until its failures reach the ceiling. */
  lemma {:induction false} FailedAttempts<V, T>(w: World<V, T>, c: nat, prog: Program<V, T>, max: nat)
    requires c < |w.callers|
    ensures var me := w.callers[c];
      && (me.pc.Holding? && me.pc.seen < |w.log| ==>
            var w' := Step(w, TryCommit(c), prog, max);
            && w'.log == w.log && w'.callers[c].failures == me.failures + [LostTo(me.pc.seen, me.pc.seen, |w.log|)]
            && (if |me.failures| + 1 < max then w'.callers[c].pc.Reading? else w'.callers[c].pc.Exhausted?))
      && (me.pc.Holding? || me.pc.Reading? ==>
            var w' := Step(w, Abort(c), prog, max);
            && w'.log == w.log && w'.callers[c].failures == me.failures + [HostAbort]
            && (if |me.failures| + 1 < max then w'.callers[c].pc.Reading? else w'.callers[c].pc.Exhausted?))
  {
  }

  // ---- what every step keeps ------------------------------------------------

  /** Charges lie below `horizon`, each inside its own attempt, each to a peer, and an attempt
      reads only after the one before it has failed, so no two failures of one caller share a
      commit. */
  ghost predicate Charged<V, T>(fs: seq<Failure>, c: nat, log: seq<Commit<V, T>>, horizon: nat) {
    && (forall i :: 0 <= i < |fs| && fs[i].LostTo? ==>
          && fs[i].readAt <= fs[i].commit < fs[i].wroteAt <= |log|
          && fs[i].wroteAt <= horizon
          && log[fs[i].commit].writer != c)
    && (forall i, j :: 0 <= i < j < |fs| && fs[i].LostTo? && fs[j].LostTo? ==> fs[i].wroteAt <= fs[j].readAt)
  }

  /** Failure `i` was an attempt that decided to write, on the value it had read. */
  ghost predicate TriedAt<V, T>(w: World<V, T>, c: nat, i: nat, prog: Program<V, T>)
    requires c < |w.callers| && i < |w.callers[c].failures|
  {
    var f := w.callers[c].failures[i];
    f.LostTo? ==> f.readAt <= |w.log| && prog(c, i + 1, ValueAt(w, f.readAt)).Write?
  }

  ghost predicate Tried<V, T>(w: World<V, T>, c: nat, prog: Program<V, T>)
    requires c < |w.callers|
  {
    forall i: nat :: i < |w.callers[c].failures| ==> TriedAt(w, c, i, prog)
  }

  ghost predicate CallerInv<V, T>(w: World<V, T>, c: nat, prog: Program<V, T>, max: nat)
    requires c < |w.callers|
  {
    var me := w.callers[c];
    && (if me.pc.Exhausted? then |me.failures| == max else |me.failures| < max)
    && Charged(me.failures, c, w.log, if me.pc.Holding? then me.pc.seen else |w.log|)
    && Tried(w, c, prog)
    && (match me.pc
        case Holding(seen, next, outcome) =>
          seen <= |w.log| && prog(c, |me.failures| + 1, ValueAt(w, seen)) == Write(next, outcome)
        case Finished(result, at, true) =>
          && at < |w.log| && w.log[at].writer == c && w.log[at].outcome == result
          && w.log[at].attempt == |me.failures| + 1
        case Finished(result, at, false) =>
          at <= |w.log| && prog(c, |me.failures| + 1, ValueAt(w, at)) == Resolve(result)
        case _ => true)
    && (forall i :: 0 <= i < |w.log| && w.log[i].writer == c ==>
          me.pc.Finished? && me.pc.wrote && me.pc.at == i)
  }

  /** The log is a serial execution: each commit is what its caller's program decides from
      exactly the value the commit before it left. */
  ghost predicate Serial<V, T>(w: World<V, T>, prog: Program<V, T>) {
    forall i: nat :: i < |w.log| ==> DecidedAt(w, i, prog)
  }

  ghost predicate DecidedAt<V, T>(w: World<V, T>, i: nat, prog: Program<V, T>)
    requires i < |w.log|
  {
    Decided(w.log[i], ValueAt(w, i), |w.callers|, prog)
  }

  ghost predicate Decided<V, T>(k: Commit<V, T>, before: Option<V>, n: nat, prog: Program<V, T>) {
    k.writer < n && prog(k.writer, k.attempt, before) == Write(k.after, k.outcome)
  }

  ghost predicate Inv<V, T>(w: World<V, T>, prog: Program<V, T>, max: nat) {
    && Serial(w, prog)
    && (forall c :: 0 <= c < |w.callers| ==> CallerInv(w, c, prog, max))
  }

  lemma {:induction false} ValueStays<V, T>(w: World<V, T>, w': World<V, T>, n: nat)
    requires w.init == w'.init && w.log <= w'.log && n <= |w.log|
    ensures ValueAt(w', n) == ValueAt(w, n)
  {
  }

  /** A step of somebody else leaves a caller's invariant alone. */
  lemma {:induction false} BystanderKeeps<V, T>(w: World<V, T>, w': World<V, T>, d: nat, prog: Program<V, T>, max: nat)
    requires d < |w.callers| == |w'.callers| && w.callers[d] == w'.callers[d] && w.init == w'.init
    requires w.log <= w'.log && forall i :: |w.log| <= i < |w'.log| ==> w'.log[i].writer != d
    requires CallerInv(w, d, prog, max)
    ensures CallerInv(w', d, prog, max)
  {
    var me := w.callers[d];
    if me.pc.Holding? {
      assert ValueAt(w', me.pc.seen) == ValueAt(w, me.pc.seen);
    }
    if me.pc.Finished? {
      assert ValueAt(w', me.pc.at) == ValueAt(w, me.pc.at);
    }
    StaysTried(w, w', d, prog);
  }

  /** The log of a later world decides past attempts no differently. */
  lemma {:induction false} StaysTried<V, T>(w: World<V, T>, w': World<V, T>, c: nat, prog: Program<V, T>)
    requires c < |w.callers| == |w'.callers| && w.callers[c].failures == w'.callers[c].failures
    requires w.init == w'.init && w.log <= w'.log && Tried(w, c, prog)
    ensures Tried(w', c, prog)
  {
    forall i: nat | i < |w'.callers[c].failures| ensures TriedAt(w', c, i, prog) {
      assert TriedAt(w, c, i, prog);
      var f := w.callers[c].failures[i];
      if f.LostTo? {
        ValueStays(w, w', f.readAt);
      }
    }
  }

  lemma {:induction false} FailIsTried<V, T>(w: World<V, T>, c: nat, f: Failure, prog: Program<V, T>, max: nat)
    requires c < |w.callers| && Tried(w, c, prog)
    requires f.LostTo? ==> f.readAt <= |w.log| && prog(c, |w.callers[c].failures| + 1, ValueAt(w, f.readAt)).Write?
    ensures Tried(w.(callers := w.callers[c := Fail(w.callers[c], f, max)]), c, prog)
  {
    var w' := w.(callers := w.callers[c := Fail(w.callers[c], f, max)]);
    forall i: nat | i < |w'.callers[c].failures| ensures TriedAt(w', c, i, prog) {
      if i < |w.callers[c].failures| {
        assert TriedAt(w, c, i, prog);
        if w.callers[c].failures[i].LostTo? {
          ValueStays(w, w', w.callers[c].failures[i].readAt);
        }
      } else if f.LostTo? {
        ValueStays(w, w', f.readAt);
      }
    }
  }

  /** A failed attempt adds one charge, and the whole step may run again. */
  lemma {:induction false} FailKeeps<V, T>(w: World<V, T>, c: nat, f: Failure, prog: Program<V, T>, max: nat)
    requires c < |w.callers| && CallerInv(w, c, prog, max)
    requires w.callers[c].pc.Reading? || w.callers[c].pc.Holding?
    requires f.LostTo? ==>
      && w.callers[c].pc.Holding? && w.callers[c].pc.seen < |w.log|
      && f == LostTo(w.callers[c].pc.seen, w.callers[c].pc.seen, |w.log|)
    ensures CallerInv(w.(callers := w.callers[c := Fail(w.callers[c], f, max)]), c, prog, max)
  {
    var me := w.callers[c];
    var w' := w.(callers := w.callers[c := Fail(me, f, max)]);
    assert w'.callers[c].failures == me.failures + [f];
    assert Charged(me.failures + [f], c, w.log, |w.log|);
    FailIsTried(w, c, f, prog, max);
  }

  lemma {:induction false} CommitKeeps<V, T>(w: World<V, T>, c: nat, prog: Program<V, T>, max: nat)
    requires c < |w.callers| && CallerInv(w, c, prog, max)
    requires w.callers[c].pc.Holding? && w.callers[c].pc.seen == |w.log|
    ensures CallerInv(Step(w, TryCommit(c), prog, max), c, prog, max)
  {
    var w' := Step(w, TryCommit(c), prog, max);
    assert w'.callers[c].failures == w.callers[c].failures;
    assert forall i :: 0 <= i < |w.log| ==> w'.log[i] == w.log[i];
    StaysTried(w, w', c, prog);
  }

  lemma {:induction false} MoverKeeps<V, T>(w: World<V, T>, a: Action, prog: Program<V, T>, max: nat)
    requires a.caller < |w.callers| && CallerInv(w, a.caller, prog, max)
    ensures CallerInv(Step(w, a, prog, max), a.caller, prog, max)
  {
    var c, me := a.caller, w.callers[a.caller];
    match a
    case Read(_) =>
      if me.pc.Reading? {
        var w' := Step(w, a, prog, max);
        assert w'.callers[c].failures == me.failures && w'.log == w.log;
        assert ValueAt(w', |w.log|) == ValueAt(w, |w.log|);
        StaysTried(w, w', c, prog);
      }
    case TryCommit(_) =>
      if me.pc.Holding? {
        if me.pc.seen == |w.log| {
          CommitKeeps(w, c, prog, max);
        } else {
          FailKeeps(w, c, LostTo(me.pc.seen, me.pc.seen, |w.log|), prog, max);
        }
      }
    case Abort(_) =>
      if me.pc.Reading? || me.pc.Holding? {
        FailKeeps(w, c, HostAbort, prog, max);
      }
  }

  /** The log only ever grows, and only by the mover's own commit. */
  lemma {:induction false} StepGrows<V, T>(w: World<V, T>, a: Action, prog: Program<V, T>, max: nat)
    ensures var w' := Step(w, a, prog, max);
      && |w'.callers| == |w.callers| && w'.init == w.init
      && w.log <= w'.log && |w'.log| <= |w.log| + 1
      && (forall i :: |w.log| <= i < |w'.log| ==> w'.log[i].writer == a.caller)
      && (forall d :: 0 <= d < |w.callers| && d != a.caller ==> w'.callers[d] == w.callers[d])
  {
  }

  lemma {:induction false} StaysDecided<V, T>(w: World<V, T>, w': World<V, T>, i: nat, prog: Program<V, T>)
    requires i < |w.log| && DecidedAt(w, i, prog)
    requires w.init == w'.init && w.log <= w'.log && |w.callers| == |w'.callers|
    ensures DecidedAt(w', i, prog)
  {
    ValueStays(w, w', i);
  }

  lemma {:induction false} CommitIsDecided<V, T>(w: World<V, T>, c: nat, prog: Program<V, T>, max: nat)
    requires c < |w.callers| && CallerInv(w, c, prog, max)
    requires w.callers[c].pc.Holding? && w.callers[c].pc.seen == |w.log|
    ensures |Step(w, TryCommit(c), prog, max).log| == |w.log| + 1
    ensures DecidedAt(Step(w, TryCommit(c), prog, max), |w.log|, prog)
  {
    ValueStays(w, Step(w, TryCommit(c), prog, max), |w.log|);
  }

  lemma {:induction false} CommitKeepsSerial<V, T>(w: World<V, T>, c: nat, prog: Program<V, T>, max: nat)
    requires Serial(w, prog) && c < |w.callers| && CallerInv(w, c, prog, max)
    requires w.callers[c].pc.Holding? && w.callers[c].pc.seen == |w.log|
    ensures Serial(Step(w, TryCommit(c), prog, max), prog)
  {
    var w' := Step(w, TryCommit(c), prog, max);
    CommitIsDecided(w, c, prog, max);
    forall i: nat | i < |w'.log| ensures DecidedAt(w', i, prog) {
      if i < |w.log| {
        assert DecidedAt(w, i, prog);
        StaysDecided(w, w', i, prog);
      }
    }
  }

  lemma {:induction false} StepKeepsSerial<V, T>(w: World<V, T>, a: Action, prog: Program<V, T>, max: nat)
    requires Serial(w, prog) && (a.caller < |w.callers| ==> CallerInv(w, a.caller, prog, max))
    ensures Serial(Step(w, a, prog, max), prog)
  {
    var w' := Step(w, a, prog, max);
    if a.TryCommit? && a.caller < |w.callers| && w.callers[a.caller].pc.Holding?
       && w.callers[a.caller].pc.seen == |w.log| {
      CommitKeepsSerial(w, a.caller, prog, max);
    } else {
      assert w'.log == w.log && w'.init == w.init && |w'.callers| == |w.callers|;
      forall i: nat | i < |w.log| ensures DecidedAt(w', i, prog) {
        assert DecidedAt(w, i, prog);
        StaysDecided(w, w', i, prog);
      }
    }
  }

  lemma {:induction false} StepKeeps<V, T>(w: World<V, T>, a: Action, prog: Program<V, T>, max: nat)
    requires Inv(w, prog, max)
    ensures Inv(Step(w, a, prog, max), prog, max)
  {
    var w' := Step(w, a, prog, max);
    StepGrows(w, a, prog, max);
    StepKeepsSerial(w, a, prog, max);
    forall c | 0 <= c < |w'.callers| ensures CallerInv(w', c, prog, max) {
      if c == a.caller {
        MoverKeeps(w, a, prog, max);
      } else {
        BystanderKeeps(w, w', c, prog, max);
      }
    }
  }

  lemma {:induction false} RunKeeps<V, T>(init: Option<V>, n: nat, acts: seq<Action>, prog: Program<V, T>, max: nat)
    ensures var w := Run(Start<V, T>(init, n, max), acts, prog, max);
            Inv(w, prog, max) && |w.callers| == n && w.init == init
    decreases |acts|
  {
    if acts != [] {
      RunKeeps(init, n, acts[..|acts| - 1], prog, max);
      var w := Run(Start<V, T>(init, n, max), acts[..|acts| - 1], prog, max);
      StepKeeps(w, acts[|acts| - 1], prog, max);
      StepGrows(w, acts[|acts| - 1], prog, max);
    }
  }
}
