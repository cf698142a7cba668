/** The bounded, jittered compare-and-set retry loop, and what a contention error proves. */
module CasRetry {
  import opened Options
  import opened CasMachine

  const CAS_MAX_ATTEMPTS := 24
  const CAS_BASE_DELAY_MS := 2
  const CAS_MAX_DELAY_MS := 50

  /** What the loop sees of one attempt. */
  datatype StepOutcome<T> =
    | Done(value: T)
    | Moved
    | RetryableAbort(cause: nat)
    | Thrown(error: nat)

  datatype RetryResult<T> =
    | Value(value: T)
    | Threw(error: nat)
    | Contention(attempts: int, cause: Option<nat>)

  function Pow2(n: nat): nat {
    if n == 0 then 1 else 2 * Pow2(n - 1)
  }

  /** The longest pause after failed attempt `attempt`. */
  function Ceiling(attempt: nat): nat
    requires attempt >= 1
  {
    var raw := CAS_BASE_DELAY_MS * Pow2(attempt - 1);
    if raw <= CAS_MAX_DELAY_MS then raw else CAS_MAX_DELAY_MS
  }

  /** The longest total pause over `n` failed attempts. */
  function TotalCeiling(n: nat): nat {
    if n == 0 then 0 else TotalCeiling(n - 1) + Ceiling(n)
  }

  function Sum(xs: seq<real>): real {
    if xs == [] then 0.0 else Sum(xs[..|xs| - 1]) + xs[|xs| - 1]
  }

  function Jittered(random: real, ceiling: nat): (pause: real)
    requires 0.0 <= random < 1.0
    ensures 0.0 <= pause <= ceiling as real && pause == random * ceiling as real
  {
    ProductIsNonNegative(random, ceiling as real);
    ProductIsNonNegative(1.0 - random, ceiling as real);
    random * ceiling as real
  }

  lemma {:induction false} ProductIsNonNegative(a: real, b: real)
    requires a >= 0.0 && b >= 0.0
    ensures a * b >= 0.0
  {
  }

  /** Each pause is within the ceiling of its attempt, and so is their total. */
  ghost predicate WithinCeilings(slept: seq<real>) {
    && (forall i :: 0 <= i < |slept| ==> 0.0 <= slept[i] <= Ceiling(i + 1) as real)
    && Sum(slept) <= TotalCeiling(|slept|) as real
  }

  function Paused(slept: seq<real>, random: real): (r: seq<real>)
    requires WithinCeilings(slept) && 0.0 <= random < 1.0
    ensures WithinCeilings(r) && r == slept + [random * Ceiling(|slept| + 1) as real]
  {
    var r := slept + [Jittered(random, Ceiling(|slept| + 1))];
    assert r[..|slept|] == slept;
    r
  }

  predicate Decides<T>(o: StepOutcome<T>) {
    o.Done? || o.Thrown?
  }

  /** `d` is the first attempt that ends the loop. */
  ghost predicate FirstDecision<T>(step: nat -> StepOutcome<T>, d: int, max: int) {
    1 <= d <= max && Decides(step(d)) && forall k: nat :: 1 <= k < d ==> !Decides(step(k))
  }

  /** The cause of the last abort among the first `n` attempts. */
  function LastAbort<T>(step: nat -> StepOutcome<T>, n: nat): Option<nat> {
    if n == 0 then None
    else match step(n)
      case RetryableAbort(cause) => Some(cause)
      case _ => LastAbort(step, n - 1)
  }

  /** The longest whole pause over `n` failures: up to five of them double, to 62 ms in all,
      and each one after that adds 50 ms. */
  lemma {:induction false} TotalPause(n: nat)
    ensures n <= 5 ==> TotalCeiling(n) == 2 * Pow2(n) - 2
    ensures n >= 5 ==> TotalCeiling(n) == 62 + 50 * (n - 5)
  {
    if 0 < n <= 5 {
      TotalPause(n - 1);
      assert Pow2(1) == 2 && Pow2(2) == 4 && Pow2(3) == 8 && Pow2(4) == 16 && Pow2(5) == 32;
    } else if n > 5 {
      TotalPause(n - 1);
      DoublesPast(n - 1);
    }
  }

  lemma {:induction false} TotalCeilingGrows(m: nat, n: nat)
    requires m <= n
    ensures TotalCeiling(m) <= TotalCeiling(n)
    decreases n
  {
    if m < n {
      TotalCeilingGrows(m, n - 1);
    }
  }

  /** Whatever ends it, a run within the default ceiling sleeps at most 962 ms. */
  lemma {:induction false} DefaultSleep(slept: seq<real>, maxAttempts: int)
    requires WithinCeilings(slept) && maxAttempts <= CAS_MAX_ATTEMPTS
    requires |slept| <= if maxAttempts <= 0 then 0 else maxAttempts - 1
    ensures Sum(slept) <= 962.0
  {
    TotalCeilingGrows(|slept|, CAS_MAX_ATTEMPTS - 1);
    TotalPause(CAS_MAX_ATTEMPTS - 1);
  }

  lemma {:induction false} DoublesPast(n: nat)
    requires n >= 5
    ensures Pow2(n) >= 32
  {
    if n == 5 {
      assert Pow2(3) == 8;
    } else {
      DoublesPast(n - 1);
    }
  }

  method WithCasRetry<T>(step: nat -> StepOutcome<T>, maxAttempts: int, random: nat -> real)
    returns (r: RetryResult<T>, observed: Option<int>, slept: seq<real>)
    requires forall k :: 0.0 <= random(k) < 1.0
    ensures match r
      case Value(v) => FirstDecision(step, |slept| + 1, maxAttempts) && step(|slept| + 1) == Done(v)
                       && observed == Some(|slept| + 1)
      case Threw(e) => FirstDecision(step, |slept| + 1, maxAttempts) && step(|slept| + 1) == Thrown(e)
                       && observed == None
      case Contention(n, cause) =>
        && n == maxAttempts && observed == Some(maxAttempts)
        && (forall k: nat :: 1 <= k <= maxAttempts ==> !Decides(step(k)))
        && cause == LastAbort(step, if maxAttempts < 0 then 0 else maxAttempts)
        && |slept| == if maxAttempts <= 0 then 0 else maxAttempts - 1
    ensures WithinCeilings(slept)
    ensures forall i :: 0 <= i < |slept| ==> slept[i] == random(i + 1) * Ceiling(i + 1) as real
    ensures |slept| <= if maxAttempts <= 0 then 0 else maxAttempts - 1
    ensures maxAttempts <= 24 ==> Sum(slept) <= 962.0
  {
    slept, observed := [], None;
    var lastAbort: Option<nat> := None;
    var attempt := 1;
    while attempt <= maxAttempts
      invariant 1 <= attempt && (attempt <= maxAttempts + 1 || attempt == 1)
      invariant forall k: nat :: 1 <= k < attempt ==> !Decides(step(k))
      invariant lastAbort == LastAbort(step, attempt - 1)
      invariant |slept| == if attempt <= maxAttempts || attempt == 1 then attempt - 1 else attempt - 2
      invariant WithinCeilings(slept)
      invariant forall i :: 0 <= i < |slept| ==> slept[i] == random(i + 1) * Ceiling(i + 1) as real
      invariant observed == None
    {
      match step(attempt) {
        case Done(v) =>
          observed := Some(attempt);
          if maxAttempts <= CAS_MAX_ATTEMPTS { DefaultSleep(slept, maxAttempts); }
          return Value(v), observed, slept;
        case Thrown(e) =>
          if maxAttempts <= CAS_MAX_ATTEMPTS { DefaultSleep(slept, maxAttempts); }
          return Threw(e), observed, slept;
        case RetryableAbort(cause) =>
          lastAbort := Some(cause);
        case Moved =>
      }
      if attempt < maxAttempts {
        slept := Paused(slept, random(attempt));
      }
      attempt := attempt + 1;
    }
    if maxAttempts <= CAS_MAX_ATTEMPTS { DefaultSleep(slept, maxAttempts); }
    observed := Some(maxAttempts);
    r := Contention(maxAttempts, lastAbort);
  }

  // ---- every failure is paid for ---------------------------------------------

  function Losses(fs: seq<Failure>): nat {
    if fs == [] then 0 else Losses(fs[..|fs| - 1]) + if fs[|fs| - 1].LostTo? then 1 else 0
  }

  function Aborts(fs: seq<Failure>): nat {
    if fs == [] then 0 else Aborts(fs[..|fs| - 1]) + if fs[|fs| - 1].HostAbort? then 1 else 0
  }

  /** Commits by anybody but `c`. */
  function PeerCommits<V, T>(log: seq<Commit<V, T>>, c: nat): nat {
    if log == [] then 0
    else PeerCommits(log[..|log| - 1], c) + if log[|log| - 1].writer != c then 1 else 0
  }

  lemma {:induction false} EveryFailureIsOneOfTwo(fs: seq<Failure>)
    ensures Losses(fs) + Aborts(fs) == |fs|
  {
    if fs != [] {
      EveryFailureIsOneOfTwo(fs[..|fs| - 1]);
    }
  }

  lemma {:induction false} PeerCommitsGrow<V, T>(log: seq<Commit<V, T>>, c: nat, n: nat)
    requires n <= |log|
    ensures PeerCommits(log[..n], c) <= PeerCommits(log, c)
    decreases |log|
  {
    if n == |log| {
      assert log[..n] == log;
    } else {
      PeerCommitsGrow(log[..|log| - 1], c, n);
      assert log[..|log| - 1][..n] == log[..n];
    }
  }

  /** Distinct charges need distinct peer commits. */
  lemma {:induction false} ChargesAreDistinctCommits<V, T>(fs: seq<Failure>, c: nat, log: seq<Commit<V, T>>, h: nat)
    requires h <= |log| && Charged(fs, c, log, h)
    ensures Losses(fs) <= PeerCommits(log[..h], c)
  {
    if fs != [] {
      var init, last := fs[..|fs| - 1], fs[|fs| - 1];
      if last.LostTo? {
        var k := last.commit;
        assert Charged(init, c, log, last.readAt) by {
          forall i | 0 <= i < |init| && init[i].LostTo? ensures init[i].wroteAt <= last.readAt {
            assert init[i] == fs[i];
          }
        }
        ChargesAreDistinctCommits(init, c, log, last.readAt);
        PeerCommitsGrow(log[..k], c, last.readAt);
        assert log[..k][..last.readAt] == log[..last.readAt];
        assert log[..k + 1][..k] == log[..k];
        PeerCommitsGrow(log[..h], c, k + 1);
        assert log[..h][..k + 1] == log[..k + 1];
      } else {
        ChargesAreDistinctCommits(init, c, log, h);
      }
    }
  }

  /** In every interleaving: each failed attempt is a host abort, or is charged to a commit a
      peer made between that attempt's read and its write, no two to the same commit.  A
      contention error therefore means the whole budget went to such events and the caller
      itself wrote nothing. */
  lemma {:induction false} FailuresArePaidFor<V, T>(init: Option<V>, n: nat, acts: seq<Action>, prog: Program<V, T>, max: nat, c: nat)
    requires c < n
    ensures var w := Run(Start<V, T>(init, n, max), acts, prog, max);
      && |w.callers| == n
      && var me := w.callers[c];
      && |me.failures| <= max
      && Charged(me.failures, c, w.log, |w.log|)
      && Losses(me.failures) + Aborts(me.failures) == |me.failures|
      && Losses(me.failures) <= PeerCommits(w.log, c)
      && (me.pc.Exhausted? ==>
            && |me.failures| == max
            && max <= PeerCommits(w.log, c) + Aborts(me.failures)
            && forall i :: 0 <= i < |w.log| ==> w.log[i].writer != c)
  {
    RunKeeps(init, n, acts, prog, max);
    var w := Run(Start<V, T>(init, n, max), acts, prog, max);
    assert CallerInv(w, c, prog, max);
    var me := w.callers[c];
    EveryFailureIsOneOfTwo(me.failures);
    ChargesAreDistinctCommits(me.failures, c, w.log, |w.log|);
    assert w.log[..|w.log|] == w.log;
  }

  /** What one attempt of `withCasRetry`'s step does: it reads the value after `readAt` commits,
      runs its program on it, and writes, if it writes, when there are `wroteAt`. */
  function AttemptAt<V, T>(w: World<V, T>, c: nat, k: nat, prog: Program<V, T>, readAt: nat, wroteAt: nat): StepOutcome<T>
    requires readAt <= |w.log|
  {
    match prog(c, k, ValueAt(w, readAt))
    case Resolve(result) => Done(result)
    case Write(_, outcome) => if RevisionAt(w, readAt) == RevisionAt(w, wroteAt) then Done(outcome) else Moved
  }

  /** The revisions attempt `k` of a caller read and wrote at; `None` when the host aborted it. */
  function Times<V, T>(me: Caller<V, T>, k: nat): Option<(nat, nat)> {
    if 1 <= k <= |me.failures| && me.failures[k - 1].LostTo?
    then Some((me.failures[k - 1].readAt, me.failures[k - 1].wroteAt))
    else if k == |me.failures| + 1 && me.pc.Finished? then Some((me.pc.at, me.pc.at))
    else None
  }

  /** The outcomes the caller's program gives its loop, attempt by attempt. */
  ghost predicate IsStepOf<V, T>(step: nat -> StepOutcome<T>, w: World<V, T>, c: nat, prog: Program<V, T>)
    requires c < |w.callers|
  {
    forall k: nat :: OutcomeIs(step, w, c, k, prog)
  }

  ghost predicate OutcomeIs<V, T>(step: nat -> StepOutcome<T>, w: World<V, T>, c: nat, k: nat, prog: Program<V, T>)
    requires c < |w.callers|
  {
    var me := w.callers[c];
    1 <= k <= |me.failures| + (if me.pc.Finished? then 1 else 0) ==>
      match Times(me, k)
      case Some((readAt, wroteAt)) => readAt <= |w.log| && step(k) == AttemptAt(w, c, k, prog, readAt, wroteAt)
      case None => step(k).RetryableAbort?
  }

  /** A lost attempt's program decided to write, over a revision that had moved on by then. */
  lemma {:induction false} LostAttemptMoved<V, T>(w: World<V, T>, c: nat, k: nat, prog: Program<V, T>, max: nat)
    requires c < |w.callers| && CallerInv(w, c, prog, max)
    requires 1 <= k <= |w.callers[c].failures| && w.callers[c].failures[k - 1].LostTo?
    ensures var f := w.callers[c].failures[k - 1];
      f.readAt <= |w.log| && AttemptAt(w, c, k, prog, f.readAt, f.wroteAt) == Moved
  {
    assert TriedAt(w, c, k - 1, prog);
  }

  /** The finishing attempt is the program's own decision on the value it read, and when that
      was to write, the commit over that value. */
  lemma {:induction false} LastAttemptIsDone<V, T>(w: World<V, T>, c: nat, prog: Program<V, T>, max: nat)
    requires Inv(w, prog, max) && c < |w.callers| && w.callers[c].pc.Finished?
    ensures var me := w.callers[c];
      me.pc.at <= |w.log| && AttemptAt(w, c, |me.failures| + 1, prog, me.pc.at, me.pc.at) == Done(me.pc.result)
    ensures var me := w.callers[c];
      me.pc.wrote ==> me.pc.at < |w.log| && w.log[me.pc.at].writer == c && w.log[me.pc.at].attempt == |me.failures| + 1
  {
    assert CallerInv(w, c, prog, max);
    if w.callers[c].pc.wrote {
      assert DecidedAt(w, w.callers[c].pc.at, prog);
    }
  }

  /** A caller of the machine is the retry loop over what its program makes of the run.  Feed
      the loop, attempt by attempt, the program's decision on the value that attempt read and
      whether the revision had moved by its write: it ends where the caller ends.  A finished
      caller's answer is the first decision, and an exhausted one's attempts decide nothing. */
  lemma {:induction false} CallerIsTheLoop<V, T>(init: Option<V>, n: nat, acts: seq<Action>, prog: Program<V, T>, max: nat,
                                                 c: nat, step: nat -> StepOutcome<T>)
    requires c < n
    requires |Run(Start<V, T>(init, n, max), acts, prog, max).callers| == n
    requires IsStepOf(step, Run(Start<V, T>(init, n, max), acts, prog, max), c, prog)
    ensures var me := Run(Start<V, T>(init, n, max), acts, prog, max).callers[c];
      && (me.pc.Finished? ==> FirstDecision(step, |me.failures| + 1, max) && step(|me.failures| + 1) == Done(me.pc.result))
      && (me.pc.Exhausted? ==> forall k: nat :: 1 <= k <= max ==> !Decides(step(k)))
  {
    RunKeeps(init, n, acts, prog, max);
    var w := Run(Start<V, T>(init, n, max), acts, prog, max);
    assert CallerInv(w, c, prog, max);
    var me := w.callers[c];
    forall k: nat | 1 <= k <= |me.failures| ensures !Decides(step(k)) {
      assert OutcomeIs(step, w, c, k, prog);
      if me.failures[k - 1].LostTo? {
        LostAttemptMoved(w, c, k, prog, max);
      }
    }
    if me.pc.Finished? {
      assert OutcomeIs(step, w, c, |me.failures| + 1, prog);
      LastAttemptIsDone(w, c, prog, max);
    }
  }

  /** Such outcomes exist for every caller of every run. */
  lemma {:induction false} EveryCallerHasItsStep<V, T>(w: World<V, T>, c: nat, prog: Program<V, T>, max: nat)
    returns (step: nat -> StepOutcome<T>)
    requires Inv(w, prog, max) && c < |w.callers|
    ensures IsStepOf(step, w, c, prog)
  {
    var me := w.callers[c];
    step := (k: nat) =>
      match Times(me, k)
      case Some((readAt, wroteAt)) => if readAt <= |w.log| then AttemptAt(w, c, k, prog, readAt, wroteAt) else Moved
      case None => RetryableAbort(k);
    forall k: nat ensures OutcomeIs(step, w, c, k, prog) {
      if 1 <= k <= |me.failures| && me.failures[k - 1].LostTo? {
        LostAttemptMoved(w, c, k, prog, max);
      } else if k == |me.failures| + 1 && me.pc.Finished? {
        LastAttemptIsDone(w, c, prog, max);
      }
    }
  }
}
