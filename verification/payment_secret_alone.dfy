/** One re-save call left alone: where its steps lead when nobody saves and nothing is refused. */
module PaymentSecretAlone {
  import opened Options
  import opened PaymentSecretsHost
  import R = PaymentSecretRuns
  import E = EncryptPaymentSecrets

  /** A host and how far the one call has got. */
  datatype Spot = Spot(host: Host, pc: R.Pc)

  function Next(s: Spot): Spot {
    if !R.CanTake(s.pc) then s
    else
      var e := R.Take(s.host, s.pc, false);
      Spot(e.host, e.pc)
  }

  function Iterate<S>(f: S -> S, s: S, n: nat): S {
    if n == 0 then s else f(Iterate(f, s, n - 1))
  }

  lemma {:induction false} IterateAdds<S>(f: S -> S, s: S, m: nat, n: nat)
    ensures Iterate(f, Iterate(f, s, m), n) == Iterate(f, s, m + n)
  {
    if n > 0 {
      IterateAdds(f, s, m, n - 1);
    }
  }

  /** The second is where the call is some steps after the first. */
  ghost predicate Reaches(s: Spot, t: Spot) {
    exists n: nat :: Iterate(Next, s, n) == t
  }

  lemma {:induction false} ReachesThrough(s: Spot, t: Spot, u: Spot)
    requires Reaches(s, t) && Reaches(t, u)
    ensures Reaches(s, u)
  {
    var m: nat :| Iterate(Next, s, m) == t;
    var n: nat :| Iterate(Next, t, n) == u;
    IterateAdds(Next, s, m, n);
  }

  lemma {:induction false} ReachesNext(s: Spot)
    ensures Reaches(s, Next(s)) && Reaches(s, s)
  {
    assert Iterate(Next, s, 0) == s && Iterate(Next, s, 1) == Next(s);
  }

  lemma {:induction false} ReachesTwo(s: Spot)
    ensures Reaches(s, Next(Next(s)))
  {
    ReachesNext(s);
    ReachesNext(Next(s));
    ReachesThrough(s, Next(s), Next(Next(s)));
  }

  // ---- the preflight -----------------------------------------------------------------------

  lemma {:induction false} PreflightReads(h: Host, n: nat)
    requires n < |ENCRYPTED_PAYMENT_SECRET_KEYS|
    ensures Next(Spot(h, R.Preflight(E.ReadKeys(h, n), n)))
            == Spot(h, if n + 1 < |ENCRYPTED_PAYMENT_SECRET_KEYS| then R.Preflight(E.ReadKeys(h, n + 1), n + 1)
                       else R.ReadingMarker(E.ReadKeys(h, n + 1)))
  {
    var key, before := ENCRYPTED_PAYMENT_SECRET_KEYS[n], E.ReadKeys(h, n);
    match GetVersioned(h, key) {
      case None =>
        assert E.ReadKeys(h, n + 1) == before + [] == before;
      case Some(v) =>
        assert E.ReadKeys(h, n + 1) == before + [Item(key, v.value, v.revision, v.sealed)];
    }
  }

  lemma {:induction false} ReadsEveryKey(h: Host)
    ensures Reaches(Spot(h, R.Begin), Spot(h, R.ReadingMarker(E.ReadAll(h))))
  {
    assert |ENCRYPTED_PAYMENT_SECRET_KEYS| == 3;
    var s0 := Spot(h, R.Begin);
    var s1 := Spot(h, R.Preflight(E.ReadKeys(h, 0), 0));
    var s3 := Spot(h, R.Preflight(E.ReadKeys(h, 2), 2));
    assert Next(s0) == s1;
    PreflightReads(h, 0);
    PreflightReads(h, 1);
    PreflightReads(h, 2);
    ReachesNext(s0);
    ReachesTwo(s1);
    ReachesThrough(s0, s1, s3);
    ReachesNext(s3);
    ReachesThrough(s0, s3, Next(s3));
  }

  // ---- one key -----------------------------------------------------------------------------

  function Marked(h: Host, job: R.Job): Host
    requires job.pending != []
  {
    var item := job.pending[0];
    SetMarker(CasWrite(h, item.key, item.value), job.revisions[item.key := Mint(h)])
  }

  function OneDone(h: Host, job: R.Job): R.Job
    requires job.pending != []
  {
    job.(pending := job.pending[1..], revisions := job.revisions[job.pending[0].key := Mint(h)])
  }

  /** The write, by the short way or, for a copy outside the options table, by the long one. */
  lemma {:induction false} WritesTheKey(h: Host, job: R.Job)
    requires job.pending != []
    requires var item := job.pending[0]; GetVersioned(h, item.key) == Some(Versioned(item.value, item.revision, item.sealed))
    ensures var item := job.pending[0];
      Reaches(Spot(h, R.Resaving(job)), Spot(CasWrite(h, item.key, item.value), R.ReadingBack(job, Mint(h))))
  {
    var s := Spot(h, R.Resaving(job));
    if RowOf(h, job.pending[0].key).Some? {
      ReachesNext(s);
    } else {
      assert Next(Next(s)) == Spot(h, R.FallingBack(job));
      ReachesTwo(s);
      ReachesNext(Next(Next(s)));
      ReachesThrough(s, Next(Next(s)), Next(Next(Next(s))));
    }
  }

  /** A scalar is read back as written and recorded; a structured value never is. */
  lemma {:induction false} ReadsBackTheKey(h: Host, job: R.Job)
    requires job.pending != []
    ensures var item := job.pending[0];
      var back := Spot(CasWrite(h, item.key, item.value), R.ReadingBack(job, Mint(h)));
      if item.value.Structured?
      then Reaches(back, Spot(back.host, R.GiveUp(back.pc)))
      else Reaches(back, Spot(Marked(h, job), R.NextKey(OneDone(h, job))))
  {
    var item := job.pending[0];
    var back := Spot(CasWrite(h, item.key, item.value), R.ReadingBack(job, Mint(h)));
    assert GetVersioned(back.host, item.key) == Some(Versioned(item.value, Mint(h), true));
    ReachesNext(back);
    if item.value.Scalar? {
      ReachesTwo(back);
    }
  }

  lemma {:induction false} DoesTheKey(h: Host, job: R.Job)
    requires job.pending != []
    requires var item := job.pending[0]; GetVersioned(h, item.key) == Some(Versioned(item.value, item.revision, item.sealed))
    ensures var s := Spot(h, R.Resaving(job));
      if job.pending[0].value.Structured? then exists t :: Reaches(s, t) && t.pc == R.Returned(R.Retry, R.Job(job.stored, [], map[]))
      else Reaches(s, Spot(Marked(h, job), R.NextKey(OneDone(h, job))))
  {
    var item := job.pending[0];
    var s, back := Spot(h, R.Resaving(job)), Spot(CasWrite(h, item.key, item.value), R.ReadingBack(job, Mint(h)));
    WritesTheKey(h, job);
    ReadsBackTheKey(h, job);
    if item.value.Structured? {
      ReachesThrough(s, back, Spot(back.host, R.GiveUp(back.pc)));
    } else {
      ReachesThrough(s, back, Spot(Marked(h, job), R.NextKey(OneDone(h, job))));
    }
  }

  // ---- all of them -------------------------------------------------------------------------

  ghost predicate AnyStructured(items: seq<Item>) {
    exists x :: x in items && x.value.Structured?
  }

  /** Where the loop over the pending keys ends. */
  ghost predicate LoopEnds(first: Host, job: R.Job, t: Spot) {
    if AnyStructured(job.pending) then t.pc == R.Returned(R.Retry, R.Job(job.stored, [], map[]))
    else t.pc.Finishing? && t.pc.job.pending == [] && E.Progress(first, t.host, job.stored, [], t.pc.job.revisions)
  }

  lemma {:induction false} HeadOrRest(items: seq<Item>)
    requires items != []
    ensures AnyStructured(items) <==> items[0].value.Structured? || AnyStructured(items[1..])
    ensures forall x :: x in items <==> x == items[0] || x in items[1..]
  {
    assert items == [items[0]] + items[1..];
    if items[0].value.Structured? {
      assert items[0] in items;
    } else if AnyStructured(items[1..]) {
      var x :| x in items[1..] && x.value.Structured?;
      assert x in items;
    }
  }

  lemma {:induction false} RestIsDistinct(items: seq<Item>)
    requires E.DistinctKeys(items) && items != []
    ensures E.DistinctKeys(items[1..])
  {
  }

  lemma {:induction false} DoesTheRest(first: Host, h: Host, job: R.Job) returns (t: Spot)
    requires E.Progress(first, h, job.stored, job.pending, job.revisions)
    requires E.DistinctKeys(job.stored) && E.DistinctKeys(job.pending) && forall x :: x in job.pending ==> x in job.stored
    ensures Reaches(Spot(h, R.NextKey(job)), t) && LoopEnds(first, job, t)
    decreases |job.pending|
  {
    var s := Spot(h, R.NextKey(job));
    if job.pending == [] {
      ReachesNext(s);
      t := s;
    } else {
      HeadOrRest(job.pending);
      DoesTheKey(h, job);
      if job.pending[0].value.Structured? {
        t :| Reaches(s, t) && t.pc == R.Returned(R.Retry, R.Job(job.stored, [], map[]));
      } else {
        var done := OneDone(h, job);
        E.ProgressStep(first, h, job.stored, job.pending, job.revisions, done.revisions);
        RestIsDistinct(job.pending);
        t := DoesTheRest(first, Marked(h, job), done);
        ReachesThrough(s, Spot(Marked(h, job), R.NextKey(done)), t);
      }
    }
  }

  // ---- the whole call ----------------------------------------------------------------------

  /** Where a call left alone over `h` ends: already done, with the host as it was, exactly when
      that is settled; to be retried exactly when a key to be re-saved holds a structured value;
      and otherwise encrypted, with a settled host. */
  ghost predicate EndsRight(h: Host, t: Spot) {
    var pending := Pending(E.ReadAll(h), ReadMarker(h.marker));
    && t.pc.Returned?
    && (t.pc.outcome == R.AlreadyDone <==> E.Settled(h))
    && (t.pc.outcome == R.AlreadyDone ==> t.host == h)
    && (t.pc.outcome == R.Retry <==> AnyStructured(pending))
    && (t.pc.outcome == R.Encrypted ==> E.Settled(t.host))
  }

  function FirstJob(h: Host): R.Job {
    R.Job(E.ReadAll(h), Pending(E.ReadAll(h), ReadMarker(h.marker)), Kept(E.ReadAll(h), ReadMarker(h.marker)))
  }

  lemma {:induction false} ComparesTheMarker(h: Host)
    ensures Next(Spot(h, R.ReadingMarker(E.ReadAll(h))))
            == Spot(h, if E.Settled(h) then R.Returned(R.AlreadyDone, R.Job(E.ReadAll(h), [], ReadMarker(h.marker).value))
                       else R.NextKey(FirstJob(h)))
  {
  }

  /** The loop over everything the marker does not match, and the two steps after it. */
  lemma {:induction false} DoesTheLoop(h: Host) returns (t: Spot)
    ensures Reaches(Spot(h, R.NextKey(FirstJob(h))), t)
    ensures t.pc.Returned? && t.pc.outcome == if AnyStructured(FirstJob(h).pending) then R.Retry else R.Encrypted
    ensures t.pc.outcome == R.Encrypted ==> E.Settled(t.host)
  {
    E.ProgressStarts(h);
    PendingIsUnrecorded(E.ReadAll(h), ReadMarker(h.marker));
    var u := DoesTheRest(h, h, FirstJob(h));
    if AnyStructured(FirstJob(h).pending) {
      t := u;
    } else {
      t := FinishesUp(h, u);
      ReachesThrough(Spot(h, R.NextKey(FirstJob(h))), u, t);
    }
  }

  lemma {:induction false} ReadsTheMarker(h: Host) returns (t: Spot)
    ensures Reaches(Spot(h, R.ReadingMarker(E.ReadAll(h))), t) && EndsRight(h, t)
  {
    var s := Spot(h, R.ReadingMarker(E.ReadAll(h)));
    ComparesTheMarker(h);
    ReachesNext(s);
    if E.Settled(h) {
      t := Next(s);
    } else {
      t := DoesTheLoop(h);
      ReachesThrough(s, Spot(h, R.NextKey(FirstJob(h))), t);
    }
  }

  lemma {:induction false} LastTwoSteps(h: Host, job: R.Job)
    requires job.pending == []
    ensures Next(Spot(h, R.Finishing(job))) == Spot(SetMarker(h, job.revisions), R.Cleaning(job))
    ensures Next(Spot(h, R.Cleaning(job))) == Spot(h, R.Returned(R.Encrypted, job))
  {
  }

  lemma {:induction false} FinishesUp(h: Host, u: Spot) returns (t: Spot)
    requires u.pc.Finishing? && u.pc.job.pending == []
    requires E.Progress(h, u.host, E.ReadAll(h), [], u.pc.job.revisions)
    ensures Reaches(u, t) && t.pc.Returned? && t.pc.outcome == R.Encrypted && E.Settled(t.host)
  {
    E.ProgressSettles(h, u.host, u.pc.job.revisions);
    LastTwoSteps(u.host, u.pc.job);
    LastTwoSteps(SetMarker(u.host, u.pc.job.revisions), u.pc.job);
    ReachesTwo(u);
    t := Spot(SetMarker(u.host, u.pc.job.revisions), R.Returned(R.Encrypted, u.pc.job));
  }

  function Advances(n: nat): seq<R.Action> {
    if n == 0 then [] else Advances(n - 1) + [R.Advance(0)]
  }

  lemma {:induction false} AdvanceIsNext(w: R.World)
    requires |w.calls| == 1 && (w.calls[0].pc.Begin? ==> w.done == {})
    ensures var w' := R.Step(w, R.Advance(0));
      && |w'.calls| == 1 && Spot(w'.host, w'.calls[0].pc) == Next(Spot(w.host, w.calls[0].pc)) && !w'.calls[0].pc.Begin?
  {
  }

  lemma {:induction false} OneMoreAdvance(w: R.World, n: nat)
    ensures R.Run(w, Advances(n + 1)) == R.Step(R.Run(w, Advances(n)), R.Advance(0))
  {
    assert Advances(n + 1)[..|Advances(n + 1)| - 1] == Advances(n);
  }

  /** The world holds the one call at this spot. */
  predicate HoldsAt(w: R.World, t: Spot) {
    |w.calls| == 1 && Spot(w.host, w.calls[0].pc) == t && (w.calls[0].pc.Begin? ==> w.done == {})
  }

  lemma {:induction false} StaysAt(w: R.World, t: Spot)
    requires HoldsAt(w, t)
    ensures HoldsAt(R.Step(w, R.Advance(0)), Next(t))
  {
    AdvanceIsNext(w);
  }

  function StepAlone(w: R.World): R.World {
    R.Step(w, R.Advance(0))
  }

  lemma {:induction false} IsIterate<S(!new)>(f: S -> S, at: nat -> S, n: nat)
    requires forall k: nat :: at(k + 1) == f(at(k))
    ensures at(n) == Iterate(f, at(0), n)
  {
    if n > 0 {
      IsIterate(f, at, n - 1);
      assert at(n - 1 + 1) == f(at(n - 1));
    }
  }

  lemma {:induction false} RunIsIterate(w: R.World, n: nat)
    ensures R.Run(w, Advances(n)) == Iterate(StepAlone, w, n)
  {
    var at := (k: nat) => R.Run(w, Advances(k));
    forall k: nat ensures at(k + 1) == StepAlone(at(k)) {
      OneMoreAdvance(w, k);
    }
    IsIterate(StepAlone, at, n);
  }

  lemma {:induction false} SideBySide<S(!new), T(!new)>(f: S -> S, g: T -> T, holds: (S, T) -> bool, s: S, t: T, n: nat)
    requires holds(s, t) && forall x, y :: holds(x, y) ==> holds(f(x), g(y))
    ensures holds(Iterate(f, s, n), Iterate(g, t, n))
  {
    if n > 0 {
      SideBySide(f, g, holds, s, t, n - 1);
    }
  }

  lemma {:induction false} RunsAlone(w: R.World, t: Spot, n: nat)
    requires HoldsAt(w, t)
    ensures HoldsAt(R.Run(w, Advances(n)), Iterate(Next, t, n))
  {
    forall x, y | HoldsAt(x, y) ensures HoldsAt(StepAlone(x), Next(y)) {
      StaysAt(x, y);
    }
    SideBySide(StepAlone, Next, HoldsAt, w, t, n);
    RunIsIterate(w, n);
  }

  /** A call nobody disturbs, run step by step, ends where `EndsRight` says. */
  lemma {:induction false} AloneItSettles(h: Host, isolate: nat) returns (n: nat)
    ensures var w := R.Run(R.Start(h, [isolate]), Advances(n));
      |w.calls| == 1 && EndsRight(h, Spot(w.host, w.calls[0].pc))
  {
    ReadsEveryKey(h);
    var t := ReadsTheMarker(h);
    ReachesThrough(Spot(h, R.Begin), Spot(h, R.ReadingMarker(E.ReadAll(h))), t);
    n :| Iterate(Next, Spot(h, R.Begin), n) == t;
    assert HoldsAt(R.Start(h, [isolate]), Spot(h, R.Begin));
    RunsAlone(R.Start(h, [isolate]), Spot(h, R.Begin), n);
  }
}
