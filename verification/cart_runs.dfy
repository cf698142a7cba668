/** The replay guarantee of the cart's mutation ledger over whole runs. */
module CartRuns {
  import opened Options
  import opened CartLedger

  /** What one write of the cart store does to the ledger. */
  datatype Op =
    | Claim(key: Id, kind: Kind, lineId: Option<Id>)
    | Complete(key: Id, kind: Kind, line: Id, qty: Option<int>)
    | Abandon(key: Id)
    | MintExpiry(key: Id)
    | RetireExpired(key: Id)
    | TouchLine

  /** An operation at the store's clock reading. */
  datatype Event = Event(op: Op, at: int)

  function Find(l: Ledger, key: Id): Option<MutationRecord> {
    if l == [] then None
    else if l[|l| - 1].key == key then Some(l[|l| - 1].record)
    else Find(l[..|l| - 1], key)
  }

  /** An object spread: an existing key keeps its place. */
  function Put(l: Ledger, key: Id, record: MutationRecord): Ledger {
    if l == [] then [Entry(key, record)]
    else if l[|l| - 1].key == key then l[..|l| - 1] + [Entry(key, record)]
    else Put(l[..|l| - 1], key, record) + [l[|l| - 1]]
  }

  /** A completed entry, built field by field: no expiry token or abandonment carries over. */
  function Completion(claim: Option<MutationRecord>, op: Op, now: int): MutationRecord
    requires op.Complete?
  {
    MutationRecord(if claim.Some? then claim.value.kind else op.kind, Some(op.line), op.qty, true,
                   if claim.Some? then claim.value.claimedAt else now, Some(now), None, false)
  }

  /** Whether the event completes a mutation, rather than replaying one. */
  predicate Completes(l: Ledger, e: Event) {
    e.op.Complete? && !(Find(l, e.op.key).Some? && Find(l, e.op.key).value.completed)
  }

  predicate Outstanding(r: Option<MutationRecord>) {
    r.Some? && !r.value.completed && !r.value.abandoned
  }

  /** The record one event puts under its key; none when it leaves the ledger as it is. */
  function NewRecord(l: Ledger, e: Event): Option<MutationRecord> {
    match e.op
    case Claim(key, kind, lineId) =>
      if Find(l, key).Some? then None
      else Some(MutationRecord(kind, lineId, None, false, e.at, None, None, false))
    case Complete(key, _, _, _) =>
      if Completes(l, e) then Some(Completion(Find(l, key), e.op, e.at)) else None
    case Abandon(key) =>
      if Outstanding(Find(l, key)) then Some(Find(l, key).value.(abandoned := true)) else None
    case MintExpiry(key) =>
      if Outstanding(Find(l, key)) && Find(l, key).value.kind == Add && Find(l, key).value.expiringAt.None?
      then Some(Find(l, key).value.(expiringAt := Some(e.at))) else None
    case RetireExpired(key) =>
      if Outstanding(Find(l, key)) then Some(Find(l, key).value.(abandoned := true)) else None
    case TouchLine => None
  }

  /** The ledger one event writes, before the prune. */
  function Written(l: Ledger, e: Event): Ledger {
    if NewRecord(l, e).None? then l else Put(l, e.op.key, NewRecord(l, e).value)
  }

  /** Every ledger write is pruned, except the one that retires a reaped claim. */
  function Apply(l: Ledger, e: Event): Ledger {
    if e.op.RetireExpired? then Written(l, e) else PruneMutations(Written(l, e))
  }

  function Replay(l: Ledger, events: seq<Event>): Ledger {
    if events == [] then l else Apply(Replay(l, events[..|events| - 1]), events[|events| - 1])
  }

  /** How many mutations the events complete. */
  function Completions(l: Ledger, events: seq<Event>): nat {
    if events == [] then 0
    else Completions(l, events[..|events| - 1])
         + if Completes(Replay(l, events[..|events| - 1]), events[|events| - 1]) then 1 else 0
  }

  // ---- lookups -------------------------------------------------------------------------

  lemma {:induction false} FindIsEntry(l: Ledger, key: Id)
    requires WellKeyed(l)
    ensures Find(l, key).Some? ==> Entry(key, Find(l, key).value) in l
    ensures forall e :: e in l && e.key == key ==> Find(l, key) == Some(e.record)
  {
    if l != [] {
      var init, last := l[..|l| - 1], l[|l| - 1];
      assert l == init + [last];
      FindIsEntry(init, key);
      forall e | e in l && e.key == key ensures Find(l, key) == Some(e.record) {
        if last.key == key {
          SameKeySameEntry(l, e, last);
        }
      }
    }
  }

  lemma {:induction false} PutIs(l: Ledger, key: Id, record: MutationRecord)
    requires WellKeyed(l)
    ensures WellKeyed(Put(l, key, record))
    ensures forall e :: e in Put(l, key, record) <==> e == Entry(key, record) || (e in l && e.key != key)
  {
    if l != [] {
      var init, last := l[..|l| - 1], l[|l| - 1];
      assert l == init + [last];
      forall e | e in init ensures e.key != last.key {
        var i :| 0 <= i < |init| && init[i] == e;
        assert l[i] == e;
      }
      if last.key != key {
        PutIs(init, key, record);
      }
    }
  }

  // ---- what a run keeps about one completed mutation -------------------------------------

  /** Completed records were stamped when they completed. */
  ghost predicate Stamped(l: Ledger) {
    && WellKeyed(l)
    && forall e :: e in l && e.record.completed ==> e.record.completedAt.Some?
  }

  /** Every completed record newer than `at` belongs to a mutation of `later`, every other one
      but `key`'s is older. */
  ghost predicate Newer(l: Ledger, key: Id, at: int, later: set<Id>) {
    forall e :: e in l && e.record.completed && e.key != key ==>
      StampOf(e.record) != at && (StampOf(e.record) > at ==> e.key in later)
  }

  /** Eviction of a record completed at `at` takes 64 newer completed records. */
  lemma {:induction false} EvictionTakesNewerOnes(l: Ledger, entry: Entry, later: set<Id>)
    requires Stamped(l) && entry in l && entry.record.completed
    requires Newer(l, entry.key, StampOf(entry.record), later) && |later| < CART_MUTATION_LEDGER_SIZE
    ensures entry in PruneMutations(l)
  {
    var p := PruneMutations(l);
    PruneKeepsEntries(l);
    PruneKeepsExactly(l);
    if entry !in p {
      var kept := Filter(p, IsCompleted);
      FilterKeeps(p, IsCompleted);
      FilterIsWellKeyed(p, IsCompleted);
      KeyCount(kept);
      AllKeptAreLater(l, p, entry, later);
      SubsetCount(KeysOf(kept), later);
      FilterKeeps(l, IsCompleted);
      EverythingFits(l, p, entry);
    }
  }

  lemma {:induction false} KeptBeatsEvicted(l: Ledger, gone: Entry, kept: Entry)
    requires WellKeyed(l) && gone in l && gone !in PruneMutations(l) && IsCompleted(gone)
    requires kept in Filter(PruneMutations(l), IsCompleted)
    ensures kept in l && IsCompleted(kept) && kept.key != gone.key && StampOf(gone.record) <= StampOf(kept.record)
  {
    FilterKeeps(PruneMutations(l), IsCompleted);
    PruneKeepsEntries(l);
    EvictedIsNoNewer(l, gone, kept);
    if kept.key == gone.key {
      SameKeySameEntry(l, kept, gone);
    }
  }

  lemma {:induction false} AllKeptAreLater(l: Ledger, p: Ledger, entry: Entry, later: set<Id>)
    requires Stamped(l) && entry in l && entry.record.completed && p == PruneMutations(l) && entry !in p
    requires Newer(l, entry.key, StampOf(entry.record), later)
    ensures KeysOf(Filter(p, IsCompleted)) <= later
  {
    forall e | e in Filter(p, IsCompleted) ensures e.key in later {
      KeptBeatsEvicted(l, entry, e);
    }
  }

  lemma {:induction false} SubsetCount(a: set<Id>, b: set<Id>)
    requires a <= b
    ensures |a| <= |b|
  {
    assert b == a + (b - a);
  }

  /** When a completed record went, the class was over its bound. */
  lemma {:induction false} EverythingFits(l: Ledger, p: Ledger, entry: Entry)
    requires WellKeyed(l) && p == PruneMutations(l) && entry in l && IsCompleted(entry) && entry !in p
    ensures |Filter(p, IsCompleted)| == CART_MUTATION_LEDGER_SIZE
  {
    PruneKeepsExactly(l);
    if |Filter(l, IsCompleted)| <= CART_MUTATION_LEDGER_SIZE {
      assert CompletedOut(l) == [];
      EvictedIs(l);
      ClassOut(l, IsAbandoned, CART_ABANDONED_LEDGER_SIZE);
      WithoutKeeps(l, Evicted(l));
    }
  }

  /** The guarantee for one recorded completion: it is there with its answer. */
  ghost predicate Held(l: Ledger, entry: Entry, later: set<Id>) {
    Stamped(l) && entry in l && Newer(l, entry.key, StampOf(entry.record), later)
  }

  /** A record is never put over a completed one, and is completed only by a completion. */
  lemma {:induction false} NewRecordIs(l: Ledger, e: Event)
    requires NewRecord(l, e).Some?
    ensures !(Find(l, e.op.key).Some? && Find(l, e.op.key).value.completed)
    ensures NewRecord(l, e).value.completed <==> Completes(l, e)
    ensures NewRecord(l, e).value.completed ==> NewRecord(l, e).value.completedAt == Some(e.at)
  {
  }

  lemma {:induction false} WrittenKeeps(l: Ledger, e: Event, entry: Entry, later: set<Id>)
    requires entry.record.completed && Held(l, entry, later) && e.at > StampOf(entry.record)
    ensures Held(Written(l, e), entry, if Completes(l, e) then later + {e.op.key} else later)
  {
    if NewRecord(l, e).Some? {
      NewRecordIs(l, e);
      FindIsEntry(l, e.op.key);
      PutIs(l, e.op.key, NewRecord(l, e).value);
    }
  }

  /** All of the later completions are still there, each newer than `at`. */
  ghost predicate AllThere(l: Ledger, at: int, later: set<Id>) {
    forall k :: k in later ==> Find(l, k).Some? && Find(l, k).value.completed && StampOf(Find(l, k).value) > at
  }

  lemma {:induction false} WrittenKeepsAll(l: Ledger, e: Event, at: int, later: set<Id>)
    requires Stamped(l) && AllThere(l, at, later) && e.at > at
    ensures AllThere(Written(l, e), at, if Completes(l, e) then later + {e.op.key} else later)
    ensures Completes(l, e) ==> e.op.key !in later
  {
    if NewRecord(l, e).Some? {
      NewRecordIs(l, e);
      var r := NewRecord(l, e).value;
      FindPut(l, e.op.key, r);
      forall k | k in later ensures k != e.op.key && Find(Written(l, e), k) == Find(l, k) {
        FindOther(l, e.op.key, r, k);
      }
    }
  }

  lemma {:induction false} FindPut(l: Ledger, key: Id, r: MutationRecord)
    requires WellKeyed(l)
    ensures Find(Put(l, key, r), key) == Some(r)
  {
    PutIs(l, key, r);
    FindIsEntry(Put(l, key, r), key);
    assert Entry(key, r) in Put(l, key, r);
  }

  lemma {:induction false} FindOther(l: Ledger, key: Id, r: MutationRecord, other: Id)
    requires WellKeyed(l) && other != key && Find(l, other).Some?
    ensures Find(Put(l, key, r), other) == Find(l, other)
  {
    PutIs(l, key, r);
    FindIsEntry(l, other);
    FindIsEntry(Put(l, key, r), other);
    assert Entry(other, Find(l, other).value) in Put(l, key, r);
  }

  /** A newer completed record outlives `entry`: its eviction would take 64 newer still. */
  lemma {:induction false} PruneKeepsAll(l: Ledger, entry: Entry, later: set<Id>)
    requires Held(l, entry, later) && entry.record.completed && AllThere(l, StampOf(entry.record), later)
    requires |later| <= CART_MUTATION_LEDGER_SIZE
    ensures AllThere(PruneMutations(l), StampOf(entry.record), later)
  {
    var p := PruneMutations(l);
    PruneKeepsEntries(l);
    forall k | k in later
      ensures Find(p, k).Some? && Find(p, k).value.completed && StampOf(Find(p, k).value) > StampOf(entry.record)
    {
      var newer := Entry(k, Find(l, k).value);
      FindIsEntry(l, k);
      if newer !in p {
        KeptAreNewerStill(l, p, entry, newer, later);
        FilterKeeps(p, IsCompleted);
        FilterIsWellKeyed(p, IsCompleted);
        KeyCount(Filter(p, IsCompleted));
        EverythingFits(l, p, newer);
        SubsetCount(KeysOf(Filter(p, IsCompleted)), later - {k});
      }
      FindIsEntry(p, k);
    }
  }

  lemma {:induction false} KeptAreNewerStill(l: Ledger, p: Ledger, entry: Entry, newer: Entry, later: set<Id>)
    requires Held(l, entry, later) && entry.record.completed && p == PruneMutations(l)
    requires newer in l && newer !in p && newer.record.completed && StampOf(newer.record) > StampOf(entry.record)
    ensures KeysOf(Filter(p, IsCompleted)) <= later - {newer.key}
  {
    forall e | e in Filter(p, IsCompleted) ensures e.key in later - {newer.key} {
      KeptBeatsEvicted(l, newer, e);
      if e.key == entry.key {
        SameKeySameEntry(l, e, entry);
      }
    }
  }

  /** With 64 newer completed records there, a pruned ledger no longer holds `entry`. */
  lemma {:induction false} SixtyFourNewerEvict(l: Ledger, entry: Entry, later: set<Id>)
    requires Held(l, entry, later) && entry.record.completed && AllThere(l, StampOf(entry.record), later)
    requires |later| == CART_MUTATION_LEDGER_SIZE
    ensures entry !in PruneMutations(l)
  {
    var p := PruneMutations(l);
    PruneKeepsAll(l, entry, later);
    PruneKeepsEntries(l);
    PruneKeepsExactly(l);
    if entry in p {
      OneMoreIsThere(p, entry, later);
    }
  }

  /** The newer records and `entry` are so many completed records. */
  lemma {:induction false} OneMoreIsThere(p: Ledger, entry: Entry, later: set<Id>)
    requires WellKeyed(p) && entry in p && entry.record.completed && AllThere(p, StampOf(entry.record), later)
    ensures |Filter(p, IsCompleted)| >= |later| + 1
  {
    var completed := Filter(p, IsCompleted);
    FilterKeeps(p, IsCompleted);
    FilterIsWellKeyed(p, IsCompleted);
    KeyCount(completed);
    FindIsEntry(p, entry.key);
    assert entry.key !in later;
    forall k | k in later ensures k in KeysOf(completed) {
      FindIsEntry(p, k);
      assert Entry(k, Find(p, k).value) in completed;
    }
    assert entry in completed;
    SubsetCount(later + {entry.key}, KeysOf(completed));
  }

  lemma {:induction false} ApplyKeeps(l: Ledger, e: Event, entry: Entry, later: set<Id>)
    requires entry.record.completed && Held(l, entry, later) && AllThere(l, StampOf(entry.record), later)
    requires e.at > StampOf(entry.record)
    requires |later| + (if Completes(l, e) then 1 else 0) < CART_MUTATION_LEDGER_SIZE
    ensures var later' := if Completes(l, e) then later + {e.op.key} else later;
      && Held(Apply(l, e), entry, later') && AllThere(Apply(l, e), StampOf(entry.record), later')
      && |later'| == |later| + if Completes(l, e) then 1 else 0
  {
    WrittenKeeps(l, e, entry, later);
    WrittenKeepsAll(l, e, StampOf(entry.record), later);
    var later' := if Completes(l, e) then later + {e.op.key} else later;
    if !e.op.RetireExpired? {
      EvictionTakesNewerOnes(Written(l, e), entry, later');
      PruneKeepsAll(Written(l, e), entry, later');
      PruneKeepsEntries(Written(l, e));
    }
  }

  // ---- whole runs ----------------------------------------------------------------------

  ghost predicate StrictlyIncreasing(events: seq<Event>) {
    forall i, j :: 0 <= i < j < |events| ==> events[i].at < events[j].at
  }

  /** Every completed record of a run was stamped by one of its events. */
  lemma {:induction false} RunIsStamped(events: seq<Event>)
    requires StrictlyIncreasing(events)
    ensures Stamped(Replay([], events))
    ensures forall e :: e in Replay([], events) && e.record.completed ==>
              events != [] && StampOf(e.record) <= events[|events| - 1].at
  {
    if events != [] {
      var before, e := events[..|events| - 1], events[|events| - 1];
      var l := Replay([], before);
      RunIsStamped(before);
      if NewRecord(l, e).Some? {
        NewRecordIs(l, e);
        PutIs(l, e.op.key, NewRecord(l, e).value);
      }
      PruneKeepsEntries(Written(l, e));
    }
  }

  lemma {:induction false} BeforeIsOlder(before: seq<Event>, e: Event)
    requires StrictlyIncreasing(before + [e])
    ensures StrictlyIncreasing(before)
    ensures forall x :: x in Replay([], before) && x.record.completed ==> StampOf(x.record) < e.at
    ensures Stamped(Replay([], before))
  {
    assert forall i :: 0 <= i < |before| ==> (before + [e])[i] == before[i];
    RunIsStamped(before);
    if before != [] {
      assert (before + [e])[|before| - 1].at < (before + [e])[|before|].at;
    }
  }

  lemma {:induction false} WrittenIsHeld(l: Ledger, e: Event)
    requires Stamped(l) && Completes(l, e)
    requires forall x :: x in l && x.record.completed ==> StampOf(x.record) < e.at
    ensures Held(Written(l, e), Entry(e.op.key, Completion(Find(l, e.op.key), e.op, e.at)), {})
  {
    PutIs(l, e.op.key, Completion(Find(l, e.op.key), e.op, e.at));
  }

  /** Right after its completion a record is held, with no later ones. */
  lemma {:induction false} CompletionIsHeld(before: seq<Event>, e: Event)
    requires StrictlyIncreasing(before + [e]) && Completes(Replay([], before), e)
    ensures var l := Replay([], before);
      var entry := Entry(e.op.key, Completion(Find(l, e.op.key), e.op, e.at));
      Held(Apply(l, e), entry, {})
  {
    var l := Replay([], before);
    var entry := Entry(e.op.key, Completion(Find(l, e.op.key), e.op, e.at));
    BeforeIsOlder(before, e);
    WrittenIsHeld(l, e);
    EvictionTakesNewerOnes(Written(l, e), entry, {});
    PruneKeepsEntries(Written(l, e));
  }

  lemma {:induction false} HeldThrough(l: Ledger, entry: Entry, later: seq<Event>) returns (keys: set<Id>)
    requires entry.record.completed && Held(l, entry, {})
    requires forall i :: 0 <= i < |later| ==> later[i].at > StampOf(entry.record)
    requires Completions(l, later) < CART_MUTATION_LEDGER_SIZE
    ensures Held(Replay(l, later), entry, keys) && AllThere(Replay(l, later), StampOf(entry.record), keys)
    ensures |keys| == Completions(l, later)
  {
    if later == [] {
      keys := {};
    } else {
      var init, e := later[..|later| - 1], later[|later| - 1];
      keys := HeldThrough(l, entry, init);
      ApplyKeeps(Replay(l, init), e, entry, keys);
      keys := if Completes(Replay(l, init), e) then keys + {e.op.key} else keys;
    }
  }

  /** The record says what a replay of the mutation has to be told: it is finished, about this
      line at this quantity; it keeps the kind and the time of the claim it finished, when
      there was one; and nothing of an expiry or an abandonment is left on it. */
  lemma {:induction false} CompletionSays(claim: Option<MutationRecord>, op: Op, now: int)
    requires op.Complete?
    ensures var r := Completion(claim, op, now);
      && r.completed && !r.abandoned && r.expiringAt == None
      && r.lineId == Some(op.line) && r.resultingQty == op.qty && r.completedAt == Some(now)
      && (claim.None? ==> r.kind == op.kind && r.claimedAt == now)
      && (claim.Some? ==> r.kind == claim.value.kind && r.claimedAt == claim.value.claimedAt)
  {
  }

  lemma {:induction false} CompletesExactlyOnce(l: Ledger, e: Event)
    requires WellKeyed(l)
    ensures Completes(l, e)
            <==> e.op.Complete? && forall x :: x in l && x.key == e.op.key ==> !x.record.completed
  {
    if e.op.Complete? {
      FindIsEntry(l, e.op.key);
    }
  }

  /** The replay window.  Take any run of claims, completions, abandonments and expiries whose
      stamps strictly increase up to a completion of a key not completed before, and stay later
      after it.  As long as fewer than 64 later mutations have completed the key's record is
      there, and answers a replay with the line and the quantity of that completion; and the
      write that completes the 64th evicts it. */
  lemma {:induction false} ReplayWindow(before: seq<Event>, e: Event, later: seq<Event>)
    requires StrictlyIncreasing(before + [e]) && e.op.Complete?
    requires forall x :: x in Replay([], before) && x.key == e.op.key ==> !x.record.completed
    requires forall i :: 0 <= i < |later| ==> later[i].at > e.at
    ensures var l := Replay([], before);
      var claim, found := Find(l, e.op.key), Find(Replay(Apply(l, e), later), e.op.key);
      && (Completions(Apply(l, e), later) < 64 ==>
            && found.Some? && found.value.completed
            && found.value.lineId == Some(e.op.line) && found.value.resultingQty == e.op.qty
            && found.value.completedAt == Some(e.at)
            && found.value.kind == (if claim.Some? then claim.value.kind else e.op.kind)
            && found.value.claimedAt == (if claim.Some? then claim.value.claimedAt else e.at)
            && found.value.expiringAt == None && !found.value.abandoned)
      && (later != [] && Completions(Apply(l, e), later[..|later| - 1]) == 63
          && Completes(Replay(Apply(l, e), later[..|later| - 1]), later[|later| - 1]) ==>
            found == None)
  {
    BeforeIsOlder(before, e);
    CompletesExactlyOnce(Replay([], before), e);
    CompletionSays(Find(Replay([], before), e.op.key), e.op, e.at);
    RecordedUntilThe64th(before, e, later);
  }

  lemma {:induction false} RecordedUntilThe64th(before: seq<Event>, e: Event, later: seq<Event>)
    requires StrictlyIncreasing(before + [e]) && Completes(Replay([], before), e)
    requires forall i :: 0 <= i < |later| ==> later[i].at > e.at
    ensures var l := Replay([], before);
      var answer := Completion(Find(l, e.op.key), e.op, e.at);
      && (Completions(Apply(l, e), later) < CART_MUTATION_LEDGER_SIZE ==>
            Find(Replay(Apply(l, e), later), e.op.key) == Some(answer))
      && (later != [] && Completions(Apply(l, e), later[..|later| - 1]) == CART_MUTATION_LEDGER_SIZE - 1
          && Completes(Replay(Apply(l, e), later[..|later| - 1]), later[|later| - 1]) ==>
            Find(Replay(Apply(l, e), later), e.op.key) == None)
  {
    var l := Replay([], before);
    var entry := Entry(e.op.key, Completion(Find(l, e.op.key), e.op, e.at));
    CompletionIsHeld(before, e);
    if Completions(Apply(l, e), later) < CART_MUTATION_LEDGER_SIZE {
      var keys := HeldThrough(Apply(l, e), entry, later);
      FindIsEntry(Replay(Apply(l, e), later), e.op.key);
    }
    if later != [] && Completions(Apply(l, e), later[..|later| - 1]) == CART_MUTATION_LEDGER_SIZE - 1
       && Completes(Replay(Apply(l, e), later[..|later| - 1]), later[|later| - 1]) {
      TheSixtyFourthEvicts(Apply(l, e), entry, later[..|later| - 1], later[|later| - 1]);
    }
  }

  lemma {:induction false} TheSixtyFourthEvicts(l: Ledger, entry: Entry, later: seq<Event>, e: Event)
    requires entry.record.completed && Held(l, entry, {})
    requires forall i :: 0 <= i < |later| ==> later[i].at > StampOf(entry.record)
    requires e.at > StampOf(entry.record)
    requires Completions(l, later) == CART_MUTATION_LEDGER_SIZE - 1 && Completes(Replay(l, later), e)
    ensures Find(Apply(Replay(l, later), e), entry.key) == None
  {
    var keys := HeldThrough(l, entry, later);
    var now := Replay(l, later);
    WrittenKeeps(now, e, entry, keys);
    WrittenKeepsAll(now, e, StampOf(entry.record), keys);
    var w := Written(now, e);
    SixtyFourNewerEvict(w, entry, keys + {e.op.key});
    PruneKeepsEntries(w);
    forall x | x in PruneMutations(w) ensures x.key != entry.key {
      if x.key == entry.key {
        SameKeySameEntry(w, entry, x);
      }
    }
    FindIsEntry(PruneMutations(w), entry.key);
  }

  // ---- unfinished mutations ----------------------------------------------------------------

  /** Events that can end an outstanding mutation of the key. */
  predicate Ends(op: Op, key: Id) {
    (op.Complete? || op.Abandon? || op.RetireExpired?) && op.key == key
  }

  /** The claim as it was made, apart from an expiry that has begun on it. */
  predicate IsClaimOf(r: MutationRecord, kind: Kind, lineId: Option<Id>, at: int) {
    && r.kind == kind && r.lineId == lineId && r.claimedAt == at
    && r.resultingQty == None && !r.completed && r.completedAt == None && !r.abandoned
    && (r.expiringAt.Some? ==> kind == Add)
  }

  /** The record of an outstanding key after an event that does not end it. */
  function Onward(was: MutationRecord, e: Event, key: Id): MutationRecord {
    if e.op == MintExpiry(key) && was.kind == Add && was.expiringAt == None then was.(expiringAt := Some(e.at)) else was
  }

  lemma {:induction false} OnlyItsOwnEvents(l: Ledger, e: Event, key: Id)
    requires WellKeyed(l) && Outstanding(Find(l, key)) && !Ends(e.op, key)
    ensures WellKeyed(Written(l, e)) && Find(Written(l, e), key) == Some(Onward(Find(l, key).value, e, key))
  {
    if NewRecord(l, e).Some? {
      var r := NewRecord(l, e).value;
      PutIs(l, e.op.key, r);
      if e.op.key == key {
        FindPut(l, key, r);
      } else {
        FindOther(l, e.op.key, r, key);
      }
    }
  }

  /** The key's record through one event: only its own events touch it, and no prune takes it
      while it is outstanding. */
  lemma {:induction false} OutstandingStays(l: Ledger, e: Event, key: Id)
    requires WellKeyed(l) && Outstanding(Find(l, key)) && !Ends(e.op, key)
    ensures WellKeyed(Apply(l, e)) && Find(Apply(l, e), key) == Some(Onward(Find(l, key).value, e, key))
  {
    OnlyItsOwnEvents(l, e, key);
    var w := Written(l, e);
    FindIsEntry(w, key);
    PruneKeepsEntries(w);
    FindIsEntry(PruneMutations(w), key);
    assert IsOutstanding(Entry(key, Find(w, key).value));
  }

  /** Claiming a key nobody claimed leaves the claim, field by field; claiming it again, or
      completing a completed one again, leaves the ledger's record of the key alone. */
  lemma {:induction false} ClaimIsRecorded(l: Ledger, e: Event)
    requires WellKeyed(l) && e.op.Claim?
    ensures WellKeyed(Apply(l, e))
    ensures Find(l, e.op.key).None? ==>
      Find(Apply(l, e), e.op.key) == Some(MutationRecord(e.op.kind, e.op.lineId, None, false, e.at, None, None, false))
    ensures Find(l, e.op.key).Some? ==> Written(l, e) == l
  {
    var w := Written(l, e);
    if Find(l, e.op.key).None? {
      var r := NewRecord(l, e).value;
      PutIs(l, e.op.key, r);
      FindPut(l, e.op.key, r);
      FindIsEntry(w, e.op.key);
    }
    PruneKeepsEntries(w);
    FindIsEntry(PruneMutations(w), e.op.key);
    if Find(l, e.op.key).None? {
      assert IsOutstanding(Entry(e.op.key, Find(w, e.op.key).value));
    }
  }

  /** A claim is a crash marker: whatever else happens, however much of it, it is still there
      as it was made until its own mutation completes, is abandoned or is retired. */
  lemma {:induction false} ClaimOutlives(l: Ledger, e: Event, later: seq<Event>)
    requires WellKeyed(l) && e.op.Claim? && Find(l, e.op.key).None?
    requires forall i :: 0 <= i < |later| ==> !Ends(later[i].op, e.op.key)
    ensures var now := Replay(Apply(l, e), later);
      && WellKeyed(now) && Find(now, e.op.key).Some?
      && IsClaimOf(Find(now, e.op.key).value, e.op.kind, e.op.lineId, e.at)
  {
    if later == [] {
      ClaimIsRecorded(l, e);
    } else {
      ClaimOutlives(l, e, later[..|later| - 1]);
      OutstandingStays(Replay(Apply(l, e), later[..|later| - 1]), later[|later| - 1], e.op.key);
    }
  }

  /** An abandonment or a retirement marks an outstanding record and changes nothing else of it;
      a retirement never evicts, so not even the oldest abandoned record goes. */
  lemma {:induction false} EndedUnfinished(l: Ledger, e: Event)
    requires WellKeyed(l) && (e.op.Abandon? || e.op.RetireExpired?)
    ensures Outstanding(Find(l, e.op.key)) ==>
      Find(Written(l, e), e.op.key) == Some(Find(l, e.op.key).value.(abandoned := true))
    ensures !Outstanding(Find(l, e.op.key)) ==> Written(l, e) == l
    ensures e.op.RetireExpired? ==> forall x :: x in l ==> exists y :: y in Apply(l, e) && y.key == x.key
  {
    if Outstanding(Find(l, e.op.key)) {
      var r := NewRecord(l, e).value;
      FindPut(l, e.op.key, r);
      PutIs(l, e.op.key, r);
      forall x | x in l ensures exists y :: y in Written(l, e) && y.key == x.key {
        assert (if x.key == e.op.key then Entry(x.key, r) else x) in Written(l, e);
      }
    }
  }
}
