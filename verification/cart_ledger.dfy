/** The cart document's embedded mutation ledger and its denormalized hold deadline.

    Instants are integers: the store's fixed-width ISO-8601 stamps compare as they do.  A
    ledger is the sequence of its entries in object order, which is what the stable sort of
    the eviction breaks ties by. */
module CartLedger {
  import opened Options
  import opened Sorting

  const CART_MUTATION_LEDGER_SIZE: nat := 64
  const CART_ABANDONED_LEDGER_SIZE: nat := 16

  /** A mutation key, line id or SKU: only its identity matters here. */
  type Id = nat

  datatype Kind = Add | Adjust | Remove

  datatype MutationRecord = MutationRecord(
    kind: Kind, lineId: Option<Id>, resultingQty: Option<int>, completed: bool, claimedAt: int,
    completedAt: Option<int>, expiringAt: Option<int>, abandoned: bool)

  datatype CartLine = CartLine(sku: Id, reservationId: Option<Id>, expiresAt: Option<int>)

  datatype Entry = Entry(key: Id, record: MutationRecord)

  type Ledger = seq<Entry>

  ghost predicate WellKeyed(l: Ledger) {
    forall i, j :: 0 <= i < j < |l| ==> l[i].key != l[j].key
  }

  /** The record's own most recent timestamp. */
  function StampOf(r: MutationRecord): int {
    match r.completedAt
    case Some(at) => at
    case None => match r.expiringAt case Some(at) => at case None => r.claimedAt
  }

  predicate NoNewer(a: Entry, b: Entry) {
    StampOf(a.record) <= StampOf(b.record)
  }

  predicate IsCompleted(e: Entry) {
    e.record.completed
  }

  predicate IsAbandoned(e: Entry) {
    !e.record.completed && e.record.abandoned
  }

  /** A crash marker: what a replayer resumes from, and what keeps a dangling hold listable. */
  predicate IsOutstanding(e: Entry) {
    !e.record.completed && !e.record.abandoned
  }

  function Filter(l: Ledger, keep: Entry -> bool): (r: Ledger)
    ensures |r| <= |l|
  {
    if l == [] then []
    else Filter(l[..|l| - 1], keep) + if keep(l[|l| - 1]) then [l[|l| - 1]] else []
  }

  function KeysOf(l: Ledger): set<Id> {
    set e | e in l :: e.key
  }

  /** Everything past `keep`, oldest first. */
  function OverBound(entries: Ledger, keep: nat): Ledger {
    if |entries| <= keep then [] else ToSorted(entries, NoNewer)[..|entries| - keep]
  }

  function Evicted(l: Ledger): set<Id> {
    KeysOf(OverBound(Filter(l, IsCompleted), CART_MUTATION_LEDGER_SIZE))
    + KeysOf(OverBound(Filter(l, IsAbandoned), CART_ABANDONED_LEDGER_SIZE))
  }

  function Without(l: Ledger, keys: set<Id>): Ledger {
    if l == [] then []
    else Without(l[..|l| - 1], keys) + if l[|l| - 1].key in keys then [] else [l[|l| - 1]]
  }

  function PruneMutations(l: Ledger): Ledger {
    var evicted := Evicted(l);
    if evicted == {} then l else Without(l, evicted)
  }

  // ---- filtering --------------------------------------------------------------------

  lemma {:induction false} FilterKeeps(l: Ledger, keep: Entry -> bool)
    ensures forall e :: e in Filter(l, keep) <==> e in l && keep(e)
  {
    if l != [] {
      FilterKeeps(l[..|l| - 1], keep);
      assert l == l[..|l| - 1] + [l[|l| - 1]];
    }
  }

  lemma {:induction false} FilterIsWellKeyed(l: Ledger, keep: Entry -> bool)
    requires WellKeyed(l)
    ensures WellKeyed(Filter(l, keep))
  {
    if l != [] {
      var init := l[..|l| - 1];
      FilterIsWellKeyed(init, keep);
      FilterKeeps(init, keep);
      forall e | e in init ensures e.key != l[|l| - 1].key {
        var i :| 0 <= i < |init| && init[i] == e;
        assert l[i] == e;
      }
    }
  }

  lemma {:induction false} WithoutKeeps(l: Ledger, keys: set<Id>)
    ensures forall e :: e in Without(l, keys) <==> e in l && e.key !in keys
    ensures |Without(l, keys)| <= |l|
  {
    if l != [] {
      WithoutKeeps(l[..|l| - 1], keys);
      assert l == l[..|l| - 1] + [l[|l| - 1]];
    }
  }

  lemma {:induction false} WithoutIsWellKeyed(l: Ledger, keys: set<Id>)
    requires WellKeyed(l)
    ensures WellKeyed(Without(l, keys))
  {
    if l != [] {
      var init := l[..|l| - 1];
      WithoutIsWellKeyed(init, keys);
      WithoutKeeps(init, keys);
      forall e | e in init ensures e.key != l[|l| - 1].key {
        var i :| 0 <= i < |init| && init[i] == e;
        assert l[i] == e;
      }
    }
  }

  lemma {:induction false} FilterWithout(l: Ledger, keys: set<Id>, keep: Entry -> bool)
    ensures Filter(Without(l, keys), keep) == Without(Filter(l, keep), keys)
  {
    if l != [] {
      var init, last := l[..|l| - 1], l[|l| - 1];
      FilterWithout(init, keys, keep);
      if last.key !in keys {
        assert Without(l, keys)[..|Without(l, keys)| - 1] == Without(init, keys);
      } else {
        assert Without(l, keys) == Without(init, keys);
      }
      if keep(last) {
        assert Filter(l, keep)[..|Filter(l, keep)| - 1] == Filter(init, keep);
      } else {
        assert Filter(l, keep) == Filter(init, keep);
      }
    }
  }

  lemma {:induction false} WithoutNone(l: Ledger, keys: set<Id>)
    requires forall e :: e in l ==> e.key !in keys
    ensures Without(l, keys) == l
  {
    if l != [] {
      WithoutNone(l[..|l| - 1], keys);
      assert l == l[..|l| - 1] + [l[|l| - 1]];
    }
  }

  lemma {:induction false} KeysOfSnoc(init: Ledger, last: Entry)
    ensures KeysOf(init + [last]) == KeysOf(init) + {last.key}
  {
    forall e ensures e in init + [last] <==> e in init || e == last {
    }
  }

  lemma {:induction false} LastKeyIsNew(l: Ledger)
    requires WellKeyed(l) && l != []
    ensures l[|l| - 1].key !in KeysOf(l[..|l| - 1])
  {
    var init := l[..|l| - 1];
    forall e | e in init ensures e.key != l[|l| - 1].key {
      var i :| 0 <= i < |init| && init[i] == e;
      assert l[i] == e;
    }
  }

  lemma {:induction false} KeyCount(l: Ledger)
    requires WellKeyed(l)
    ensures |KeysOf(l)| == |l|
  {
    if l != [] {
      var init := l[..|l| - 1];
      assert l == init + [l[|l| - 1]];
      KeyCount(init);
      LastKeyIsNew(l);
      KeysOfSnoc(init, l[|l| - 1]);
    }
  }

  /** A key names one entry. */
  lemma {:induction false} SameKeySameEntry(l: Ledger, a: Entry, b: Entry)
    requires WellKeyed(l) && a in l && b in l && a.key == b.key
    ensures a == b
  {
    var i :| 0 <= i < |l| && l[i] == a;
    var j :| 0 <= j < |l| && l[j] == b;
  }

  /** Removing the entries `out` of a ledger takes exactly that many away. */
  lemma {:induction false} WithoutCount(l: Ledger, out: Ledger, keys: set<Id>)
    requires WellKeyed(l) && WellKeyed(out) && forall e :: e in out ==> e in l
    requires forall e :: e in l ==> (e.key in keys <==> e in out)
    ensures |Without(l, keys)| == |l| - |out|
  {
    WithoutKeeps(l, keys);
    WithoutIsWellKeyed(l, keys);
    KeyCount(l);
    KeyCount(out);
    KeyCount(Without(l, keys));
    assert KeysOf(Without(l, keys)) == KeysOf(l) - KeysOf(out) by {
      forall e | e in l && e.key in KeysOf(out) ensures e in out {
        var o :| o in out && o.key == e.key;
        SameKeySameEntry(l, e, o);
      }
    }
    assert KeysOf(out) <= KeysOf(l);
  }

  // ---- the eviction of one class ------------------------------------------------------

  lemma {:induction false} StampsAreOrdered()
    ensures TotalPreorder(NoNewer)
  {
  }

  /** The front of a sorted ledger is no newer than its rest. */
  lemma {:induction false} FrontIsOlder(sorted: Ledger, n: nat, e: Entry, kept: Entry)
    requires Sorted(sorted, NoNewer) && n <= |sorted| && e in sorted[..n] && kept in sorted && kept !in sorted[..n]
    ensures StampOf(e.record) <= StampOf(kept.record)
  {
    var i :| 0 <= i < n && sorted[i] == e;
    assert sorted == sorted[..n] + sorted[n..];
    var j :| 0 <= j < |sorted| - n && sorted[n..][j] == kept;
    assert NoNewer(sorted[i], sorted[n + j]);
  }

  /** What is evicted is from the class, is exactly the excess, and is no newer than anything
      of the class that stays. */
  lemma {:induction false} OverBoundEvictsTheOldest(entries: Ledger, keep: nat)
    requires WellKeyed(entries)
    ensures var out := OverBound(entries, keep);
      && |out| == (if |entries| <= keep then 0 else |entries| - keep)
      && (forall e :: e in out ==> e in entries)
      && (forall e, kept :: e in out && kept in entries && kept !in out ==> StampOf(e.record) <= StampOf(kept.record))
      && WellKeyed(out)
  {
    if |entries| > keep {
      StampsAreOrdered();
      ToSortedSorts(entries, NoNewer);
      var sorted := ToSorted(entries, NoNewer);
      SameElements(sorted, entries);
      var n := |entries| - keep;
      forall e, kept | e in sorted[..n] && kept in entries && kept !in sorted[..n]
        ensures StampOf(e.record) <= StampOf(kept.record)
      {
        FrontIsOlder(sorted, n, e, kept);
      }
      WellKeyedPermutation(entries, sorted);
    }
  }

  lemma {:induction false} SameElements(a: Ledger, b: Ledger)
    requires multiset(a) == multiset(b)
    ensures forall e :: e in a <==> e in b
  {
    forall e ensures e in a <==> e in b {
      assert e in multiset(a) <==> e in a;
      assert e in multiset(b) <==> e in b;
    }
  }

  lemma {:induction false} WellKeyedPermutation(a: Ledger, b: Ledger)
    requires multiset(a) == multiset(b) && WellKeyed(a)
    ensures WellKeyed(b)
  {
    SameElements(a, b);
    forall i, j | 0 <= i < j < |b| ensures b[i].key != b[j].key {
      if b[i] == b[j] {
        var e := b[i];
        assert b == b[..i] + [b[i]] + b[i + 1..j] + [b[j]] + b[j + 1..];
        assert multiset(b)[e] >= 2;
        UniqueCount(a, e);
      } else {
        assert b[i] in a && b[j] in a;
        var x :| 0 <= x < |a| && a[x] == b[i];
        var y :| 0 <= y < |a| && a[y] == b[j];
      }
    }
  }

  lemma {:induction false} UniqueCount(a: Ledger, e: Entry)
    requires WellKeyed(a)
    ensures multiset(a)[e] <= 1
  {
    if a != [] {
      var init, last := a[..|a| - 1], a[|a| - 1];
      assert a == init + [last];
      UniqueCount(init, e);
      assert last !in init by {
        forall i | 0 <= i < |init| ensures init[i] != last {
          assert a[i].key != a[|a| - 1].key;
        }
      }
    }
  }

  // ---- what pruning does ----------------------------------------------------------------

  lemma {:induction false} ClassOut(l: Ledger, kind: Entry -> bool, keep: nat)
    requires WellKeyed(l)
    ensures var entries := Filter(l, kind);
      var out := OverBound(entries, keep);
      && WellKeyed(entries) && WellKeyed(out)
      && |out| == (if |entries| <= keep then 0 else |entries| - keep)
      && (forall e :: e in out ==> e in l && kind(e))
      && (forall e, kept :: e in out && kept in l && kind(kept) && kept !in out ==> StampOf(e.record) <= StampOf(kept.record))
  {
    FilterIsWellKeyed(l, kind);
    FilterKeeps(l, kind);
    OverBoundEvictsTheOldest(Filter(l, kind), keep);
  }

  function CompletedOut(l: Ledger): Ledger {
    OverBound(Filter(l, IsCompleted), CART_MUTATION_LEDGER_SIZE)
  }

  function AbandonedOut(l: Ledger): Ledger {
    OverBound(Filter(l, IsAbandoned), CART_ABANDONED_LEDGER_SIZE)
  }

  /** The evicted keys are those of the two classes' excess, and of nothing else. */
  lemma {:induction false} EvictedIs(l: Ledger)
    requires WellKeyed(l)
    ensures PruneMutations(l) == Without(l, Evicted(l))
    ensures forall e :: e in l ==> (e.key in Evicted(l) <==> e in CompletedOut(l) || e in AbandonedOut(l))
  {
    ClassOut(l, IsCompleted, CART_MUTATION_LEDGER_SIZE);
    ClassOut(l, IsAbandoned, CART_ABANDONED_LEDGER_SIZE);
    assert forall o :: o in CompletedOut(l) || o in AbandonedOut(l) ==> o in l;
    if Evicted(l) == {} {
      WithoutNone(l, {});
    }
    forall e | e in l && e.key in Evicted(l) ensures e in CompletedOut(l) || e in AbandonedOut(l) {
      if e.key in KeysOf(CompletedOut(l)) {
        var o :| o in CompletedOut(l) && o.key == e.key;
        SameKeySameEntry(l, e, o);
      } else {
        var o :| o in AbandonedOut(l) && o.key == e.key;
        SameKeySameEntry(l, e, o);
      }
    }
  }

  /** Pruning removes only completed or abandoned records. */
  lemma {:induction false} PruneKeepsEntries(l: Ledger)
    requires WellKeyed(l)
    ensures WellKeyed(PruneMutations(l))
    ensures forall e :: e in PruneMutations(l) ==> e in l
    ensures forall e :: e in l && IsOutstanding(e) ==> e in PruneMutations(l)
  {
    EvictedIs(l);
    ClassOut(l, IsCompleted, CART_MUTATION_LEDGER_SIZE);
    ClassOut(l, IsAbandoned, CART_ABANDONED_LEDGER_SIZE);
    WithoutKeeps(l, Evicted(l));
    WithoutIsWellKeyed(l, Evicted(l));
  }

  /** Within a class nothing newer than a kept record is evicted. */
  lemma {:induction false} EvictedIsNoNewer(l: Ledger, gone: Entry, kept: Entry)
    requires WellKeyed(l) && gone in l && gone !in PruneMutations(l) && kept in PruneMutations(l)
    ensures IsCompleted(gone) && IsCompleted(kept) ==> StampOf(gone.record) <= StampOf(kept.record)
    ensures IsAbandoned(gone) && IsAbandoned(kept) ==> StampOf(gone.record) <= StampOf(kept.record)
  {
    EvictedIs(l);
    ClassOut(l, IsCompleted, CART_MUTATION_LEDGER_SIZE);
    ClassOut(l, IsAbandoned, CART_ABANDONED_LEDGER_SIZE);
    WithoutKeeps(l, Evicted(l));
    assert gone in CompletedOut(l) || gone in AbandonedOut(l);
    assert kept !in CompletedOut(l) && kept !in AbandonedOut(l);
  }

  /** By which of its times a record is evicted: a completed one by its completion, an abandoned
      one by the expiry that began on it, and by its claim when none did. */
  lemma {:induction false} EvictedByTheseTimes(l: Ledger, gone: Entry, kept: Entry)
    requires WellKeyed(l) && gone in l && gone !in PruneMutations(l) && kept in PruneMutations(l)
    ensures IsCompleted(gone) && IsCompleted(kept) && gone.record.completedAt.Some? && kept.record.completedAt.Some? ==>
      gone.record.completedAt.value <= kept.record.completedAt.value
    ensures IsAbandoned(gone) && IsAbandoned(kept) && gone.record.completedAt.None? && kept.record.completedAt.None? ==>
      (if gone.record.expiringAt.Some? then gone.record.expiringAt.value else gone.record.claimedAt)
      <= if kept.record.expiringAt.Some? then kept.record.expiringAt.value else kept.record.claimedAt
  {
    EvictedIsNoNewer(l, gone, kept);
  }

  /** What stays, stays in order. */
  lemma {:induction false} WithoutKeepsOrder(l: Ledger, keys: set<Id>, i: nat, j: nat)
    requires i < j < |Without(l, keys)|
    ensures exists a, b :: 0 <= a < b < |l| && l[a] == Without(l, keys)[i] && l[b] == Without(l, keys)[j]
  {
    var init, last := l[..|l| - 1], l[|l| - 1];
    if j < |Without(init, keys)| {
      WithoutKeepsOrder(init, keys, i, j);
      var a, b :| 0 <= a < b < |init| && init[a] == Without(init, keys)[i] && init[b] == Without(init, keys)[j];
      assert l[a] == Without(l, keys)[i] && l[b] == Without(l, keys)[j];
    } else {
      WithoutKeeps(init, keys);
      assert Without(init, keys)[i] in init;
      var a :| 0 <= a < |init| && init[a] == Without(init, keys)[i];
      assert l[a] == Without(l, keys)[i] && l[|l| - 1] == Without(l, keys)[j];
    }
  }

  lemma {:induction false} PruneKeepsOrder(l: Ledger, i: nat, j: nat)
    requires i < j < |PruneMutations(l)|
    ensures exists a, b :: 0 <= a < b < |l| && l[a] == PruneMutations(l)[i] && l[b] == PruneMutations(l)[j]
  {
    if Evicted(l) == {} {
      assert l[i] == PruneMutations(l)[i] && l[j] == PruneMutations(l)[j];
    } else {
      WithoutKeepsOrder(l, Evicted(l), i, j);
    }
  }

  lemma {:induction false} ClassCount(l: Ledger, kind: Entry -> bool, out: Ledger)
    requires WellKeyed(l) && WellKeyed(out) && forall e :: e in out ==> e in l && kind(e)
    requires forall e :: e in l && kind(e) ==> (e.key in Evicted(l) <==> e in out)
    ensures |Filter(Without(l, Evicted(l)), kind)| == |Filter(l, kind)| - |out|
  {
    FilterWithout(l, Evicted(l), kind);
    FilterIsWellKeyed(l, kind);
    FilterKeeps(l, kind);
    WithoutCount(Filter(l, kind), out, Evicted(l));
  }

  function Min(a: nat, b: nat): nat {
    if a <= b then a else b
  }

  /** Exactly the bound of each class stays, or all of it when it is within its bound. */
  lemma {:induction false} PruneKeepsExactly(l: Ledger)
    requires WellKeyed(l)
    ensures |Filter(PruneMutations(l), IsCompleted)| == Min(64, |Filter(l, IsCompleted)|)
    ensures |Filter(PruneMutations(l), IsAbandoned)| == Min(16, |Filter(l, IsAbandoned)|)
    ensures Filter(PruneMutations(l), IsOutstanding) == Filter(l, IsOutstanding)
  {
    EvictedIs(l);
    ClassOut(l, IsCompleted, CART_MUTATION_LEDGER_SIZE);
    ClassOut(l, IsAbandoned, CART_ABANDONED_LEDGER_SIZE);
    ClassCount(l, IsCompleted, CompletedOut(l));
    ClassCount(l, IsAbandoned, AbandonedOut(l));
    FilterWithout(l, Evicted(l), IsOutstanding);
    FilterKeeps(l, IsOutstanding);
    WithoutNone(Filter(l, IsOutstanding), Evicted(l));
  }

  /** A pruned ledger is not pruned further. */
  lemma {:induction false} PruneIsIdempotent(l: Ledger)
    requires WellKeyed(l)
    ensures PruneMutations(PruneMutations(l)) == PruneMutations(l)
  {
    PruneKeepsExactly(l);
    assert CompletedOut(PruneMutations(l)) == [] && AbandonedOut(PruneMutations(l)) == [];
  }

  // ---- the hold deadline -----------------------------------------------------------------

  /** The instants at which the cart has expiry work: its held lines' deadlines, and the claim
      times of its outstanding adds. */
  function WorkInstants(lines: seq<CartLine>, l: Ledger): set<int> {
    (set line | line in lines && line.reservationId.Some? && line.expiresAt.Some? :: line.expiresAt.value)
    + (set e | e in l && e.record.kind == Add && IsOutstanding(e) :: e.record.claimedAt)
  }

  /** The least of a set of instants, none when there is none. */
  ghost predicate IsEarliest(r: Option<int>, instants: set<int>) {
    match r
    case None => instants == {}
    case Some(at) => at in instants && forall i :: i in instants ==> at <= i
  }

  method ComputeHoldExpiresAt(lines: seq<CartLine>, l: Ledger) returns (earliest: Option<int>)
    ensures IsEarliest(earliest, WorkInstants(lines, l))
  {
    earliest := None;
    for i := 0 to |lines|
      invariant IsEarliest(earliest, WorkInstants(lines[..i], []))
    {
      var line := lines[i];
      assert lines[..i + 1] == lines[..i] + [line];
      if line.reservationId.Some? {
        earliest := Consider(earliest, line.expiresAt);
        assert WorkInstants(lines[..i + 1], [])
            == WorkInstants(lines[..i], []) + if line.expiresAt.Some? then {line.expiresAt.value} else {};
      } else {
        assert WorkInstants(lines[..i + 1], []) == WorkInstants(lines[..i], []);
      }
    }
    assert lines[..|lines|] == lines;
    for i := 0 to |l|
      invariant IsEarliest(earliest, WorkInstants(lines, l[..i]))
    {
      var record := l[i].record;
      assert l[..i + 1] == l[..i] + [l[i]];
      if record.kind == Add && !record.completed && !record.abandoned {
        earliest := Consider(earliest, Some(record.claimedAt));
        assert WorkInstants(lines, l[..i + 1]) == WorkInstants(lines, l[..i]) + {record.claimedAt};
      } else {
        assert WorkInstants(lines, l[..i + 1]) == WorkInstants(lines, l[..i]);
      }
    }
    assert l[..|l|] == l;
  }

  function Consider(earliest: Option<int>, at: Option<int>): (r: Option<int>)
    ensures forall s :: IsEarliest(earliest, s) ==> IsEarliest(r, s + if at.Some? then {at.value} else {})
  {
    if at.Some? && (earliest.None? || at.value < earliest.value) then at else earliest
  }

  /** Pruning never moves the deadline, so computing it before or after is the same; and a
      sweep of everything due by `now` misses no work. */
  lemma {:induction false} PruneKeepsTheDeadline(lines: seq<CartLine>, l: Ledger, hold: Option<int>, now: int)
    requires WellKeyed(l)
    ensures WorkInstants(lines, PruneMutations(l)) == WorkInstants(lines, l)
    ensures IsEarliest(hold, WorkInstants(lines, PruneMutations(l))) <==> IsEarliest(hold, WorkInstants(lines, l))
    ensures IsEarliest(hold, WorkInstants(lines, l)) ==>
      ((hold.Some? && hold.value <= now) <==>
        || (exists line :: line in lines && line.reservationId.Some? && line.expiresAt.Some? && line.expiresAt.value <= now)
        || (exists e :: e in l && e.record.kind == Add && IsOutstanding(e) && e.record.claimedAt <= now))
  {
    PruneKeepsEntries(l);
    assert WorkInstants(lines, PruneMutations(l)) == WorkInstants(lines, l);
    if IsEarliest(hold, WorkInstants(lines, l)) {
      DueIffEarliestIsDue(hold, WorkInstants(lines, l), now);
      WorkInstantsAre(lines, l, now);
    }
  }

  lemma {:induction false} DueIffEarliestIsDue(hold: Option<int>, instants: set<int>, now: int)
    requires IsEarliest(hold, instants)
    ensures (hold.Some? && hold.value <= now) <==> exists at :: at in instants && at <= now
  {
  }

  lemma {:induction false} WorkInstantsAre(lines: seq<CartLine>, l: Ledger, now: int)
    ensures (exists at :: at in WorkInstants(lines, l) && at <= now) <==>
        || (exists line :: line in lines && line.reservationId.Some? && line.expiresAt.Some? && line.expiresAt.value <= now)
        || (exists e :: e in l && e.record.kind == Add && IsOutstanding(e) && e.record.claimedAt <= now)
  {
    forall line | line in lines && line.reservationId.Some? && line.expiresAt.Some?
      ensures line.expiresAt.value in WorkInstants(lines, l) {}
    forall e | e in l && e.record.kind == Add && IsOutstanding(e)
      ensures e.record.claimedAt in WorkInstants(lines, l) {}
  }
}
