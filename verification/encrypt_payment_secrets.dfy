/** The re-save of one isolate, as it runs against a host that operators keep saving to and
    that may refuse any call. */
module EncryptPaymentSecrets {
  import opened Options
  import opened PaymentSecretsHost
  import opened PaymentSecretRuns

  datatype Problem = KeyIsWrong | OtherProblem

  datatype Served<+T> = Ok(value: T) | Refused(problem: Problem)

  datatype Report = ReportKey | ReportKeyAfterMarker | ReportHost | ReportConflict | ReportOther

  lemma {:induction false} SavesCompose(h: Host, first: Host, landed: seq<Save>, saves: seq<Save>)
    requires HostOk(h) && h.truth == ApplySaves(first, landed).truth
    ensures HostOk(ApplySaves(h, saves)) && Evolves(h, ApplySaves(h, saves))
    ensures ApplySaves(h, saves).truth == ApplySaves(first, landed + saves).truth
  {
    if saves == [] {
      assert landed + saves == landed;
    } else {
      var init, last := saves[..|saves| - 1], saves[|saves| - 1];
      SavesCompose(h, first, landed, init);
      SaveIsOk(ApplySaves(h, init), last);
      EvolvesThrough(h, ApplySaves(h, init), ApplySaves(h, saves));
      assert (landed + saves)[..|landed + saves| - 1] == landed + init;
    }
  }

  lemma {:induction false} EvolvesSame(h: Host)
    ensures Evolves(h, h)
  {
  }

  /** The host's kv, as one isolate meets it: before its call number `n` the saves
      `interference(n)` have landed, and `refusals(n)` may reject it. */
  class KvAccess {
    var host: Host
    var calls: nat
    var casCalls: nat
    const conditionalWrites: bool
    const interference: nat -> seq<Save>
    const refusals: nat -> Option<Problem>
    ghost const first: Host
    ghost var landed: seq<Save>

    constructor (host: Host, conditionalWrites: bool, interference: nat -> seq<Save>, refusals: nat -> Option<Problem>)
      requires HostOk(host)
      ensures Valid() && this.host == host && first == host && landed == [] && casCalls == 0
      ensures this.conditionalWrites == conditionalWrites
      ensures this.interference == interference && this.refusals == refusals
    {
      this.host, first, calls, casCalls, landed := host, host, 0, 0, [];
      this.conditionalWrites, this.interference, this.refusals := conditionalWrites, interference, refusals;
    }

    /** Every key reads as the last save that landed, or as it did at first. */
    ghost predicate Valid()
      reads this
    {
      HostOk(host) && host.truth == ApplySaves(first, landed).truth
    }

    /** From call `n` on, nothing else writes and nothing is refused. */
    ghost predicate QuietFrom(n: nat) {
      forall m :: m >= n ==> interference(m) == [] && refusals(m).None?
    }

    ghost predicate Quiet()
      reads this
    {
      QuietFrom(calls)
    }

    method Enter() returns (problem: Option<Problem>)
      requires Valid()
      modifies this
      ensures Valid() && Evolves(old(host), host)
      ensures calls == old(calls) + 1 && casCalls == old(casCalls)
      ensures host == ApplySaves(old(host), interference(old(calls)))
      ensures landed == old(landed) + interference(old(calls))
      ensures problem == refusals(old(calls))
    {
      SavesCompose(host, first, landed, interference(calls));
      host := ApplySaves(host, interference(calls));
      landed := landed + interference(calls);
      problem := refusals(calls);
      calls := calls + 1;
    }

    method GetVersionedKey(key: string) returns (r: Served<Option<Versioned>>)
      requires Valid()
      modifies this
      ensures Valid() && Evolves(old(host), host) && calls > old(calls) && casCalls == old(casCalls)
      ensures r.Ok? ==> r.value == GetVersioned(host, key)
      ensures old(Quiet()) ==> r.Ok? && host == old(host)
    {
      var problem := Enter();
      r := match problem case Some(p) => Refused(p) case None => Ok(GetVersioned(host, key));
    }

    method GetMarker() returns (r: Served<Option<map<string, string>>>)
      requires Valid()
      modifies this
      ensures Valid() && Evolves(old(host), host) && calls > old(calls) && casCalls == old(casCalls)
      ensures host == ApplySaves(old(host), interference(old(calls)))
      ensures r == match refusals(old(calls)) case Some(p) => Refused(p) case None => Ok(ReadMarker(host.marker))
      ensures old(Quiet()) ==> r.Ok? && host == old(host)
    {
      var problem := Enter();
      r := match problem case Some(p) => Refused(p) case None => Ok(ReadMarker(host.marker));
    }

    /** A refused call writes nothing, with or without an encryption key. */
    method CompareAndSet(key: string, expected: Option<string>, value: StoredValue) returns (r: Served<Option<string>>)
      requires Valid()
      requires forall h :: HostOk(h) && Evolves(host, h) && CasApplies(h, key, expected) ==> Readable(h, key) == Some(value)
      modifies this
      ensures Valid() && Evolves(old(host), host) && calls > old(calls) && casCalls == old(casCalls) + 1
      ensures r.Ok? && r.value.Some? ==> (key, r.value.value) in host.sealings
      ensures old(Quiet()) ==>
                if CasApplies(old(host), key, expected)
                then r == Ok(Some(Mint(old(host)))) && host == CasWrite(old(host), key, value)
                else r == Ok(None) && host == old(host)
    {
      var problem := Enter();
      casCalls := casCalls + 1;
      if problem.Some? {
        return Refused(problem.value);
      }
      if !CasApplies(host, key, expected) {
        return Ok(None);
      }
      var revision := Mint(host);
      ghost var before := host;
      WriteIsOk(host, key, value);
      host := CasWrite(host, key, value);
      EvolvesThrough(old(host), before, host);
      r := Ok(Some(revision));
    }

    method SetMarkerRow(revisions: map<string, string>) returns (problem: Option<Problem>)
      requires Valid() && MarkerSound(revisions, host)
      modifies this
      ensures Valid() && Evolves(old(host), host) && calls > old(calls) && casCalls == old(casCalls)
      ensures old(Quiet()) ==> problem.None? && host == SetMarker(old(host), revisions)
    {
      problem := Enter();
      if problem.None? {
        ghost var before := host;
        MarkIsOk(host, revisions);
        host := SetMarker(host, revisions);
        EvolvesThrough(old(host), before, host);
      }
    }
  }

  /** What one isolate remembers between ticks. */
  class IsolateMemory {
    var doneInIsolate: set<string>
    var reportedInIsolate: set<Report>

    constructor ()
      ensures doneInIsolate == {} && reportedInIsolate == {}
    {
      doneInIsolate, reportedInIsolate := {}, {};
    }

    method ReportOnce(kind: Report)
      modifies this
      ensures reportedInIsolate == old(reportedInIsolate) + {kind} && doneInIsolate == old(doneInIsolate)
    {
      reportedInIsolate := reportedInIsolate + {kind};
    }
  }

  // ---- the preflight ---------------------------------------------------------------------

  /** What an undisturbed preflight of the first `n` keys reads. */
  function ReadKeys(h: Host, n: nat): seq<Item>
    requires n <= |ENCRYPTED_PAYMENT_SECRET_KEYS|
  {
    if n == 0 then []
    else
      var key := ENCRYPTED_PAYMENT_SECRET_KEYS[n - 1];
      ReadKeys(h, n - 1) + match GetVersioned(h, key)
        case None => []
        case Some(v) => [Item(key, v.value, v.revision, v.sealed)]
  }

  function ReadAll(h: Host): seq<Item> {
    ReadKeys(h, |ENCRYPTED_PAYMENT_SECRET_KEYS|)
  }

  ghost predicate ItemsOk(h: Host, items: seq<Item>) {
    forall x :: x in items ==> ItemOk(h, x)
  }

  lemma {:induction false} ItemsStay(h: Host, h': Host, items: seq<Item>)
    requires ItemsOk(h, items) && Evolves(h, h')
    ensures ItemsOk(h', items)
  {
    forall x | x in items ensures ItemOk(h', x) {
      ItemStays(h, h', x);
    }
  }

  method Preflight(kv: KvAccess) returns (r: Served<seq<Item>>)
    requires kv.Valid()
    modifies kv
    ensures kv.Valid() && Evolves(old(kv.host), kv.host) && kv.casCalls == old(kv.casCalls)
    ensures kv.calls >= old(kv.calls)
    ensures r.Ok? ==> ItemsOk(kv.host, r.value)
    ensures old(kv.Quiet()) ==> r == Ok(ReadAll(old(kv.host))) && kv.host == old(kv.host)
  {
    var stored: seq<Item> := [];
    for i := 0 to |ENCRYPTED_PAYMENT_SECRET_KEYS|
      invariant kv.Valid() && Evolves(old(kv.host), kv.host) && kv.casCalls == old(kv.casCalls)
      invariant kv.calls >= old(kv.calls)
      invariant ItemsOk(kv.host, stored)
      invariant old(kv.Quiet()) ==> stored == ReadKeys(old(kv.host), i) && kv.host == old(kv.host)
    {
      var key := ENCRYPTED_PAYMENT_SECRET_KEYS[i];
      ghost var before := kv.host;
      var current := kv.GetVersionedKey(key);
      EvolvesThrough(old(kv.host), before, kv.host);
      ItemsStay(before, kv.host, stored);
      match current {
        case Refused(p) => return Refused(p);
        case Ok(None) =>
        case Ok(Some(v)) =>
          ReadIsOk(kv.host, key);
          stored := stored + [Item(key, v.value, v.revision, v.sealed)];
      }
    }
    r := Ok(stored);
  }

  // ---- one key ---------------------------------------------------------------------------

  datatype Resaved = Written(revision: string, replacedLegacy: bool) | Conflict | Stopped(problem: Problem)

  lemma {:induction false} ResaveIsLicensed(h: Host, item: Item)
    requires ItemOk(h, item)
    ensures forall h' :: HostOk(h') && Evolves(h, h') && CasApplies(h', item.key, Some(item.revision)) ==>
              Readable(h', item.key) == Some(item.value)
  {
    forall h' | HostOk(h') && Evolves(h, h') && CasApplies(h', item.key, Some(item.revision))
      ensures Readable(h', item.key) == Some(item.value)
    {
      ItemStays(h, h', item);
      ResaveReadsItsValue(h', item);
    }
  }

  lemma {:induction false} FallbackIsLicensed(h: Host, item: Item)
    requires ItemOk(h, item) && FallbackOk(h, item)
    ensures forall h' :: HostOk(h') && Evolves(h, h') && CasApplies(h', item.key, None) ==>
              Readable(h', item.key) == Some(item.value)
  {
    forall h' | HostOk(h') && Evolves(h, h') && CasApplies(h', item.key, None)
      ensures Readable(h', item.key) == Some(item.value)
    {
      ItemStays(h, h', item);
      FallbackReadsItsValue(h', item);
    }
  }

  /** The conditional write, with its create-if-absent for a copy outside the options table. */
  method WriteKey(kv: KvAccess, item: Item) returns (r: Resaved)
    requires kv.Valid() && ItemOk(kv.host, item)
    modifies kv
    ensures kv.Valid() && Evolves(old(kv.host), kv.host) && kv.calls >= old(kv.calls)
    ensures r.Written? ==> (item.key, r.revision) in kv.host.sealings
    ensures old(kv.Quiet()) && GetVersioned(old(kv.host), item.key) == Some(Versioned(item.value, item.revision, item.sealed)) ==>
              && r == Written(Mint(old(kv.host)), RowOf(old(kv.host), item.key).None?)
              && kv.host == CasWrite(old(kv.host), item.key, item.value)
  {
    ResaveIsLicensed(kv.host, item);
    var written := kv.CompareAndSet(item.key, Some(item.revision), item.value);
    ItemStays(old(kv.host), kv.host, item);
    if written.Refused? {
      return Stopped(written.problem);
    }
    if written.value.Some? {
      return Written(written.value.value, false);
    }
    ghost var h1 := kv.host;
    var again := kv.GetVersionedKey(item.key);
    ItemStays(h1, kv.host, item);
    EvolvesThrough(old(kv.host), h1, kv.host);
    if again.Refused? {
      return Stopped(again.problem);
    }
    if again.value.None? || again.value.value.revision != item.revision {
      return Conflict;
    }
    ReReadLicenses(kv.host, item);
    FallbackIsLicensed(kv.host, item);
    ghost var h2 := kv.host;
    written := kv.CompareAndSet(item.key, None, item.value);
    EvolvesThrough(old(kv.host), h2, kv.host);
    if written.Refused? {
      return Stopped(written.problem);
    }
    r := if written.value.Some? then Written(written.value.value, true) else Conflict;
  }

  /** The write, and the read-back that must find exactly what it stored. */
  method ResaveKey(kv: KvAccess, item: Item) returns (r: Resaved)
    requires kv.Valid() && ItemOk(kv.host, item)
    modifies kv
    ensures kv.Valid() && Evolves(old(kv.host), kv.host) && kv.calls >= old(kv.calls)
    ensures r.Written? ==> (item.key, r.revision) in kv.host.sealings
    ensures old(kv.Quiet()) && GetVersioned(old(kv.host), item.key) == Some(Versioned(item.value, item.revision, item.sealed)) ==>
              && kv.host == CasWrite(old(kv.host), item.key, item.value)
              && r == if item.value.Scalar? then Written(Mint(old(kv.host)), RowOf(old(kv.host), item.key).None?) else Conflict
  {
    r := WriteKey(kv, item);
    if !r.Written? {
      return r;
    }
    ghost var h1 := kv.host;
    var back := kv.GetVersionedKey(item.key);
    EvolvesThrough(old(kv.host), h1, kv.host);
    if back.Refused? {
      return Stopped(back.problem);
    }
    if back.value.None? || back.value.value.revision != r.revision || !Identical(back.value.value.value, item.value) {
      return Conflict;
    }
  }

  // ---- an undisturbed run ---------------------------------------------------------------

  ghost predicate DistinctKeys(items: seq<Item>) {
    forall i, j :: 0 <= i < j < |items| ==> items[i].key != items[j].key
  }

  function KeysOf(items: seq<Item>): (keys: set<string>)
    ensures forall x :: x in items ==> x.key in keys
    ensures forall k :: k in keys ==> exists x :: x in items && x.key == k
  {
    set x | x in items :: x.key
  }

  lemma {:induction false} ReadKeysReads(h: Host, n: nat)
    requires n <= |ENCRYPTED_PAYMENT_SECRET_KEYS|
    ensures DistinctKeys(ReadKeys(h, n))
    ensures forall x :: x in ReadKeys(h, n) ==>
              && x.key in ENCRYPTED_PAYMENT_SECRET_KEYS[..n]
              && GetVersioned(h, x.key) == Some(Versioned(x.value, x.revision, x.sealed))
    ensures forall i :: 0 <= i < n && GetVersioned(h, ENCRYPTED_PAYMENT_SECRET_KEYS[i]).Some? ==>
              ENCRYPTED_PAYMENT_SECRET_KEYS[i] in KeysOf(ReadKeys(h, n))
  {
    if n > 0 {
      ReadKeysReads(h, n - 1);
      assert ENCRYPTED_PAYMENT_SECRET_KEYS[n - 1] !in ENCRYPTED_PAYMENT_SECRET_KEYS[..n - 1] by {
        assert |ENCRYPTED_PAYMENT_SECRET_KEYS| == 3;
        KeysAreDistinct();
      }
    }
  }

  lemma {:induction false} KeysAreDistinct()
    ensures STRIPE_SECRET_KEY_KEY != STRIPE_WEBHOOK_SECRET_KEY
    ensures STRIPE_SECRET_KEY_KEY != WEBHOOK_EDGE_TOKEN_KEY
    ensures STRIPE_WEBHOOK_SECRET_KEY != WEBHOOK_EDGE_TOKEN_KEY
  {
    assert |STRIPE_SECRET_KEY_KEY| != |STRIPE_WEBHOOK_SECRET_KEY|;
    assert |STRIPE_SECRET_KEY_KEY| != |WEBHOOK_EDGE_TOKEN_KEY|;
  }

  lemma {:induction false} KeysOfSnoc(init: seq<Item>, last: Item)
    ensures KeysOf(init + [last]) == KeysOf(init) + {last.key}
  {
    forall x ensures x in init + [last] <==> x in init || x == last {
    }
  }

  lemma {:induction false} LastKeyIsNew(items: seq<Item>)
    requires DistinctKeys(items) && items != []
    ensures items[|items| - 1].key !in KeysOf(items[..|items| - 1])
  {
    var init := items[..|items| - 1];
    forall x | x in init ensures x.key != items[|items| - 1].key {
      var i :| 0 <= i < |init| && init[i] == x;
      assert items[i] == x;
    }
  }

  lemma {:induction false} DistinctCount(items: seq<Item>)
    requires DistinctKeys(items)
    ensures |KeysOf(items)| == |items|
  {
    if items != [] {
      var init := items[..|items| - 1];
      assert items == init + [items[|items| - 1]];
      DistinctCount(init);
      LastKeyIsNew(items);
      KeysOfSnoc(init, items[|items| - 1]);
    }
  }

  /** The host is settled when a fresh preflight finds the marker matching every key. */
  predicate Settled(h: Host) {
    MarkerMatches(ReadAll(h), ReadMarker(h.marker))
  }

  lemma {:induction false} PendingIsDistinct(stored: seq<Item>, recorded: Option<map<string, string>>)
    requires DistinctKeys(stored)
    ensures DistinctKeys(Pending(stored, recorded))
  {
    if stored != [] {
      PendingIsDistinct(stored[1..], recorded);
      PendingIsUnrecorded(stored[1..], recorded);
      forall x | x in Pending(stored[1..], recorded) ensures x.key != stored[0].key {
        var i :| 0 <= i < |stored[1..]| && stored[1..][i] == x;
        assert stored[i + 1] == x;
      }
    }
  }

  /** How far an undisturbed run has got: the keys still to do are as they were read, every
      other stored key is recorded at its current revision, and nothing else is recorded. */
  ghost predicate Progress(first: Host, h: Host, stored: seq<Item>, todo: seq<Item>, revisions: map<string, string>) {
    && (forall x :: x in todo ==> GetVersioned(h, x.key) == Some(Versioned(x.value, x.revision, x.sealed)))
    && (forall x :: x in stored && x !in todo ==>
          && x.key in revisions && GetVersioned(h, x.key).Some?
          && GetVersioned(h, x.key).value.revision == revisions[x.key])
    && revisions.Keys <= KeysOf(stored)
    && (forall key :: GetVersioned(h, key).None? <==> GetVersioned(first, key).None?)
  }

  lemma {:induction false} ProgressStarts(h: Host)
    ensures var stored, recorded := ReadAll(h), ReadMarker(h.marker);
      && Progress(h, h, stored, Pending(stored, recorded), Kept(stored, recorded))
      && DistinctKeys(stored) && DistinctKeys(Pending(stored, recorded))
  {
    var stored, recorded := ReadAll(h), ReadMarker(h.marker);
    ReadKeysReads(h, |ENCRYPTED_PAYMENT_SECRET_KEYS|);
    PendingIsUnrecorded(stored, recorded);
    PendingIsDistinct(stored, recorded);
  }

  lemma {:induction false} OneItemEach(items: seq<Item>)
    requires DistinctKeys(items)
    ensures forall x, y :: x in items && y in items && x.key == y.key ==> x == y
  {
    forall x, y | x in items && y in items && x.key == y.key ensures x == y {
      var i :| 0 <= i < |items| && items[i] == x;
      var j :| 0 <= j < |items| && items[j] == y;
    }
  }

  /** After one key's write and its marker row, that key reads as written and no other key
      reads otherwise. */
  lemma {:induction false} WriteReads(h: Host, key: string, value: StoredValue, marked: map<string, string>, other: string)
    ensures GetVersioned(SetMarker(CasWrite(h, key, value), marked), other)
            == if other == key then Some(Versioned(value, Mint(h), true)) else GetVersioned(h, other)
  {
  }

  lemma {:induction false} TodoStays(h: Host, h': Host, todo: seq<Item>)
    requires todo != [] && DistinctKeys(todo)
    requires forall x :: x in todo ==> GetVersioned(h, x.key) == Some(Versioned(x.value, x.revision, x.sealed))
    requires forall key :: key != todo[0].key ==> GetVersioned(h', key) == GetVersioned(h, key)
    ensures forall x :: x in todo[1..] ==> GetVersioned(h', x.key) == Some(Versioned(x.value, x.revision, x.sealed))
  {
    forall x | x in todo[1..] ensures GetVersioned(h', x.key) == Some(Versioned(x.value, x.revision, x.sealed)) {
      var i :| 0 <= i < |todo[1..]| && todo[1..][i] == x;
      assert todo[i + 1] == x;
    }
  }

  /** Every stored key but the ones still to do stays recorded at its revision. */
  lemma {:induction false} RecordedStays(h: Host, h': Host, stored: seq<Item>, todo: seq<Item>, revisions: map<string, string>,
                                         marked: map<string, string>, x: Item)
    requires DistinctKeys(stored) && todo != [] && todo[0] in stored
    requires forall y :: y in stored && y !in todo ==>
      && y.key in revisions && GetVersioned(h, y.key).Some?
      && GetVersioned(h, y.key).value.revision == revisions[y.key]
    requires marked == revisions[todo[0].key := Mint(h)]
    requires GetVersioned(h', todo[0].key).Some? && GetVersioned(h', todo[0].key).value.revision == Mint(h)
    requires forall key :: key != todo[0].key ==> GetVersioned(h', key) == GetVersioned(h, key)
    requires x in stored && x !in todo[1..]
    ensures x.key in marked && GetVersioned(h', x.key).Some? && GetVersioned(h', x.key).value.revision == marked[x.key]
  {
    OneItemEach(stored);
    assert todo == [todo[0]] + todo[1..];
    if x.key != todo[0].key {
      assert x !in todo;
    }
  }

  lemma {:induction false} ProgressStep(first: Host, h: Host, stored: seq<Item>, todo: seq<Item>, revisions: map<string, string>,
                                        marked: map<string, string>)
    requires Progress(first, h, stored, todo, revisions) && DistinctKeys(stored) && DistinctKeys(todo)
    requires todo != [] && (forall x :: x in todo ==> x in stored)
    requires marked == revisions[todo[0].key := Mint(h)]
    ensures Progress(first, SetMarker(CasWrite(h, todo[0].key, todo[0].value), marked), stored, todo[1..], marked)
  {
    var item := todo[0];
    var h' := SetMarker(CasWrite(h, item.key, item.value), marked);
    forall key ensures GetVersioned(h', key)
                       == if key == item.key then Some(Versioned(item.value, Mint(h), true)) else GetVersioned(h, key) {
      WriteReads(h, item.key, item.value, marked, key);
    }
    TodoStays(h, h', todo);
    forall x | x in stored && x !in todo[1..]
      ensures x.key in marked && GetVersioned(h', x.key).Some? && GetVersioned(h', x.key).value.revision == marked[x.key]
    {
      RecordedStays(h, h', stored, todo, revisions, marked, x);
    }
  }

  lemma {:induction false} StoredKeyIsRead(h: Host, key: string)
    requires key in ENCRYPTED_PAYMENT_SECRET_KEYS && GetVersioned(h, key).Some?
    ensures key in KeysOf(ReadAll(h))
  {
    ReadKeysReads(h, |ENCRYPTED_PAYMENT_SECRET_KEYS|);
    var i :| 0 <= i < |ENCRYPTED_PAYMENT_SECRET_KEYS| && ENCRYPTED_PAYMENT_SECRET_KEYS[i] == key;
  }

  lemma {:induction false} ReadKeyIsStored(h: Host, x: Item)
    requires x in ReadAll(h)
    ensures x.key in ENCRYPTED_PAYMENT_SECRET_KEYS
    ensures GetVersioned(h, x.key) == Some(Versioned(x.value, x.revision, x.sealed))
  {
    ReadKeysReads(h, |ENCRYPTED_PAYMENT_SECRET_KEYS|);
    assert x.key in ENCRYPTED_PAYMENT_SECRET_KEYS[..|ENCRYPTED_PAYMENT_SECRET_KEYS|];
  }

  /** Once nothing is left to do, the revisions name exactly the stored keys, each at its
      current revision. */
  lemma {:induction false} ProgressCovers(first: Host, h: Host, revisions: map<string, string>)
    requires Progress(first, h, ReadAll(first), [], revisions)
    ensures forall x :: x in ReadAll(h) ==> Recorded(Some(revisions), x)
    ensures KeysOf(ReadAll(h)) == revisions.Keys
  {
    forall x | x in ReadAll(h) ensures Recorded(Some(revisions), x) {
      ReadKeyIsStored(h, x);
      StoredKeyIsRead(first, x.key);
      var y :| y in ReadAll(first) && y.key == x.key;
    }
    forall k | k in revisions ensures k in KeysOf(ReadAll(h)) {
      var y :| y in ReadAll(first) && y.key == k;
      ReadKeyIsStored(first, y);
      StoredKeyIsRead(h, k);
    }
  }

  lemma {:induction false} MarkingReadsAlike(h: Host, revisions: map<string, string>, n: nat)
    requires n <= |ENCRYPTED_PAYMENT_SECRET_KEYS|
    ensures ReadKeys(SetMarker(h, revisions), n) == ReadKeys(h, n)
  {
    if n > 0 {
      MarkingReadsAlike(h, revisions, n - 1);
    }
  }

  lemma {:induction false} NothingPending(stored: seq<Item>, recorded: Option<map<string, string>>)
    requires forall x :: x in stored ==> Recorded(recorded, x)
    ensures Pending(stored, recorded) == []
  {
    if stored != [] {
      NothingPending(stored[1..], recorded);
    }
  }

  /** Recording those revisions settles the host. */
  lemma {:induction false} ProgressSettles(first: Host, h: Host, revisions: map<string, string>)
    requires Progress(first, h, ReadAll(first), [], revisions)
    ensures Settled(SetMarker(h, revisions))
  {
    MarkerRoundTrip(revisions);
    MarkingReadsAlike(h, revisions, |ENCRYPTED_PAYMENT_SECRET_KEYS|);
    ProgressCovers(first, h, revisions);
    NothingPending(ReadAll(h), Some(revisions));
    ReadKeysReads(h, |ENCRYPTED_PAYMENT_SECRET_KEYS|);
    DistinctCount(ReadAll(h));
    assert |revisions| == |revisions.Keys|;
  }

  // ---- what a settled host is ----------------------------------------------------------

  predicate IsPaymentKey(key: string) {
    key == "settings:stripeSecretKey" || key == "settings:stripeWebhookSecret" || key == "settings:otta-wh-token"
  }

  lemma {:induction false} ReadsThePaymentKeys(h: Host)
    ensures forall key :: key in KeysOf(ReadAll(h)) <==> IsPaymentKey(key) && GetVersioned(h, key).Some?
  {
    forall key ensures key in KeysOf(ReadAll(h)) <==> IsPaymentKey(key) && GetVersioned(h, key).Some? {
      if key in KeysOf(ReadAll(h)) {
        var x :| x in ReadAll(h) && x.key == key;
        ReadKeyIsStored(h, x);
      } else if IsPaymentKey(key) && GetVersioned(h, key).Some? {
        var i := TheKeys(key);
        StoredKeyIsRead(h, key);
      }
    }
  }

  /** A host is settled exactly when the marker can be read and its entries are the readable
      payment keys, each at its current revision: no key too few, none too many. */
  lemma {:induction false} SettledMeans(h: Host)
    ensures Settled(h)
            <==> && ReadMarker(h.marker).Some?
                 && (forall key :: key in ReadMarker(h.marker).value <==> IsPaymentKey(key) && GetVersioned(h, key).Some?)
                 && (forall key :: IsPaymentKey(key) && GetVersioned(h, key).Some? && key in ReadMarker(h.marker).value ==>
                       ReadMarker(h.marker).value[key] == GetVersioned(h, key).value.revision)
  {
    ReadsThePaymentKeys(h);
    ReadKeysReads(h, |ENCRYPTED_PAYMENT_SECRET_KEYS|);
    DistinctCount(ReadAll(h));
    if ReadMarker(h.marker).Some? {
      var recorded := ReadMarker(h.marker);
      assert |recorded.value| == |recorded.value.Keys|;
      if Settled(h) {
        SettledEntries(h);
      } else if recorded.value.Keys == KeysOf(ReadAll(h)) {
        if forall x :: x in ReadAll(h) ==> Recorded(recorded, x) {
          NothingPending(ReadAll(h), recorded);
        } else {
          var x :| x in ReadAll(h) && !Recorded(recorded, x);
          ReadKeyIsStored(h, x);
          assert x.key in KeysOf(ReadAll(h));
        }
      }
    }
  }

  lemma {:induction false} SettledEntries(h: Host)
    requires Settled(h)
    ensures ReadMarker(h.marker).value.Keys == KeysOf(ReadAll(h))
    ensures forall x :: x in ReadAll(h) ==> Recorded(ReadMarker(h.marker), x)
    ensures forall key :: key in KeysOf(ReadAll(h)) ==>
              GetVersioned(h, key).Some? && ReadMarker(h.marker).value[key] == GetVersioned(h, key).value.revision
  {
    var recorded, stored := ReadMarker(h.marker), ReadAll(h);
    PendingIsUnrecorded(stored, recorded);
    forall x | x in stored ensures Recorded(recorded, x) {
      assert x !in Pending(stored, recorded);
    }
    ReadKeysReads(h, |ENCRYPTED_PAYMENT_SECRET_KEYS|);
    DistinctCount(stored);
    assert |recorded.value| == |recorded.value.Keys|;
    SubsetOfSameSize(KeysOf(stored), recorded.value.Keys);
    forall key | key in KeysOf(stored)
      ensures GetVersioned(h, key).Some? && recorded.value[key] == GetVersioned(h, key).value.revision
    {
      var x :| x in stored && x.key == key;
      ReadKeyIsStored(h, x);
    }
  }

  lemma {:induction false} SubsetOfSameSize(a: set<string>, b: set<string>)
    requires a <= b && |a| == |b|
    ensures a == b
  {
    assert |b - a| == 0;
  }

  /** On a settled host every payment key that can be read is encrypted. */
  lemma {:induction false} SettledIsSealed(h: Host, key: string)
    requires HostOk(h) && Settled(h) && IsPaymentKey(key) && GetVersioned(h, key).Some?
    ensures GetVersioned(h, key).value.sealed
  {
    SettledMeans(h);
    assert CellOk(h, key);
  }

  // ---- the run ---------------------------------------------------------------------------

  /** Why the loop over the pending keys stopped. */
  datatype LoopEnd = AllRecorded(revisions: map<string, string>) | Changed | HostRefused(problem: Problem)

  /** The premises of an undisturbed run over what it has just read. */
  ghost predicate Undisturbed(h: Host, stored: seq<Item>, pending: seq<Item>, kept: map<string, string>) {
    && Progress(h, h, stored, pending, kept) && DistinctKeys(stored) && DistinctKeys(pending)
    && (forall x :: x in pending ==> x in stored)
  }

  /** One key of the loop: its write, its read-back, and the marker row that records it. */
  method ResaveOne(kv: KvAccess, item: Item, revisions: map<string, string>) returns (r: LoopEnd)
    requires kv.Valid() && ItemOk(kv.host, item) && MarkerSound(revisions, kv.host)
    modifies kv
    ensures kv.Valid() && Evolves(old(kv.host), kv.host) && kv.calls >= old(kv.calls)
    ensures r.AllRecorded? ==> MarkerSound(r.revisions, kv.host)
    ensures old(kv.Quiet()) && GetVersioned(old(kv.host), item.key) == Some(Versioned(item.value, item.revision, item.sealed)) ==>
              if item.value.Structured? then r == Changed
              else
                && r == AllRecorded(revisions[item.key := Mint(old(kv.host))])
                && kv.host == SetMarker(CasWrite(old(kv.host), item.key, item.value), r.revisions)
  {
    var step := ResaveKey(kv, item);
    ghost var h1 := kv.host;
    match step {
      case Stopped(p) => return HostRefused(p);
      case Conflict => return Changed;
      case Written(revision, _) =>
        var recorded := revisions[item.key := revision];
        var problem := kv.SetMarkerRow(recorded);
        EvolvesThrough(old(kv.host), h1, kv.host);
        if problem.Some? {
          return HostRefused(problem.value);
        }
        return AllRecorded(recorded);
    }
  }

  method ResavePending(kv: KvAccess, pending: seq<Item>, kept: map<string, string>, ghost stored: seq<Item>)
    returns (r: LoopEnd)
    requires kv.Valid() && ItemsOk(kv.host, pending) && MarkerSound(kept, kv.host)
    modifies kv
    ensures kv.Valid() && Evolves(old(kv.host), kv.host) && kv.calls >= old(kv.calls)
    ensures r.AllRecorded? ==> MarkerSound(r.revisions, kv.host)
    ensures old(kv.Quiet()) && Undisturbed(old(kv.host), stored, pending, kept) ==>
              && (r == Changed <==> exists x :: x in pending && x.value.Structured?)
              && !r.HostRefused?
              && (r.AllRecorded? ==> Progress(old(kv.host), kv.host, stored, [], r.revisions))
  {
    var revisions := kept;
    ghost var calm := kv.Quiet() && Undisturbed(kv.host, stored, pending, kept);
    for i := 0 to |pending|
      invariant kv.Valid() && Evolves(old(kv.host), kv.host) && kv.calls >= old(kv.calls)
      invariant ItemsOk(kv.host, pending) && MarkerSound(revisions, kv.host)
      invariant calm ==> kv.Quiet() && Progress(old(kv.host), kv.host, stored, pending[i..], revisions)
      invariant calm ==> forall j :: 0 <= j < i ==> pending[j].value.Scalar?
    {
      var item := pending[i];
      ghost var h0 := kv.host;
      assert item in pending && pending[i..][0] == item && pending[i..][1..] == pending[i + 1..];
      var step := ResaveOne(kv, item, revisions);
      EvolvesThrough(old(kv.host), h0, kv.host);
      if !step.AllRecorded? {
        return step;
      }
      ItemsStay(h0, kv.host, pending);
      if calm {
        ProgressStep(old(kv.host), h0, stored, pending[i..], revisions, step.revisions);
      }
      revisions := step.revisions;
    }
    r := AllRecorded(revisions);
  }

  /** The loop, the last marker write, and the removal of an earlier build's progress row. */
  method ResaveAndMark(kv: KvAccess, stored: seq<Item>, pending: seq<Item>, kept: map<string, string>) returns (r: LoopEnd)
    requires kv.Valid() && ItemsOk(kv.host, pending) && MarkerSound(kept, kv.host)
    modifies kv
    ensures kv.Valid() && Evolves(old(kv.host), kv.host) && kv.calls >= old(kv.calls)
    ensures old(kv.Quiet()) && stored == ReadAll(old(kv.host))
            && pending == Pending(stored, ReadMarker(old(kv.host).marker))
            && kept == Kept(stored, ReadMarker(old(kv.host).marker)) ==>
              && (r == Changed <==> exists x :: x in pending && x.value.Structured?)
              && !r.HostRefused?
              && (r.AllRecorded? ==> Settled(kv.host))
  {
    ghost var h1 := kv.host;
    ProgressStarts(h1);
    PendingIsUnrecorded(ReadAll(h1), ReadMarker(h1.marker));
    r := ResavePending(kv, pending, kept, stored);
    if !r.AllRecorded? {
      return r;
    }
    ghost var h2 := kv.host;
    if Progress(h1, h2, ReadAll(h1), [], r.revisions) {
      ProgressSettles(h1, h2, r.revisions);
    }
    var problem := kv.SetMarkerRow(r.revisions);
    EvolvesThrough(h1, h2, kv.host);
    if problem.Some? {
      return HostRefused(problem.value);
    }
    ghost var h3 := kv.host;
    problem := kv.Enter();
    EvolvesThrough(h1, h3, kv.host);
    if problem.Some? {
      return HostRefused(problem.value);
    }
  }

  /** One call.  Whatever operators save meanwhile and whatever the host refuses, every key
      still reads as its last save and the marker stays sound (`Valid`).  Undisturbed, it
      answers "already done" exactly on a settled host, then without a single conditional
      write; it retries exactly when a key it must re-save holds a structured value; and
      otherwise it leaves the host settled. */
  method EncryptStoredPaymentSecrets(kv: KvAccess, memory: IsolateMemory, site: string) returns (outcome: Outcome)
    requires kv.Valid()
    modifies kv, memory
    ensures kv.Valid() && Evolves(old(kv.host), kv.host) && kv.calls >= old(kv.calls)
    ensures site in old(memory.doneInIsolate) ==> outcome == AlreadyDone && kv.host == old(kv.host)
    ensures old(memory.doneInIsolate) <= memory.doneInIsolate <= old(memory.doneInIsolate) + {site}
    ensures outcome != Retry ==> site in memory.doneInIsolate
    ensures outcome == AlreadyDone ==> kv.casCalls == old(kv.casCalls)
    ensures !kv.conditionalWrites && site !in old(memory.doneInIsolate) ==> outcome == Retry && kv.host == old(kv.host)
    ensures old(kv.Quiet()) && kv.conditionalWrites && site !in old(memory.doneInIsolate) ==>
              && (outcome == AlreadyDone <==> Settled(old(kv.host)))
              && (outcome == AlreadyDone ==> kv.host == old(kv.host))
              && (outcome == Encrypted ==> Settled(kv.host))
              && (outcome == Retry <==>
                    exists x :: x in Pending(ReadAll(old(kv.host)), ReadMarker(old(kv.host).marker)) && x.value.Structured?)
  {
    EvolvesSame(kv.host);
    if site in memory.doneInIsolate {
      return AlreadyDone;
    }
    if !kv.conditionalWrites {
      memory.ReportOnce(ReportHost);
      return Retry;
    }
    var preflight := Preflight(kv);
    ghost var h0 := kv.host;
    if preflight.Refused? {
      StopInPreflight(kv, memory, site, preflight.problem);
      EvolvesThrough(old(kv.host), h0, kv.host);
      return Retry;
    }
    var stored := preflight.value;
    var marker := kv.GetMarker();
    EvolvesThrough(old(kv.host), h0, kv.host);
    ItemsStay(h0, kv.host, stored);
    if marker.Refused? {
      ReportProblem(memory, marker.problem);
      return Retry;
    }
    var recorded := marker.value;
    var pending := Pending(stored, recorded);
    PendingIsUnrecorded(stored, recorded);
    if MarkerMatches(stored, recorded) {
      memory.doneInIsolate := memory.doneInIsolate + {site};
      return AlreadyDone;
    }
    ghost var h1 := kv.host;
    var end := ResaveAndMark(kv, stored, pending, Kept(stored, recorded));
    EvolvesThrough(old(kv.host), h1, kv.host);
    match end {
      case Changed =>
        memory.ReportOnce(ReportConflict);
        return Retry;
      case HostRefused(p) =>
        ReportProblem(memory, p);
        return Retry;
      case AllRecorded(_) =>
        memory.doneInIsolate := memory.doneInIsolate + {site};
        return Encrypted;
    }
  }

  method ReportProblem(memory: IsolateMemory, problem: Problem)
    modifies memory
    ensures memory.doneInIsolate == old(memory.doneInIsolate)
    ensures memory.reportedInIsolate
         == old(memory.reportedInIsolate) + {if problem.KeyIsWrong? then ReportKey else ReportOther}
  {
    memory.ReportOnce(if problem.KeyIsWrong? then ReportKey else ReportOther);
  }

  /** A preflight read was refused: nothing is written, so the host is as operators left it,
      marker included.  The site is settled in this isolate exactly when it was before, or when
      the problem is the key's and the marker could be read and is there. */
  method StopInPreflight(kv: KvAccess, memory: IsolateMemory, site: string, problem: Problem)
    requires kv.Valid()
    modifies kv, memory
    ensures kv.Valid() && Evolves(old(kv.host), kv.host) && kv.casCalls == old(kv.casCalls) && kv.calls >= old(kv.calls)
    ensures kv.host == if problem.KeyIsWrong? then ApplySaves(old(kv.host), kv.interference(old(kv.calls))) else old(kv.host)
    ensures kv.host.marker == old(kv.host.marker)
    ensures memory.doneInIsolate
         == old(memory.doneInIsolate)
            + if problem.KeyIsWrong? && kv.refusals(old(kv.calls)).None? && ReadMarker(kv.host.marker).Some? then {site} else {}
  {
    if problem == OtherProblem {
      memory.ReportOnce(ReportOther);
      return;
    }
    ghost var before, saves := kv.host, kv.interference(kv.calls);
    var marker := kv.GetMarker();
    SavesKeepTheMarker(before, saves);
    if marker.Refused? {
      ReportProblem(memory, marker.problem);
    } else if marker.value.Some? {
      memory.ReportOnce(ReportKeyAfterMarker);
      memory.doneInIsolate := memory.doneInIsolate + {site};
    } else {
      memory.ReportOnce(ReportKey);
    }
  }

  lemma {:induction false} SavesKeepTheMarker(h: Host, saves: seq<Save>)
    ensures ApplySaves(h, saves).marker == h.marker
  {
    if saves != [] {
      SavesKeepTheMarker(h, saves[..|saves| - 1]);
    }
  }

  /** After one successful undisturbed run, a fresh isolate's run asks for no conditional
      write and changes nothing. */
  method FreshIsolateAfterSuccess(kv: KvAccess, site: string)
    returns (first: Outcome, second: Outcome, between: Host, conditionalWrites: int)
    requires kv.Valid() && kv.Quiet() && kv.conditionalWrites
    modifies kv
    ensures first != Retry ==> second == AlreadyDone && conditionalWrites == 0 && kv.host == between
  {
    var one := new IsolateMemory();
    first := EncryptStoredPaymentSecrets(kv, one, site);
    between, conditionalWrites := kv.host, kv.casCalls;
    var two := new IsolateMemory();
    second := EncryptStoredPaymentSecrets(kv, two, site);
    conditionalWrites := kv.casCalls - conditionalWrites;
  }
}
