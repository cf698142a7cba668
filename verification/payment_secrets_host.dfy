/** The host's key-value store as the payment-secret re-save sees it, and the pure parts of
    the re-save itself.

    Encryption is a tag on a stored row.  A key may also have a copy outside the options
    table, left by an earlier sandboxed build; reads fall back to it while no row exists. */
module PaymentSecretsHost {
  import opened Options

  /** A stored value.  Two reads of a scalar are identical (`===`); two reads of anything
      structured are two objects and never are. */
  datatype StoredValue = Scalar(text: string) | Structured(json: string)

  predicate Identical(a: StoredValue, b: StoredValue) {
    a.Scalar? && a == b
  }

  datatype Row = Row(value: StoredValue, revision: string, encrypted: bool)
  datatype LegacyCopy = LegacyCopy(value: StoredValue, revision: string)
  datatype Cell = Cell(row: Option<Row>, legacy: Option<LegacyCopy>)

  /** What a versioned read returns, with whether the row it came from was encrypted. */
  datatype Versioned = Versioned(value: StoredValue, revision: string, sealed: bool)

  /** The JSON shapes a marker row can hold. */
  datatype Json = JNull | JString(text: string) | JOther | JObject(fields: map<string, Json>)

  /** `clock` bounds the length of every revision minted so far, so a longer one is new.
      `truth` records what operators last saved (initially: what was readable), and
      `sealings` every revision an encrypting write has made. */
  datatype Host = Host(
    cells: map<string, Cell>,
    marker: Json,
    clock: nat,
    truth: map<string, StoredValue>,
    sealings: set<(string, string)>)

  const STRIPE_SECRET_KEY_KEY := "settings:stripeSecretKey"
  const STRIPE_WEBHOOK_SECRET_KEY := "settings:stripeWebhookSecret"
  const WEBHOOK_EDGE_TOKEN_KEY := "settings:otta-wh-token"

  const ENCRYPTED_PAYMENT_SECRET_KEYS: seq<string> :=
    [STRIPE_SECRET_KEY_KEY, STRIPE_WEBHOOK_SECRET_KEY, WEBHOOK_EDGE_TOKEN_KEY]

  const PAYMENT_SECRETS_ENCRYPTED_MARKER_VALUE :=
    "v2:settings:stripeSecretKey,settings:stripeWebhookSecret,settings:otta-wh-token"

  // ---- reads and writes -------------------------------------------------------------

  function CellOf(h: Host, key: string): Cell {
    if key in h.cells then h.cells[key] else Cell(None, None)
  }

  function RowOf(h: Host, key: string): Option<Row> {
    CellOf(h, key).row
  }

  function LegacyOf(h: Host, key: string): Option<LegacyCopy> {
    CellOf(h, key).legacy
  }

  function GetVersioned(h: Host, key: string): Option<Versioned> {
    match CellOf(h, key)
    case Cell(Some(row), _) => Some(Versioned(row.value, row.revision, row.encrypted))
    case Cell(None, Some(copy)) => Some(Versioned(copy.value, copy.revision, false))
    case Cell(None, None) => None
  }

  /** The value every reader of the key gets. */
  function Readable(h: Host, key: string): Option<StoredValue> {
    match GetVersioned(h, key) case None => None case Some(v) => Some(v.value)
  }

  function Truth(h: Host, key: string): Option<StoredValue> {
    if key in h.truth then Some(h.truth[key]) else None
  }

  /** A revision the host has never used. */
  function Mint(h: Host): (revision: string)
    ensures |revision| == h.clock + 1
  {
    seq(h.clock + 1, _ => '#')
  }

  /** `compareAndSet` looks at the options row only: a copy outside it never matches. */
  predicate CasApplies(h: Host, key: string, expected: Option<string>) {
    match RowOf(h, key) case None => expected.None? case Some(row) => expected == Some(row.revision)
  }

  /** An applied `compareAndSet`: a fresh envelope, and the outside copy is deleted. */
  function CasWrite(h: Host, key: string, value: StoredValue): Host {
    h.(cells := h.cells[key := Cell(Some(Row(value, Mint(h), true)), None)],
       clock := h.clock + 1,
       sealings := h.sealings + {(key, Mint(h))})
  }

  /** A save: encrypted through the Settings form, or plain by an earlier build. */
  datatype Save = Save(key: string, value: StoredValue, encrypted: bool)

  function ApplySave(h: Host, s: Save): Host {
    h.(cells := h.cells[s.key := Cell(Some(Row(s.value, Mint(h), s.encrypted)), None)],
       clock := h.clock + 1,
       truth := h.truth[s.key := s.value],
       sealings := if s.encrypted then h.sealings + {(s.key, Mint(h))} else h.sealings)
  }

  function ApplySaves(h: Host, saves: seq<Save>): Host {
    if saves == [] then h else ApplySave(ApplySaves(h, saves[..|saves| - 1]), saves[|saves| - 1])
  }

  // ---- the marker --------------------------------------------------------------------

  function MarkerOf(revisions: map<string, string>): Json {
    JObject(map[
      "set" := JString(PAYMENT_SECRETS_ENCRYPTED_MARKER_VALUE),
      "revisions" := JObject(map k | k in revisions :: JString(revisions[k]))])
  }

  /** The revisions a marker records, or none for another key set or shape. */
  function ReadMarker(value: Json): Option<map<string, string>> {
    if !value.JObject? then None
    else if "set" !in value.fields || value.fields["set"] != JString(PAYMENT_SECRETS_ENCRYPTED_MARKER_VALUE) then None
    else if "revisions" !in value.fields || !value.fields["revisions"].JObject? then None
    else
      var entries := value.fields["revisions"].fields;
      Some(map k | k in entries && entries[k].JString? :: entries[k].text)
  }

  lemma {:induction false} MarkerRoundTrip(revisions: map<string, string>)
    ensures ReadMarker(MarkerOf(revisions)) == Some(revisions)
  {
    var entries: map<string, Json> := map k | k in revisions :: JString(revisions[k]);
    assert (map k | k in entries && entries[k].JString? :: entries[k].text) == revisions;
  }

  /** A marker is read as one exactly when it carries this build's key-set tag and a record of
      revisions; of that record, exactly the texts are taken. */
  lemma {:induction false} OnlyThisKeySet(value: Json)
    ensures ReadMarker(value).Some?
            <==> && value.JObject? && "set" in value.fields && "revisions" in value.fields
                 && value.fields["set"]
                    == JString("v2:settings:stripeSecretKey,settings:stripeWebhookSecret,settings:otta-wh-token")
                 && value.fields["revisions"].JObject?
    ensures ReadMarker(value).Some? ==>
      forall k, r :: k in ReadMarker(value).value && ReadMarker(value).value[k] == r
                     <==> k in value.fields["revisions"].fields && value.fields["revisions"].fields[k] == JString(r)
  {
  }

  function SetMarker(h: Host, revisions: map<string, string>): Host {
    h.(marker := MarkerOf(revisions))
  }

  // ---- what one run derives from its reads ------------------------------------------

  datatype Item = Item(key: string, value: StoredValue, revision: string, sealed: bool)

  predicate Recorded(recorded: Option<map<string, string>>, item: Item) {
    recorded.Some? && item.key in recorded.value && recorded.value[item.key] == item.revision
  }

  /** The stored keys the marker does not match, in order. */
  function Pending(stored: seq<Item>, recorded: Option<map<string, string>>): seq<Item> {
    if stored == [] then []
    else (if Recorded(recorded, stored[0]) then [] else [stored[0]]) + Pending(stored[1..], recorded)
  }

  /** The marker entries that stay: those of keys that still match. */
  function Kept(stored: seq<Item>, recorded: Option<map<string, string>>): map<string, string> {
    map i | 0 <= i < |stored| && Recorded(recorded, stored[i]) :: stored[i].key := stored[i].revision
  }

  predicate MarkerMatches(stored: seq<Item>, recorded: Option<map<string, string>>) {
    recorded.Some? && Pending(stored, recorded) == [] && |recorded.value| == |stored|
  }

  // ---- what holds of every host ------------------------------------------------------

  ghost predicate CellOk(h: Host, key: string) {
    && Readable(h, key) == Truth(h, key)
    && (RowOf(h, key).Some? ==>
          && |RowOf(h, key).value.revision| <= h.clock
          && (RowOf(h, key).value.encrypted <==> (key, RowOf(h, key).value.revision) in h.sealings))
    && (LegacyOf(h, key).Some? ==>
          && |LegacyOf(h, key).value.revision| <= h.clock
          && (key, LegacyOf(h, key).value.revision) !in h.sealings
          && (RowOf(h, key).Some? ==> RowOf(h, key).value.revision != LegacyOf(h, key).value.revision))
  }

  ghost predicate MarkerSound(revisions: map<string, string>, h: Host) {
    forall k :: k in revisions ==> (k, revisions[k]) in h.sealings
  }

  /** Readers see what was last saved, an encrypted row is one an encrypting write made, and
      every marker entry names a revision an encrypting write of that key made. */
  ghost predicate HostOk(h: Host) {
    && (forall key :: CellOk(h, key))
    && (forall s :: s in h.sealings ==> |s.1| <= h.clock)
    && (ReadMarker(h.marker).Some? ==> MarkerSound(ReadMarker(h.marker).value, h))
  }

  /** What a run remembers of a key it read. */
  ghost predicate ItemOk(h: Host, item: Item) {
    && |item.revision| <= h.clock
    && (RowOf(h, item.key).Some? && RowOf(h, item.key).value.revision == item.revision ==>
          RowOf(h, item.key).value.value == item.value)
    && (LegacyOf(h, item.key).Some? && LegacyOf(h, item.key).value.revision == item.revision ==>
          LegacyOf(h, item.key).value.value == item.value)
    && (item.sealed <==> (item.key, item.revision) in h.sealings)
  }

  /** The fallback's licence: if no row exists by now, the outside copy still holds the value. */
  ghost predicate FallbackOk(h: Host, item: Item) {
    RowOf(h, item.key).None? ==> LegacyOf(h, item.key).Some? && LegacyOf(h, item.key).value.value == item.value
  }

  /** How a host may change under a run: rows only appear or are replaced at new revisions,
      outside copies only go away once a row exists, and sealings are only added. */
  ghost predicate Evolves(h: Host, h': Host) {
    && h.clock <= h'.clock
    && h.sealings <= h'.sealings
    && (forall s :: s in h'.sealings && s !in h.sealings ==> |s.1| > h.clock)
    && (forall key :: CellEvolves(h, h', key))
  }

  ghost predicate CellEvolves(h: Host, h': Host, key: string) {
    && (RowOf(h', key) == RowOf(h, key) || (RowOf(h', key).Some? && |RowOf(h', key).value.revision| > h.clock))
    && (LegacyOf(h', key) == LegacyOf(h, key) || (LegacyOf(h', key).None? && RowOf(h', key).Some?))
  }

  lemma {:induction false} EvolvesThrough(a: Host, b: Host, c: Host)
    requires Evolves(a, b) && Evolves(b, c)
    ensures Evolves(a, c)
  {
    forall key ensures CellEvolves(a, c, key) {
      assert CellEvolves(a, b, key) && CellEvolves(b, c, key);
    }
  }

  lemma {:induction false} ItemStays(h: Host, h': Host, item: Item)
    requires ItemOk(h, item) && Evolves(h, h')
    ensures ItemOk(h', item)
    ensures FallbackOk(h, item) ==> FallbackOk(h', item)
  {
    assert CellEvolves(h, h', item.key);
  }

  /** A read's own item is good, and so is the value it carries. */
  lemma {:induction false} ReadIsOk(h: Host, key: string)
    requires HostOk(h)
    ensures GetVersioned(h, key).Some? ==>
      var v := GetVersioned(h, key).value;
      ItemOk(h, Item(key, v.value, v.revision, v.sealed)) && Truth(h, key) == Some(v.value)
  {
    assert CellOk(h, key);
  }

  lemma {:induction false} SaveIsOk(h: Host, s: Save)
    requires HostOk(h)
    ensures HostOk(ApplySave(h, s)) && Evolves(h, ApplySave(h, s))
    ensures Readable(ApplySave(h, s), s.key) == Some(s.value)
    ensures forall key :: key != s.key ==> Readable(ApplySave(h, s), key) == Readable(h, key)
  {
    var h' := ApplySave(h, s);
    forall key ensures CellOk(h', key) && CellEvolves(h, h', key) {
      assert CellOk(h, key);
    }
    forall key | key != s.key ensures Readable(h', key) == Readable(h, key) {
      assert CellOf(h', key) == CellOf(h, key);
    }
  }

  /** An applied write of the value already readable changes and hides nothing. */
  lemma {:induction false} WriteIsOk(h: Host, key: string, value: StoredValue)
    requires HostOk(h) && Readable(h, key) == Some(value)
    ensures HostOk(CasWrite(h, key, value)) && Evolves(h, CasWrite(h, key, value))
    ensures forall k :: Readable(CasWrite(h, key, value), k) == Readable(h, k)
    ensures CasWrite(h, key, value).truth == h.truth
  {
    var h' := CasWrite(h, key, value);
    forall k ensures CellOk(h', k) && CellEvolves(h, h', k) && Readable(h', k) == Readable(h, k) {
      assert CellOk(h, k);
    }
  }

  lemma {:induction false} MarkIsOk(h: Host, revisions: map<string, string>)
    requires HostOk(h) && MarkerSound(revisions, h)
    ensures HostOk(SetMarker(h, revisions)) && Evolves(h, SetMarker(h, revisions))
    ensures forall k :: Readable(SetMarker(h, revisions), k) == Readable(h, k)
  {
    MarkerRoundTrip(revisions);
    var h' := SetMarker(h, revisions);
    forall k ensures CellOk(h', k) && CellEvolves(h, h', k) {
      assert CellOk(h, k);
    }
  }

  /** The conditional re-save applies only where the value is still the one that was read. */
  lemma {:induction false} ResaveReadsItsValue(h: Host, item: Item)
    requires HostOk(h) && ItemOk(h, item) && CasApplies(h, item.key, Some(item.revision))
    ensures Readable(h, item.key) == Some(item.value)
  {
  }

  /** So does the create-if-absent that replaces a copy outside the options table. */
  lemma {:induction false} FallbackReadsItsValue(h: Host, item: Item)
    requires FallbackOk(h, item) && CasApplies(h, item.key, None)
    ensures Readable(h, item.key) == Some(item.value)
  {
  }

  /** A re-read at the preflight revision licenses the fallback from then on: either a row
      exists, and one always will, or the outside copy still holds the value. */
  lemma {:induction false} ReReadLicenses(h: Host, item: Item)
    requires ItemOk(h, item) && GetVersioned(h, item.key).Some?
    requires GetVersioned(h, item.key).value.revision == item.revision
    ensures FallbackOk(h, item)
  {
  }

  lemma {:induction false} PendingIsUnrecorded(stored: seq<Item>, recorded: Option<map<string, string>>)
    ensures forall x :: x in Pending(stored, recorded) <==> x in stored && !Recorded(recorded, x)
    ensures |Pending(stored, recorded)| <= |stored|
  {
    if stored != [] {
      PendingIsUnrecorded(stored[1..], recorded);
      assert stored == [stored[0]] + stored[1..];
    }
  }
}
