/** Order notes: one document per idempotency key, appended once and listed in full. */
module OrderNotes {
  import opened Options
  import opened CasMachine
  import opened CasRetry
  import opened Sorting

  datatype OrderNote = OrderNote(id: string, orderId: string, author: string, body: string, createdAt: int)

  datatype AppendResult = AppendResult(appended: bool, note: OrderNote)

  // ---- append --------------------------------------------------------------------

  datatype AppendInput = AppendInput(orderId: string, author: string, body: string)

  /** The id source and the clock, read afresh by each attempt of each call. */
  datatype Sources = Sources(ids: (nat, nat) -> string, clock: (nat, nat) -> int)

  /** The note one attempt of call `c` makes from that call's own input. */
  function Mint(inputs: seq<AppendInput>, sources: Sources): (nat, nat) -> OrderNote {
    (c: nat, attempt: nat) =>
      if c < |inputs|
      then OrderNote(sources.ids(c, attempt), inputs[c].orderId, inputs[c].author, inputs[c].body, sources.clock(c, attempt))
      else OrderNote("", "", "", "", 0)
  }

  /** One attempt of `append`: the stored note answers a replay whatever it says, and an
      absent document is created from what this attempt mints. */
  function AppendAttempt(mint: (nat, nat) -> OrderNote): Program<OrderNote, AppendResult> {
    (c: nat, attempt: nat, stored: Option<OrderNote>) =>
      match stored
      case Some(note) => Resolve(AppendResult(false, note))
      case None => Write(mint(c, attempt), AppendResult(true, mint(c, attempt)))
  }

  function Appends(n: nat, mint: (nat, nat) -> OrderNote, max: nat, init: Option<OrderNote>, acts: seq<Action>):
    World<OrderNote, AppendResult>
  {
    Run(Start(init, n, max), acts, AppendAttempt(mint), max)
  }

  /** The stored note is written at most once, and only onto an absent document. */
  lemma {:induction false} WrittenOnce(n: nat, mint: (nat, nat) -> OrderNote, max: nat, init: Option<OrderNote>, acts: seq<Action>)
    ensures var w := Appends(n, mint, max, init, acts);
      && Inv(w, AppendAttempt(mint), max) && |w.callers| == n && w.init == init
      && |w.log| <= (if init.None? then 1 else 0)
      && forall i :: 0 <= i < |w.log| ==>
        w.log[i].writer < n && w.log[i].after == mint(w.log[i].writer, w.log[i].attempt)
  {
    RunKeeps(init, n, acts, AppendAttempt(mint), max);
    var w := Appends(n, mint, max, init, acts);
    forall i | 0 <= i < |w.log|
      ensures i == 0 && init.None? && w.log[i].writer < n
      ensures w.log[i].after == mint(w.log[i].writer, w.log[i].attempt)
    {
      assert DecidedAt(w, i, AppendAttempt(mint));
    }
    if |w.log| > 0 {
      assert w.log[|w.log| - 1].writer < n;
    }
  }

  /** Append is put-if-absent in every interleaving of `n` calls with one key.  Every call
      that completes returns the one stored note; on an absent key exactly one completing
      call reports having appended it, and on a present key none does. */
  lemma {:induction false} AppendIsPutIfAbsent(n: nat, mint: (nat, nat) -> OrderNote, max: nat, init: Option<OrderNote>,
                            acts: seq<Action>, c: nat)
    requires c < n
    ensures var w := Appends(n, mint, max, init, acts);
      && |w.callers| == n
      && (w.callers[c].pc.Finished? ==>
            && ValueAt(w, |w.log|) == Some(w.callers[c].pc.result.note)
            && (w.callers[c].pc.result.appended <==> |w.log| > 0 && w.log[0].writer == c)
            && (init.None? ==> |w.log| == 1 && w.log[0].writer < n && w.callers[w.log[0].writer].pc.Finished?)
            && (init.Some? ==> w.callers[c].pc.result == AppendResult(false, init.value)))
  {
    WrittenOnce(n, mint, max, init, acts);
    var w := Appends(n, mint, max, init, acts);
    assert CallerInv(w, c, AppendAttempt(mint), max);
    if |w.log| > 0 {
      assert DecidedAt(w, 0, AppendAttempt(mint));
      assert CallerInv(w, w.log[0].writer, AppendAttempt(mint), max);
    }
  }

  /** On an absent key, what every completing call returns is the winner's own words: the
      order, author and body that one call was given, and no mixture of two, under the id and at
      the time its winning attempt drew. */
  lemma {:induction false} StoredNoteIsTheWinners(inputs: seq<AppendInput>, sources: Sources, max: nat, acts: seq<Action>, c: nat)
    requires c < |inputs|
    ensures var w := Appends(|inputs|, Mint(inputs, sources), max, None, acts);
      && |w.callers| == |inputs|
      && (w.callers[c].pc.Finished? ==>
            && |w.log| == 1 && w.log[0].writer < |inputs|
            && var note := w.callers[c].pc.result.note;
               var winner := inputs[w.log[0].writer];
               && note.orderId == winner.orderId && note.author == winner.author && note.body == winner.body
               && note.id == sources.ids(w.log[0].writer, w.log[0].attempt)
               && note.createdAt == sources.clock(w.log[0].writer, w.log[0].attempt))
  {
    AppendIsPutIfAbsent(|inputs|, Mint(inputs, sources), max, None, acts, c);
    WrittenOnce(|inputs|, Mint(inputs, sources), max, None, acts);
  }

  lemma {:induction false} RunGrows(n: nat, mint: (nat, nat) -> OrderNote, max: nat, init: Option<OrderNote>,
                                    acts: seq<Action>, later: seq<Action>)
    ensures Appends(n, mint, max, init, acts).log <= Appends(n, mint, max, init, acts + later).log
    decreases |later|
  {
    if later == [] {
      assert acts + later == acts;
    } else {
      var init', a := later[..|later| - 1], later[|later| - 1];
      RunGrows(n, mint, max, init, acts, init');
      assert (acts + later)[..|acts + later| - 1] == acts + init';
      StepGrows(Appends(n, mint, max, init, acts + init'), a, AppendAttempt(mint), max);
    }
  }

  /** Once stored, the note never changes, whatever the calls do from then on. */
  lemma {:induction false} StoredNoteIsFinal(n: nat, mint: (nat, nat) -> OrderNote, max: nat, init: Option<OrderNote>,
                          acts: seq<Action>, later: seq<Action>)
    ensures var w := Appends(n, mint, max, init, acts);
            var w' := Appends(n, mint, max, init, acts + later);
            ValueAt(w, |w.log|).Some? ==> ValueAt(w', |w'.log|) == ValueAt(w, |w.log|)
  {
    WrittenOnce(n, mint, max, init, acts);
    WrittenOnce(n, mint, max, init, acts + later);
    RunGrows(n, mint, max, init, acts, later);
  }

  /** At most one attempt of a call is ever lost to a peer, so with two attempts to spend
      only host aborts can exhaust it. */
  lemma {:induction false} OneLossAtMost(n: nat, mint: (nat, nat) -> OrderNote, max: nat, init: Option<OrderNote>, acts: seq<Action>, c: nat)
    requires c < n
    ensures var w := Appends(n, mint, max, init, acts);
      && |w.callers| == n
      && Losses(w.callers[c].failures) <= 1
      && (w.callers[c].pc.Exhausted? ==> Aborts(w.callers[c].failures) >= max - 1)
  {
    WrittenOnce(n, mint, max, init, acts);
    FailuresArePaidFor(init, n, acts, AppendAttempt(mint), max, c);
    var w := Appends(n, mint, max, init, acts);
    if |w.log| == 1 {
      assert w.log[..0] == [];
    }
  }

  // ---- list ------------------------------------------------------------------------

  const NOTES_PAGE_SIZE: nat := 100

  /** Append order: `createdAt`, then the note id. */
  predicate NoteAtMost(a: OrderNote, b: OrderNote) {
    a.createdAt < b.createdAt || (a.createdAt == b.createdAt && AtMost(a.id, b.id))
  }

  lemma {:induction false} NoteOrder()
    ensures TotalPreorder(NoteAtMost)
  {
    StringOrder();
  }

  /** The order's notes among a collection's, in the host's own order. */
  function NotesOf(collection: seq<OrderNote>, orderId: string): seq<OrderNote> {
    if collection == [] then []
    else NotesOf(collection[..|collection| - 1], orderId)
         + if collection[|collection| - 1].orderId == orderId then [collection[|collection| - 1]] else []
  }

  datatype QueryPage = QueryPage(items: seq<OrderNote>, hasMore: bool, cursor: Option<nat>)

  /** One page of the matching notes from `cursor`, with a cursor exactly while more follow. */
  function Query(collection: seq<OrderNote>, orderId: string, limit: nat, cursor: Option<nat>): QueryPage {
    var matching := NotesOf(collection, orderId);
    var from := match cursor case None => 0 case Some(n) => if n <= |matching| then n else |matching|;
    var to := if from + limit < |matching| then from + limit else |matching|;
    QueryPage(matching[from..to], to < |matching|, if to < |matching| then Some(to) else None)
  }

  datatype ListResult =
    | Listed(notes: seq<OrderNote>)
    | PageLimit(pages: int, read: nat)

  /** The list is every note of the order exactly once, in append order, or it is refused:
      it is refused exactly when the order has more notes than the page ceiling can read. */
  method ListForOrder(collection: seq<OrderNote>, orderId: string, maxNotePages: int) returns (r: ListResult)
    ensures r.Listed? <==> 0 < maxNotePages && |NotesOf(collection, orderId)| <= maxNotePages * 100
    ensures r.Listed? ==> multiset(r.notes) == multiset(NotesOf(collection, orderId))
    ensures r.Listed? ==> forall i, j :: 0 <= i < j < |r.notes| ==>
      || r.notes[i].createdAt < r.notes[j].createdAt
      || (r.notes[i].createdAt == r.notes[j].createdAt && AtMost(r.notes[i].id, r.notes[j].id))
    ensures r.PageLimit? ==> r == PageLimit(maxNotePages, if maxNotePages <= 0 then 0 else maxNotePages * 100)
  {
    ghost var matching := NotesOf(collection, orderId);
    var docs: seq<OrderNote> := [];
    var cursor: Option<nat> := None;
    var page := 0;
    while page < maxNotePages
      invariant 0 <= page && (page <= maxNotePages || page == 0)
      invariant |docs| == page * NOTES_PAGE_SIZE && docs <= matching
      invariant page > 0 ==> |docs| < |matching|
      invariant cursor == if page == 0 then None else Some(|docs|)
    {
      var result := Query(collection, orderId, NOTES_PAGE_SIZE, cursor);
      docs := docs + result.items;
      if !result.hasMore || result.cursor.None? {
        assert docs == matching;
        NoteOrder();
        ToSortedSorts(docs, NoteAtMost);
        return Listed(ToSorted(docs, NoteAtMost));
      }
      cursor := result.cursor;
      page := page + 1;
    }
    r := PageLimit(maxNotePages, |docs|);
  }

  /** What the list is the list of. */
  lemma {:induction false} NotesOfIsTheOrders(collection: seq<OrderNote>, orderId: string, note: OrderNote)
    ensures multiset(NotesOf(collection, orderId))[note]
         == if note.orderId == orderId then multiset(collection)[note] else 0
  {
    if collection != [] {
      NotesOfIsTheOrders(collection[..|collection| - 1], orderId, note);
      assert collection == collection[..|collection| - 1] + [collection[|collection| - 1]];
    }
  }
}
