/** What `Load more` does to the rows on screen: a merge on identity, never on position. */
module MergeById {

  /** A row's identity, which is only ever compared. */
  type Id = nat

  // ---- the specification ------------------------------------------------------------

  function Ids<T>(rows: seq<T>, identify: T -> Id): (ids: seq<Id>)
    ensures |ids| == |rows| && forall i :: 0 <= i < |rows| ==> ids[i] == identify(rows[i])
  {
    seq(|rows|, i requires 0 <= i < |rows| => identify(rows[i]))
  }

  /** Each id once, where it first appears. */
  function FirstIds<K(==)>(ids: seq<K>): seq<K> {
    if ids == [] then []
    else FirstIds(ids[..|ids| - 1]) + if ids[|ids| - 1] in ids[..|ids| - 1] then [] else [ids[|ids| - 1]]
  }

  ghost predicate Distinct<K>(ids: seq<K>) {
    forall i, j :: 0 <= i < j < |ids| ==> ids[i] != ids[j]
  }

  function First<T>(rows: seq<T>, id: Id, identify: T -> Id): (row: T)
    requires id in Ids(rows, identify)
    ensures row in rows && identify(row) == id
  {
    if identify(rows[0]) == id then rows[0]
    else
      assert Ids(rows, identify) == [identify(rows[0])] + Ids(rows[1..], identify);
      First(rows[1..], id, identify)
  }

  function Last<T>(rows: seq<T>, id: Id, identify: T -> Id): (row: T)
    requires id in Ids(rows, identify)
    ensures row in rows && identify(row) == id
  {
    var n := |rows| - 1;
    if identify(rows[n]) == id then rows[n]
    else
      assert Ids(rows, identify) == Ids(rows[..n], identify) + [identify(rows[n])];
      Last(rows[..n], id, identify)
  }

  /** The newer page wins on content; otherwise the row that first appeared stays. */
  function Content<T>(accumulated: seq<T>, incoming: seq<T>, id: Id, identify: T -> Id): (row: T)
    requires id in Ids(accumulated, identify) || id in Ids(incoming, identify)
    ensures identify(row) == id
  {
    if id in Ids(incoming, identify) then Last(incoming, id, identify) else First(accumulated, id, identify)
  }

  lemma {:induction false} FirstIdsAreTheIds<K>(ids: seq<K>)
    ensures forall id :: id in FirstIds(ids) <==> id in ids
    ensures Distinct(FirstIds(ids))
    ensures Distinct(ids) ==> FirstIds(ids) == ids
  {
    if ids != [] {
      var init, last := ids[..|ids| - 1], ids[|ids| - 1];
      assert ids == init + [last];
      FirstIdsAreTheIds(init);
    }
  }

  /** Arrival order is kept, each id once, each with the content `Content` names. */
  ghost predicate IsMerge<T>(merged: seq<T>, accumulated: seq<T>, incoming: seq<T>, identify: T -> Id) {
    && Ids(merged, identify) == FirstIds(Ids(accumulated, identify) + Ids(incoming, identify))
    && forall i :: 0 <= i < |merged| ==>
         && (identify(merged[i]) in Ids(accumulated, identify) || identify(merged[i]) in Ids(incoming, identify))
         && merged[i] == Content(accumulated, incoming, identify(merged[i]), identify)
  }

  // ---- the loops -----------------------------------------------------------------------

  ghost predicate IsNewer<T>(newer: map<Id, T>, incoming: seq<T>, identify: T -> Id) {
    && (forall id :: id in newer <==> id in Ids(incoming, identify))
    && (forall id :: id in newer ==> newer[id] == Last(incoming, id, identify))
  }

  /** The incoming rows by id, the last one of an id winning. */
  method Newer<T>(incoming: seq<T>, identify: T -> Id) returns (newer: map<Id, T>)
    ensures IsNewer(newer, incoming, identify)
  {
    newer := map[];
    for i := 0 to |incoming|
      invariant forall id :: id in newer <==> id in Ids(incoming[..i], identify)
      invariant forall id :: id in newer ==> newer[id] == Last(incoming[..i], id, identify)
    {
      assert incoming[..i + 1][..i] == incoming[..i];
      assert Ids(incoming[..i + 1], identify) == Ids(incoming[..i], identify) + [identify(incoming[i])];
      newer := newer[identify(incoming[i]) := incoming[i]];
    }
    assert incoming[..|incoming|] == incoming;
  }

  /** The rows gathered from the ids met so far. */
  ghost predicate Gathered<T>(merged: seq<T>, seen: set<Id>, ids: seq<Id>, accumulated: seq<T>, incoming: seq<T>,
                              identify: T -> Id)
  {
    && Ids(merged, identify) == FirstIds(ids)
    && (forall id :: id in seen <==> id in ids)
    && forall i :: 0 <= i < |merged| ==>
         && (identify(merged[i]) in Ids(accumulated, identify) || identify(merged[i]) in Ids(incoming, identify))
         && merged[i] == Content(accumulated, incoming, identify(merged[i]), identify)
  }

  /** One row met: skipped when its id was seen, pushed otherwise. */
  method Gather<T(==)>(merged: seq<T>, seen: set<Id>, row: T, id: Id, ghost ids: seq<Id>,
                       ghost accumulated: seq<T>, ghost incoming: seq<T>, identify: T -> Id)
    returns (merged': seq<T>, seen': set<Id>)
    requires Gathered(merged, seen, ids, accumulated, incoming, identify)
    requires id in Ids(accumulated, identify) || id in Ids(incoming, identify)
    requires id !in seen ==> row == Content(accumulated, incoming, id, identify)
    ensures Gathered(merged', seen', ids + [id], accumulated, incoming, identify)
  {
    assert (ids + [id])[..|ids|] == ids;
    if id in seen {
      return merged, seen;
    }
    assert Ids(merged + [row], identify) == Ids(merged, identify) + [id];
    return merged + [row], seen + {id};
  }

  /** The first occurrence of an id is the row `First` finds. */
  lemma {:induction false} FirstAt<T>(rows: seq<T>, i: nat, identify: T -> Id)
    requires i < |rows| && identify(rows[i]) !in Ids(rows[..i], identify)
    ensures identify(rows[i]) in Ids(rows, identify) && First(rows, identify(rows[i]), identify) == rows[i]
  {
    assert identify(rows[i]) == Ids(rows, identify)[i];
    if i > 0 {
      assert identify(rows[0]) == Ids(rows[..i], identify)[0];
      assert Ids(rows[..i], identify) == [identify(rows[0])] + Ids(rows[1..][..i - 1], identify);
      assert Ids(rows, identify) == [identify(rows[0])] + Ids(rows[1..], identify);
      FirstAt(rows[1..], i - 1, identify);
    }
  }

  /** Every accumulated row in its place, renewed where the page has a newer one. */
  method GatherAccumulated<T(==)>(accumulated: seq<T>, incoming: seq<T>, newer: map<Id, T>, identify: T -> Id)
    returns (merged: seq<T>, seen: set<Id>)
    requires IsNewer(newer, incoming, identify)
    ensures Gathered(merged, seen, Ids(accumulated, identify), accumulated, incoming, identify)
  {
    merged, seen := [], {};
    for i := 0 to |accumulated|
      invariant Gathered(merged, seen, Ids(accumulated[..i], identify), accumulated, incoming, identify)
    {
      var row := accumulated[i];
      var id := identify(row);
      assert Ids(accumulated[..i + 1], identify) == Ids(accumulated[..i], identify) + [id];
      assert id == Ids(accumulated, identify)[i];
      if id !in seen {
        FirstAt(accumulated, i, identify);
      }
      merged, seen := Gather(merged, seen, if id in newer then newer[id] else row, id,
                             Ids(accumulated[..i], identify), accumulated, incoming, identify);
    }
    assert accumulated[..|accumulated|] == accumulated;
  }

  /** Then every row of the page not met yet. */
  method GatherIncoming<T(==)>(before: seq<T>, seenBefore: set<Id>, accumulated: seq<T>, incoming: seq<T>,
                               newer: map<Id, T>, identify: T -> Id) returns (merged: seq<T>, seen: set<Id>)
    requires IsNewer(newer, incoming, identify)
    requires Gathered(before, seenBefore, Ids(accumulated, identify), accumulated, incoming, identify)
    ensures Gathered(merged, seen, Ids(accumulated, identify) + Ids(incoming, identify), accumulated, incoming, identify)
  {
    merged, seen := before, seenBefore;
    ghost var met := Ids(accumulated, identify);
    assert met + Ids(incoming[..0], identify) == met;
    for i := 0 to |incoming|
      invariant Gathered(merged, seen, met + Ids(incoming[..i], identify), accumulated, incoming, identify)
    {
      var row := incoming[i];
      var id := identify(row);
      assert id == Ids(incoming, identify)[i];
      assert met + Ids(incoming[..i + 1], identify) == (met + Ids(incoming[..i], identify)) + [id];
      merged, seen := Gather(merged, seen, if id in newer then newer[id] else row, id,
                             met + Ids(incoming[..i], identify), accumulated, incoming, identify);
    }
    assert incoming[..|incoming|] == incoming;
  }

  /** A fresh accumulation, or an empty page, is handed back as it is; otherwise the result is
      the merge. */
  method MergeById<T(==)>(accumulated: seq<T>, incoming: seq<T>, identify: T -> Id) returns (merged: seq<T>)
    ensures accumulated == [] ==> merged == incoming
    ensures accumulated != [] && incoming == [] ==> merged == accumulated
    ensures accumulated != [] && incoming != [] ==> IsMerge(merged, accumulated, incoming, identify)
    ensures accumulated != [] && incoming != [] ==> Distinct(Ids(merged, identify))
  {
    if |accumulated| == 0 {
      return incoming;
    }
    if |incoming| == 0 {
      return accumulated;
    }
    var newer := Newer(incoming, identify);
    var seen;
    merged, seen := GatherAccumulated(accumulated, incoming, newer, identify);
    merged, seen := GatherIncoming(merged, seen, accumulated, incoming, newer, identify);
    FirstIdsAreTheIds(Ids(accumulated, identify) + Ids(incoming, identify));
  }

  /** The last occurrence of an id is the row `Last` finds. */
  lemma {:induction false} LastAt<T>(rows: seq<T>, j: nat, identify: T -> Id)
    requires j < |rows| && forall k :: j < k < |rows| ==> identify(rows[k]) != identify(rows[j])
    ensures identify(rows[j]) in Ids(rows, identify) && Last(rows, identify(rows[j]), identify) == rows[j]
  {
    assert identify(rows[j]) == Ids(rows, identify)[j];
    if j < |rows| - 1 {
      LastAt(rows[..|rows| - 1], j, identify);
    }
  }

  /** Which row is shown for an id: the last one of the new page that has it, and only when that
      page has none the row that was there first. */
  lemma {:induction false} NewerRowWins<T>(merged: seq<T>, accumulated: seq<T>, incoming: seq<T>, identify: T -> Id, i: nat, j: nat)
    requires IsMerge(merged, accumulated, incoming, identify) && i < |merged|
    ensures j < |incoming| && identify(incoming[j]) == identify(merged[i])
            && (forall k :: j < k < |incoming| ==> identify(incoming[k]) != identify(merged[i])) ==>
              merged[i] == incoming[j]
    ensures j < |accumulated| && identify(accumulated[j]) == identify(merged[i])
            && (forall k :: 0 <= k < j ==> identify(accumulated[k]) != identify(merged[i]))
            && (forall row :: row in incoming ==> identify(row) != identify(merged[i])) ==>
              merged[i] == accumulated[j]
  {
    if j < |incoming| && identify(incoming[j]) == identify(merged[i])
       && forall k :: j < k < |incoming| ==> identify(incoming[k]) != identify(merged[i]) {
      LastAt(incoming, j, identify);
    }
    if j < |accumulated| && identify(accumulated[j]) == identify(merged[i])
       && forall k :: 0 <= k < j ==> identify(accumulated[k]) != identify(merged[i]) {
      FirstAt(accumulated, j, identify);
    }
  }

  // ---- the laws on duplicate-free pages -----------------------------------------------

  /** The merge as a function. */
  function Merged<T>(accumulated: seq<T>, incoming: seq<T>, identify: T -> Id): seq<T> {
    if accumulated == [] then incoming
    else if incoming == [] then accumulated
    else
      var both := Ids(accumulated, identify) + Ids(incoming, identify);
      var ids := FirstIds(both);
      FirstIdsAreTheIds(both);
      assert forall i :: 0 <= i < |ids| ==> ids[i] in both;
      seq(|ids|, i requires 0 <= i < |ids| => Content(accumulated, incoming, ids[i], identify))
  }

  /** The merge is determined by its contract. */
  lemma {:induction false} MergeIsUnique<T>(merged: seq<T>, accumulated: seq<T>, incoming: seq<T>, identify: T -> Id)
    requires accumulated != [] && incoming != []
    ensures IsMerge(merged, accumulated, incoming, identify) <==> merged == Merged(accumulated, incoming, identify)
  {
    FirstIdsAreTheIds(Ids(accumulated, identify) + Ids(incoming, identify));
    var m := Merged(accumulated, incoming, identify);
    assert Ids(m, identify) == FirstIds(Ids(accumulated, identify) + Ids(incoming, identify));
    assert IsMerge(m, accumulated, incoming, identify);
    if IsMerge(merged, accumulated, incoming, identify) {
      SameMerge(merged, m, accumulated, incoming, identify);
    }
  }

  lemma {:induction false} SameMerge<T>(m: seq<T>, m': seq<T>, accumulated: seq<T>, incoming: seq<T>, identify: T -> Id)
    requires IsMerge(m, accumulated, incoming, identify) && IsMerge(m', accumulated, incoming, identify)
    ensures m == m'
  {
    assert |m| == |Ids(m, identify)| == |Ids(m', identify)| == |m'|;
    forall i | 0 <= i < |m| ensures m[i] == m'[i] {
      assert identify(m[i]) == Ids(m, identify)[i] == Ids(m', identify)[i] == identify(m'[i]);
    }
  }

  ghost predicate Page<T>(rows: seq<T>, identify: T -> Id) {
    Distinct(Ids(rows, identify))
  }

  lemma {:induction false} FirstIsTheRow<T>(rows: seq<T>, i: nat, identify: T -> Id)
    requires Page(rows, identify) && i < |rows|
    ensures identify(rows[i]) in Ids(rows, identify)
    ensures First(rows, identify(rows[i]), identify) == rows[i] == Last(rows, identify(rows[i]), identify)
  {
    var ids, id := Ids(rows, identify), identify(rows[i]);
    assert id == ids[i];
    var first, last := First(rows, id, identify), Last(rows, id, identify);
    var j :| 0 <= j < |rows| && rows[j] == first;
    var k :| 0 <= k < |rows| && rows[k] == last;
    assert ids[j] == ids[i] == ids[k];
  }

  lemma {:induction false} FirstIdsOfPrefix<K>(x: seq<K>, y: seq<K>)
    ensures FirstIds(FirstIds(x) + y) == FirstIds(x + y)
  {
    FirstIdsAreTheIds(x);
    if y == [] {
      assert FirstIds(x) + y == FirstIds(x) && x + y == x;
      FirstIdsAreTheIds(FirstIds(x));
    } else {
      var init, last := y[..|y| - 1], y[|y| - 1];
      FirstIdsOfPrefix(x, init);
      assert (x + y)[..|x + y| - 1] == x + init;
      assert (FirstIds(x) + y)[..|FirstIds(x) + y| - 1] == FirstIds(x) + init;
    }
  }

  lemma {:induction false} FirstIdsAppend<K>(ids: seq<K>, id: K)
    ensures FirstIds(ids + [id]) == FirstIds(ids) + if id in ids then [] else [id]
  {
    assert (ids + [id])[..|ids|] == ids;
  }

  lemma {:induction false} FirstIdsOfSuffix<K>(x: seq<K>, y: seq<K>)
    ensures FirstIds(x + FirstIds(y)) == FirstIds(x + y)
  {
    if y != [] {
      var init, last := y[..|y| - 1], y[|y| - 1];
      FirstIdsOfSuffix(x, init);
      assert x + y == (x + init) + [last];
      FirstIdsAppend(x + init, last);
      if last in init {
        assert FirstIds(y) == FirstIds(init);
      } else {
        NewIdAppends(x, init, last);
        assert FirstIds(y) == FirstIds(init) + [last];
      }
    }
  }

  lemma {:induction false} NewIdAppends<K>(x: seq<K>, init: seq<K>, last: K)
    requires last !in init
    ensures FirstIds(x + (FirstIds(init) + [last])) == FirstIds(x + FirstIds(init)) + if last in x + init then [] else [last]
  {
    FirstIdsAreTheIds(init);
    assert x + (FirstIds(init) + [last]) == (x + FirstIds(init)) + [last];
    FirstIdsAppend(x + FirstIds(init), last);
    assert last in x + FirstIds(init) <==> last in x;
  }

  /** On duplicate-free pages, empty ones included: the ids, and each id's content. */
  lemma {:induction false} MergedPage<T>(a: seq<T>, b: seq<T>, identify: T -> Id)
    requires Page(a, identify) && Page(b, identify)
    ensures Ids(Merged(a, b, identify), identify) == FirstIds(Ids(a, identify) + Ids(b, identify))
    ensures Page(Merged(a, b, identify), identify)
    ensures forall i :: 0 <= i < |Merged(a, b, identify)| ==>
      var row := Merged(a, b, identify)[i];
      && (identify(row) in Ids(a, identify) || identify(row) in Ids(b, identify))
      && row == Content(a, b, identify(row), identify)
  {
    var m := Merged(a, b, identify);
    FirstIdsAreTheIds(Ids(a, identify) + Ids(b, identify));
    if a == [] || b == [] {
      assert Ids(a, identify) + Ids(b, identify) == Ids(m, identify);
      forall i | 0 <= i < |m|
        ensures identify(m[i]) in Ids(a, identify) || identify(m[i]) in Ids(b, identify)
        ensures m[i] == Content(a, b, identify(m[i]), identify)
      {
        FirstIsTheRow(m, i, identify);
      }
    } else {
      MergeIsUnique(m, a, b, identify);
    }
  }

  lemma {:induction false} IndexOf<T>(rows: seq<T>, id: Id, identify: T -> Id) returns (i: nat)
    requires id in Ids(rows, identify)
    ensures i < |rows| && identify(rows[i]) == id
  {
    i :| 0 <= i < |rows| && Ids(rows, identify)[i] == id;
  }

  /** The content of an id in a merge of pages. */
  lemma {:induction false} MergedContent<T>(a: seq<T>, b: seq<T>, id: Id, identify: T -> Id)
    requires Page(a, identify) && Page(b, identify)
    requires id in Ids(a, identify) || id in Ids(b, identify)
    ensures id in Ids(Merged(a, b, identify), identify)
    ensures First(Merged(a, b, identify), id, identify) == Content(a, b, id, identify)
    ensures Last(Merged(a, b, identify), id, identify) == Content(a, b, id, identify)
  {
    MergedPage(a, b, identify);
    FirstIdsAreTheIds(Ids(a, identify) + Ids(b, identify));
    var i := IndexOf(Merged(a, b, identify), id, identify);
    FirstIsTheRow(Merged(a, b, identify), i, identify);
  }

  lemma {:induction false} SameIdsBothWays<T>(a: seq<T>, b: seq<T>, c: seq<T>, identify: T -> Id)
    requires Page(a, identify) && Page(b, identify) && Page(c, identify)
    ensures Page(Merged(a, b, identify), identify) && Page(Merged(b, c, identify), identify)
    ensures Ids(Merged(Merged(a, b, identify), c, identify), identify)
         == Ids(Merged(a, Merged(b, c, identify), identify), identify)
  {
    var ab, bc := Merged(a, b, identify), Merged(b, c, identify);
    MergedPage(a, b, identify);
    MergedPage(b, c, identify);
    MergedPage(ab, c, identify);
    MergedPage(a, bc, identify);
    FirstIdsAssociate(Ids(a, identify), Ids(b, identify), Ids(c, identify));
  }

  lemma {:induction false} FirstIdsAssociate<K>(x: seq<K>, y: seq<K>, z: seq<K>)
    ensures FirstIds(FirstIds(x + y) + z) == FirstIds(x + FirstIds(y + z))
  {
    FirstIdsOfPrefix(x + y, z);
    FirstIdsOfSuffix(x, y + z);
    assert (x + y) + z == x + (y + z);
  }

  lemma {:induction false} MergedHas<T>(a: seq<T>, b: seq<T>, id: Id, identify: T -> Id)
    requires Page(a, identify) && Page(b, identify)
    ensures id in Ids(Merged(a, b, identify), identify) <==> id in Ids(a, identify) || id in Ids(b, identify)
  {
    MergedPage(a, b, identify);
    FirstIdsAreTheIds(Ids(a, identify) + Ids(b, identify));
  }

  /** A duplicate-free page has one row under an id. */
  lemma {:induction false} OneRow<T>(rows: seq<T>, id: Id, identify: T -> Id)
    requires Page(rows, identify) && id in Ids(rows, identify)
    ensures First(rows, id, identify) == Last(rows, id, identify)
  {
    var i := IndexOf(rows, id, identify);
    FirstIsTheRow(rows, i, identify);
  }

  lemma {:induction false} ContentOfTheLast<T>(a: seq<T>, b: seq<T>, c: seq<T>, id: Id, identify: T -> Id)
    requires Page(b, identify) && Page(c, identify) && id in Ids(c, identify)
    ensures id in Ids(Merged(b, c, identify), identify)
    ensures Content(a, Merged(b, c, identify), id, identify) == Last(c, id, identify)
  {
    MergedContent(b, c, id, identify);
  }

  lemma {:induction false} ContentOfTheMiddle<T>(a: seq<T>, b: seq<T>, c: seq<T>, id: Id, identify: T -> Id)
    requires Page(a, identify) && Page(b, identify) && Page(c, identify)
    requires id !in Ids(c, identify) && id in Ids(b, identify)
    ensures id in Ids(Merged(a, b, identify), identify) && id in Ids(Merged(b, c, identify), identify)
    ensures Content(Merged(a, b, identify), c, id, identify) == Last(b, id, identify)
    ensures Content(a, Merged(b, c, identify), id, identify) == Last(b, id, identify)
  {
    MergedContent(a, b, id, identify);
    MergedContent(b, c, id, identify);
    OneRow(b, id, identify);
  }

  lemma {:induction false} ContentOfTheFirst<T>(a: seq<T>, b: seq<T>, c: seq<T>, id: Id, identify: T -> Id)
    requires Page(a, identify) && Page(b, identify) && Page(c, identify)
    requires id !in Ids(c, identify) && id !in Ids(b, identify) && id in Ids(a, identify)
    ensures id in Ids(Merged(a, b, identify), identify) && id !in Ids(Merged(b, c, identify), identify)
    ensures Content(Merged(a, b, identify), c, id, identify) == First(a, id, identify)
    ensures Content(a, Merged(b, c, identify), id, identify) == First(a, id, identify)
  {
    MergedContent(a, b, id, identify);
    MergedHas(b, c, id, identify);
  }

  lemma {:induction false} SameContentBothWays<T>(a: seq<T>, b: seq<T>, c: seq<T>, id: Id, identify: T -> Id)
    requires Page(a, identify) && Page(b, identify) && Page(c, identify)
    requires id in Ids(a, identify) || id in Ids(b, identify) || id in Ids(c, identify)
    ensures var ab, bc := Merged(a, b, identify), Merged(b, c, identify);
      && (id in Ids(ab, identify) || id in Ids(c, identify))
      && (id in Ids(a, identify) || id in Ids(bc, identify))
      && Content(ab, c, id, identify) == Content(a, bc, id, identify)
  {
    if id in Ids(c, identify) {
      ContentOfTheLast(a, b, c, id, identify);
    } else if id in Ids(b, identify) {
      ContentOfTheMiddle(a, b, c, id, identify);
    } else {
      ContentOfTheFirst(a, b, c, id, identify);
    }
  }

  /** Merging pages is associative: it does not matter in which order loads are folded. */
  lemma {:induction false} MergeIsAssociative<T>(a: seq<T>, b: seq<T>, c: seq<T>, identify: T -> Id)
    requires Page(a, identify) && Page(b, identify) && Page(c, identify)
    ensures Merged(Merged(a, b, identify), c, identify) == Merged(a, Merged(b, c, identify), identify)
  {
    var ab, bc := Merged(a, b, identify), Merged(b, c, identify);
    SameIdsBothWays(a, b, c, identify);
    MergedPage(ab, c, identify);
    MergedPage(a, bc, identify);
    MergedPage(a, b, identify);
    FirstIdsAreTheIds(Ids(a, identify) + Ids(b, identify));
    var l, r := Merged(ab, c, identify), Merged(a, bc, identify);
    forall i | 0 <= i < |l| ensures l[i] == r[i] {
      var id := identify(l[i]);
      assert id == Ids(l, identify)[i] == Ids(r, identify)[i] == identify(r[i]);
      SameContentBothWays(a, b, c, id, identify);
    }
  }

  /** Merging the same page again changes nothing. */
  lemma {:induction false} MergeIsIdempotent<T>(a: seq<T>, b: seq<T>, identify: T -> Id)
    requires Page(a, identify) && Page(b, identify)
    ensures Merged(Merged(a, b, identify), b, identify) == Merged(a, b, identify)
    ensures Merged(a, a, identify) == a
  {
    PageWithItself(b, identify);
    PageWithItself(a, identify);
    MergeIsAssociative(a, b, b, identify);
  }

  lemma {:induction false} PageWithItself<T>(a: seq<T>, identify: T -> Id)
    requires Page(a, identify)
    ensures Merged(a, a, identify) == a
  {
    var x, m := Ids(a, identify), Merged(a, a, identify);
    MergedPage(a, a, identify);
    SameIdsTwice(x, x);
    FirstIdsAreTheIds(x);
    forall i | 0 <= i < |m| ensures m[i] == a[i] {
      assert identify(m[i]) == Ids(m, identify)[i] == x[i];
      FirstIsTheRow(a, i, identify);
    }
  }

  lemma {:induction false} SameIdsTwice<K>(x: seq<K>, y: seq<K>)
    requires forall id :: id in y ==> id in x
    ensures FirstIds(x + y) == FirstIds(x)
  {
    if y == [] {
      assert x + y == x;
    } else {
      var init, last := y[..|y| - 1], y[|y| - 1];
      assert (x + y)[..|x + y| - 1] == x + init;
      assert last in x + init;
      SameIdsTwice(x, init);
    }
  }
}
