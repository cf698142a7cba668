/** The refresh walk: serial re-reads of a window over a collection that keeps changing. */
module WindowWalk {
  import opened Options
  import opened PageTrails
  import opened MergeById

  datatype Arrival = Reset | Replace | Extend

  /** What one request is told. */
  datatype Answer<A, C> =
    | Answered(page: A, next: Option<C>)
    | Failure(description: string)
    | RefusedToken

  datatype Stop = Stop(description: string, refused: bool)

  datatype Outcome<P, C> = Outcome(page: Option<P>, trail: PageTrail<C>, stopped: Option<Stop>)

  const REFRESH_REFUSED_NOTE := "The page this list opens on could not be re-opened."

  // ---- what a walk visits ------------------------------------------------------------

  /** One answered request: the cursor it carried, its page, and the boundary it returned. */
  datatype Visit<A, C> = Visit(at: Option<C>, page: A, next: Option<C>)

  /** The requests answered from `at` on: each begins where the one before it ended, and the
      walk stops at the window's depth, at no answer, at no next page, or at no progress. */
  function Visits<A, C(==)>(fetch: (Option<C>, nat) -> Answer<A, C>, at: Option<C>, step: nat, depth: nat): seq<Visit<A, C>>
    decreases depth - step
  {
    if step >= depth then []
    else match fetch(at, step)
      case Answered(page, next) =>
        [Visit(at, page, next)] + if next.None? || next == at then [] else Visits(fetch, next, step + 1, depth)
      case _ => []
  }

  /** Why the walk stopped before its depth, if it did. */
  function Stopped<A, C(==)>(fetch: (Option<C>, nat) -> Answer<A, C>, at: Option<C>, step: nat, depth: nat): Option<Stop>
    decreases depth - step
  {
    if step >= depth then None
    else match fetch(at, step)
      case Answered(_, next) => if next.None? || next == at then None else Stopped(fetch, next, step + 1, depth)
      case Failure(description) => Some(Stop(description, false))
      case RefusedToken => Some(Stop(REFRESH_REFUSED_NOTE, true))
  }

  /** The boundaries a walk crossed: the cursors of its visits after the first. */
  function Boundaries<A, C>(visits: seq<Visit<A, C>>): seq<C> {
    if |visits| <= 1 then []
    else Boundaries(visits[..|visits| - 1])
         + match visits[|visits| - 1].at case Some(c) => [c] case None => []
  }

  function ArrivalOf<C>(anchor: Option<C>, step: nat): Arrival {
    if step > 0 then Extend else if anchor.None? then Reset else Replace
  }

  function Built<A, C, P>(visits: seq<Visit<A, C>>, anchor: Option<C>, merge: (Option<P>, A, Arrival) -> P): Option<P> {
    if visits == [] then None
    else
      var n := |visits| - 1;
      Some(merge(Built(visits[..n], anchor, merge), visits[n].page, ArrivalOf(anchor, n)))
  }

  /** What a walk that is not superseded answers with: the pages its visits built, the stack
      of the boundaries they crossed, and why it stopped. */
  function OutcomeOf<A, C(==), P>(walk: RefreshWalk<C>, merge: (Option<P>, A, Arrival) -> P, visits: seq<Visit<A, C>>,
                                  stopped: Option<Stop>): Outcome<P, C>
  {
    Outcome(Built(visits, walk.anchor, merge), RefreshedTrail(walk, Boundaries(visits)), stopped)
  }

  /** The rest of a walk that has got to `at` with these pages and boundaries behind it. */
  function WalkFrom<A, C(==), P>(walk: RefreshWalk<C>, fetch: (Option<C>, nat) -> Answer<A, C>,
                                 merge: (Option<P>, A, Arrival) -> P, at: Option<C>, step: nat,
                                 walked: seq<C>, built: Option<P>): Outcome<P, C>
    decreases walk.depth - step
  {
    if step >= walk.depth then Outcome(built, RefreshedTrail(walk, walked), None)
    else match fetch(at, step)
      case Failure(description) => Outcome(built, RefreshedTrail(walk, walked), Some(Stop(description, false)))
      case RefusedToken => Outcome(built, RefreshedTrail(walk, walked), Some(Stop(REFRESH_REFUSED_NOTE, true)))
      case Answered(page, next) =>
        var walked' := if step > 0 && at.Some? then walked + [at.value] else walked;
        var built' := Some(merge(built, page, ArrivalOf(walk.anchor, step)));
        if next.None? || next == at then Outcome(built', RefreshedTrail(walk, walked'), None)
        else WalkFrom(walk, fetch, merge, next, step + 1, walked', built')
  }

  /** How many requests a walk makes from `at` on, the one that stops it included. */
  function Requests<A, C(==)>(fetch: (Option<C>, nat) -> Answer<A, C>, at: Option<C>, step: nat, depth: nat): nat
    decreases depth - step
  {
    if step >= depth then 0
    else match fetch(at, step)
      case Answered(_, next) => 1 + if next.None? || next == at then 0 else Requests(fetch, next, step + 1, depth)
      case _ => 1
  }

  /** The walk commits nothing: it answers with its outcome, or with nothing when it was
      superseded while one of its requests was out. */
  method Walk<A, C(==), P>(walk: RefreshWalk<C>, fetch: (Option<C>, nat) -> Answer<A, C>,
                           merge: (Option<P>, A, Arrival) -> P, cancelled: nat -> bool)
    returns (r: Option<Outcome<P, C>>)
    ensures r.None? <==> exists i :: 0 <= i < Requests(fetch, walk.anchor, 0, walk.depth) && cancelled(i)
    ensures r.Some? ==> r.value == WalkFrom(walk, fetch, merge, walk.anchor, 0, [], None)
  {
    var walked: seq<C> := [];
    var built: Option<P> := None;
    var at := walk.anchor;
    var step := 0;
    while step < walk.depth
      invariant 0 <= step
      invariant WalkFrom(walk, fetch, merge, at, step, walked, built) == WalkFrom(walk, fetch, merge, walk.anchor, 0, [], None)
      invariant step + Requests(fetch, at, step, walk.depth) == Requests(fetch, walk.anchor, 0, walk.depth)
      invariant forall i :: 0 <= i < step ==> !cancelled(i)
    {
      var answer := fetch(at, step);
      if cancelled(step) {
        return None;
      }
      match answer {
        case Failure(description) =>
          return Some(Outcome(built, RefreshedTrail(walk, walked), Some(Stop(description, false))));
        case RefusedToken =>
          return Some(Outcome(built, RefreshedTrail(walk, walked), Some(Stop(REFRESH_REFUSED_NOTE, true))));
        case Answered(page, next) =>
          built := Some(merge(built, page, ArrivalOf(walk.anchor, step)));
          if step > 0 && at.Some? {
            walked := walked + [at.value];
          }
          if next.None? || next == at {
            return Some(Outcome(built, RefreshedTrail(walk, walked), None));
          }
          at := next;
      }
      step := step + 1;
    }
    r := Some(Outcome(built, RefreshedTrail(walk, walked), None));
  }

  lemma {:induction false} VisitSnoc<A, C, P>(visits: seq<Visit<A, C>>, visit: Visit<A, C>, anchor: Option<C>,
                                              merge: (Option<P>, A, Arrival) -> P)
    ensures Built(visits + [visit], anchor, merge)
            == Some(merge(Built(visits, anchor, merge), visit.page, ArrivalOf(anchor, |visits|)))
    ensures Boundaries(visits + [visit])
            == if |visits| > 0 && visit.at.Some? then Boundaries(visits) + [visit.at.value] else Boundaries(visits)
  {
    assert (visits + [visit])[..|visits|] == visits;
  }

  lemma {:induction false} Regroup<X>(done: seq<X>, x: X, rest: seq<X>)
    ensures done + ([x] + rest) == (done + [x]) + rest
  {
  }

  lemma {:induction false} NothingMore<X>(done: seq<X>)
    ensures done + [] == done
  {
  }

  predicate GoesOn<C(==)>(at: Option<C>, next: Option<C>) {
    next.Some? && next != at
  }

  lemma {:induction false} VisitsUnroll<A, C>(fetch: (Option<C>, nat) -> Answer<A, C>, at: Option<C>, step: nat, depth: nat)
    requires step < depth && fetch(at, step).Answered?
    ensures var next := fetch(at, step).next;
      var visit := Visit(at, fetch(at, step).page, next);
      if GoesOn(at, next) then
        && Visits(fetch, at, step, depth) == [visit] + Visits(fetch, next, step + 1, depth)
        && Stopped(fetch, at, step, depth) == Stopped(fetch, next, step + 1, depth)
      else Visits(fetch, at, step, depth) == [visit] && Stopped(fetch, at, step, depth).None?
  {
  }

  lemma {:induction false} WalkUnroll<A, C, P>(walk: RefreshWalk<C>, fetch: (Option<C>, nat) -> Answer<A, C>,
                                               merge: (Option<P>, A, Arrival) -> P, at: Option<C>, visits: seq<Visit<A, C>>)
    requires |visits| < walk.depth && fetch(at, |visits|).Answered?
    ensures var next := fetch(at, |visits|).next;
      var more := visits + [Visit(at, fetch(at, |visits|).page, next)];
      WalkFrom(walk, fetch, merge, at, |visits|, Boundaries(visits), Built(visits, walk.anchor, merge))
      == if GoesOn(at, next)
         then WalkFrom(walk, fetch, merge, next, |more|, Boundaries(more), Built(more, walk.anchor, merge))
         else OutcomeOf(walk, merge, more, None)
  {
    VisitSnoc(visits, Visit(at, fetch(at, |visits|).page, fetch(at, |visits|).next), walk.anchor, merge);
  }

  lemma {:induction false} WalkEnds<A, C, P>(walk: RefreshWalk<C>, fetch: (Option<C>, nat) -> Answer<A, C>,
                                             merge: (Option<P>, A, Arrival) -> P, at: Option<C>, visits: seq<Visit<A, C>>)
    requires |visits| >= walk.depth || !fetch(at, |visits|).Answered?
    ensures Visits(fetch, at, |visits|, walk.depth) == []
    ensures WalkFrom(walk, fetch, merge, at, |visits|, Boundaries(visits), Built(visits, walk.anchor, merge))
            == OutcomeOf(walk, merge, visits, Stopped(fetch, at, |visits|, walk.depth))
  {
  }

  /** The rest of a walk adds the visits it makes to those behind it. */
  lemma {:induction false} WalkFromIs<A, C, P>(walk: RefreshWalk<C>, fetch: (Option<C>, nat) -> Answer<A, C>,
                                               merge: (Option<P>, A, Arrival) -> P, at: Option<C>, visits: seq<Visit<A, C>>,
                                               all: seq<Visit<A, C>>)
    requires all == visits + Visits(fetch, at, |visits|, walk.depth)
    ensures WalkFrom(walk, fetch, merge, at, |visits|, Boundaries(visits), Built(visits, walk.anchor, merge))
            == OutcomeOf(walk, merge, all, Stopped(fetch, at, |visits|, walk.depth))
    decreases walk.depth - |visits|
  {
    if |visits| < walk.depth && fetch(at, |visits|).Answered? {
      var next := fetch(at, |visits|).next;
      var visit := Visit(at, fetch(at, |visits|).page, next);
      VisitsUnroll(fetch, at, |visits|, walk.depth);
      WalkUnroll(walk, fetch, merge, at, visits);
      if GoesOn(at, next) {
        Regroup(visits, visit, Visits(fetch, next, |visits| + 1, walk.depth));
        WalkFromIs(walk, fetch, merge, next, visits + [visit], all);
      }
    } else {
      WalkEnds(walk, fetch, merge, at, visits);
      NothingMore(visits);
    }
  }

  /** The walk answers with what its visits built, and was out for one request a visit and
      one more when it was stopped. */
  lemma {:induction false} WalkIsItsVisits<A, C, P>(walk: RefreshWalk<C>, fetch: (Option<C>, nat) -> Answer<A, C>,
                                                    merge: (Option<P>, A, Arrival) -> P)
    ensures var visits := Visits(fetch, walk.anchor, 0, walk.depth);
      var stopped := Stopped(fetch, walk.anchor, 0, walk.depth);
      && WalkFrom(walk, fetch, merge, walk.anchor, 0, [], None) == OutcomeOf(walk, merge, visits, stopped)
      && Requests(fetch, walk.anchor, 0, walk.depth) == |visits| + if stopped.Some? then 1 else 0
  {
    var none: seq<Visit<A, C>> := [];
    assert none + Visits(fetch, walk.anchor, 0, walk.depth) == Visits(fetch, walk.anchor, 0, walk.depth);
    WalkFromIs(walk, fetch, merge, walk.anchor, none, Visits(fetch, walk.anchor, 0, walk.depth));
    RequestsAreVisits(fetch, walk.anchor, 0, walk.depth);
  }

  lemma {:induction false} RequestsAreVisits<A, C>(fetch: (Option<C>, nat) -> Answer<A, C>, at: Option<C>, step: nat, depth: nat)
    ensures Requests(fetch, at, step, depth)
            == |Visits(fetch, at, step, depth)| + if Stopped(fetch, at, step, depth).Some? then 1 else 0
    decreases depth - step
  {
    if step < depth && fetch(at, step).Answered? {
      var next := fetch(at, step).next;
      if next.Some? && next != at {
        RequestsAreVisits(fetch, next, step + 1, depth);
      }
    }
  }

  /** Every visit is an answer to the request it names. */
  lemma {:induction false} VisitIsAnAnswer<A, C>(fetch: (Option<C>, nat) -> Answer<A, C>, at: Option<C>, step: nat, depth: nat, i: nat)
    requires i < |Visits(fetch, at, step, depth)|
    ensures var v := Visits(fetch, at, step, depth)[i]; fetch(v.at, step + i) == Answered(v.page, v.next)
    decreases i
  {
    VisitsUnroll(fetch, at, step, depth);
    if i > 0 {
      VisitIsAnAnswer(fetch, fetch(at, step).next, step + 1, depth, i - 1);
    }
  }

  /** The token a walk would go on from. */
  function Ahead<A, C>(visits: seq<Visit<A, C>>, at: Option<C>): Option<C> {
    if visits == [] then at else visits[|visits| - 1].next
  }

  /** Where a walk ends: after its last visit it had its depth, was told of no next page or of
      no new one, or was stopped there: by a failure, whose words it keeps, or by a refused
      token. */
  lemma {:induction false} StopsWhere<A, C>(fetch: (Option<C>, nat) -> Answer<A, C>, at: Option<C>, step: nat, depth: nat)
    requires step <= depth
    ensures var visits, stopped := Visits(fetch, at, step, depth), Stopped(fetch, at, step, depth);
      var n, ahead := |visits|, Ahead(visits, at);
      && (stopped.Some? <==> step + n < depth && (n == 0 || (ahead.Some? && ahead != visits[n - 1].at)))
      && (stopped.Some? ==>
            match fetch(ahead, step + n)
            case Failure(description) => stopped.value == Stop(description, false)
            case RefusedToken => stopped.value == Stop(REFRESH_REFUSED_NOTE, true)
            case Answered(_, _) => false)
    decreases depth - step
  {
    if step < depth && fetch(at, step).Answered? {
      var next := fetch(at, step).next;
      VisitsUnroll(fetch, at, step, depth);
      if GoesOn(at, next) {
        StopsWhere(fetch, next, step + 1, depth);
        FirstThenRest(Visit(at, fetch(at, step).page, next), Visits(fetch, next, step + 1, depth), at);
      }
    }
  }

  lemma {:induction false} FirstThenRest<A, C>(first: Visit<A, C>, rest: seq<Visit<A, C>>, at: Option<C>)
    ensures var visits := [first] + rest;
      && |visits| == |rest| + 1 && Ahead(visits, at) == Ahead(rest, first.next)
      && visits[|visits| - 1] == if rest == [] then first else rest[|rest| - 1]
  {
  }

  /** A collection that always has a next page is re-read to the whole span of the window. */
  lemma {:induction false} WholeWindowIsReRead<A, C>(trail: PageTrail<C>, span: int, fetch: (Option<C>, nat) -> Answer<A, C>)
    requires forall at, step :: fetch(at, step).Answered? && fetch(at, step).next.Some? && fetch(at, step).next != at
    ensures |Visits(fetch, Refresh(trail, span).anchor, 0, Refresh(trail, span).depth)| == if IsPageCount(span) then span else 1
  {
    var walk := Refresh(trail, span);
    WhatIsReRead(trail, span);
    var visits := Visits(fetch, walk.anchor, 0, walk.depth);
    WalkAdvances(fetch, walk.anchor, 0, walk.depth);
    StopsWhere(fetch, walk.anchor, 0, walk.depth);
    assert fetch(Ahead(visits, walk.anchor), |visits|).Answered?;
    if visits != [] {
      VisitIsAnAnswer(fetch, walk.anchor, 0, walk.depth, |visits| - 1);
    }
  }

  /** The first answer opens the window, as page one's own when the request carried no token and
      as another page's when it did; every later one extends it. */
  lemma {:induction false} ArrivalsAre<A, C, P>(visits: seq<Visit<A, C>>, visit: Visit<A, C>, anchor: Option<C>,
                                                merge: (Option<P>, A, Arrival) -> P)
    ensures Built(visits + [visit], anchor, merge)
            == Some(merge(Built(visits, anchor, merge), visit.page,
                          if visits != [] then Extend else if anchor == None then Reset else Replace))
    ensures Built<A, C, P>([], anchor, merge) == None
  {
    assert (visits + [visit])[..|visits|] == visits;
  }

  /** The boundaries a walk crosses always advance: one per visit after the first. */
  lemma {:induction false} WalkAdvances<A, C>(fetch: (Option<C>, nat) -> Answer<A, C>, at: Option<C>, step: nat, depth: nat)
    ensures var visits := Visits(fetch, at, step, depth);
      && (visits != [] ==> visits[0].at == at)
      && (forall i :: 0 < i < |visits| ==>
            visits[i].at.Some? && visits[i].at == visits[i - 1].next && visits[i].at != visits[i - 1].at)
      && |visits| + step <= if step >= depth then step else depth
    decreases depth - step
  {
    if step < depth && fetch(at, step).Answered? {
      var next := fetch(at, step).next;
      if next.Some? && next != at {
        WalkAdvances(fetch, next, step + 1, depth);
      }
    }
  }

  lemma {:induction false} BoundariesAdvance<A, C>(visits: seq<Visit<A, C>>)
    requires forall i :: 0 < i < |visits| ==> visits[i].at.Some? && visits[i].at != visits[i - 1].at
    ensures |Boundaries(visits)| == if visits == [] then 0 else |visits| - 1
    ensures forall i :: 0 < i < |visits| ==> Some(Boundaries(visits)[i - 1]) == visits[i].at
    ensures visits != [] ==> Advances(visits[0].at, Boundaries(visits))
  {
    if |visits| > 1 {
      BoundariesAdvance(visits[..|visits| - 1]);
    }
  }

  /** After a walk that answered at least one page, the stack is exactly the kept entries and
      one boundary per page after the first; a walk of the whole window keeps the page number
      exactly when the window fitted, and keeps the opening page. */
  lemma {:induction false} WalkKeepsPosition<A, C>(trail: PageTrail<C>, span: int, fetch: (Option<C>, nat) -> Answer<A, C>)
    ensures var walk := Refresh(trail, span);
      var visits := Visits(fetch, walk.anchor, 0, walk.depth);
      var after := RefreshedTrail(walk, Boundaries(visits));
      visits != [] ==>
        && after == PageTrail(walk.kept + Boundaries(visits), trail.grounded)
        && |after.cursors| == |walk.kept| + |visits| - 1
        && (|visits| == (if IsPageCount(span) then span else 1) ==>
              && (trail.grounded ==> (PageNumber(after) == PageNumber(trail) <==> Fits(trail, span)))
              && (trail.grounded || trail.cursors != [] ==> Refresh(after, span).anchor == walk.anchor))
        && (!trail.grounded && trail.cursors != [] ==> after.cursors[0] == trail.cursors[0])
  {
    var walk := Refresh(trail, span);
    var visits := Visits(fetch, walk.anchor, 0, walk.depth);
    if visits != [] {
      WalkAdvances(fetch, walk.anchor, 0, walk.depth);
      BoundariesAdvance(visits);
      RefreshKeepsPosition(trail, span, Boundaries(visits));
    }
  }

  // ---- the collection ---------------------------------------------------------------

  /** A record: the id it is keyed and navigated by, its keyset position, and its content. */
  datatype Row = Row(id: Id, key: int, content: int)

  ghost predicate Collection(rows: seq<Row>) {
    forall i, j :: 0 <= i < j < |rows| ==> rows[i].key < rows[j].key
  }

  function After(rows: seq<Row>, at: Option<int>): seq<Row> {
    if rows == [] then []
    else if at.None? || rows[0].key > at.value then rows else After(rows[1..], at)
  }

  /** One keyset page: the first `limit` rows after the cursor, and the last row's position as
      the next cursor while more follow. */
  function KeysetPage(rows: seq<Row>, at: Option<int>, limit: nat): Answer<seq<Row>, int>
    requires limit >= 1
  {
    var rest := After(rows, at);
    if |rest| <= limit then Answered(rest, None) else Answered(rest[..limit], Some(rest[limit - 1].key))
  }

  /** The service over a collection that changes between requests: request `step` sees
      `snapshots(step)`, and may be refused or fail instead. */
  function Service(snapshots: nat -> seq<Row>, outages: nat -> Option<bool>, limit: nat):
    (Option<int>, nat) -> Answer<seq<Row>, int>
    requires limit >= 1
  {
    (at: Option<int>, step: nat) =>
      match outages(step)
      case Some(refused) => if refused then RefusedToken else Failure("")
      case None => KeysetPage(snapshots(step), at, limit)
  }

  function IdOf(row: Row): Id {
    row.id
  }

  /** How the lists join a page to the window. */
  function JoinPage(built: Option<seq<Row>>, page: seq<Row>, arrival: Arrival): seq<Row> {
    if arrival.Extend? && built.Some? then Merged(built.value, page, IdOf) else page
  }

  function Window(visits: seq<Visit<seq<Row>, int>>, anchor: Option<int>): seq<Row> {
    match Built(visits, anchor, JoinPage) case None => [] case Some(rows) => rows
  }

  // ---- no hole ---------------------------------------------------------------------------

  /** The record is in the collection of each of these requests, unmoved. */
  ghost predicate PresentThroughout(snapshots: nat -> seq<Row>, from: nat, to: nat, id: Id, key: int) {
    forall i :: from <= i < to ==> PresentIn(snapshots(i), id, key)
  }

  ghost predicate PresentIn(rows: seq<Row>, id: Id, key: int) {
    exists row :: row in rows && row.id == id && row.key == key
  }

  /** The stretch of positions the walk covered from `at`: up to its last boundary, or
      without end when it reached the end of the collection. */
  ghost predicate Covered(visits: seq<Visit<seq<Row>, int>>, at: Option<int>, key: int) {
    && visits != []
    && (at.Some? ==> key > at.value)
    && (visits[|visits| - 1].next.Some? ==> key <= visits[|visits| - 1].next.value)
  }

  lemma {:induction false} AfterKeepsTheRest(rows: seq<Row>, at: Option<int>, row: Row)
    requires Collection(rows) && row in rows && (at.Some? ==> row.key > at.value)
    ensures Collection(After(rows, at)) && row in After(rows, at)
  {
    if !(at.None? || rows[0].key > at.value) {
      assert rows == [rows[0]] + rows[1..];
      AfterKeepsTheRest(rows[1..], at, row);
    }
  }

  /** A page holds every row between its cursor and its boundary. */
  lemma {:induction false} PageIsComplete(rows: seq<Row>, at: Option<int>, limit: nat, row: Row)
    requires limit >= 1 && Collection(rows) && row in rows && (at.Some? ==> row.key > at.value)
    requires KeysetPage(rows, at, limit).next.Some? ==> row.key <= KeysetPage(rows, at, limit).next.value
    ensures row in KeysetPage(rows, at, limit).page
  {
    AfterKeepsTheRest(rows, at, row);
    var rest := After(rows, at);
    var i :| 0 <= i < |rest| && rest[i] == row;
    if |rest| > limit {
      assert rest[..limit][i] == row;
    }
  }

  lemma {:induction false} ThisPageHasIt(rows: seq<Row>, at: Option<int>, limit: nat, id: Id, key: int)
    requires limit >= 1 && Collection(rows) && PresentIn(rows, id, key) && (at.Some? ==> key > at.value)
    requires KeysetPage(rows, at, limit).next.Some? ==> key <= KeysetPage(rows, at, limit).next.value
    ensures Shows(KeysetPage(rows, at, limit).page, id)
  {
    var row :| row in rows && row.id == id && row.key == key;
    PageIsComplete(rows, at, limit, row);
  }

  ghost predicate Shows(rows: seq<Row>, id: Id) {
    exists row :: row in rows && row.id == id
  }

  /** Some visit's page holds the record, because each visit begins where the last ended. */
  lemma {:induction false} SomeVisitHasIt(snapshots: nat -> seq<Row>, outages: nat -> Option<bool>, limit: nat,
                                          at: Option<int>, step: nat, depth: nat, id: Id, key: int) returns (v: nat)
    requires limit >= 1 && forall i :: Collection(snapshots(i))
    requires Covered(Visits(Service(snapshots, outages, limit), at, step, depth), at, key)
    requires PresentThroughout(snapshots, step, step + |Visits(Service(snapshots, outages, limit), at, step, depth)|, id, key)
    ensures var visits := Visits(Service(snapshots, outages, limit), at, step, depth);
            v < |visits| && Shows(visits[v].page, id)
    decreases depth - step
  {
    var fetch := Service(snapshots, outages, limit);
    var answer := fetch(at, step);
    assert PresentIn(snapshots(step), id, key) && Collection(snapshots(step));
    if answer.next.None? || key <= answer.next.value {
      ThisPageHasIt(snapshots(step), at, limit, id, key);
      v := 0;
    } else {
      var rest := Visits(fetch, answer.next, step + 1, depth);
      assert Visits(fetch, at, step, depth) == [Visit(at, answer.page, answer.next)] + rest;
      v := SomeVisitHasIt(snapshots, outages, limit, answer.next, step + 1, depth, id, key);
      v := v + 1;
    }
  }

  lemma {:induction false} MergeKeepsIds(a: seq<Row>, b: seq<Row>, row: Row)
    requires row in a || row in b
    ensures exists row' :: row' in Merged(a, b, IdOf) && row'.id == row.id
  {
    var m := Merged(a, b, IdOf);
    if a != [] && b != [] {
      var both := Ids(a, IdOf) + Ids(b, IdOf);
      FirstIdsAreTheIds(both);
      if row in a {
        var i :| 0 <= i < |a| && a[i] == row;
        assert both[i] == row.id;
      } else {
        var i :| 0 <= i < |b| && b[i] == row;
        assert both[|a| + i] == row.id;
      }
      assert row.id in both && row.id in FirstIds(both);
      var k :| 0 <= k < |FirstIds(both)| && FirstIds(both)[k] == row.id;
      assert IdOf(m[k]) == row.id;
    }
  }

  /** Nothing a visit returned is lost from the window by later merges. */
  lemma {:induction false} WindowKeepsVisits(visits: seq<Visit<seq<Row>, int>>, anchor: Option<int>, v: nat, row: Row)
    requires v < |visits| && row in visits[v].page
    ensures exists row' :: row' in Window(visits, anchor) && row'.id == row.id
  {
    var n := |visits| - 1;
    var before := visits[..n];
    if v == n {
      if n > 0 {
        MergeKeepsIds(Window(before, anchor), visits[n].page, row);
      }
    } else {
      WindowKeepsVisits(before, anchor, v, row);
      var row' :| row' in Window(before, anchor) && row'.id == row.id;
      MergeKeepsIds(Window(before, anchor), visits[n].page, row');
    }
  }

  /** The walk has no hole.  Whatever is inserted, edited or deleted between its requests, a
      record that the collection of every answered request holds at one place, after the
      anchor and up to the last boundary reached (or anywhere after the anchor when the walk
      reached the end), is in the merged window. */
  lemma {:induction false} NoHole(snapshots: nat -> seq<Row>, outages: nat -> Option<bool>, limit: nat,
               anchor: Option<int>, depth: nat, id: Id, key: int)
    requires limit >= 1 && forall i :: Collection(snapshots(i))
    requires PresentThroughout(snapshots, 0, |Visits(Service(snapshots, outages, limit), anchor, 0, depth)|, id, key)
    ensures var visits := Visits(Service(snapshots, outages, limit), anchor, 0, depth);
      Covered(visits, anchor, key) ==> Shows(Window(visits, anchor), id)
  {
    var visits := Visits(Service(snapshots, outages, limit), anchor, 0, depth);
    if Covered(visits, anchor, key) {
      var v := SomeVisitHasIt(snapshots, outages, limit, anchor, 0, depth, id, key);
      var row :| row in visits[v].page && row.id == id;
      WindowKeepsVisits(visits, anchor, v, row);
    }
  }

  /** A merged row is the new page's, or an old one the new page says nothing about. */
  lemma {:induction false} MergeInventsNothing(a: seq<Row>, b: seq<Row>, row: Row)
    requires row in Merged(a, b, IdOf)
    ensures row in b || (row in a && !Shows(b, row.id))
  {
    var m := Merged(a, b, IdOf);
    if a != [] && b != [] {
      MergeIsUnique(m, a, b, IdOf);
      var i :| 0 <= i < |m| && m[i] == row;
      assert row == Content(a, b, IdOf(row), IdOf);
    }
  }

  /** The row was returned by visit `v` and its id by none after it. */
  ghost predicate LastReturnedBy(visits: seq<Visit<seq<Row>, int>>, row: Row, v: int) {
    0 <= v < |visits| && row in visits[v].page && forall u :: v < u < |visits| ==> !Shows(visits[u].page, row.id)
  }

  /** And nothing is in the window that no request of this walk returned: a row that is gone
      stops being shown, and of a row that changed the last reading is shown. */
  lemma {:induction false} WindowIsReRead(visits: seq<Visit<seq<Row>, int>>, anchor: Option<int>, row: Row)
    requires row in Window(visits, anchor)
    ensures exists v :: LastReturnedBy(visits, row, v)
  {
    var n := |visits| - 1;
    var before := visits[..n];
    if row in visits[n].page {
      assert LastReturnedBy(visits, row, n);
    } else {
      MergeInventsNothing(Window(before, anchor), visits[n].page, row);
      WindowIsReRead(before, anchor, row);
      var v :| LastReturnedBy(before, row, v);
      forall u | v < u < |visits| ensures !Shows(visits[u].page, row.id) {
        if u < n {
          assert before[u] == visits[u];
        }
      }
      assert LastReturnedBy(visits, row, v);
    }
  }

  ghost predicate OneOfEach(rows: seq<Row>) {
    Distinct(Ids(rows, IdOf))
  }

  /** Pages that show no id twice make a window that shows none twice, however the collection
      shifted between them. */
  lemma {:induction false} WindowShowsEachOnce(visits: seq<Visit<seq<Row>, int>>, anchor: Option<int>)
    requires forall i :: 0 <= i < |visits| ==> OneOfEach(visits[i].page)
    ensures OneOfEach(Window(visits, anchor))
  {
    if visits != [] {
      var n := |visits| - 1;
      var before := visits[..n];
      WindowShowsEachOnce(before, anchor);
      var a, b := Window(before, anchor), visits[n].page;
      if n > 0 && a != [] && b != [] {
        FirstIdsAreTheIds(Ids(a, IdOf) + Ids(b, IdOf));
        MergeIsUnique(Merged(a, b, IdOf), a, b, IdOf);
      }
    }
  }
}
