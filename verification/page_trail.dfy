/** The stack of page tokens a list keeps while it is paged, and what a refresh makes of it. */
module PageTrails {
  import opened Options

  const MAX_SAFE_INTEGER: int := 9007199254740991

  /** One token for each page walked to, oldest first, page one having none.  Only a `grounded`
      stack began at page one, so that counting its tokens numbers the page. */
  datatype PageTrail<C> = PageTrail(cursors: seq<C>, grounded: bool)

  function Top<C>(trail: PageTrail<C>): Option<C> {
    if trail.cursors == [] then None else Some(trail.cursors[|trail.cursors| - 1])
  }

  function PushedPage<C(==)>(trail: PageTrail<C>, cursor: C): PageTrail<C> {
    if Top(trail) == Some(cursor) then trail else trail.(cursors := trail.cursors + [cursor])
  }

  predicate HasPreviousPage<C>(trail: PageTrail<C>) {
    if trail.grounded then |trail.cursors| > 0 else |trail.cursors| > 1
  }

  datatype Popped<C> = Popped(trail: PageTrail<C>, cursor: Option<C>)

  function PoppedPage<C>(trail: PageTrail<C>): Popped<C> {
    if !HasPreviousPage(trail) then Popped(trail, Top(trail))
    else
      var rest := trail.(cursors := trail.cursors[..|trail.cursors| - 1]);
      Popped(rest, Top(rest))
  }

  function PageNumber<C>(trail: PageTrail<C>): Option<nat> {
    if trail.grounded then Some(|trail.cursors| + 1) else None
  }

  /** `Previous` undoes `Next`: after a push that counted, the pop lands on the page that was
      on screen, unless that page is a deep link's with nothing recorded under it. */
  lemma {:induction false} PopUndoesPush<C>(trail: PageTrail<C>, cursor: C)
    ensures PoppedPage(PushedPage(trail, cursor)) == Popped(trail, Top(trail)) <==>
            (if trail.cursors != [] && trail.cursors[|trail.cursors| - 1] == cursor
             then !trail.grounded && |trail.cursors| == 1
             else trail.grounded || trail.cursors != [])
  {
    if Top(trail) != Some(cursor) {
      var pushed := PushedPage(trail, cursor);
      assert pushed.cursors[..|pushed.cursors| - 1] == trail.cursors;
    } else if HasPreviousPage(trail) {
      assert |PoppedPage(trail).trail.cursors| < |trail.cursors|;
    }
  }

  /** There is a page to go back to exactly past page one, or past a deep link's own page.
      Going back drops the last entry and lands on the one under it, or on page one. */
  lemma {:induction false} PreviousIs<C>(trail: PageTrail<C>)
    ensures HasPreviousPage(trail) <==> |trail.cursors| >= if trail.grounded then 1 else 2
    ensures HasPreviousPage(trail) ==>
      var n, popped := |trail.cursors|, PoppedPage(trail);
      && popped.trail == PageTrail(trail.cursors[..n - 1], trail.grounded)
      && popped.cursor == if n == 1 then None else Some(trail.cursors[n - 2])
    ensures !HasPreviousPage(trail) ==> PoppedPage(trail).trail == trail && PoppedPage(trail).cursor == Top(trail)
  {
  }

  /** Pages are counted from one: an empty stack that began at page one stands on it, a push
      that counts is the next page and a pop the one before; after a deep link no page has a
      number. */
  lemma {:induction false} PagesAreCounted<C>(trail: PageTrail<C>, cursor: C)
    ensures PageNumber(trail.(cursors := [], grounded := true)) == Some(1)
    ensures !trail.grounded ==> PageNumber(trail) == None && PageNumber(PushedPage(trail, cursor)) == None
    ensures trail.grounded ==>
      && PageNumber(trail).Some?
      && PageNumber(PushedPage(trail, cursor))
         == Some(PageNumber(trail).value + if trail.cursors != [] && trail.cursors[|trail.cursors| - 1] == cursor then 0 else 1)
      && (trail.cursors != [] ==> PageNumber(PoppedPage(trail).trail) == Some(PageNumber(trail).value - 1))
  {
  }

  // ---- the refresh plan --------------------------------------------------------------

  /** The page the window opens on, how many pages it spans, and the stack below it. */
  datatype RefreshWalk<C> = RefreshWalk(anchor: Option<C>, depth: nat, kept: seq<C>, grounded: bool)

  function Depth(span: int): nat {
    if 1 < span <= MAX_SAFE_INTEGER then span else 1
  }

  function Refresh<C>(trail: PageTrail<C>, span: int): RefreshWalk<C> {
    var depth := Depth(span);
    var floor := if trail.grounded then -1 else 0;
    var index := if |trail.cursors| - depth > floor then |trail.cursors| - depth else floor;
    RefreshWalk(
      if 0 <= index < |trail.cursors| then Some(trail.cursors[index]) else None,
      depth,
      if index + 1 <= |trail.cursors| then trail.cursors[..index + 1] else trail.cursors,
      trail.grounded)
  }

  function RefreshedTrail<C(==)>(walk: RefreshWalk<C>, walked: seq<C>): PageTrail<C> {
    if walked == [] then PageTrail(walk.kept, walk.grounded)
    else PushedPage(RefreshedTrail(walk, walked[..|walked| - 1]), walked[|walked| - 1])
  }

  /** How many pages a window of this span is: a span that is no whole number of pages counts
      as one. */
  predicate IsPageCount(span: int) {
    1 < span <= 0x1F_FFFF_FFFF_FFFF
  }

  /** The window fits the stack it stands on. */
  predicate Fits<C>(trail: PageTrail<C>, span: int) {
    IsPageCount(span) ==> span <= |trail.cursors| + if trail.grounded then 1 else 0
  }

  /** No boundary repeats the one before it, and the first is not the anchor. */
  ghost predicate Advances<C>(anchor: Option<C>, walked: seq<C>) {
    && (walked != [] ==> Some(walked[0]) != anchor)
    && (forall i :: 0 < i < |walked| ==> walked[i] != walked[i - 1])
  }

  /** What a refresh re-reads: as many pages as the window spans, ending where the stack ends.
      It opens on the entry under the window, which is page one when the stack has none left;
      a stack that began at a deep link keeps that link's entry however wide the window. */
  lemma {:induction false} WhatIsReRead<C>(trail: PageTrail<C>, span: int)
    ensures var walk, n := Refresh(trail, span), |trail.cursors|;
      && walk.depth == (if IsPageCount(span) then span else 1)
      && walk.kept <= trail.cursors && walk.grounded == trail.grounded
      && walk.anchor == (if walk.kept == [] then None else Some(trail.cursors[|walk.kept| - 1]))
      && (!IsPageCount(span) ==> walk.kept == trail.cursors)
      && (IsPageCount(span) && Fits(trail, span) ==> |walk.kept| == n - (span - 1))
      && (IsPageCount(span) && !Fits(trail, span) ==> walk.kept == if trail.grounded || n == 0 then [] else trail.cursors[..1])
  {
  }

  lemma {:induction false} PlanIsAnchored<C>(trail: PageTrail<C>, span: int)
    ensures var walk := Refresh(trail, span);
      && walk.kept <= trail.cursors
      && walk.anchor == Top(PageTrail(walk.kept, walk.grounded))
  {
  }

  /** Boundaries that advance are all pushed: the duplicate guard swallows none. */
  lemma {:induction false} NoPushIsSwallowed<C>(walk: RefreshWalk<C>, walked: seq<C>)
    requires walk.anchor == Top(PageTrail(walk.kept, walk.grounded)) && Advances(walk.anchor, walked)
    ensures RefreshedTrail(walk, walked) == PageTrail(walk.kept + walked, walk.grounded)
  {
    if walked == [] {
      assert walk.kept + walked == walk.kept;
    } else {
      var init, last := walked[..|walked| - 1], walked[|walked| - 1];
      NoPushIsSwallowed(walk, init);
      assert walk.kept + walked == (walk.kept + init) + [last];
      if init != [] {
        assert Top(RefreshedTrail(walk, init)) == Some(init[|init| - 1]);
      } else {
        assert walk.kept + init == walk.kept;
      }
    }
  }

  /** A refresh keeps position.  A walk that crossed advancing boundaries leaves exactly the
      kept entries and those boundaries.  When it re-read the whole window, the page number is
      the one before it if and only if the window fitted its stack, and a second refresh opens
      on the same page.  A stack that started at a deep link never loses its first entry. */
  lemma {:induction false} RefreshKeepsPosition<C>(trail: PageTrail<C>, span: int, walked: seq<C>)
    requires Advances(Refresh(trail, span).anchor, walked)
    ensures var walk := Refresh(trail, span);
      var after := RefreshedTrail(walk, walked);
      && after == PageTrail(walk.kept + walked, trail.grounded)
      && (|walked| + 1 == (if IsPageCount(span) then span else 1) ==>
            && (|after.cursors| == |trail.cursors| <==> Fits(trail, span))
            && (trail.grounded ==> (PageNumber(after) == PageNumber(trail) <==> Fits(trail, span)))
            && (trail.grounded || trail.cursors != [] ==> Refresh(after, span).anchor == walk.anchor))
      && (!trail.grounded && trail.cursors != [] ==> after.cursors != [] && after.cursors[0] == trail.cursors[0])
  {
    PlanIsAnchored(trail, span);
    WhatIsReRead(trail, span);
    NoPushIsSwallowed(Refresh(trail, span), walked);
    if |walked| + 1 == (if IsPageCount(span) then span else 1) && (trail.grounded || trail.cursors != []) {
      OpensOnTheSamePage(trail, span, walked);
    }
  }

  /** Re-reading the same window a second time opens where the first did. */
  lemma {:induction false} OpensOnTheSamePage<C>(trail: PageTrail<C>, span: int, walked: seq<C>)
    requires |walked| + 1 == (if IsPageCount(span) then span else 1)
    requires trail.grounded || trail.cursors != []
    ensures var walk := Refresh(trail, span);
            Refresh(PageTrail(walk.kept + walked, trail.grounded), span).anchor == walk.anchor
  {
    var walk := Refresh(trail, span);
    var after := PageTrail(walk.kept + walked, trail.grounded);
    WhatIsReRead(trail, span);
    WhatIsReRead(after, span);
    var again := Refresh(after, span);
    assert |again.kept| == |walk.kept|;
    assert again.kept == walk.kept;
  }
}
