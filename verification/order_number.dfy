/** The admin console's identity cells: order numbers, extended where rows share one. */
module OrderNumbers {
  import opened AsciiText
  import opened Options
  import opened ShortIds

  datatype Order = Order(id: string, orderNumber: Option<string>)

  datatype Cell = Cell(number: string, extension: string)

  function WithoutHyphens(s: string): string {
    if s == [] then []
    else WithoutHyphens(s[..|s| - 1]) + if s[|s| - 1] == '-' then [] else [s[|s| - 1]]
  }

  /** The domain's rule: `#` and the id's first five characters, upper-cased. */
  function DerivedNumber(id: string): string {
    "#" + Upper(Slice(id, 5))
  }

  function NumberOf(o: Order): string {
    if o.orderNumber.Some? then o.orderNumber.value else DerivedNumber(o.id)
  }

  function HexOf(id: string): string {
    Lower(WithoutHyphens(id))
  }

  /** How many hyphen-free characters the number shows after its `#`. */
  function Shown(number: string): nat {
    |WithoutHyphens(Drop(number, 1))|
  }

  function Group(orders: seq<Order>, number: string): seq<Order> {
    if orders == [] then []
    else
      var o := orders[|orders| - 1];
      Group(orders[..|orders| - 1], number) + if NumberOf(o) == number then [o] else []
  }

  function Hexes(group: seq<Order>): (hex: seq<string>)
    ensures |hex| == |group| && forall i :: 0 <= i < |group| ==> hex[i] == HexOf(group[i].id)
  {
    seq(|group|, i requires 0 <= i < |group| => HexOf(group[i].id))
  }

  lemma {:induction false} GroupHolds(orders: seq<Order>, number: string)
    ensures forall o :: o in Group(orders, number) <==> o in orders && NumberOf(o) == number
  {
    if orders != [] {
      GroupHolds(orders[..|orders| - 1], number);
      assert orders == orders[..|orders| - 1] + [orders[|orders| - 1]];
    }
  }

  // ---- the specification ---------------------------------------------------------------

  /** What a row of a shared number adds to it: its shortest prefix within the group, past
      the characters the number shows already. */
  ghost predicate IsExtension(group: seq<Order>, number: string, id: string, extension: string) {
    exists p :: IsShortId(SetOf(Hexes(group)), GroupFloor(number), HexOf(id), p)
                && extension == Upper(Drop(p, Shown(number)))
  }

  function GroupFloor(number: string): nat {
    FloorOf(Finite(Shown(number) as real))
  }

  /** The page's numbers, each where it first appears. */
  function Numbers(orders: seq<Order>): seq<string> {
    if orders == [] then []
    else
      var before, number := Numbers(orders[..|orders| - 1]), NumberOf(orders[|orders| - 1]);
      if number in before then before else before + [number]
  }

  function IdsOf(rows: seq<Order>): set<string> {
    set o | o in rows :: o.id
  }

  /** A number that more than one row carries, the id's among them. */
  predicate Shares(orders: seq<Order>, number: string, id: string) {
    |Group(orders, number)| >= 2 && id in IdsOf(Group(orders, number))
  }

  /** The number whose group an id's extension comes from: the last of `numbers` it shares.
      Extensions go by id, so a row of an id that has two numbers may print the other's. */
  function ExtendedBy(orders: seq<Order>, numbers: seq<string>, id: string): Option<string> {
    if numbers == [] then None
    else if Shares(orders, numbers[|numbers| - 1], id) then Some(numbers[|numbers| - 1])
    else ExtendedBy(orders, numbers[..|numbers| - 1], id)
  }

  ghost predicate IsCell(orders: seq<Order>, o: Order, cell: Cell) {
    && cell.number == NumberOf(o)
    && match ExtendedBy(orders, Numbers(orders), o.id)
       case None => cell.extension == ""
       case Some(number) => IsExtension(Group(orders, number), number, o.id, cell.extension)
  }

  // ---- the loops -----------------------------------------------------------------------

  ghost predicate GroupsAre(orders: seq<Order>, groups: map<string, seq<Order>>, numbers: seq<string>) {
    && numbers == Numbers(orders)
    && (forall number :: number in groups <==> number in numbers)
    && (forall o :: o in orders ==> NumberOf(o) in groups)
    && forall number :: number in groups ==> groups[number] == Group(orders, number)
  }

  lemma {:induction false} NumbersSnoc(orders: seq<Order>, o: Order)
    ensures Numbers(orders + [o]) == if NumberOf(o) in Numbers(orders) then Numbers(orders) else Numbers(orders) + [NumberOf(o)]
  {
    assert (orders + [o])[..|orders|] == orders;
  }

  lemma {:induction false} GroupSnoc(orders: seq<Order>, o: Order, number: string)
    ensures Group(orders + [o], number) == Group(orders, number) + if NumberOf(o) == number then [o] else []
  {
    assert (orders + [o])[..|orders|] == orders;
  }

  lemma {:induction false} JoinGroup(orders: seq<Order>, o: Order, groups: map<string, seq<Order>>, numbers: seq<string>)
    requires GroupsAre(orders, groups, numbers) && NumberOf(o) in groups
    ensures GroupsAre(orders + [o], groups[NumberOf(o) := groups[NumberOf(o)] + [o]], numbers)
  {
    NumbersSnoc(orders, o);
    forall number | number in groups
      ensures Group(orders + [o], number) == Group(orders, number) + if NumberOf(o) == number then [o] else []
    {
      GroupSnoc(orders, o, number);
    }
  }

  lemma {:induction false} NewGroup(orders: seq<Order>, o: Order, groups: map<string, seq<Order>>, numbers: seq<string>)
    requires GroupsAre(orders, groups, numbers) && NumberOf(o) !in groups
    ensures GroupsAre(orders + [o], groups[NumberOf(o) := [o]], numbers + [NumberOf(o)])
  {
    NumbersSnoc(orders, o);
    EmptyGroup(orders, NumberOf(o));
    forall number | number in groups || number == NumberOf(o)
      ensures Group(orders + [o], number) == Group(orders, number) + if NumberOf(o) == number then [o] else []
    {
      GroupSnoc(orders, o, number);
    }
    var after := numbers + [NumberOf(o)];
    forall number ensures number in after <==> number in numbers || number == NumberOf(o) {
    }
  }

  method JoinOrOpen(ghost done: seq<Order>, o: Order, groups: map<string, seq<Order>>, numbers: seq<string>)
    returns (groups': map<string, seq<Order>>, numbers': seq<string>)
    requires GroupsAre(done, groups, numbers)
    ensures GroupsAre(done + [o], groups', numbers')
  {
    var number := NumberOf(o);
    if number in groups {
      JoinGroup(done, o, groups, numbers);
      return groups[number := groups[number] + [o]], numbers;
    }
    NewGroup(done, o, groups, numbers);
    return groups[number := [o]], numbers + [number];
  }

  method GroupByNumber(orders: seq<Order>) returns (groups: map<string, seq<Order>>, numbers: seq<string>)
    ensures GroupsAre(orders, groups, numbers)
  {
    groups, numbers := map[], [];
    for i := 0 to |orders|
      invariant GroupsAre(orders[..i], groups, numbers)
    {
      groups, numbers := JoinOrOpen(orders[..i], orders[i], groups, numbers);
      assert orders[..i + 1] == orders[..i] + [orders[i]];
    }
    assert orders[..|orders|] == orders;
  }

  lemma {:induction false} EmptyGroup(orders: seq<Order>, number: string)
    requires forall o :: o in orders ==> NumberOf(o) != number
    ensures Group(orders, number) == []
  {
    if orders != [] {
      assert orders[|orders| - 1] in orders;
      EmptyGroup(orders[..|orders| - 1], number);
    }
  }

  ghost predicate RowExtended(group: seq<Order>, number: string, id: string, extensions: map<string, string>) {
    id in extensions && IsExtension(group, number, id, extensions[id])
  }

  /** What is held for an id once the groups of the numbers `done` have been through. */
  ghost predicate ExtensionIs(orders: seq<Order>, done: seq<string>, id: string, extensions: map<string, string>) {
    match ExtendedBy(orders, done, id)
    case None => id !in extensions
    case Some(number) => RowExtended(Group(orders, number), number, id, extensions)
  }

  ghost predicate ExtensionsAre(orders: seq<Order>, done: seq<string>, extensions: map<string, string>) {
    forall id :: ExtensionIs(orders, done, id, extensions)
  }

  /** What the rows `done` of the group add to `before`. */
  ghost predicate Extended(group: seq<Order>, number: string, done: seq<Order>,
                           before: map<string, string>, extensions: map<string, string>) {
    && extensions.Keys == before.Keys + IdsOf(done)
    && (forall id :: id in IdsOf(done) ==> RowExtended(group, number, id, extensions))
    && (forall id :: id in before && id !in IdsOf(done) ==> extensions[id] == before[id])
  }

  lemma {:induction false} IdsOfSnoc(done: seq<Order>, o: Order)
    ensures IdsOf(done + [o]) == IdsOf(done) + {o.id}
  {
    forall p ensures p in done + [o] <==> p in done || p == o {
    }
  }

  lemma {:induction false} RowKept(group: seq<Order>, number: string, id: string,
                                   extensions: map<string, string>, other: string, extension: string)
    requires RowExtended(group, number, id, extensions) && other != id
    ensures RowExtended(group, number, id, extensions[other := extension])
  {
  }

  lemma {:induction false} ExtendOne(group: seq<Order>, number: string, done: seq<Order>, o: Order, extension: string,
                                     before: map<string, string>, extensions: map<string, string>)
    requires Extended(group, number, done, before, extensions) && IsExtension(group, number, o.id, extension)
    ensures Extended(group, number, done + [o], before, extensions[o.id := extension])
  {
    IdsOfSnoc(done, o);
    forall id | id in IdsOf(done) + {o.id} ensures RowExtended(group, number, id, extensions[o.id := extension]) {
      if id != o.id {
        RowKept(group, number, id, extensions, o.id, extension);
      }
    }
  }

  method ExtendGroup(group: seq<Order>, number: string, before: map<string, string>) returns (extensions: map<string, string>)
    ensures Extended(group, number, group, before, extensions)
  {
    var shown := Shown(number);
    var hex := Hexes(group);
    var unique := ShortIdsFor(hex, Finite(shown as real));
    extensions := before;
    for i := 0 to |group|
      invariant Extended(group, number, group[..i], before, extensions)
    {
      assert group[..i + 1] == group[..i] + [group[i]];
      assert hex[i] in SetOf(hex);
      var extension := Upper(Drop(unique[hex[i]], shown));
      assert IsShortId(SetOf(hex), GroupFloor(number), hex[i], unique[hex[i]]);
      ExtendOne(group, number, group[..i], group[i], extension, before, extensions);
      extensions := extensions[group[i].id := extension];
    }
    assert group[..|group|] == group;
  }

  lemma {:induction false} OneMoreGroup(orders: seq<Order>, done: seq<string>, number: string,
                                        before: map<string, string>, after: map<string, string>)
    requires ExtensionsAre(orders, done, before)
    requires var group := Group(orders, number);
      if |group| < 2 then after == before else Extended(group, number, group, before, after)
    ensures ExtensionsAre(orders, done + [number], after)
  {
    assert (done + [number])[..|done|] == done;
    forall id ensures ExtensionIs(orders, done + [number], id, after) {
      assert ExtensionIs(orders, done, id, before);
    }
  }

  method ExtendNumber(orders: seq<Order>, ghost done: seq<string>, number: string, group: seq<Order>,
                      before: map<string, string>) returns (extensions: map<string, string>)
    requires ExtensionsAre(orders, done, before) && group == Group(orders, number)
    ensures ExtensionsAre(orders, done + [number], extensions)
  {
    extensions := before;
    if |group| >= 2 {
      extensions := ExtendGroup(group, number, extensions);
    }
    OneMoreGroup(orders, done, number, before, extensions);
  }

  lemma {:induction false} GroupIs(orders: seq<Order>, groups: map<string, seq<Order>>, numbers: seq<string>, i: nat)
    requires GroupsAre(orders, groups, numbers) && i < |numbers|
    ensures numbers[i] in groups && groups[numbers[i]] == Group(orders, numbers[i])
  {
    assert numbers[i] in numbers;
  }

  lemma {:induction false} OneMoreNumber(orders: seq<Order>, numbers: seq<string>, i: nat, extensions: map<string, string>)
    requires i < |numbers| && ExtensionsAre(orders, numbers[..i] + [numbers[i]], extensions)
    ensures ExtensionsAre(orders, numbers[..i + 1], extensions)
  {
    assert numbers[..i + 1] == numbers[..i] + [numbers[i]];
  }

  lemma {:induction false} NothingExtended(orders: seq<Order>)
    ensures ExtensionsAre(orders, [], map[])
  {
  }

  method ExtendShared(orders: seq<Order>, groups: map<string, seq<Order>>, numbers: seq<string>)
    returns (extensions: map<string, string>)
    requires GroupsAre(orders, groups, numbers)
    ensures ExtensionsAre(orders, numbers, extensions)
  {
    extensions := map[];
    NothingExtended(orders);
    for i := 0 to |numbers|
      invariant ExtensionsAre(orders, numbers[..i], extensions)
    {
      GroupIs(orders, groups, numbers, i);
      extensions := ExtendNumber(orders, numbers[..i], numbers[i], groups[numbers[i]], extensions);
      OneMoreNumber(orders, numbers, i, extensions);
    }
    assert numbers[..|numbers|] == numbers;
  }

  method CellFor(orders: seq<Order>, o: Order, extensions: map<string, string>) returns (cell: Cell)
    requires ExtensionIs(orders, Numbers(orders), o.id, extensions)
    ensures IsCell(orders, o, cell)
  {
    cell := Cell(NumberOf(o), if o.id in extensions then extensions[o.id] else "");
  }

  method CellsFor(orders: seq<Order>, extensions: map<string, string>) returns (cells: seq<Cell>)
    requires ExtensionsAre(orders, Numbers(orders), extensions)
    ensures |cells| == |orders|
    ensures forall i :: 0 <= i < |orders| ==> IsCell(orders, orders[i], cells[i])
  {
    cells := [];
    for i := 0 to |orders|
      invariant |cells| == i
      invariant forall k :: 0 <= k < i ==> IsCell(orders, orders[k], cells[k])
    {
      assert ExtensionIs(orders, Numbers(orders), orders[i].id, extensions);
      var cell := CellFor(orders, orders[i], extensions);
      cells := cells + [cell];
    }
  }

  /** Every order on the page with its cell. */
  method WithOrderNumberCells(orders: seq<Order>) returns (cells: seq<Cell>)
    ensures |cells| == |orders|
    ensures forall i :: 0 <= i < |orders| ==> IsCell(orders, orders[i], cells[i])
  {
    var groups, numbers := GroupByNumber(orders);
    var extensions := ExtendShared(orders, groups, numbers);
    cells := CellsFor(orders, extensions);
  }

  // ---- distinct cells ------------------------------------------------------------------

  /** Every row of one id carries one number. */
  ghost predicate OneNumber(orders: seq<Order>, id: string) {
    forall o, p :: o in orders && p in orders && o.id == id && p.id == id ==> NumberOf(o) == NumberOf(p)
  }

  lemma {:induction false} OwnNumberIsListed(orders: seq<Order>, o: Order)
    requires o in orders
    ensures NumberOf(o) in Numbers(orders)
  {
    var init, last := orders[..|orders| - 1], orders[|orders| - 1];
    assert orders == init + [last];
    if o in init {
      OwnNumberIsListed(init, o);
    }
  }

  lemma {:induction false} InTheGroup(orders: seq<Order>, o: Order, number: string)
    requires o in orders && OneNumber(orders, o.id)
    ensures o.id in IdsOf(Group(orders, number)) <==> NumberOf(o) == number
  {
    GroupHolds(orders, number);
  }

  /** An id of one number is extended by that number, when the number is shared. */
  lemma {:induction false} ExtendedByOwn(orders: seq<Order>, numbers: seq<string>, o: Order)
    requires o in orders && OneNumber(orders, o.id)
    ensures ExtendedBy(orders, numbers, o.id)
         == if NumberOf(o) in numbers && |Group(orders, NumberOf(o))| >= 2 then Some(NumberOf(o)) else None
  {
    if numbers != [] {
      var init, last := numbers[..|numbers| - 1], numbers[|numbers| - 1];
      assert numbers == init + [last];
      ExtendedByOwn(orders, init, o);
      InTheGroup(orders, o, last);
    }
  }

  /** The number's hyphen-free characters, folded, begin the id's. */
  ghost predicate Agrees(o: Order) {
    Lower(WithoutHyphens(Drop(NumberOf(o), 1))) <= HexOf(o.id)
  }

  lemma {:induction false} WithoutHyphensSplits(a: string, b: string)
    ensures WithoutHyphens(a + b) == WithoutHyphens(a) + WithoutHyphens(b)
  {
    if b == [] {
      assert a + b == a;
    } else {
      assert (a + b)[..|a + b| - 1] == a + b[..|b| - 1];
      WithoutHyphensSplits(a, b[..|b| - 1]);
    }
  }

  lemma {:induction false} LowerSplits(a: string, b: string)
    ensures Lower(a + b) == Lower(a) + Lower(b)
  {
  }

  lemma {:induction false} FoldingKeepsHyphens(s: string)
    ensures Lower(WithoutHyphens(Upper(s))) == Lower(WithoutHyphens(s))
  {
    if s != [] {
      var init, c := s[..|s| - 1], s[|s| - 1];
      assert Upper(s)[..|s| - 1] == Upper(init);
      FoldingKeepsHyphens(init);
      LowerSplits(WithoutHyphens(Upper(init)), [UpperChar(c)]);
      LowerSplits(WithoutHyphens(init), [c]);
      assert Lower([UpperChar(c)]) == Lower([c]);
    }
  }

  /** Exactly the hyphens go. */
  lemma {:induction false} HyphensGo(s: string)
    ensures multiset(WithoutHyphens(s)) == multiset(s)['-' := 0]
  {
    if s != [] {
      HyphensGo(s[..|s| - 1]);
      assert s == s[..|s| - 1] + [s[|s| - 1]];
    }
  }

  /** The number a row shows: as it was sent, or else a hash and the id's first five characters
      in capitals. */
  lemma {:induction false} NumberIs(o: Order)
    ensures o.orderNumber.Some? ==> NumberOf(o) == o.orderNumber.value
    ensures o.orderNumber.None? ==>
      && |NumberOf(o)| == (if |o.id| < 5 then |o.id| else 5) + 1 && NumberOf(o)[0] == '#'
      && forall i :: 1 <= i < |NumberOf(o)| ==> NumberOf(o)[i] == UpperChar(o.id[i - 1])
  {
  }

  /** A number the domain's rule derived begins its id. */
  lemma {:induction false} DerivedNumbersAgree(o: Order)
    requires NumberOf(o) == DerivedNumber(o.id)
    ensures Agrees(o)
  {
    var head := Slice(o.id, 5);
    assert Drop(NumberOf(o), 1) == Upper(head);
    FoldingKeepsHyphens(head);
    assert o.id == head + o.id[|head|..];
    WithoutHyphensSplits(head, o.id[|head|..]);
    LowerSplits(WithoutHyphens(head), WithoutHyphens(o.id[|head|..]));
  }

  lemma {:induction false} DerivedNumbersAreOne(orders: seq<Order>, id: string)
    requires forall o :: o in orders ==> NumberOf(o) == DerivedNumber(o.id)
    ensures OneNumber(orders, id)
  {
  }

  /** A shared row's extension comes from its short id within its group. */
  lemma {:induction false} ShortOf(orders: seq<Order>, o: Order, c: Cell) returns (p: string)
    requires o in orders && OneNumber(orders, o.id)
    requires IsCell(orders, o, c) && |Group(orders, NumberOf(o))| >= 2
    ensures IsShortId(SetOf(Hexes(Group(orders, NumberOf(o)))), GroupFloor(NumberOf(o)), HexOf(o.id), p)
    ensures c.number == NumberOf(o) && c.extension == Upper(Drop(p, Shown(NumberOf(o))))
  {
    OwnNumberIsListed(orders, o);
    ExtendedByOwn(orders, Numbers(orders), o);
    p :| IsShortId(SetOf(Hexes(Group(orders, NumberOf(o)))), GroupFloor(NumberOf(o)), HexOf(o.id), p)
         && c.extension == Upper(Drop(p, Shown(NumberOf(o))));
  }

  lemma {:induction false} HexIsListed(group: seq<Order>, o: Order)
    requires o in group
    ensures HexOf(o.id) in SetOf(Hexes(group))
  {
    var i :| 0 <= i < |group| && group[i] == o;
    assert Hexes(group)[i] in Hexes(group);
  }

  lemma {:induction false} TwoMembers<T>(s: seq<T>, a: T, b: T)
    requires a in s && b in s && a != b
    ensures |s| >= 2
  {
    var i :| 0 <= i < |s| && s[i] == a;
    var j :| 0 <= j < |s| && s[j] == b;
  }

  lemma {:induction false} SharedGroup(orders: seq<Order>, a: Order, b: Order)
    requires a in orders && b in orders && a != b && NumberOf(a) == NumberOf(b)
    ensures var group := Group(orders, NumberOf(a));
      |group| >= 2 && HexOf(a.id) in SetOf(Hexes(group)) && HexOf(b.id) in SetOf(Hexes(group))
  {
    var group := Group(orders, NumberOf(a));
    GroupHolds(orders, NumberOf(a));
    TwoMembers(group, a, b);
    HexIsListed(group, a);
    HexIsListed(group, b);
  }

  /** Orders whose hyphen-free folded ids differ print different cells, when each id has one
      number and the numbers begin their ids. */
  lemma {:induction false} DistinctIdsPrintDistinctCells(orders: seq<Order>, a: Order, b: Order, ca: Cell, cb: Cell)
    requires a in orders && b in orders && Agrees(a) && Agrees(b)
    requires OneNumber(orders, a.id) && OneNumber(orders, b.id)
    requires IsCell(orders, a, ca) && IsCell(orders, b, cb)
    requires HexOf(a.id) != HexOf(b.id)
    ensures ca != cb
  {
    if NumberOf(a) == NumberOf(b) {
      SharedGroup(orders, a, b);
      var p := ShortOf(orders, a, ca);
      var q := ShortOf(orders, b, cb);
      SharedNumberDiffers(SetOf(Hexes(Group(orders, NumberOf(a)))), a, b, p, q);
    }
  }

  lemma {:induction false} SharedNumberDiffers(ids: set<string>, a: Order, b: Order, p: string, q: string)
    requires Agrees(a) && Agrees(b) && NumberOf(a) == NumberOf(b)
    requires HexOf(a.id) in ids && HexOf(b.id) in ids && HexOf(a.id) != HexOf(b.id)
    requires IsShortId(ids, GroupFloor(NumberOf(a)), HexOf(a.id), p)
    requires IsShortId(ids, GroupFloor(NumberOf(a)), HexOf(b.id), q)
    ensures Upper(Drop(p, Shown(NumberOf(a)))) != Upper(Drop(q, Shown(NumberOf(a))))
  {
    var number := NumberOf(a);
    DistinctIdsDiffer(ids, GroupFloor(number), HexOf(a.id), HexOf(b.id), p, q);
    LastCharacterIsNeeded(ids, GroupFloor(number), HexOf(a.id), p);
    LastCharacterIsNeeded(ids, GroupFloor(number), HexOf(b.id), q);
    FloorIsShown(number);
    var head := Lower(WithoutHyphens(Drop(number, 1)));
    assert |head| == Shown(number);
    BeginsBoth(head, p, HexOf(a.id));
    BeginsBoth(head, q, HexOf(b.id));
    RestDiffers(a.id, b.id, p, q, head);
  }

  lemma {:induction false} BeginsBoth(head: string, p: string, whole: string)
    requires head <= whole && p <= whole && |head| <= |p|
    ensures head <= p
  {
    assert p == whole[..|p|] && head == whole[..|head|];
  }

  lemma {:induction false} FloorIsShown(number: string)
    ensures GroupFloor(number) >= Shown(number)
  {
  }

  predicate Folded(s: string) {
    forall i :: 0 <= i < |s| ==> LowerChar(s[i]) == s[i]
  }

  lemma {:induction false} FoldedDiffer(x: string, y: string)
    requires Folded(x) && Folded(y) && x != y
    ensures Upper(x) != Upper(y)
  {
    if |x| == |y| {
      var k :| 0 <= k < |x| && x[k] != y[k];
      assert Upper(x)[k] != Upper(y)[k];
    }
  }

  /** Two different folded strings that share a head differ, upper-cased, after it. */
  lemma {:induction false} RestDiffers(a: string, b: string, p: string, q: string, head: string)
    requires p <= HexOf(a) && q <= HexOf(b) && p != q && head <= p && head <= q
    ensures Upper(Drop(p, |head|)) != Upper(Drop(q, |head|))
  {
    var x, y := Drop(p, |head|), Drop(q, |head|);
    assert p == head + x && q == head + y;
    FoldedPart(WithoutHyphens(a), p, |head|);
    FoldedPart(WithoutHyphens(b), q, |head|);
    FoldedDiffer(x, y);
  }

  lemma {:induction false} FoldedPart(s: string, p: string, n: nat)
    requires p <= Lower(s) && n <= |p|
    ensures Folded(p[n..])
  {
    forall i | 0 <= i < |p| - n ensures LowerChar(p[n..][i]) == p[n..][i] {
      assert p[n..][i] == Lower(s)[n + i];
    }
  }

  /** On a page of derived numbers every two such orders are told apart. */
  lemma {:induction false} DerivedPagesAreToldApart(orders: seq<Order>, cells: seq<Cell>, i: nat, j: nat)
    requires |cells| == |orders| && i < |orders| && j < |orders|
    requires forall o :: o in orders ==> NumberOf(o) == DerivedNumber(o.id)
    requires forall k :: 0 <= k < |orders| ==> IsCell(orders, orders[k], cells[k])
    requires HexOf(orders[i].id) != HexOf(orders[j].id)
    ensures cells[i] != cells[j]
  {
    DerivedNumbersAreOne(orders, orders[i].id);
    DerivedNumbersAreOne(orders, orders[j].id);
    DerivedNumbersAgree(orders[i]);
    DerivedNumbersAgree(orders[j]);
    DistinctIdsPrintDistinctCells(orders, orders[i], orders[j], cells[i], cells[j]);
  }

  // ---- numbers that do not begin their ids -------------------------------------------------

  lemma {:induction false} SameHeadDiffers(ids: set<string>, floor: nat, a: string, b: string, shown: nat, p: string, q: string)
    requires HexOf(a) in ids && HexOf(b) in ids && HexOf(a) != HexOf(b) && shown <= floor
    requires IsShortId(ids, floor, HexOf(a), p) && IsShortId(ids, floor, HexOf(b), q)
    requires Slice(HexOf(a), shown) == Slice(HexOf(b), shown)
    ensures Upper(Drop(p, shown)) != Upper(Drop(q, shown))
  {
    DistinctIdsDiffer(ids, floor, HexOf(a), HexOf(b), p, q);
    LastCharacterIsNeeded(ids, floor, HexOf(a), p);
    LastCharacterIsNeeded(ids, floor, HexOf(b), q);
    var head := Slice(HexOf(a), shown);
    assert |HexOf(a)| >= shown && |HexOf(b)| >= shown && |head| == shown;
    RestDiffers(a, b, p, q, head);
  }

  /** On any page, whatever the number they share: rows of different ids whose folded ids
      begin with the same characters, as many as the number shows, are told apart. */
  lemma {:induction false} SameHeadsAreToldApart(orders: seq<Order>, a: Order, b: Order, ca: Cell, cb: Cell)
    requires a in orders && b in orders && OneNumber(orders, a.id) && OneNumber(orders, b.id)
    requires NumberOf(a) == NumberOf(b) && HexOf(a.id) != HexOf(b.id)
    requires IsCell(orders, a, ca) && IsCell(orders, b, cb)
    requires Slice(HexOf(a.id), Shown(NumberOf(a))) == Slice(HexOf(b.id), Shown(NumberOf(a)))
    ensures ca != cb
  {
    SharedGroup(orders, a, b);
    var p := ShortOf(orders, a, ca);
    var q := ShortOf(orders, b, cb);
    FloorIsShown(NumberOf(a));
    SameHeadDiffers(SetOf(Hexes(Group(orders, NumberOf(a)))), GroupFloor(NumberOf(a)), a.id, b.id, Shown(NumberOf(a)), p, q);
  }

  /** At the floor, nothing else in the group of the number reads as this id does. */
  ghost predicate UniqueHead(orders: seq<Order>, o: Order) {
    Separates(SetOf(Hexes(Group(orders, NumberOf(o)))), HexOf(o.id), GroupFloor(NumberOf(o)))
  }

  /** What an id of the group prints beside the number when it needs `n` characters. */
  function Beside(o: Order, n: nat): string {
    Drop(Slice(HexOf(o.id), n), Shown(NumberOf(o)))
  }

  /** What a row whose head is unique prints beside its number. */
  function HeadTail(o: Order): string {
    Beside(o, GroupFloor(NumberOf(o)))
  }

  /** On any page: two rows of one number, each with a head unique in the group, print one
      cell exactly when what the floor adds to the number is the same.  From four characters
      shown on the floor adds nothing, so they do. */
  lemma {:induction false} UniqueHeadsPrintAlike(orders: seq<Order>, a: Order, b: Order, ca: Cell, cb: Cell)
    requires a in orders && b in orders && OneNumber(orders, a.id) && OneNumber(orders, b.id)
    requires NumberOf(a) == NumberOf(b) && HexOf(a.id) != HexOf(b.id)
    requires IsCell(orders, a, ca) && IsCell(orders, b, cb)
    requires UniqueHead(orders, a) && UniqueHead(orders, b)
    ensures ca == cb <==> HeadTail(a) == HeadTail(b)
    ensures Shown(NumberOf(a)) >= SHORT_ID_MIN ==> ca == cb
  {
    var ids, floor := SetOf(Hexes(Group(orders, NumberOf(a)))), GroupFloor(NumberOf(a));
    SharedGroup(orders, a, b);
    var p := ShortOf(orders, a, ca);
    var q := ShortOf(orders, b, cb);
    FloorSeparates(ids, HexOf(a.id), floor, p);
    FloorSeparates(ids, HexOf(b.id), floor, q);
    TailIsFolded(a);
    TailIsFolded(b);
    if HeadTail(a) != HeadTail(b) {
      FoldedDiffer(HeadTail(a), HeadTail(b));
    }
  }

  lemma {:induction false} TailIsFolded(o: Order)
    ensures Folded(HeadTail(o))
    ensures Shown(NumberOf(o)) >= SHORT_ID_MIN ==> HeadTail(o) == []
  {
    var head := Slice(HexOf(o.id), GroupFloor(NumberOf(o)));
    if Shown(NumberOf(o)) <= |head| {
      FoldedPart(WithoutHyphens(o.id), head, Shown(NumberOf(o)));
    }
  }

  /** On any page: a row with a unique head and a row whose head a third row has too are told
      apart, though their own heads differ, when the number shows four characters or more and
      the second id goes on past them. */
  lemma {:induction false} OneSharedHeadIsToldApart(orders: seq<Order>, a: Order, b: Order, ca: Cell, cb: Cell)
    requires a in orders && b in orders && OneNumber(orders, a.id) && OneNumber(orders, b.id)
    requires NumberOf(a) == NumberOf(b) && HexOf(a.id) != HexOf(b.id)
    requires IsCell(orders, a, ca) && IsCell(orders, b, cb)
    requires UniqueHead(orders, a) && !UniqueHead(orders, b)
    requires SHORT_ID_MIN <= Shown(NumberOf(a)) < |HexOf(b.id)|
    ensures ca != cb
  {
    SharedGroup(orders, a, b);
    var p := ShortOf(orders, a, ca);
    var q := ShortOf(orders, b, cb);
    ShownIsTheFloor(NumberOf(a));
    PastTheFloor(SetOf(Hexes(Group(orders, NumberOf(a)))), GroupFloor(NumberOf(a)), HexOf(a.id), HexOf(b.id), p, q);
  }

  lemma {:induction false} ShownIsTheFloor(number: string)
    requires Shown(number) >= SHORT_ID_MIN
    ensures GroupFloor(number) == Shown(number)
  {
  }

  lemma {:induction false} PastTheFloor(ids: set<string>, floor: nat, x: string, y: string, p: string, q: string)
    requires Separates(ids, x, floor) && !Separates(ids, y, floor) && floor < |y|
    requires IsShortId(ids, floor, x, p) && IsShortId(ids, floor, y, q)
    ensures |Upper(Drop(p, floor))| == 0 < |Upper(Drop(q, floor))|
  {
    FloorSeparates(ids, x, floor, p);
    var n: nat :| LeastLength(ids, floor, y, n) && q == Slice(y, n);
    assert n != floor;
  }

  /** Exactly when, on any page and under any shared number: `m` and `n` being the least
      lengths at which the two ids stand alone in the group, the rows are told apart if and
      only if the ids begin alike as far as the number shows, or differ between there and
      those lengths. */
  lemma {:induction false} ToldApartExactlyWhen(orders: seq<Order>, a: Order, b: Order, ca: Cell, cb: Cell, m: nat, n: nat)
    requires a in orders && b in orders && OneNumber(orders, a.id) && OneNumber(orders, b.id)
    requires NumberOf(a) == NumberOf(b) && HexOf(a.id) != HexOf(b.id)
    requires IsCell(orders, a, ca) && IsCell(orders, b, cb)
    requires LeastLength(SetOf(Hexes(Group(orders, NumberOf(a)))), GroupFloor(NumberOf(a)), HexOf(a.id), m)
    requires LeastLength(SetOf(Hexes(Group(orders, NumberOf(a)))), GroupFloor(NumberOf(a)), HexOf(b.id), n)
    ensures ca != cb
            <==> Slice(HexOf(a.id), Shown(NumberOf(a))) == Slice(HexOf(b.id), Shown(NumberOf(a))) || Beside(a, m) != Beside(b, n)
  {
    PrintsBeside(orders, a, b, ca, m);
    PrintsBeside(orders, b, a, cb, n);
    if Slice(HexOf(a.id), Shown(NumberOf(a))) == Slice(HexOf(b.id), Shown(NumberOf(a))) {
      SameHeadsAreToldApart(orders, a, b, ca, cb);
    } else if Beside(a, m) != Beside(b, n) {
      FoldedDiffer(Beside(a, m), Beside(b, n));
    }
  }

  lemma {:induction false} PrintsBeside(orders: seq<Order>, o: Order, other: Order, c: Cell, n: nat)
    requires o in orders && other in orders && o != other && NumberOf(o) == NumberOf(other)
    requires OneNumber(orders, o.id) && IsCell(orders, o, c)
    requires LeastLength(SetOf(Hexes(Group(orders, NumberOf(o)))), GroupFloor(NumberOf(o)), HexOf(o.id), n)
    ensures c == Cell(NumberOf(o), Upper(Beside(o, n))) && Folded(Beside(o, n))
  {
    SharedGroup(orders, o, other);
    var p := ShortOf(orders, o, c);
    OnlyOneLength(SetOf(Hexes(Group(orders, NumberOf(o)))), GroupFloor(NumberOf(o)), HexOf(o.id), n, p);
    if Shown(NumberOf(o)) <= |p| {
      FoldedPart(WithoutHyphens(o.id), p, Shown(NumberOf(o)));
    }
  }

  lemma {:induction false} OnlyOneLength(ids: set<string>, floor: nat, x: string, n: nat, p: string)
    requires LeastLength(ids, floor, x, n) && IsShortId(ids, floor, x, p)
    ensures p == Slice(x, n) && p <= x
  {
    var k: nat :| LeastLength(ids, floor, x, k) && p == Slice(x, k);
    SameLeast(ids, floor, x, n, k);
  }

  /** On a page of exactly two rows the two cases are all there are. */
  lemma {:induction false} PairIsToldApartExactlyWhen(a: Order, b: Order, ca: Cell, cb: Cell)
    requires NumberOf(a) == NumberOf(b) && HexOf(a.id) != HexOf(b.id)
    requires IsCell([a, b], a, ca) && IsCell([a, b], b, cb)
    ensures ca != cb
            <==> Slice(HexOf(a.id), Shown(NumberOf(a))) == Slice(HexOf(b.id), Shown(NumberOf(a))) || HeadTail(a) != HeadTail(b)
  {
    PairHasOneNumber(a, b);
    if Slice(HexOf(a.id), Shown(NumberOf(a))) == Slice(HexOf(b.id), Shown(NumberOf(a))) {
      SameHeadsAreToldApart([a, b], a, b, ca, cb);
    } else {
      PairHeadsAreUnique(a, b);
      UniqueHeadsPrintAlike([a, b], a, b, ca, cb);
    }
  }

  lemma {:induction false} PairHasOneNumber(a: Order, b: Order)
    requires NumberOf(a) == NumberOf(b)
    ensures a in [a, b] && b in [a, b]
    ensures OneNumber([a, b], a.id) && OneNumber([a, b], b.id)
  {
    forall o | o in [a, b] ensures NumberOf(o) == NumberOf(a) {
    }
  }

  lemma {:induction false} PairHeadsAreUnique(a: Order, b: Order)
    requires NumberOf(a) == NumberOf(b)
    requires Slice(HexOf(a.id), Shown(NumberOf(a))) != Slice(HexOf(b.id), Shown(NumberOf(a)))
    ensures UniqueHead([a, b], a) && UniqueHead([a, b], b)
  {
    PairGroup(a, b);
    PairHexes(a, b);
    FloorIsShown(NumberOf(a));
    ShorterSlicesDiffer(HexOf(a.id), HexOf(b.id), Shown(NumberOf(a)), GroupFloor(NumberOf(a)));
  }

  lemma {:induction false} ShorterSlicesDiffer(x: string, y: string, m: nat, n: nat)
    requires m <= n && Slice(x, m) != Slice(y, m)
    ensures Slice(x, n) != Slice(y, n)
  {
    assert Slice(Slice(x, n), m) == Slice(x, m) && Slice(Slice(y, n), m) == Slice(y, m);
  }

  lemma {:induction false} PairGroup(a: Order, b: Order)
    requires NumberOf(a) == NumberOf(b)
    ensures Group([a, b], NumberOf(a)) == [a, b]
  {
    assert [a, b] == [a] + [b] && [a] == [] + [a];
    GroupSnoc([], a, NumberOf(a));
    GroupSnoc([a], b, NumberOf(a));
  }

  lemma {:induction false} PairHexes(a: Order, b: Order)
    ensures SetOf(Hexes([a, b])) == {HexOf(a.id), HexOf(b.id)}
  {
    var hexes := Hexes([a, b]);
    assert hexes == [HexOf(a.id), HexOf(b.id)];
    assert hexes[0] in hexes && hexes[1] in hexes;
  }

  lemma {:induction false} PlainHex(id: string)
    requires '-' !in id && Folded(id)
    ensures HexOf(id) == id
  {
    NoHyphens(id);
  }

  lemma {:induction false} ShownIs(number: string)
    requires number != [] && '-' !in number
    ensures Shown(number) == |number| - 1
  {
    NoHyphens(Drop(number, 1));
  }

  /** Under one number of four characters or more, two plain ids that differ at once print
      one cell. */
  lemma {:induction false} DifferentHeadsCollide(a: Order, b: Order, ca: Cell, cb: Cell)
    requires NumberOf(a) == NumberOf(b) && Shown(NumberOf(a)) >= SHORT_ID_MIN
    requires '-' !in a.id && Folded(a.id) && '-' !in b.id && Folded(b.id)
    requires a.id != [] && b.id != [] && a.id[0] != b.id[0]
    requires IsCell([a, b], a, ca) && IsCell([a, b], b, cb)
    ensures HexOf(a.id) != HexOf(b.id) && ca == cb
  {
    FirstCharactersDiffer(a.id, b.id, Shown(NumberOf(a)));
    PairHasOneNumber(a, b);
    PairHeadsAreUnique(a, b);
    UniqueHeadsPrintAlike([a, b], a, b, ca, cb);
  }

  const FOREIGN := "#12345"
  const ONES := Order("111110", Some(FOREIGN))
  const TWOS := Order("222220", Some(FOREIGN))

  lemma {:induction false} PlainDigits(id: string)
    requires forall i :: 0 <= i < |id| ==> '0' <= id[i] <= '9'
    ensures '-' !in id && Folded(id)
  {
  }

  lemma {:induction false} ForeignIs()
    ensures '-' !in ONES.id && Folded(ONES.id) && '-' !in TWOS.id && Folded(TWOS.id)
    ensures |ONES.id| == |TWOS.id| == 6 && ONES.id[0] != TWOS.id[0]
  {
    PlainDigits(ONES.id);
    PlainDigits(TWOS.id);
  }

  /** The colliding input: two ids under one number that begins neither print one cell. */
  lemma {:induction false} ForeignNumberCollides(ca: Cell, cb: Cell)
    requires IsCell([ONES, TWOS], ONES, ca) && IsCell([ONES, TWOS], TWOS, cb)
    ensures HexOf(ONES.id) != HexOf(TWOS.id) && ca == cb
  {
    ForeignIs();
    ForeignShows();
    DifferentHeadsCollide(ONES, TWOS, ca, cb);
  }

  lemma {:induction false} ForeignShows()
    ensures NumberOf(ONES) == NumberOf(TWOS) && Shown(NumberOf(ONES)) == 5
  {
    ShownIs(FOREIGN);
  }

  lemma {:induction false} FirstCharactersDiffer(x: string, y: string, n: nat)
    requires '-' !in x && Folded(x) && '-' !in y && Folded(y)
    requires x != [] && y != [] && x[0] != y[0] && n > 0
    ensures HexOf(x) != HexOf(y) && Slice(HexOf(x), n) != Slice(HexOf(y), n)
  {
    PlainHex(x);
    PlainHex(y);
    assert Slice(x, n)[0] != Slice(y, n)[0];
  }

  // ---- an id under two numbers -----------------------------------------------------------

  const SHARED := "#A"
  const OTHER := "#AB"
  const TWICE := Order("ab", Some(SHARED))
  const NEIGHBOUR := Order("a", Some(SHARED))
  const ELSEWHERE := Order("ab", Some(OTHER))
  const TWO_NUMBERS := [TWICE, NEIGHBOUR, ELSEWHERE, ELSEWHERE]

  lemma {:induction false} GroupOf4(a: Order, b: Order, c: Order, d: Order, number: string)
    ensures Group([a, b, c, d], number)
         == Group([a, b], number) + (if NumberOf(c) == number then [c] else []) + (if NumberOf(d) == number then [d] else [])
  {
    assert [a, b, c, d] == [a, b, c] + [d] && [a, b, c] == [a, b] + [c];
    GroupSnoc([a, b, c], d, number);
    GroupSnoc([a, b], c, number);
  }

  lemma {:induction false} TwoNumbersGroups()
    ensures Group(TWO_NUMBERS, SHARED) == [TWICE, NEIGHBOUR]
    ensures Group(TWO_NUMBERS, OTHER) == [ELSEWHERE, ELSEWHERE]
  {
    assert |SHARED| != |OTHER|;
    PairGroup(TWICE, NEIGHBOUR);
    EmptyGroup([TWICE, NEIGHBOUR], OTHER);
    GroupOf4(TWICE, NEIGHBOUR, ELSEWHERE, ELSEWHERE, SHARED);
    GroupOf4(TWICE, NEIGHBOUR, ELSEWHERE, ELSEWHERE, OTHER);
  }

  lemma {:induction false} TwoNumbersListed()
    ensures Numbers(TWO_NUMBERS) == [SHARED, OTHER]
  {
    var one, two, three := [TWICE], [TWICE, NEIGHBOUR], [TWICE, NEIGHBOUR, ELSEWHERE];
    assert |SHARED| != |OTHER|;
    assert one == [] + [TWICE] && two == one + [NEIGHBOUR] && three == two + [ELSEWHERE];
    assert TWO_NUMBERS == three + [ELSEWHERE];
    NumbersSnoc([], TWICE);
    NumbersSnoc(one, NEIGHBOUR);
    NumbersSnoc(two, ELSEWHERE);
    NumbersSnoc(three, ELSEWHERE);
  }

  lemma {:induction false} TwoNumbersExtend()
    ensures ExtendedBy(TWO_NUMBERS, [SHARED, OTHER], TWICE.id) == Some(OTHER)
    ensures ExtendedBy(TWO_NUMBERS, [SHARED, OTHER], NEIGHBOUR.id) == Some(SHARED)
  {
    TwoNumbersGroups();
    var first := [SHARED];
    assert [SHARED, OTHER] == first + [OTHER] && first == [] + [SHARED];
    assert [SHARED, OTHER][..1] == first;
    assert ELSEWHERE in Group(TWO_NUMBERS, OTHER) && NEIGHBOUR in Group(TWO_NUMBERS, SHARED);
    assert |NEIGHBOUR.id| != |ELSEWHERE.id|;
  }

  /** An id no longer than its number gets nothing beside it. */
  lemma {:induction false} NothingPastTheNumber(group: seq<Order>, number: string, id: string, extension: string)
    requires IsExtension(group, number, id, extension) && |HexOf(id)| <= Shown(number)
    ensures extension == ""
  {
    var p :| IsShortId(SetOf(Hexes(group)), GroupFloor(number), HexOf(id), p) && extension == Upper(Drop(p, Shown(number)));
    LastCharacterIsNeeded(SetOf(Hexes(group)), GroupFloor(number), HexOf(id), p);
  }

  /** Why an id has to keep one number: every number here begins its id, yet the row printing
      the extension of its id's other number reads as its neighbour does. */
  lemma {:induction false} TwoNumbersCollide(ca: Cell, cb: Cell)
    requires IsCell(TWO_NUMBERS, TWICE, ca) && IsCell(TWO_NUMBERS, NEIGHBOUR, cb)
    ensures forall o :: o in TWO_NUMBERS ==> Agrees(o)
    ensures HexOf(TWICE.id) != HexOf(NEIGHBOUR.id) && ca == cb
  {
    TwoNumbersShow();
    TwoNumbersListed();
    TwoNumbersExtend();
    NothingPastTheNumber(Group(TWO_NUMBERS, OTHER), OTHER, TWICE.id, ca.extension);
    NothingPastTheNumber(Group(TWO_NUMBERS, SHARED), SHARED, NEIGHBOUR.id, cb.extension);
    TwoNumbersAgree();
  }

  lemma {:induction false} TwoNumbersShow()
    ensures |HexOf(TWICE.id)| == 2 == Shown(OTHER) && |HexOf(NEIGHBOUR.id)| == 1 == Shown(SHARED)
  {
    PlainHex(TWICE.id);
    PlainHex(NEIGHBOUR.id);
    ShownIs(SHARED);
    ShownIs(OTHER);
  }

  lemma {:induction false} TwoNumbersAgree()
    ensures forall o :: o in TWO_NUMBERS ==> Agrees(o)
  {
    PlainAgrees(TWICE);
    PlainAgrees(NEIGHBOUR);
    PlainAgrees(ELSEWHERE);
  }

  lemma {:induction false} PlainAgrees(o: Order)
    requires '-' !in o.id && Folded(o.id) && NumberOf(o) != [] && '-' !in NumberOf(o)
    requires |NumberOf(o)| <= |o.id| + 1
    requires forall i :: 1 <= i < |NumberOf(o)| ==> LowerChar(NumberOf(o)[i]) == o.id[i - 1]
    ensures Agrees(o)
  {
    var shown := Drop(NumberOf(o), 1);
    PlainHex(o.id);
    NoHyphens(shown);
    assert forall i :: 0 <= i < |shown| ==> Lower(shown)[i] == o.id[i];
    assert Lower(shown) == o.id[..|shown|];
  }

  lemma {:induction false} FloorSeparates(ids: set<string>, x: string, floor: nat, p: string)
    requires Separates(ids, x, floor) && IsShortId(ids, floor, x, p)
    ensures p == Slice(x, floor)
  {
    assert LeastLength(ids, floor, x, floor);
    var n: nat :| LeastLength(ids, floor, x, n) && p == Slice(x, n);
    SameLeast(ids, floor, x, floor, n);
  }

  lemma {:induction false} NoHyphens(s: string)
    requires '-' !in s
    ensures WithoutHyphens(s) == s
  {
    if s != [] {
      NoHyphens(s[..|s| - 1]);
    }
  }

  // ---- the search reads a cell back ------------------------------------------------------

  predicate IsHexDigit(c: char) {
    '0' <= c <= '9' || 'a' <= c <= 'f' || 'A' <= c <= 'F'
  }

  /** Puts a hyphen back after `at` digits, when the prefix goes past it. */
  function HyphenAt(prefix: string, at: nat): string {
    if |prefix| > at then prefix[..at] + "-" + prefix[at..] else prefix
  }

  /** The id prefix a search typed as a plain hex number stands for. */
  function OrderNumberIdPrefix(search: string): Option<string> {
    if |search| < 6 || search[0] != '#' || !(forall c :: c in search[1..] ==> IsHexDigit(c)) then None
    else Some(HyphenAt(HyphenAt(HyphenAt(HyphenAt(Lower(search[1..]), 20), 16), 12), 8))
  }

  /** A UUID in its stored form: 32 lower-case hex digits in groups of 8, 4, 4, 4 and 12. */
  predicate IsUuid(id: string) {
    |id| == 36 && forall i :: 0 <= i < 36 ==>
      if i in {8, 13, 18, 23} then id[i] == '-' else IsHexDigit(id[i]) && LowerChar(id[i]) == id[i]
  }

  function Digits(id: string): string
    requires |id| == 36
  {
    id[..8] + id[9..13] + id[14..18] + id[19..23] + id[24..]
  }

  lemma {:induction false} HyphenDrops(head: string, rest: string)
    requires '-' !in rest
    ensures WithoutHyphens(head + "-" + rest) == WithoutHyphens(head) + rest
  {
    NoHyphens(rest);
    WithoutHyphensSplits(head + "-", rest);
    assert (head + "-")[..|head|] == head;
  }

  lemma {:induction false} CutAtHyphen(s: string, i: nat, j: nat)
    requires i < j <= |s| && s[i] == '-'
    ensures s[..j] == s[..i] + "-" + s[i + 1..j]
  {
  }

  lemma {:induction false} DropHyphenAt(id: string, i: nat, j: nat)
    requires IsUuid(id) && (i, j) in {(8, 13), (13, 18), (18, 23), (23, 36)}
    ensures WithoutHyphens(id[..j]) == WithoutHyphens(id[..i]) + id[i + 1..j]
  {
    CutAtHyphen(id, i, j);
    HyphenDrops(id[..i], id[i + 1..j]);
  }

  lemma {:induction false} UuidDigits(id: string)
    requires IsUuid(id)
    ensures WithoutHyphens(id) == Digits(id)
  {
    NoHyphens(id[..8]);
    DropHyphenAt(id, 8, 13);
    DropHyphenAt(id, 13, 18);
    DropHyphenAt(id, 18, 23);
    DropHyphenAt(id, 23, 36);
    assert id[..36] == id && id[24..36] == id[24..];
  }

  lemma {:induction false} DigitsAreHex(id: string, k: nat)
    requires IsUuid(id) && k < 32
    ensures IsHexDigit(Digits(id)[k]) && LowerChar(Digits(id)[k]) == Digits(id)[k]
  {
    var at := if k < 8 then k else if k < 12 then k + 1 else if k < 16 then k + 2 else if k < 20 then k + 3 else k + 4;
    assert Digits(id)[k] == id[at];
  }

  lemma {:induction false} FoldBack(s: string)
    requires Folded(s)
    ensures Lower(Upper(s)) == s
  {
  }

  /** The first `n` digits of a UUID, typed as a number in any case, search as a prefix of
      that very id. */
  lemma {:induction false} TypedDigitsFindTheId(id: string, n: nat)
    requires IsUuid(id) && 5 <= n <= 32
    ensures var found := OrderNumberIdPrefix("#" + Upper(Slice(HexOf(id), n))); found.Some? && found.value <= id
  {
    UuidDigits(id);
    var digits := Digits(id)[..n];
    forall k | 0 <= k < 32
      ensures IsHexDigit(Digits(id)[k]) && LowerChar(Digits(id)[k]) == Digits(id)[k]
    {
      DigitsAreHex(id, k);
    }
    assert HexOf(id) == Digits(id);
    var search := "#" + Upper(digits);
    assert search[1..] == Upper(digits);
    FoldBack(digits);
    HyphensGoBack(id, n);
  }

  lemma {:induction false} AHyphenAddsNothing(head: string, rest: string)
    ensures WithoutHyphens(head + "-" + rest) == WithoutHyphens(head + rest)
  {
    assert (head + "-")[..|head|] == head;
    WithoutHyphensSplits(head + "-", rest);
    WithoutHyphensSplits(head, rest);
  }

  lemma {:induction false} HyphenAtAddsNothing(prefix: string, at: nat)
    ensures WithoutHyphens(HyphenAt(prefix, at)) == WithoutHyphens(prefix)
  {
    if |prefix| > at {
      AHyphenAddsNothing(prefix[..at], prefix[at..]);
      assert prefix == prefix[..at] + prefix[at..];
    }
  }

  lemma {:induction false} PrefixWithoutHyphens(p: string, s: string)
    requires p <= s
    ensures WithoutHyphens(p) <= WithoutHyphens(s)
  {
    assert s == p + s[|p|..];
    WithoutHyphensSplits(p, s[|p|..]);
  }

  lemma {:induction false} HexHasNoHyphen(t: string)
    requires forall c :: c in t ==> IsHexDigit(c)
    ensures '-' !in Lower(t)
  {
    forall i | 0 <= i < |t| ensures Lower(t)[i] != '-' {
      assert t[i] in t;
    }
  }

  /** What a typed number finds: nothing below five digits, and otherwise exactly the UUIDs whose
      digits begin as typed, in any case, past every hyphen of the stored form. */
  lemma {:induction false} TypedDigitsFindExactly(t: string, id: string)
    requires IsUuid(id) && forall c :: c in t ==> IsHexDigit(c)
    ensures |t| < 5 ==> OrderNumberIdPrefix("#" + t) == None
    ensures |t| >= 5 ==>
      var found := OrderNumberIdPrefix("#" + t);
      found.Some? && (found.value <= id <==> Lower(t) <= HexOf(id))
  {
    assert ("#" + t)[1..] == t;
    if |t| >= 5 {
      var p := Lower(t);
      var found := HyphenAt(HyphenAt(HyphenAt(HyphenAt(p, 20), 16), 12), 8);
      UuidDigits(id);
      UuidHexIsDigits(id);
      if found <= id {
        FoundIsTyped(p, found, id, t);
      }
      if p <= HexOf(id) {
        assert p == Digits(id)[..|p|];
        HyphensGoBack(id, |p|);
      }
    }
  }

  lemma {:induction false} UuidHexIsDigits(id: string)
    requires IsUuid(id)
    ensures HexOf(id) == Digits(id)
  {
    UuidDigits(id);
    forall k | 0 <= k < 32 ensures LowerChar(Digits(id)[k]) == Digits(id)[k] {
      DigitsAreHex(id, k);
    }
  }

  lemma {:induction false} FoundIsTyped(p: string, found: string, id: string, t: string)
    requires IsUuid(id) && p == Lower(t) && forall c :: c in t ==> IsHexDigit(c)
    requires found == HyphenAt(HyphenAt(HyphenAt(HyphenAt(p, 20), 16), 12), 8) && found <= id
    ensures p <= HexOf(id)
  {
    HexHasNoHyphen(t);
    NoHyphens(p);
    HyphenAtAddsNothing(p, 20);
    HyphenAtAddsNothing(HyphenAt(p, 20), 16);
    HyphenAtAddsNothing(HyphenAt(HyphenAt(p, 20), 16), 12);
    HyphenAtAddsNothing(HyphenAt(HyphenAt(HyphenAt(p, 20), 16), 12), 8);
    PrefixWithoutHyphens(found, id);
    UuidDigits(id);
    UuidHexIsDigits(id);
  }

  /** A hyphen goes back between a head and what follows it. */
  lemma {:induction false} HyphenInserts(head: string, rest: string, prefix: string)
    requires prefix <= head + rest
    ensures HyphenAt(prefix, |head|) <= head + "-" + rest
  {
    var whole := head + rest;
    if |prefix| > |head| {
      assert prefix == whole[..|prefix|];
      assert prefix[..|head|] == head;
      assert prefix[|head|..] == rest[..|prefix| - |head|];
    } else {
      assert prefix == head[..|prefix|];
    }
  }

  lemma {:induction false} HyphenShifts(head: string, next: string, rest: string)
    ensures (head + next) + "-" + rest == head + (next + "-" + rest)
  {
  }

  lemma {:induction false} HyphensGoBack(id: string, n: nat)
    requires IsUuid(id) && n <= 32
    ensures HyphenAt(HyphenAt(HyphenAt(HyphenAt(Digits(id)[..n], 20), 16), 12), 8) <= id
  {
    var a, b, c, d, e := id[..8], id[9..13], id[14..18], id[19..23], id[24..];
    var de, cde, bcde := d + "-" + e, c + "-" + (d + "-" + e), b + "-" + (c + "-" + (d + "-" + e));
    var x0 := Digits(id)[..n];
    assert x0 <= (a + b + c + d) + e;
    HyphenInserts(a + b + c + d, e, x0);
    var x1 := HyphenAt(x0, 20);
    HyphenShifts(a + b + c, d, e);
    HyphenInserts(a + b + c, de, x1);
    var x2 := HyphenAt(x1, 16);
    HyphenShifts(a + b, c, de);
    HyphenInserts(a + b, cde, x2);
    var x3 := HyphenAt(x2, 12);
    HyphenShifts(a, b, cde);
    HyphenInserts(a, bcde, x3);
    UuidParts(id);
  }

  lemma {:induction false} UuidParts(id: string)
    requires IsUuid(id)
    ensures id[..8] + "-" + (id[9..13] + "-" + (id[14..18] + "-" + (id[19..23] + "-" + id[24..]))) == id
  {
    assert id[8] == '-' && id[13] == '-' && id[18] == '-' && id[23] == '-';
  }
}
