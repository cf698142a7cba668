/** The generator of subdivision containment: its checks, its text, and the decoder it emits. */
module IsoContainment {
  import opened AsciiText
  import opened ContainmentChains
  import opened ContainmentTable
  import opened Options
  import opened Sorting
  import opened SplitJoin

  /** One `subgroup` element: the id it is about and the ids it contains. */
  datatype Subgroup = Subgroup(kind: string, contains: seq<string>)

  datatype Link = Link(child: string, parent: string)

  // ---- reading the parents -----------------------------------------------------------------

  function LinksUnder(parent: string, children: seq<string>): seq<Link> {
    if children == [] then []
    else LinksUnder(parent, children[..|children| - 1]) + [Link(children[|children| - 1], parent)]
  }

  /** Every child under a subdivision; a country's own top level is no parent. */
  function Links(groups: seq<Subgroup>): seq<Link> {
    if groups == [] then []
    else
      var g := groups[|groups| - 1];
      Links(groups[..|groups| - 1]) + if Lower(g.kind) == g.kind then LinksUnder(g.kind, g.contains) else []
  }

  ghost predicate OneParentEach(links: seq<Link>) {
    forall i, j :: 0 <= i < j < |links| ==> links[i].child != links[j].child
  }

  ghost predicate Keys(links: seq<Link>, keys: set<string>) {
    forall k :: k in keys <==> exists i :: 0 <= i < |links| && links[i].child == k
  }

  lemma {:induction false} KeysGrow(links: seq<Link>, keys: set<string>, l: Link)
    requires Keys(links, keys) && l.child !in keys && OneParentEach(links)
    ensures Keys(links + [l], keys + {l.child}) && OneParentEach(links + [l])
  {
    forall k ensures k in keys + {l.child} <==> exists i :: 0 <= i < |links + [l]| && (links + [l])[i].child == k {
      if k in keys {
        var i :| 0 <= i < |links| && links[i].child == k;
        assert (links + [l])[i].child == k;
      } else if k == l.child {
        assert (links + [l])[|links|].child == k;
      }
    }
  }

  lemma {:induction false} UnderGrows(parent: string, children: seq<string>, i: nat)
    requires i < |children|
    ensures LinksUnder(parent, children[..i + 1]) == LinksUnder(parent, children[..i]) + [Link(children[i], parent)]
  {
    assert children[..i + 1][..i] == children[..i];
  }

  /** A child met again is a child listed twice. */
  lemma {:induction false} ListedTwice(before: seq<Link>, parent: string, children: seq<string>, i: nat, list: seq<Link>, k: nat)
    requires i < |children| && list == before + LinksUnder(parent, children[..i])
    requires k < |list| && list[k].child == children[i]
    ensures !OneParentEach(before + LinksUnder(parent, children))
  {
    var all := before + LinksUnder(parent, children);
    PrefixOfLinks(parent, children, i);
    PrefixOfLinks(parent, children, i + 1);
    assert all[..|list|] == list;
    assert all[k] == list[k];
    assert all[|list|].child == children[i];
  }

  /** Adds one element's children; `None` where a child already has a parent. */
  method AddSubgroup(before: seq<Link>, keysBefore: set<string>, g: Subgroup)
    returns (links: Option<seq<Link>>, keys: set<string>)
    requires OneParentEach(before) && Keys(before, keysBefore)
    ensures links.Some? <==> OneParentEach(before + LinksUnder(g.kind, g.contains))
    ensures links.Some? ==> links.value == before + LinksUnder(g.kind, g.contains) && Keys(links.value, keys)
  {
    var list := before;
    keys := keysBefore;
    for i := 0 to |g.contains|
      invariant list == before + LinksUnder(g.kind, g.contains[..i])
      invariant OneParentEach(list) && Keys(list, keys)
    {
      var child := g.contains[i];
      if child in keys {
        ghost var k :| 0 <= k < |list| && list[k].child == child;
        ListedTwice(before, g.kind, g.contains, i, list, k);
        return None, keys;
      }
      KeysGrow(list, keys, Link(child, g.kind));
      UnderGrows(g.kind, g.contains, i);
      list := list + [Link(child, g.kind)];
      keys := keys + {child};
    }
    assert g.contains[..|g.contains|] == g.contains;
    links := Some(list);
  }

  lemma {:induction false} PrefixOfLinks(parent: string, children: seq<string>, n: nat)
    requires n <= |children|
    ensures |LinksUnder(parent, children)| == |children|
    ensures |LinksUnder(parent, children[..n])| == n
    ensures LinksUnder(parent, children)[..n] == LinksUnder(parent, children[..n])
    ensures n > 0 ==> LinksUnder(parent, children)[n - 1] == Link(children[n - 1], parent)
    decreases |children|
  {
    if children != [] {
      var init := children[..|children| - 1];
      if n < |children| {
        PrefixOfLinks(parent, init, n);
        assert init[..n] == children[..n];
      } else {
        PrefixOfLinks(parent, init, |init|);
        assert init[..|init|] == init && children[..n] == children;
      }
    }
  }

  // ---- which subgroups those links are -----------------------------------------------------

  /** A subdivision's id, unlike a country's, has no capital letter. */
  predicate NoCapitals(kind: string) {
    forall i :: 0 <= i < |kind| ==> !('A' <= kind[i] <= 'Z')
  }

  /** How often the subdivisions among the groups list a child. */
  function Listings(groups: seq<Subgroup>, child: string): nat {
    if groups == [] then 0
    else
      var g := groups[|groups| - 1];
      Listings(groups[..|groups| - 1], child) + if NoCapitals(g.kind) then multiset(g.contains)[child] else 0
  }

  /** Some subdivision of that id lists that child. */
  ghost predicate Listed(groups: seq<Subgroup>, l: Link) {
    exists g :: g in groups && NoCapitals(g.kind) && g.kind == l.parent && l.child in g.contains
  }

  function ChildCount(links: seq<Link>, child: string): nat {
    if links == [] then 0
    else ChildCount(links[..|links| - 1], child) + if links[|links| - 1].child == child then 1 else 0
  }

  lemma {:induction false} UncapitalizedIsLower(kind: string)
    ensures Lower(kind) == kind <==> NoCapitals(kind)
  {
    if NoCapitals(kind) {
      assert forall i :: 0 <= i < |kind| ==> Lower(kind)[i] == kind[i];
    } else {
      var i :| 0 <= i < |kind| && 'A' <= kind[i] <= 'Z';
      assert Lower(kind)[i] != kind[i];
    }
  }

  lemma {:induction false} CountsAdd(a: seq<Link>, b: seq<Link>, child: string)
    ensures ChildCount(a + b, child) == ChildCount(a, child) + ChildCount(b, child)
  {
    if b == [] {
      assert a + b == a;
    } else {
      assert (a + b)[..|a + b| - 1] == a + b[..|b| - 1];
      CountsAdd(a, b[..|b| - 1], child);
    }
  }

  lemma {:induction false} UnderCounts(parent: string, children: seq<string>, child: string)
    ensures ChildCount(LinksUnder(parent, children), child) == multiset(children)[child]
  {
    if children != [] {
      var init, last := children[..|children| - 1], children[|children| - 1];
      assert children == init + [last];
      UnderCounts(parent, init, child);
    }
  }

  lemma {:induction false} UnderHas(parent: string, children: seq<string>, l: Link)
    ensures l in LinksUnder(parent, children) <==> l.parent == parent && l.child in children
  {
    if children != [] {
      var init, last := children[..|children| - 1], children[|children| - 1];
      assert children == init + [last];
      UnderHas(parent, init, l);
    }
  }

  /** A child is read as often as subdivisions list it. */
  lemma {:induction false} LinksAreCounted(groups: seq<Subgroup>, child: string)
    ensures ChildCount(Links(groups), child) == Listings(groups, child)
  {
    if groups != [] {
      var init, g := groups[..|groups| - 1], groups[|groups| - 1];
      LinksAreCounted(init, child);
      UncapitalizedIsLower(g.kind);
      UnderCounts(g.kind, g.contains, child);
      CountsAdd(Links(init), LinksUnder(g.kind, g.contains), child);
      assert Links(init) + [] == Links(init);
    }
  }

  /** A link is read exactly where a subdivision lists the child. */
  lemma {:induction false} LinksAreListed(groups: seq<Subgroup>, l: Link)
    ensures l in Links(groups) <==> Listed(groups, l)
  {
    if groups != [] {
      var init, g := groups[..|groups| - 1], groups[|groups| - 1];
      assert groups == init + [g];
      LinksAreListed(init, l);
      UncapitalizedIsLower(g.kind);
      UnderHas(g.kind, g.contains, l);
      LastGroupLists(init, g, l);
    }
  }

  lemma {:induction false} LastGroupLists(init: seq<Subgroup>, g: Subgroup, l: Link)
    ensures Listed(init + [g], l) <==> Listed(init, l) || (NoCapitals(g.kind) && g.kind == l.parent && l.child in g.contains)
  {
    assert forall h :: h in init + [g] <==> h in init || h == g;
  }

  lemma {:induction false} CountedAt(links: seq<Link>, i: nat)
    requires i < |links|
    ensures ChildCount(links, links[i].child) >= 1
  {
    if i < |links| - 1 {
      CountedAt(links[..|links| - 1], i);
    }
  }

  lemma {:induction false} CountedTwice(links: seq<Link>, i: nat, j: nat)
    requires i < j < |links| && links[i].child == links[j].child
    ensures ChildCount(links, links[i].child) >= 2
  {
    if j < |links| - 1 {
      CountedTwice(links[..|links| - 1], i, j);
    } else {
      CountedAt(links[..|links| - 1], i);
    }
  }

  lemma {:induction false} CountFinds(links: seq<Link>, child: string) returns (i: nat)
    requires ChildCount(links, child) >= 1
    ensures i < |links| && links[i].child == child
  {
    if links[|links| - 1].child == child {
      i := |links| - 1;
    } else {
      i := CountFinds(links[..|links| - 1], child);
    }
  }

  lemma {:induction false} CountedOnce(links: seq<Link>, child: string)
    requires OneParentEach(links)
    ensures ChildCount(links, child) <= 1
  {
    if links != [] {
      var init, last := links[..|links| - 1], links[|links| - 1];
      CountedOnce(init, child);
      if last.child == child && ChildCount(init, child) >= 1 {
        var i := CountFinds(init, child);
        assert false;
      }
    }
  }

  /** The parent of every child some subdivision lists, or a refusal exactly when a child is
      listed twice; what a country lists counts for neither. */
  method SubdivisionParents(groups: seq<Subgroup>) returns (links: Option<seq<Link>>)
    ensures links.Some? <==> forall child :: Listings(groups, child) <= 1
    ensures links.Some? ==> forall l :: l in links.value <==> Listed(groups, l)
    ensures links.Some? ==> links.value == Links(groups) && OneParentEach(links.value)
  {
    OneParentIsOneListing(groups);
    forall l ensures l in Links(groups) <==> Listed(groups, l) {
      LinksAreListed(groups, l);
    }
    var list: seq<Link>, keys: set<string> := [], {};
    for i := 0 to |groups|
      invariant list == Links(groups[..i]) && OneParentEach(list) && Keys(list, keys)
    {
      assert groups[..i + 1][..i] == groups[..i];
      LinksGrow(groups, i + 1);
      if Lower(groups[i].kind) != groups[i].kind { continue; }
      var added, more := AddSubgroup(list, keys, groups[i]);
      if added.None? {
        return None;
      }
      list, keys := added.value, more;
    }
    assert groups[..|groups|] == groups;
    links := Some(list);
  }

  /** No child has two parents exactly when none is listed twice. */
  lemma {:induction false} OneParentIsOneListing(groups: seq<Subgroup>)
    ensures OneParentEach(Links(groups)) <==> forall child :: Listings(groups, child) <= 1
  {
    var links := Links(groups);
    if OneParentEach(links) {
      forall child ensures Listings(groups, child) <= 1 {
        LinksAreCounted(groups, child);
        CountedOnce(links, child);
      }
    } else {
      var i, j :| 0 <= i < j < |links| && links[i].child == links[j].child;
      LinksAreCounted(groups, links[i].child);
      CountedTwice(links, i, j);
    }
  }

  lemma {:induction false} LinksGrow(groups: seq<Subgroup>, n: nat)
    requires n <= |groups|
    ensures Links(groups[..n]) <= Links(groups)
    ensures OneParentEach(Links(groups)) ==> OneParentEach(Links(groups[..n]))
    decreases |groups|
  {
    if n == |groups| {
      assert groups[..n] == groups;
    } else {
      var init := groups[..|groups| - 1];
      LinksGrow(init, n);
      assert init[..n] == groups[..n];
    }
  }

  // ---- checking and grouping ---------------------------------------------------------------

  /** The parent map the links make up. */
  function ParentsOf(links: seq<Link>): map<string, string> {
    if links == [] then map[] else ParentsOf(links[..|links| - 1])[links[|links| - 1].child := links[|links| - 1].parent]
  }

  lemma {:induction false} ParentsOfHas(links: seq<Link>)
    ensures forall c :: c in ParentsOf(links) <==> exists l :: l in links && l.child == c
    ensures forall c :: c in ParentsOf(links) ==> Link(c, ParentsOf(links)[c]) in links
  {
    if links != [] {
      var init, last := links[..|links| - 1], links[|links| - 1];
      assert links == init + [last];
      ParentsOfHas(init);
    }
  }

  function Country(id: string): string {
    Upper(Slice(id, 2))
  }

  function Suffix(id: string): string {
    Upper(Drop(id, 2))
  }

  predicate Known(byCountry: map<string, seq<string>>, id: string) {
    Country(id) in byCountry && Suffix(id) in byCountry[Country(id)]
  }

  /** Two regular subdivisions of one country. */
  predicate Proper(byCountry: map<string, seq<string>>, l: Link) {
    Known(byCountry, l.child) && Known(byCountry, l.parent) && Slice(l.child, 2) == Slice(l.parent, 2)
  }

  /** Two regular subdivisions of one country, the two ids beginning alike: upper-cased, each
      is that country's two letters and one of its codes. */
  lemma {:induction false} ProperIs(byCountry: map<string, seq<string>>, l: Link)
    requires forall n :: n in byCountry ==> |n| == 2
    ensures Proper(byCountry, l)
            <==> exists n, c, p :: && n in byCountry && c in byCountry[n] && p in byCountry[n]
                                   && Upper(l.child) == n + c && Upper(l.parent) == n + p
                                   && l.child[..2] == l.parent[..2]
  {
    if Proper(byCountry, l) {
      UpperSplits(l.child);
      UpperSplits(l.parent);
      assert Country(l.child) == Country(l.parent);
    }
    if n, c, p :| n in byCountry && c in byCountry[n] && p in byCountry[n]
                  && Upper(l.child) == n + c && Upper(l.parent) == n + p && l.child[..2] == l.parent[..2]
    {
      UpperParts(l.child, n, c);
      UpperParts(l.parent, n, p);
    }
  }

  lemma {:induction false} UpperSplits(id: string)
    ensures Upper(id) == Country(id) + Suffix(id)
  {
  }

  lemma {:induction false} UpperParts(id: string, n: string, suffix: string)
    requires Upper(id) == n + suffix && |n| == 2
    ensures Country(id) == n && Suffix(id) == suffix
  {
    assert Upper(id)[..2] == n && Upper(id)[2..] == suffix;
    assert Country(id) == Upper(id)[..2] && Suffix(id) == Upper(id)[2..];
  }

  ghost predicate Stems(links: seq<Link>, country: string, parent: string, child: string) {
    exists l :: l in links && IsEntry(l, country, parent, child)
  }

  predicate IsEntry(l: Link, country: string, parent: string, child: string) {
    Country(l.child) == country && Suffix(l.parent) == parent && Suffix(l.child) == child
  }

  /** The table holds the links, each code under its country and its parent. */
  ghost predicate IsTable(links: seq<Link>, rows: seq<Row<string>>) {
    forall n, p, c :: Holds(rows, n, p, c) <==> Stems(links, n, p, c)
  }

  datatype Outcome = Table(rows: seq<Row<string>>) | NotRegular(link: Link) | CycleThrough(child: string)

  lemma {:induction false} TableGrows(links: seq<Link>, rows: seq<Row<string>>, l: Link)
    requires IsTable(links, rows) && DistinctRows(rows)
    ensures var after := AddChild(rows, Country(l.child), Suffix(l.parent), Suffix(l.child));
      IsTable(links + [l], after) && DistinctRows(after)
  {
    var after := AddChild(rows, Country(l.child), Suffix(l.parent), Suffix(l.child));
    AddChildDistinct(rows, Country(l.child), Suffix(l.parent), Suffix(l.child));
    forall n, p, c ensures Holds(after, n, p, c) <==> Stems(links + [l], n, p, c) {
      AddChildHolds(rows, Country(l.child), Suffix(l.parent), Suffix(l.child), n, p, c);
      StemsGrow(links, l, n, p, c);
    }
  }

  lemma {:induction false} StemsGrow(links: seq<Link>, l: Link, n: string, p: string, c: string)
    ensures Stems(links + [l], n, p, c) <==> Stems(links, n, p, c) || IsEntry(l, n, p, c)
  {
    if Stems(links, n, p, c) {
      var k :| k in links && IsEntry(k, n, p, c);
      assert k in links + [l];
    }
    if IsEntry(l, n, p, c) {
      assert l in links + [l];
    }
  }

  /** The first `n` links passed their checks. */
  ghost predicate Checked(byCountry: map<string, seq<string>>, links: seq<Link>, n: nat)
    requires n <= |links|
  {
    forall k :: 0 <= k < n ==> Proper(byCountry, links[k]) && ChainEnds(ParentsOf(links), links[k].child)
  }

  ghost predicate AllProper(byCountry: map<string, seq<string>>, links: seq<Link>) {
    forall l :: l in links ==> Proper(byCountry, l)
  }

  lemma {:induction false} AllChecked(byCountry: map<string, seq<string>>, links: seq<Link>)
    requires Checked(byCountry, links, |links|)
    ensures AllProper(byCountry, links) && Acyclic(ParentsOf(links))
  {
    var parents := ParentsOf(links);
    ParentsOfHas(links);
    AcyclicExactlyWhenChainsEnd(parents);
    forall c | c in parents ensures ChainEnds(parents, c) {
      var l :| l in links && l.child == c;
      var k :| 0 <= k < |links| && links[k] == l;
    }
  }

  lemma {:induction false} RepeatIsACycle(links: seq<Link>, l: Link)
    requires l in links && !ChainEnds(ParentsOf(links), l.child)
    ensures !Acyclic(ParentsOf(links))
  {
    ParentsOfHas(links);
    AcyclicExactlyWhenChainsEnd(ParentsOf(links));
    assert l.child in ParentsOf(links);
  }

  method AddLink(ghost links: seq<Link>, rows: seq<Row<string>>, l: Link) returns (after: seq<Row<string>>)
    requires IsTable(links, rows) && DistinctRows(rows)
    ensures IsTable(links + [l], after) && DistinctRows(after)
  {
    TableGrows(links, rows, l);
    after := AddChild(rows, Country(l.child), Suffix(l.parent), Suffix(l.child));
  }

  /** Returns normally exactly for known codes, one country to a link, and no cycle; the
      table then holds exactly the links, everything in order. */
  method ContainmentByCountry(byCountry: map<string, seq<string>>, links: seq<Link>) returns (r: Outcome)
    requires OneParentEach(links)
    ensures r.Table? <==> AllProper(byCountry, links) && Acyclic(ParentsOf(links))
    ensures r.Table? ==> IsTable(links, r.rows) && RowsOk(r.rows) && InOrder(r.rows, AtMost)
    ensures r.NotRegular? ==> r.link in links && !Proper(byCountry, r.link)
    ensures r.CycleThrough? ==> !ChainEnds(ParentsOf(links), r.child)
  {
    var parents := ParentsOf(links);
    var rows: seq<Row<string>> := [];
    for i := 0 to |links|
      invariant IsTable(links[..i], rows) && DistinctRows(rows)
      invariant Checked(byCountry, links, i)
    {
      var l := links[i];
      if !Proper(byCountry, l) {
        return NotRegular(l);
      }
      var repeats := ChainRepeats(parents, l.child);
      if repeats {
        RepeatIsACycle(links, l);
        return CycleThrough(l.child);
      }
      rows := AddLink(links[..i], rows, l);
      assert links[..i + 1] == links[..i] + [l];
    }
    assert links[..|links|] == links;
    AllChecked(byCountry, links);
    SortTable(links, rows);
    r := Table(SortedRows(rows, AtMost));
  }

  lemma {:induction false} SortTable(links: seq<Link>, rows: seq<Row<string>>)
    requires IsTable(links, rows) && DistinctRows(rows)
    ensures var after := SortedRows(rows, AtMost);
      IsTable(links, after) && RowsOk(after) && InOrder(after, AtMost)
  {
    StringOrder();
    SortedRowsOk(rows, AtMost);
    forall n, p, c ensures Holds(SortedRows(rows, AtMost), n, p, c) <==> Stems(links, n, p, c) {
      SortRowsHolds(rows, AtMost, n, p, c);
    }
  }

  // ---- the emitted text and its decoder ----------------------------------------------------

  function GroupText(g: Group<string>): string {
    g.parent + ":" + Join(g.children, ' ')
  }

  function GroupTexts(groups: seq<Group<string>>): (texts: seq<string>)
    ensures |texts| == |groups| && forall i :: 0 <= i < |groups| ==> texts[i] == GroupText(groups[i])
  {
    seq(|groups|, i requires 0 <= i < |groups| => GroupText(groups[i]))
  }

  /** The emitted constant: per country its groups joined by "|". */
  function Emitted(rows: seq<Row<string>>): seq<(string, string)> {
    if rows == [] then []
    else Emitted(rows[..|rows| - 1]) + [(rows[|rows| - 1].country, Join(GroupTexts(rows[|rows| - 1].groups), '|'))]
  }

  function Code(country: string, suffix: string): string {
    country + "-" + suffix
  }

  function GroupLinks(country: string, parent: string, children: seq<string>): (links: seq<Link>)
    ensures |links| == |children|
    ensures forall i :: 0 <= i < |links| ==> links[i] == Link(Code(country, children[i]), Code(country, parent))
  {
    seq(|children|, i requires 0 <= i < |children| => Link(Code(country, children[i]), Code(country, parent)))
  }

  /** One group decoded: its parent, then its children. */
  function DecodeGroup(country: string, text: string): seq<Link> {
    var parts := Split(text, ':');
    var children := if |parts| > 1 then parts[1] else [];
    GroupLinks(country, parts[0], Split(children, ' '))
  }

  function DecodeGroups(country: string, texts: seq<string>): seq<Link> {
    if texts == [] then []
    else DecodeGroups(country, texts[..|texts| - 1]) + DecodeGroup(country, texts[|texts| - 1])
  }

  /** The decoder the generated module carries. */
  function Decode(lines: seq<(string, string)>): seq<Link> {
    if lines == [] then []
    else
      var (country, text) := lines[|lines| - 1];
      Decode(lines[..|lines| - 1]) + DecodeGroups(country, Split(text, '|'))
  }

  predicate Plain(code: string) {
    ' ' !in code && ':' !in code && '|' !in code
  }

  ghost predicate PlainGroups(groups: seq<Group<string>>) {
    forall i :: 0 <= i < |groups| ==> PlainGroup(groups[i])
  }

  ghost predicate PlainGroup(g: Group<string>) {
    Plain(g.parent) && g.children != [] && forall i :: 0 <= i < |g.children| ==> Plain(g.children[i])
  }

  lemma {:induction false} GroupDecodes(country: string, g: Group<string>)
    requires PlainGroup(g)
    ensures DecodeGroup(country, GroupText(g)) == GroupLinks(country, g.parent, g.children)
    ensures '|' !in GroupText(g)
  {
    var children := Join(g.children, ' ');
    JoinedLacks(g.children, ' ', ':');
    JoinedLacks(g.children, ' ', '|');
    SplitOne(g.parent, ':');
    SplitLast(g.parent, children, ':');
    SplitJoined(g.children, ' ');
    assert GroupText(g) == g.parent + [':'] + children;
  }

  function GroupsLinks(country: string, groups: seq<Group<string>>): seq<Link> {
    if groups == [] then []
    else
      var g := groups[|groups| - 1];
      GroupsLinks(country, groups[..|groups| - 1]) + GroupLinks(country, g.parent, g.children)
  }

  lemma {:induction false} GroupsDecode(country: string, groups: seq<Group<string>>)
    requires PlainGroups(groups)
    ensures DecodeGroups(country, GroupTexts(groups)) == GroupsLinks(country, groups)
  {
    if groups != [] {
      var init := groups[..|groups| - 1];
      assert GroupTexts(groups)[..|groups| - 1] == GroupTexts(init);
      GroupsDecode(country, init);
      assert PlainGroup(groups[|groups| - 1]);
      GroupDecodes(country, groups[|groups| - 1]);
    }
  }

  function TableLinks(rows: seq<Row<string>>): seq<Link> {
    if rows == [] then []
    else TableLinks(rows[..|rows| - 1]) + GroupsLinks(rows[|rows| - 1].country, rows[|rows| - 1].groups)
  }

  ghost predicate PlainRows(rows: seq<Row<string>>) {
    forall i :: 0 <= i < |rows| ==> rows[i].groups != [] && PlainGroups(rows[i].groups)
  }

  /** The decoder reads the emitted text back in its own order. */
  lemma {:induction false} DecodesTheTable(rows: seq<Row<string>>)
    requires PlainRows(rows)
    ensures Decode(Emitted(rows)) == TableLinks(rows)
  {
    if rows != [] {
      var init, last := rows[..|rows| - 1], rows[|rows| - 1];
      DecodesTheTable(init);
      assert Emitted(rows)[..|Emitted(rows)| - 1] == Emitted(init);
      RowDecodes(last);
    }
  }

  lemma {:induction false} RowDecodes(row: Row<string>)
    requires row.groups != [] && PlainGroups(row.groups)
    ensures DecodeGroups(row.country, Split(Join(GroupTexts(row.groups), '|'), '|')) == GroupsLinks(row.country, row.groups)
  {
    forall i | 0 <= i < |row.groups| ensures '|' !in GroupTexts(row.groups)[i] {
      assert PlainGroup(row.groups[i]);
      GroupDecodes(row.country, row.groups[i]);
    }
    SplitJoined(GroupTexts(row.groups), '|');
    GroupsDecode(row.country, row.groups);
  }

  /** What the text looks like: groups between bars, a parent before a colon, its children
      between spaces. */
  lemma {:induction false} TextOfARow()
    ensures Emitted([Row("ES", [Group("AN", ["AL"]), Group("CN", ["GC", "TF"])])]) == [("ES", "AN:AL|CN:GC TF")]
  {
    var an, cn := Group("AN", ["AL"]), Group("CN", ["GC", "TF"]);
    var row := Row("ES", [an, cn]);
    assert ["GC", "TF"][..1] == ["GC"];
    assert Join(["GC", "TF"], ' ') == "GC TF";
    assert GroupText(an) == "AN:AL" && GroupText(cn) == "CN:GC TF";
    assert GroupTexts(row.groups) == ["AN:AL", "CN:GC TF"];
    assert ["AN:AL", "CN:GC TF"][..1] == ["AN:AL"];
    assert Join(["AN:AL", "CN:GC TF"], '|') == "AN:AL|CN:GC TF";
    assert [row][..0] == [];
  }

  // ---- the whole way round -----------------------------------------------------------------

  /** A suffix as the code lists hold it: one to three capitals or digits. */
  predicate IsSuffix(s: string) {
    1 <= |s| <= 3 && forall i :: 0 <= i < |s| ==> 'A' <= s[i] <= 'Z' || '0' <= s[i] <= '9'
  }

  ghost predicate CodeShaped(byCountry: map<string, seq<string>>) {
    forall n, s :: n in byCountry && s in byCountry[n] ==> IsSuffix(s)
  }

  lemma {:induction false} SuffixesArePlain(s: string)
    requires IsSuffix(s)
    ensures Plain(s)
  {
  }

  lemma {:induction false} InGroupLinks(country: string, g: Group<string>, l: Link)
    ensures l in GroupLinks(country, g.parent, g.children)
            <==> exists c :: c in g.children && l == Link(Code(country, c), Code(country, g.parent))
  {
    var links := GroupLinks(country, g.parent, g.children);
    if l in links {
      var i :| 0 <= i < |links| && links[i] == l;
      assert g.children[i] in g.children;
    }
    if exists c :: c in g.children && l == Link(Code(country, c), Code(country, g.parent)) {
      var c :| c in g.children && l == Link(Code(country, c), Code(country, g.parent));
      var i :| 0 <= i < |g.children| && g.children[i] == c;
      assert links[i] == l;
    }
  }

  lemma {:induction false} InGroupsLinks(country: string, groups: seq<Group<string>>, l: Link)
    ensures l in GroupsLinks(country, groups)
            <==> exists p, c :: InGroups(groups, p, c) && l == Link(Code(country, c), Code(country, p))
  {
    if groups != [] {
      var init, g := groups[..|groups| - 1], groups[|groups| - 1];
      assert groups == init + [g];
      InGroupsLinks(country, init, l);
      InGroupLinks(country, g, l);
      forall p, c ensures InGroups(groups, p, c) <==> InGroups(init, p, c) || (g.parent == p && c in g.children) {
        LastGroup(init, g, p, c);
      }
    }
  }

  lemma {:induction false} LastGroup(init: seq<Group<string>>, g: Group<string>, p: string, c: string)
    ensures InGroups(init + [g], p, c) <==> InGroups(init, p, c) || (g.parent == p && c in g.children)
  {
    var groups := init + [g];
    assert forall h :: h in groups <==> h in init || h == g;
  }

  lemma {:induction false} LastRow(init: seq<Row<string>>, r: Row<string>, n: string, p: string, c: string)
    ensures Holds(init + [r], n, p, c) <==> Holds(init, n, p, c) || (r.country == n && InGroups(r.groups, p, c))
  {
    var rows := init + [r];
    assert forall s :: s in rows <==> s in init || s == r;
  }

  lemma {:induction false} InTableLinks(rows: seq<Row<string>>, l: Link)
    ensures l in TableLinks(rows)
            <==> exists n, p, c :: Holds(rows, n, p, c) && l == Link(Code(n, c), Code(n, p))
  {
    if rows != [] {
      var init, r := rows[..|rows| - 1], rows[|rows| - 1];
      assert rows == init + [r];
      InTableLinks(init, l);
      InGroupsLinks(r.country, r.groups, l);
      forall n, p, c ensures Holds(rows, n, p, c) <==> Holds(init, n, p, c) || (r.country == n && InGroups(r.groups, p, c)) {
        LastRow(init, r, n, p, c);
      }
    }
  }

  /** A link as the generated module spells it. */
  function Spelled(l: Link): Link {
    Link(Code(Country(l.child), Suffix(l.child)), Code(Country(l.child), Suffix(l.parent)))
  }

  lemma {:induction false} TableIsPlain(byCountry: map<string, seq<string>>, links: seq<Link>, rows: seq<Row<string>>)
    requires CodeShaped(byCountry) && AllProper(byCountry, links)
    requires IsTable(links, rows) && RowsOk(rows)
    ensures PlainRows(rows)
  {
    forall i | 0 <= i < |rows| ensures rows[i].groups != [] && PlainGroups(rows[i].groups) {
      var r := rows[i];
      assert r in rows;
      forall j | 0 <= j < |r.groups| ensures PlainGroup(r.groups[j]) {
        var g := r.groups[j];
        assert g in r.groups;
        forall k | 0 <= k < |g.children| ensures Plain(g.children[k]) && Plain(g.parent) {
          assert g.children[k] in g.children;
          assert InGroups(r.groups, g.parent, g.children[k]);
          assert Holds(rows, r.country, g.parent, g.children[k]);
          StemsArePlain(byCountry, links, r.country, g.parent, g.children[k]);
        }
        assert Plain(g.parent) by { assert Plain(g.children[0]); }
      }
    }
  }

  lemma {:induction false} StemsArePlain(byCountry: map<string, seq<string>>, links: seq<Link>, n: string, p: string, c: string)
    requires CodeShaped(byCountry) && AllProper(byCountry, links) && Stems(links, n, p, c)
    ensures Plain(p) && Plain(c)
  {
    var l :| l in links && IsEntry(l, n, p, c);
    assert Country(l.child) == Country(l.parent);
    SuffixesArePlain(p);
    SuffixesArePlain(c);
  }

  lemma {:induction false} TableLinkIsALink(links: seq<Link>, rows: seq<Row<string>>, k: Link)
    requires IsTable(links, rows) && k in TableLinks(rows)
    ensures exists l :: l in links && k == Spelled(l)
  {
    InTableLinks(rows, k);
    var n, p, c :| Holds(rows, n, p, c) && k == Link(Code(n, c), Code(n, p));
    var l :| l in links && IsEntry(l, n, p, c);
    assert k == Spelled(l);
  }

  lemma {:induction false} LinkIsATableLink(links: seq<Link>, rows: seq<Row<string>>, l: Link)
    requires IsTable(links, rows) && l in links
    ensures Spelled(l) in TableLinks(rows)
  {
    InTableLinks(rows, Spelled(l));
    assert Stems(links, Country(l.child), Suffix(l.parent), Suffix(l.child));
    assert Holds(rows, Country(l.child), Suffix(l.parent), Suffix(l.child));
  }

  /** The emitted text, decoded by the emitted decoder, gives exactly the links it was made
      from. */
  lemma {:induction false} EmittedTextDecodesToTheLinks(byCountry: map<string, seq<string>>, links: seq<Link>,
                                                        rows: seq<Row<string>>, k: Link)
    requires CodeShaped(byCountry) && AllProper(byCountry, links)
    requires IsTable(links, rows) && RowsOk(rows)
    ensures k in Decode(Emitted(rows)) <==> exists l :: l in links && k == Spelled(l)
  {
    TableIsPlain(byCountry, links, rows);
    DecodesTheTable(rows);
    if k in TableLinks(rows) {
      TableLinkIsALink(links, rows, k);
    }
    if exists l :: l in links && k == Spelled(l) {
      var l :| l in links && k == Spelled(l);
      LinkIsATableLink(links, rows, l);
    }
  }

  /** Every link's spelled child decodes to its spelled parent. */
  ghost predicate DecodesToTheParents(links: seq<Link>, rows: seq<Row<string>>) {
    var decoded := ParentsOf(Decode(Emitted(rows)));
    forall l :: l in links ==> Spelled(l).child in decoded && decoded[Spelled(l).child] == Spelled(l).parent
  }

  /** Links whose children are spelled alike have parents spelled alike: two children that
      differ only in case, which are two children to the reader of the parents, are not put
      under two parents. */
  ghost predicate OneParentSpelled(links: seq<Link>) {
    forall l, m :: l in links && m in links && Spelled(l).child == Spelled(m).child ==> Spelled(l).parent == Spelled(m).parent
  }

  /** The map the generated module builds has exactly the spelled children as its keys, and
      each one's value is the spelled parent of one of its links. */
  lemma {:induction false} DecodedMapHas(byCountry: map<string, seq<string>>, links: seq<Link>, rows: seq<Row<string>>)
    requires CodeShaped(byCountry) && AllProper(byCountry, links)
    requires IsTable(links, rows) && RowsOk(rows)
    ensures var decoded := ParentsOf(Decode(Emitted(rows)));
      && (forall l :: l in links ==> Spelled(l).child in decoded)
      && (forall c :: c in decoded ==> exists l :: l in links && Spelled(l) == Link(c, decoded[c]))
  {
    var list := Decode(Emitted(rows));
    ParentsOfHas(list);
    forall l | l in links ensures Spelled(l).child in ParentsOf(list) {
      EmittedTextDecodesToTheLinks(byCountry, links, rows, Spelled(l));
    }
    forall c | c in ParentsOf(list) ensures exists l :: l in links && Spelled(l) == Link(c, ParentsOf(list)[c]) {
      EmittedTextDecodesToTheLinks(byCountry, links, rows, Link(c, ParentsOf(list)[c]));
    }
  }

  /** The generated map sends each spelled child to its spelled parent exactly when children
      spelled alike have parents spelled alike; it never has another key. */
  lemma {:induction false} DecodedMapIsTheParents(byCountry: map<string, seq<string>>, links: seq<Link>, rows: seq<Row<string>>)
    requires CodeShaped(byCountry) && AllProper(byCountry, links)
    requires IsTable(links, rows) && RowsOk(rows)
    ensures DecodesToTheParents(links, rows) <==> OneParentSpelled(links)
    ensures forall c :: c in ParentsOf(Decode(Emitted(rows))) ==> exists l :: l in links && Spelled(l).child == c
  {
    DecodedMapHas(byCountry, links, rows);
    var decoded := ParentsOf(Decode(Emitted(rows)));
    if OneParentSpelled(links) {
      forall l | l in links ensures decoded[Spelled(l).child] == Spelled(l).parent {
        var m :| m in links && Spelled(m) == Link(Spelled(l).child, decoded[Spelled(l).child]);
      }
    }
  }

  /** Two children that differ only in case under two parents, and the codes that admit them. */
  const CASE_TWINS: seq<Link> := [Link("esgc", "escn"), Link("esGC", "esan")]

  const TWIN_CODES: map<string, seq<string>> := map["ES" := ["GC", "CN", "AN"]]

  lemma {:induction false} TwinSpelling()
    ensures Spelled(CASE_TWINS[0]) == Link("ES-GC", "ES-CN") && Spelled(CASE_TWINS[1]) == Link("ES-GC", "ES-AN")
    ensures Country("esgc") == Country("esGC") == Country("escn") == Country("esan") == "ES"
    ensures Suffix("esgc") == Suffix("esGC") == "GC" && Suffix("escn") == "CN" && Suffix("esan") == "AN"
  {
    assert Upper("es") == "ES" && Upper("gc") == "GC" && Upper("GC") == "GC" && Upper("cn") == "CN" && Upper("an") == "AN";
  }

  /** The failing input: every check passes these links, the generator returns a table for
      them, and no table of them decodes to both parents. */
  lemma {:induction false} CaseTwinsLoseAParent(rows: seq<Row<string>>)
    requires IsTable(CASE_TWINS, rows) && RowsOk(rows)
    ensures OneParentEach(CASE_TWINS) && CodeShaped(TWIN_CODES) && AllProper(TWIN_CODES, CASE_TWINS)
    ensures Acyclic(ParentsOf(CASE_TWINS))
    ensures !DecodesToTheParents(CASE_TWINS, rows)
  {
    TwinSpelling();
    TwinsPassTheChecks();
    TwinsAreAcyclic();
    assert CASE_TWINS[0] in CASE_TWINS && CASE_TWINS[1] in CASE_TWINS;
    DecodedMapIsTheParents(TWIN_CODES, CASE_TWINS, rows);
  }

  lemma {:induction false} TwinsPassTheChecks()
    ensures OneParentEach(CASE_TWINS) && CodeShaped(TWIN_CODES) && AllProper(TWIN_CODES, CASE_TWINS)
  {
    TwinSpelling();
    assert "esgc"[2] != "esGC"[2];
    var codes := TWIN_CODES["ES"];
    assert codes[0] == "GC" && codes[1] == "CN" && codes[2] == "AN";
    assert "GC" in codes && "CN" in codes && "AN" in codes;
    assert Slice("esgc", 2) == Slice("esGC", 2) == Slice("escn", 2) == Slice("esan", 2) == "es";
  }

  lemma {:induction false} TwinsAreAcyclic()
    ensures Acyclic(ParentsOf(CASE_TWINS))
  {
    var m := ParentsOf(CASE_TWINS);
    assert CASE_TWINS[..1] == [CASE_TWINS[0]] && CASE_TWINS[..1][..0] == [];
    assert m.Keys == {"esgc", "esGC"} && m.Values <= {"escn", "esan"} by {
      assert ParentsOf(CASE_TWINS[..1]) == map["esgc" := "escn"];
    }
    assert "escn" !in m && "esan" !in m by {
      assert "escn"[2] != "esgc"[2] && "esan"[2] != "esgc"[2] && "escn"[2] != "esGC"[2] && "esan"[2] != "esGC"[2];
    }
    AcyclicExactlyWhenChainsEnd(m);
    forall c | c in m ensures ChainEnds(m, c) {
      assert Ancestor(m, c, 0) == Some(c);
      assert Ancestor(m, c, 1) == Some(m[c]) && m[c] in m.Values;
      assert Ancestor(m, c, 2).None?;
    }
  }
}
