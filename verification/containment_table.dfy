/** The table the containment generator builds: per country, per parent, its children.

    Rows and groups are kept in order of insertion, as the source's maps keep them, and
    sorted at the end.  Codes are of any type with a total order. */
module ContainmentTable {
  import opened Sorting

  datatype Group<K> = Group(parent: K, children: seq<K>)

  datatype Row<K> = Row(country: K, groups: seq<Group<K>>)

  function AddToGroups<K(==)>(groups: seq<Group<K>>, parent: K, child: K): seq<Group<K>> {
    if groups == [] then [Group(parent, [child])]
    else if groups[0].parent == parent then [Group(parent, groups[0].children + [child])] + groups[1..]
    else [groups[0]] + AddToGroups(groups[1..], parent, child)
  }

  function AddChild<K(==)>(rows: seq<Row<K>>, country: K, parent: K, child: K): seq<Row<K>> {
    if rows == [] then [Row(country, AddToGroups([], parent, child))]
    else if rows[0].country == country then [Row(country, AddToGroups(rows[0].groups, parent, child))] + rows[1..]
    else [rows[0]] + AddChild(rows[1..], country, parent, child)
  }

  ghost predicate InGroups<K(!new)>(groups: seq<Group<K>>, parent: K, child: K) {
    exists g :: g in groups && g.parent == parent && child in g.children
  }

  ghost predicate Holds<K(!new)>(rows: seq<Row<K>>, country: K, parent: K, child: K) {
    exists r :: r in rows && r.country == country && InGroups(r.groups, parent, child)
  }

  /** Each parent once, each with children. */
  ghost predicate GroupsOk<K(!new)>(groups: seq<Group<K>>) {
    && (forall g :: g in groups ==> g.children != [])
    && (forall g, h :: g in groups && h in groups && g.parent == h.parent ==> g == h)
  }

  /** Each country once, each with groups. */
  ghost predicate RowsOk<K(!new)>(rows: seq<Row<K>>) {
    && (forall r :: r in rows ==> r.groups != [] && GroupsOk(r.groups))
    && (forall r, s :: r in rows && s in rows && r.country == s.country ==> r == s)
  }

  lemma {:induction false} SplitHead<T>(s: seq<T>)
    requires s != []
    ensures forall x :: x in s <==> x == s[0] || x in s[1..]
  {
    assert s == [s[0]] + s[1..];
  }

  lemma {:induction false} AddToGroupsHolds<K(!new)>(groups: seq<Group<K>>, parent: K, child: K, p: K, c: K)
    ensures InGroups(AddToGroups(groups, parent, child), p, c)
            <==> InGroups(groups, p, c) || (p == parent && c == child)
  {
    var after := AddToGroups(groups, parent, child);
    SplitHead(after);
    if groups == [] {
      assert after[0] == Group(parent, [child]);
    } else {
      SplitHead(groups);
      assert after[1..] == if groups[0].parent == parent then groups[1..] else AddToGroups(groups[1..], parent, child);
      HeadOrRest(after, p, c);
      HeadOrRest(groups, p, c);
      if groups[0].parent != parent {
        AddToGroupsHolds(groups[1..], parent, child, p, c);
      }
    }
  }

  lemma {:induction false} HeadOrRest<K(!new)>(groups: seq<Group<K>>, p: K, c: K)
    requires groups != []
    ensures InGroups(groups, p, c) <==> (groups[0].parent == p && c in groups[0].children) || InGroups(groups[1..], p, c)
  {
    SplitHead(groups);
    if InGroups(groups, p, c) {
      var g :| g in groups && g.parent == p && c in g.children;
      assert g == groups[0] || g in groups[1..];
    }
  }

  lemma {:induction false} AddToGroupsKeys<K(!new)>(groups: seq<Group<K>>, parent: K, child: K)
    ensures forall g :: g in AddToGroups(groups, parent, child) ==>
              g.parent == parent || (exists h :: h in groups && h.parent == g.parent && h == g)
    ensures AddToGroups(groups, parent, child) != []
  {
    var after := AddToGroups(groups, parent, child);
    SplitHead(after);
    if groups != [] {
      SplitHead(groups);
      if groups[0].parent != parent {
        assert after[1..] == AddToGroups(groups[1..], parent, child);
        AddToGroupsKeys(groups[1..], parent, child);
      } else {
        assert after[1..] == groups[1..];
      }
    }
  }

  ghost predicate Distinct<K(!new)>(groups: seq<Group<K>>) {
    && (forall i :: 0 <= i < |groups| ==> groups[i].children != [])
    && (forall i, j :: 0 <= i < j < |groups| ==> groups[i].parent != groups[j].parent)
  }

  lemma {:induction false} AddToGroupsDistinct<K(!new)>(groups: seq<Group<K>>, parent: K, child: K)
    requires Distinct(groups)
    ensures Distinct(AddToGroups(groups, parent, child))
  {
    if groups != [] && groups[0].parent != parent {
      AddToGroupsDistinct(groups[1..], parent, child);
      var rest := AddToGroups(groups[1..], parent, child);
      AddToGroupsKeys(groups[1..], parent, child);
      forall j | 0 <= j < |rest| ensures rest[j].parent != groups[0].parent {
        assert rest[j] in rest;
        if rest[j].parent != parent {
          var h :| h in groups[1..] && h.parent == rest[j].parent && h == rest[j];
          var k :| 0 <= k < |groups[1..]| && groups[1..][k] == h;
          assert groups[k + 1] == h;
        }
      }
    }
  }

  ghost predicate DistinctRows<K(!new)>(rows: seq<Row<K>>) {
    && (forall i :: 0 <= i < |rows| ==> rows[i].groups != [] && Distinct(rows[i].groups))
    && (forall i, j :: 0 <= i < j < |rows| ==> rows[i].country != rows[j].country)
  }

  lemma {:induction false} RowHeadOrRest<K(!new)>(rows: seq<Row<K>>, n: K, p: K, c: K)
    requires rows != []
    ensures Holds(rows, n, p, c) <==> (rows[0].country == n && InGroups(rows[0].groups, p, c)) || Holds(rows[1..], n, p, c)
  {
    SplitHead(rows);
    if Holds(rows, n, p, c) {
      var r :| r in rows && r.country == n && InGroups(r.groups, p, c);
      assert r == rows[0] || r in rows[1..];
    }
  }

  /** Adding a child adds that child and nothing else. */
  lemma {:induction false} AddChildHolds<K(!new)>(rows: seq<Row<K>>, country: K, parent: K, child: K, n: K, p: K, c: K)
    ensures Holds(AddChild(rows, country, parent, child), n, p, c)
            <==> Holds(rows, n, p, c) || (n == country && p == parent && c == child)
  {
    var after := AddChild(rows, country, parent, child);
    RowHeadOrRest(after, n, p, c);
    if rows == [] {
      AddToGroupsHolds([], parent, child, p, c);
    } else {
      RowHeadOrRest(rows, n, p, c);
      if rows[0].country == country {
        assert after[1..] == rows[1..];
        AddToGroupsHolds(rows[0].groups, parent, child, p, c);
      } else {
        assert after[1..] == AddChild(rows[1..], country, parent, child);
        AddChildHolds(rows[1..], country, parent, child, n, p, c);
      }
    }
  }

  lemma {:induction false} AddChildKeys<K(!new)>(rows: seq<Row<K>>, country: K, parent: K, child: K)
    ensures forall r :: r in AddChild(rows, country, parent, child) ==> r.country == country || r in rows
  {
    var after := AddChild(rows, country, parent, child);
    SplitHead(after);
    if rows != [] {
      SplitHead(rows);
      if rows[0].country != country {
        assert after[1..] == AddChild(rows[1..], country, parent, child);
        AddChildKeys(rows[1..], country, parent, child);
      } else {
        assert after[1..] == rows[1..];
      }
    }
  }

  lemma {:induction false} AddChildDistinct<K(!new)>(rows: seq<Row<K>>, country: K, parent: K, child: K)
    requires DistinctRows(rows)
    ensures DistinctRows(AddChild(rows, country, parent, child))
  {
    if rows == [] {
      AddToGroupsDistinct<K>([], parent, child);
    } else if rows[0].country == country {
      AddToGroupsDistinct(rows[0].groups, parent, child);
      AddToGroupsKeys(rows[0].groups, parent, child);
    } else {
      AddChildDistinct(rows[1..], country, parent, child);
      var rest := AddChild(rows[1..], country, parent, child);
      AddChildKeys(rows[1..], country, parent, child);
      forall j | 0 <= j < |rest| ensures rest[j].country != rows[0].country {
        assert rest[j] in rest;
        if rest[j].country != country {
          var k :| 0 <= k < |rows[1..]| && rows[1..][k] == rest[j];
          assert rows[k + 1] == rest[j];
        }
      }
    }
  }

  // ---- sorting the table -----------------------------------------------------------------

  function ByParent<K>(le: (K, K) -> bool): (Group<K>, Group<K>) -> bool {
    (g: Group<K>, h: Group<K>) => le(g.parent, h.parent)
  }

  function ByCountry<K>(le: (K, K) -> bool): (Row<K>, Row<K>) -> bool {
    (r: Row<K>, s: Row<K>) => le(r.country, s.country)
  }

  lemma {:induction false} KeyOrders<K(!new)>(le: (K, K) -> bool)
    requires TotalPreorder(le)
    ensures TotalPreorder(ByParent(le)) && TotalPreorder(ByCountry(le))
  {
    forall g, h ensures ByParent(le)(g, h) || ByParent(le)(h, g) {
      assert le(g.parent, h.parent) || le(h.parent, g.parent);
    }
    forall r, s ensures ByCountry(le)(r, s) || ByCountry(le)(s, r) {
      assert le(r.country, s.country) || le(s.country, r.country);
    }
    forall f, g, h | ByParent(le)(f, g) && ByParent(le)(g, h) ensures ByParent(le)(f, h) {
      assert le(f.parent, g.parent) && le(g.parent, h.parent);
    }
    forall q, r, s | ByCountry(le)(q, r) && ByCountry(le)(r, s) ensures ByCountry(le)(q, s) {
      assert le(q.country, r.country) && le(r.country, s.country);
    }
  }

  function TidiedGroups<K>(groups: seq<Group<K>>, le: (K, K) -> bool): (r: seq<Group<K>>)
    ensures |r| == |groups|
    ensures forall i :: 0 <= i < |groups| ==> r[i] == Group(groups[i].parent, ToSorted(groups[i].children, le))
  {
    seq(|groups|, i requires 0 <= i < |groups| => Group(groups[i].parent, ToSorted(groups[i].children, le)))
  }

  function SortedGroups<K>(groups: seq<Group<K>>, le: (K, K) -> bool): seq<Group<K>> {
    ToSorted(TidiedGroups(groups, le), ByParent(le))
  }

  function Tidied<K>(rows: seq<Row<K>>, le: (K, K) -> bool): (r: seq<Row<K>>)
    ensures |r| == |rows|
    ensures forall i :: 0 <= i < |rows| ==> r[i] == Row(rows[i].country, SortedGroups(rows[i].groups, le))
  {
    seq(|rows|, i requires 0 <= i < |rows| => Row(rows[i].country, SortedGroups(rows[i].groups, le)))
  }

  function SortedRows<K>(rows: seq<Row<K>>, le: (K, K) -> bool): seq<Row<K>> {
    ToSorted(Tidied(rows, le), ByCountry(le))
  }

  lemma {:induction false} SortKeepsMembers<T(!new)>(s: seq<T>, le: (T, T) -> bool)
    requires TotalPreorder(le)
    ensures Sorted(ToSorted(s, le), le) && forall x :: x in ToSorted(s, le) <==> x in s
  {
    ToSortedSorts(s, le);
    forall x ensures x in ToSorted(s, le) <==> x in s {
      assert x in multiset(ToSorted(s, le)) <==> x in multiset(s);
    }
  }

  lemma {:induction false} TidiedGroupsHold<K(!new)>(groups: seq<Group<K>>, le: (K, K) -> bool, p: K, c: K)
    requires TotalPreorder(le)
    ensures InGroups(TidiedGroups(groups, le), p, c) <==> InGroups(groups, p, c)
    decreases |groups|
  {
    if groups != [] {
      HeadOrRest(groups, p, c);
      HeadOrRest(TidiedGroups(groups, le), p, c);
      assert TidiedGroups(groups, le)[1..] == TidiedGroups(groups[1..], le);
      SortKeepsMembers(groups[0].children, le);
      TidiedGroupsHold(groups[1..], le, p, c);
    }
  }

  lemma {:induction false} SortGroupsHolds<K(!new)>(groups: seq<Group<K>>, le: (K, K) -> bool, p: K, c: K)
    requires TotalPreorder(le)
    ensures InGroups(SortedGroups(groups, le), p, c) <==> InGroups(groups, p, c)
  {
    KeyOrders(le);
    SortKeepsMembers(TidiedGroups(groups, le), ByParent(le));
    TidiedGroupsHold(groups, le, p, c);
  }

  lemma {:induction false} TidiedHolds<K(!new)>(rows: seq<Row<K>>, le: (K, K) -> bool, n: K, p: K, c: K)
    requires TotalPreorder(le)
    ensures Holds(Tidied(rows, le), n, p, c) <==> Holds(rows, n, p, c)
    decreases |rows|
  {
    if rows != [] {
      RowHeadOrRest(rows, n, p, c);
      RowHeadOrRest(Tidied(rows, le), n, p, c);
      assert Tidied(rows, le)[1..] == Tidied(rows[1..], le);
      SortGroupsHolds(rows[0].groups, le, p, c);
      TidiedHolds(rows[1..], le, n, p, c);
    }
  }

  lemma {:induction false} SortRowsHolds<K(!new)>(rows: seq<Row<K>>, le: (K, K) -> bool, n: K, p: K, c: K)
    requires TotalPreorder(le)
    ensures Holds(SortedRows(rows, le), n, p, c) <==> Holds(rows, n, p, c)
  {
    KeyOrders(le);
    SortKeepsMembers(Tidied(rows, le), ByCountry(le));
    TidiedHolds(rows, le, n, p, c);
  }

  /** Countries, parents and children each in order. */
  ghost predicate InOrder<K(!new)>(rows: seq<Row<K>>, le: (K, K) -> bool) {
    && (forall i, j :: 0 <= i < j < |rows| ==> le(rows[i].country, rows[j].country))
    && (forall r :: r in rows ==> GroupsInOrder(r.groups, le))
  }

  ghost predicate GroupsInOrder<K(!new)>(groups: seq<Group<K>>, le: (K, K) -> bool) {
    && (forall i, j :: 0 <= i < j < |groups| ==> le(groups[i].parent, groups[j].parent))
    && (forall g :: g in groups ==> Sorted(g.children, le))
  }

  lemma {:induction false} TidiedGroupsOk<K(!new)>(groups: seq<Group<K>>, le: (K, K) -> bool)
    requires TotalPreorder(le) && Distinct(groups)
    ensures GroupsOk(TidiedGroups(groups, le)) && forall g :: g in TidiedGroups(groups, le) ==> Sorted(g.children, le)
  {
    var tidied := TidiedGroups(groups, le);
    forall g | g in tidied ensures g.children != [] && Sorted(g.children, le) {
      var i :| 0 <= i < |tidied| && tidied[i] == g;
      SortKeepsMembers(groups[i].children, le);
      assert |g.children| == |groups[i].children|;
    }
  }

  lemma {:induction false} SortedGroupsOk<K(!new)>(groups: seq<Group<K>>, le: (K, K) -> bool)
    requires TotalPreorder(le) && Distinct(groups)
    ensures GroupsOk(SortedGroups(groups, le)) && GroupsInOrder(SortedGroups(groups, le), le)
    ensures |SortedGroups(groups, le)| == |groups|
  {
    TidiedGroupsOk(groups, le);
    KeyOrders(le);
    SortKeepsMembers(TidiedGroups(groups, le), ByParent(le));
    var after := SortedGroups(groups, le);
    assert Sorted(after, ByParent(le));
    forall i, j | 0 <= i < j < |after| ensures le(after[i].parent, after[j].parent) {
      assert ByParent(le)(after[i], after[j]);
    }
  }

  lemma {:induction false} OneRowEach<K(!new)>(rows: seq<Row<K>>)
    requires forall i, j :: 0 <= i < j < |rows| ==> rows[i].country != rows[j].country
    ensures forall r, s :: r in rows && s in rows && r.country == s.country ==> r == s
  {
  }

  lemma {:induction false} TidiedRowOk<K(!new)>(rows: seq<Row<K>>, le: (K, K) -> bool, r: Row<K>)
    requires TotalPreorder(le) && DistinctRows(rows) && r in Tidied(rows, le)
    ensures r.groups != [] && GroupsOk(r.groups) && GroupsInOrder(r.groups, le)
  {
    var i :| 0 <= i < |rows| && Tidied(rows, le)[i] == r;
    SortedGroupsOk(rows[i].groups, le);
  }

  lemma {:induction false} TidiedRowsOk<K(!new)>(rows: seq<Row<K>>, le: (K, K) -> bool)
    requires TotalPreorder(le) && DistinctRows(rows)
    ensures RowsOk(Tidied(rows, le)) && forall r :: r in Tidied(rows, le) ==> GroupsInOrder(r.groups, le)
  {
    OneRowEach(Tidied(rows, le));
    forall r | r in Tidied(rows, le) ensures r.groups != [] && GroupsOk(r.groups) && GroupsInOrder(r.groups, le) {
      TidiedRowOk(rows, le, r);
    }
  }

  lemma {:induction false} SortedRowsOk<K(!new)>(rows: seq<Row<K>>, le: (K, K) -> bool)
    requires TotalPreorder(le) && DistinctRows(rows)
    ensures RowsOk(SortedRows(rows, le)) && InOrder(SortedRows(rows, le), le)
  {
    TidiedRowsOk(rows, le);
    KeyOrders(le);
    SortKeepsMembers(Tidied(rows, le), ByCountry(le));
    var after := SortedRows(rows, le);
    assert Sorted(after, ByCountry(le));
    forall i, j | 0 <= i < j < |after| ensures le(after[i].country, after[j].country) {
      assert ByCountry(le)(after[i], after[j]);
    }
  }
}
