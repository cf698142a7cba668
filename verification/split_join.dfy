/** `join` and `split` on one separator. */
module SplitJoin {

  function Join<C>(parts: seq<seq<C>>, sep: C): seq<C> {
    if parts == [] then []
    else if |parts| == 1 then parts[0]
    else Join(parts[..|parts| - 1], sep) + [sep] + parts[|parts| - 1]
  }

  /** The text between separators: one part more than there are separators. */
  function Split<C(==)>(s: seq<C>, sep: C): (parts: seq<seq<C>>)
    ensures parts != []
  {
    if s == [] then [[]]
    else
      var init, c := Split(s[..|s| - 1], sep), s[|s| - 1];
      if c == sep then init + [[]] else init[..|init| - 1] + [init[|init| - 1] + [c]]
  }

  /** A last part without the separator splits off whole. */
  lemma {:induction false} SplitLast<C>(head: seq<C>, last: seq<C>, sep: C)
    requires sep !in last
    ensures Split(head + [sep] + last, sep) == Split(head, sep) + [last]
  {
    var s := head + [sep] + last;
    if last == [] {
      assert s[..|s| - 1] == head;
    } else {
      var init := last[..|last| - 1];
      assert s[..|s| - 1] == head + [sep] + init;
      assert last == init + [last[|last| - 1]];
      SplitLast(head, init, sep);
    }
  }

  lemma {:induction false} SplitOne<C>(s: seq<C>, sep: C)
    requires sep !in s
    ensures Split(s, sep) == [s]
  {
    if s != [] {
      var init := s[..|s| - 1];
      assert s == init + [s[|s| - 1]];
      SplitOne(init, sep);
    }
  }

  /** Splitting what was joined gives the parts back. */
  lemma {:induction false} SplitJoined<C>(parts: seq<seq<C>>, sep: C)
    requires parts != [] && forall i :: 0 <= i < |parts| ==> sep !in parts[i]
    ensures Split(Join(parts, sep), sep) == parts
  {
    if |parts| == 1 {
      SplitOne(parts[0], sep);
    } else {
      var init, last := parts[..|parts| - 1], parts[|parts| - 1];
      SplitJoined(init, sep);
      SplitLast(Join(init, sep), last, sep);
      assert parts == init + [last];
    }
  }

  /** A joined text has no character its parts and separator do not have. */
  lemma {:induction false} JoinedLacks<C>(parts: seq<seq<C>>, sep: C, c: C)
    requires c != sep && forall i :: 0 <= i < |parts| ==> c !in parts[i]
    ensures c !in Join(parts, sep)
  {
    if |parts| > 1 {
      JoinedLacks(parts[..|parts| - 1], sep, c);
    }
  }
}
