/** Shortest prefixes that tell the ids of one page apart. */
module ShortIds {
  import opened AsciiText

  const SHORT_ID_MIN := 4

  /** A caller's floor: any number, fractional or not finite. */
  datatype Min = NotFinite | Finite(value: real)

  function Trunc(x: real): int {
    if x >= 0.0 then x.Floor else -((-x).Floor)
  }

  /** A floor can be raised and never lowered; a fractional one is cut to its whole part. */
  function FloorOf(min: Min): (floor: nat)
    ensures floor >= 4
    ensures min.Finite? && min.value >= 4.0 ==> floor as real <= min.value < floor as real + 1.0
    ensures min.NotFinite? || min.value < 4.0 ==> floor == 4
  {
    if min.Finite? && Trunc(min.value) > SHORT_ID_MIN then Trunc(min.value) else SHORT_ID_MIN
  }

  /** At length `n` no other candidate reads as `id` does. */
  ghost predicate Separates(ids: set<string>, id: string, n: nat) {
    forall other :: other in ids && other != id ==> Slice(other, n) != Slice(id, n)
  }

  /** `n` is the least length at or above the floor that separates `id` from the others. */
  ghost predicate LeastLength(ids: set<string>, floor: nat, id: string, n: nat) {
    floor <= n && Separates(ids, id, n) && forall m :: floor <= m < n ==> !Separates(ids, id, m)
  }

  ghost predicate IsShortId(ids: set<string>, floor: nat, id: string, p: string) {
    exists n: nat :: LeastLength(ids, floor, id, n) && p == Slice(id, n)
  }

  /** The whole answer for one set of ids. */
  ghost predicate IsShortIds(ids: set<string>, floor: nat, prefixes: map<string, string>) {
    prefixes.Keys == ids && forall id :: id in ids ==> IsShortId(ids, floor, id, prefixes[id])
  }

  function SetOf(ids: seq<string>): set<string> {
    set id | id in ids
  }

  predicate AllDiffer(candidates: seq<string>, id: string, n: nat) {
    forall other :: other in candidates ==> other == id || Slice(other, n) != Slice(id, n)
  }

  /** Past the longest candidate every prefix is the whole id. */
  lemma {:induction false} WholeIdsSeparate(ids: set<string>, id: string, n: nat)
    requires id in ids && forall other :: other in ids ==> |other| <= n
    ensures Separates(ids, id, n)
  {
    forall other | other in ids && other != id ensures Slice(other, n) != Slice(id, n) {
      assert Slice(other, n) == other && Slice(id, n) == id;
    }
  }

  method Distinct(ids: seq<string>) returns (candidates: seq<string>)
    ensures SetOf(candidates) == SetOf(ids)
    ensures forall i, j :: 0 <= i < j < |candidates| ==> candidates[i] != candidates[j]
  {
    candidates := [];
    for i := 0 to |ids|
      invariant SetOf(candidates) == SetOf(ids[..i])
      invariant forall i, j :: 0 <= i < j < |candidates| ==> candidates[i] != candidates[j]
    {
      assert ids[..i + 1] == ids[..i] + [ids[i]];
      assert SetOf(ids[..i + 1]) == SetOf(ids[..i]) + {ids[i]};
      assert ids[i] in SetOf(candidates) <==> ids[i] in candidates;
      if ids[i] !in candidates {
        assert SetOf(candidates + [ids[i]]) == SetOf(candidates) + {ids[i]};
        candidates := candidates + [ids[i]];
      }
    }
    assert ids[..|ids|] == ids;
  }

  /** The least length in reach, or the whole id when every id is below the floor. */
  method PrefixFor(candidates: seq<string>, id: string, floor: nat, longest: nat) returns (prefix: string)
    requires id in candidates && forall other :: other in candidates ==> |other| <= longest
    ensures IsShortId(SetOf(candidates), floor, id, prefix)
  {
    var ids := SetOf(candidates);
    var n := floor;
    while n <= longest
      invariant floor <= n
      invariant n <= longest || n == floor || !Separates(ids, id, longest)
      invariant forall m :: floor <= m < n ==> !Separates(ids, id, m)
    {
      if AllDiffer(candidates, id, n) {
        assert LeastLength(ids, floor, id, n);
        return Slice(id, n);
      }
      assert !Separates(ids, id, n) by {
        var other :| other in candidates && other != id && Slice(other, n) == Slice(id, n);
        assert other in ids;
      }
      n := n + 1;
    }
    WholeIdsSeparate(ids, id, n);
    assert LeastLength(ids, floor, id, n) && Slice(id, n) == id;
    return id;
  }

  /** Total on its ids, duplicates and ids below the floor included. */
  method ShortIdsFor(ids: seq<string>, min: Min) returns (prefixes: map<string, string>)
    ensures IsShortIds(SetOf(ids), FloorOf(min), prefixes)
  {
    var candidates := Distinct(ids);
    var longest := 0;
    for i := 0 to |candidates|
      invariant forall k :: 0 <= k < i ==> |candidates[k]| <= longest
    {
      longest := if |candidates[i]| > longest then |candidates[i]| else longest;
    }
    prefixes := map[];
    for i := 0 to |candidates|
      invariant prefixes.Keys == SetOf(candidates[..i])
      invariant forall id :: id in prefixes ==> IsShortId(SetOf(ids), FloorOf(min), id, prefixes[id])
    {
      var id := candidates[i];
      var prefix := PrefixFor(candidates, id, FloorOf(min), longest);
      assert candidates[..i + 1] == candidates[..i] + [id];
      assert SetOf(candidates[..i + 1]) == SetOf(candidates[..i]) + {id};
      prefixes := prefixes[id := prefix];
    }
    assert candidates[..|candidates|] == candidates;
  }

  /** The answer depends on the set of ids alone, never on their order or repetition. */
  lemma {:induction false} DependsOnTheSetOnly(ids: set<string>, floor: nat, p: map<string, string>, q: map<string, string>)
    requires IsShortIds(ids, floor, p) && IsShortIds(ids, floor, q)
    ensures p == q
  {
    forall id | id in ids ensures p[id] == q[id] {
      var m: nat :| LeastLength(ids, floor, id, m) && p[id] == Slice(id, m);
      var n: nat :| LeastLength(ids, floor, id, n) && q[id] == Slice(id, n);
      SameLeast(ids, floor, id, m, n);
    }
  }

  lemma {:induction false} SameLeast(ids: set<string>, floor: nat, id: string, m: nat, n: nat)
    requires LeastLength(ids, floor, id, m) && LeastLength(ids, floor, id, n)
    ensures m == n
  {
  }

  /** Distinct ids get distinct prefixes, even where one id begins another or is below the
      floor. */
  lemma {:induction false} DistinctIdsDiffer(ids: set<string>, floor: nat, a: string, b: string, p: string, q: string)
    requires a in ids && b in ids && a != b
    requires IsShortId(ids, floor, a, p) && IsShortId(ids, floor, b, q)
    ensures p != q
  {
    var m: nat :| LeastLength(ids, floor, a, m) && p == Slice(a, m);
    var n: nat :| LeastLength(ids, floor, b, n) && q == Slice(b, n);
    if m <= n {
      ShorterSideDiffers(ids, a, b, m, n);
    } else {
      ShorterSideDiffers(ids, b, a, n, m);
    }
  }

  lemma {:induction false} ShorterSideDiffers(ids: set<string>, a: string, b: string, m: nat, n: nat)
    requires b in ids && a != b && m <= n && Separates(ids, a, m)
    ensures Slice(a, m) != Slice(b, n)
  {
    if |b| >= n && |Slice(a, m)| == n {
      assert m == n;
    } else if |b| <= m {
      assert Slice(b, n) == b == Slice(b, m);
    }
    assert Slice(b, m) != Slice(a, m);
  }

  /** A prefix never reads less than the floor, unless the id itself is shorter, and its last
      character is there only because without it some other id read the same. */
  lemma {:induction false} LastCharacterIsNeeded(ids: set<string>, floor: nat, id: string, p: string)
    requires IsShortId(ids, floor, id, p)
    ensures p <= id && |p| >= (if |id| < floor then |id| else floor)
    ensures |p| > floor ==> exists other :: other in ids && other != id && p[..|p| - 1] == Slice(other, |p| - 1)
  {
    var n: nat :| LeastLength(ids, floor, id, n) && p == Slice(id, n);
    if |p| > floor {
      assert !Separates(ids, id, |p| - 1);
      var other :| other in ids && other != id && Slice(other, |p| - 1) == Slice(id, |p| - 1);
      assert p[..|p| - 1] == Slice(id, |p| - 1);
    }
  }
}
