/** Following a parent map from child to parent, with the set of ids seen so far. */
module ContainmentChains {
  import opened Options

  /** The id `n` steps above `c`; `None` once the chain has ended. */
  function Ancestor<K>(m: map<K, K>, c: K, n: nat): Option<K> {
    if n == 0 then Some(c)
    else
      var below := Ancestor(m, c, n - 1);
      if below.Some? && below.value in m then Some(m[below.value]) else None
  }

  ghost predicate ChainEnds<K>(m: map<K, K>, c: K) {
    exists n: nat :: Ancestor(m, c, n).None?
  }

  /** No id is above itself. */
  ghost predicate Acyclic<K(!new)>(m: map<K, K>) {
    forall c: K, n: nat :: n >= 1 ==> Ancestor(m, c, n) != Some(c)
  }

  lemma {:induction false} EndedStaysEnded<K>(m: map<K, K>, c: K, i: nat, n: nat)
    requires i <= n && Ancestor(m, c, i).None?
    ensures Ancestor(m, c, n).None?
  {
    if i < n {
      EndedStaysEnded(m, c, i, n - 1);
    }
  }

  /** A chain goes on from an ancestor as it would from a child. */
  lemma {:induction false} Continues<K>(m: map<K, K>, c: K, i: nat, n: nat)
    requires Ancestor(m, c, i).Some?
    ensures Ancestor(m, c, i + n) == Ancestor(m, Ancestor(m, c, i).value, n)
  {
    if n > 0 {
      Continues(m, c, i, n - 1);
    }
  }

  /** A chain that meets itself never ends. */
  lemma {:induction false} RepeatNeverEnds<K>(m: map<K, K>, c: K, i: nat, k: nat, n: nat)
    requires i < k && Ancestor(m, c, i).Some? && Ancestor(m, c, k) == Ancestor(m, c, i)
    ensures Ancestor(m, c, n).Some?
    decreases n
  {
    if n <= k {
      if Ancestor(m, c, n).None? {
        EndedStaysEnded(m, c, n, k);
      }
    } else {
      RepeatNeverEnds(m, c, i, k, n - (k - i));
      Continues(m, c, k, n - k);
      Continues(m, c, i, n - k);
    }
  }

  ghost predicate MeetsItself<K>(m: map<K, K>, c: K, i: nat, k: nat) {
    i < k && Ancestor(m, c, i).Some? && Ancestor(m, c, i) == Ancestor(m, c, k)
  }

  /** The ids on the chain below step `k`. */
  ghost predicate SeenIs<K(!new)>(m: map<K, K>, c: K, k: nat, seen: set<K>) {
    && (forall i: nat :: i < k ==> Ancestor(m, c, i).Some? && Ancestor(m, c, i).value in seen)
    && (forall x: K :: x in seen ==> exists i: nat :: i < k && Ancestor(m, c, i) == Some(x))
  }

  /** The cycle check: follows the parents of `child` until there is none or one repeats.
      Each turn sees an id not seen before, so it stops. */
  method ChainRepeats<K(==, !new)>(m: map<K, K>, child: K) returns (repeats: bool)
    ensures repeats <==> !ChainEnds(m, child)
    ensures repeats <==> exists i: nat, k: nat :: MeetsItself(m, child, i, k)
  {
    var seen := {child};
    var at := if child in m then Some(m[child]) else None;
    ghost var k: nat := 1;
    ghost var ids := {child} + m.Values;
    assert Ancestor(m, child, 0) == Some(child);
    while at.Some?
      invariant k >= 1 && at == Ancestor(m, child, k)
      invariant SeenIs(m, child, k, seen) && seen <= ids
      decreases ids - seen
    {
      if at.value in seen {
        ghost var i: nat :| i < k && Ancestor(m, child, i) == Some(at.value);
        assert MeetsItself(m, child, i, k);
        forall n: nat ensures Ancestor(m, child, n).Some? {
          RepeatNeverEnds(m, child, i, k, n);
        }
        return true;
      }
      InValues(m, child, k);
      SeeOneMore(m, child, k, seen, at.value);
      seen := seen + {at.value};
      at := if at.value in m then Some(m[at.value]) else None;
      k := k + 1;
    }
    forall i: nat, j: nat ensures !MeetsItself(m, child, i, j) {
      if MeetsItself(m, child, i, j) {
        RepeatNeverEnds(m, child, i, j, k);
      }
    }
    return false;
  }

  lemma {:induction false} InValues<K>(m: map<K, K>, c: K, k: nat)
    requires k >= 1 && Ancestor(m, c, k).Some?
    ensures Ancestor(m, c, k).value in m.Values
  {
    assert Ancestor(m, c, k - 1).value in m;
  }

  lemma {:induction false} SeeOneMore<K(!new)>(m: map<K, K>, c: K, k: nat, seen: set<K>, x: K)
    requires SeenIs(m, c, k, seen) && Ancestor(m, c, k) == Some(x)
    ensures SeenIs(m, c, k + 1, seen + {x})
  {
    forall y: K | y in seen + {x} ensures exists i: nat :: i < k + 1 && Ancestor(m, c, i) == Some(y) {
      if y in seen {
        var i: nat :| i < k && Ancestor(m, c, i) == Some(y);
        assert i < k + 1;
      } else {
        assert k < k + 1 && Ancestor(m, c, k) == Some(y);
      }
    }
  }

  /** Every chain ends or meets itself: there are only so many ids. */
  lemma {:induction false} EndsOrMeetsItself<K(!new)>(m: map<K, K>, c: K, k: nat, seen: set<K>)
    requires SeenIs(m, c, k, seen) && k >= 1 && seen <= {c} + m.Values
    ensures ChainEnds(m, c) || exists i: nat, j: nat :: MeetsItself(m, c, i, j)
    decreases {c} + m.Values - seen
  {
    var at := Ancestor(m, c, k);
    if at.Some? {
      if at.value in seen {
        var i: nat :| i < k && Ancestor(m, c, i) == Some(at.value);
        assert MeetsItself(m, c, i, k);
      } else {
        InValues(m, c, k);
        SeeOneMore(m, c, k, seen, at.value);
        EndsOrMeetsItself(m, c, k + 1, seen + {at.value});
      }
    }
  }

  /** Checking the chain of every child finds a cycle exactly when the relation has one,
      wherever it lies. */
  lemma {:induction false} AcyclicExactlyWhenChainsEnd<K(!new)>(m: map<K, K>)
    ensures Acyclic(m) <==> forall c :: c in m ==> ChainEnds(m, c)
  {
    if Acyclic(m) {
      forall c | c in m ensures ChainEnds(m, c) {
        assert Ancestor(m, c, 0) == Some(c);
        EndsOrMeetsItself(m, c, 1, {c});
        if !ChainEnds(m, c) {
          var i: nat, j: nat :| MeetsItself(m, c, i, j);
          Continues(m, c, i, j - i);
        }
      }
    } else {
      var c: K, n: nat :| n >= 1 && Ancestor(m, c, n) == Some(c);
      if Ancestor(m, c, 1).None? {
        EndedStaysEnded(m, c, 1, n);
      }
      assert Ancestor(m, c, 0) == Some(c);
      forall k: nat ensures Ancestor(m, c, k).Some? {
        RepeatNeverEnds(m, c, 0, n, k);
      }
      assert c in m && !ChainEnds(m, c);
    }
  }
}
