/**
 * The satisfying-tuple sets and scope lists the Futoshiki model builders
 * compute with itertools: the shared domain, the ordered pairs of an
 * inequality marker, the not-equal pairs, the pairs of cells of a line and
 * the permutations of the domain.
 */
module Tuples {
  import opened CspBase

  /** [1, 2, ..., n]: the domain every open cell starts with. */
  function Domain(n: nat): (d: seq<int>)
    ensures |d| == n
    ensures forall i :: 0 <= i < n ==> d[i] == i + 1
    ensures Distinct(d)
  {
    seq(n, i requires 0 <= i < n => i + 1)
  }

  /** The domain holds exactly the values 1 to n. */
  lemma DomainMembers(n: nat)
    ensures forall v :: v in Domain(n) <==> 1 <= v <= n
  {
    forall v | 1 <= v <= n
      ensures v in Domain(n)
    {
      assert Domain(n)[v - 1] == v;
    }
  }

  /**
   * The pairs (a, b) of the product of the two current domains with a > b
   * for the marker '>', and with a < b for the marker '<'.
   */
  function OrderTuples(marker: char, left: seq<int>, right: seq<int>): (r: set<seq<int>>)
    requires marker == '<' || marker == '>'
    ensures forall t :: t in r <==>
      |t| == 2 && t[0] in left && t[1] in right && (if marker == '>' then t[0] > t[1] else t[0] < t[1])
  {
    var r := set a, b | a in left && b in right && (if marker == '>' then a > b else a < b) :: [a, b];
    assert forall t :: |t| == 2 && t[0] in left && t[1] in right && (if marker == '>' then t[0] > t[1] else t[0] < t[1])
                       ==> t in r by {
      forall t | |t| == 2 && t[0] in left && t[1] in right && (if marker == '>' then t[0] > t[1] else t[0] < t[1])
        ensures t in r
      {
        assert t == [t[0], t[1]];
      }
    }
    r
  }

  /** The pairs of the domain's square whose two values differ. */
  function NotEqualTuples(dom: seq<int>): (r: set<seq<int>>)
    ensures forall t :: t in r <==> |t| == 2 && t[0] in dom && t[1] in dom && t[0] != t[1]
  {
    var r := set a, b | a in dom && b in dom && a != b :: [a, b];
    assert forall t :: |t| == 2 && t[0] in dom && t[1] in dom && t[0] != t[1] ==> t in r by {
      forall t | |t| == 2 && t[0] in dom && t[1] in dom && t[0] != t[1] ensures t in r {
        assert t == [t[0], t[1]];
      }
    }
    r
  }

  /**
   * combinations(line, 2): every pair of entries of the line, the earlier one
   * first, in lexicographic order of their positions.
   */
  function Pairs(line: seq<VarId>): seq<seq<VarId>> {
    if line == [] then []
    else seq(|line| - 1, j requires 0 <= j < |line| - 1 => [line[0], line[j + 1]]) + Pairs(line[1..])
  }

  /** A line of m cells has m(m-1)/2 pairs. */
  lemma {:induction false} PairsCount(line: seq<VarId>)
    ensures |Pairs(line)| == |line| * (|line| - 1) / 2
  {
    if line != [] {
      PairsCount(line[1..]);
      var m := |line|;
      assert |Pairs(line)| == (m - 1) + (m - 1) * (m - 2) / 2;
      assert (m - 1) * (m - 2) + 2 * (m - 1) == m * (m - 1);
    }
  }

  /** The pairs are exactly the entries at two positions a < b, in that order. */
  lemma {:induction false} PairsMembers(line: seq<VarId>, p: seq<VarId>)
    ensures p in Pairs(line) <==> exists a, b :: 0 <= a < b < |line| && p == [line[a], line[b]]
  {
    if line != [] {
      var first := seq(|line| - 1, j requires 0 <= j < |line| - 1 => [line[0], line[j + 1]]);
      assert Pairs(line) == first + Pairs(line[1..]);
      PairsMembers(line[1..], p);
      if p in Pairs(line) {
        if p in first {
          var j :| 0 <= j < |first| && first[j] == p;
          assert p == [line[0], line[j + 1]];
        } else {
          var a, b :| 0 <= a < b < |line[1..]| && p == [line[1..][a], line[1..][b]];
          assert p == [line[a + 1], line[b + 1]];
        }
      }
      if exists a, b :: 0 <= a < b < |line| && p == [line[a], line[b]] {
        var a, b :| 0 <= a < b < |line| && p == [line[a], line[b]];
        if a == 0 {
          assert first[b - 1] == p;
        } else {
          assert p == [line[1..][a - 1], line[1..][b - 1]];
        }
      }
    }
  }

  /**
   * permutations(dom), as a set: every arrangement of the domain's entries,
   * built by inserting the first entry at each position of every arrangement
   * of the rest.
   */
  function Perms(dom: seq<int>): set<seq<int>>
    decreases |dom|
  {
    if dom == [] then {[]}
    else set p, i | p in Perms(dom[1..]) && 0 <= i <= |p| :: p[..i] + [dom[0]] + p[i..]
  }

  lemma MultisetInsert(p: seq<int>, i: nat, x: int)
    requires i <= |p|
    ensures multiset(p[..i] + [x] + p[i..]) == multiset(p) + multiset{x}
  {
    assert p == p[..i] + p[i..];
  }

  lemma MultisetRemove(p: seq<int>, i: nat, dom: seq<int>, q: seq<int>)
    requires dom != [] && i <= |p| && q == p[..i] + [dom[0]] + p[i..]
    requires multiset(q) == multiset(dom)
    ensures multiset(p) == multiset(dom[1..])
  {
    MultisetInsert(p, i, dom[0]);
    assert dom == [dom[0]] + dom[1..];
    var a, b, x := multiset(p), multiset(dom[1..]), multiset{dom[0]};
    assert a + x == b + x;
    forall y
      ensures a[y] == b[y]
    {
      assert (a + x)[y] == (b + x)[y];
    }
  }

  /** Every member of Perms(dom) has the domain's entries. */
  lemma {:induction false} PermsSound(dom: seq<int>, q: seq<int>)
    requires q in Perms(dom)
    ensures multiset(q) == multiset(dom)
    decreases |dom|
  {
    if dom != [] {
      var p, i := PermsParent(dom, q);
      PermsSound(dom[1..], p);
      MultisetInsert(p, i, dom[0]);
      assert multiset(dom) == multiset(dom[1..]) + multiset{dom[0]} by {
        assert dom == [dom[0]] + dom[1..];
      }
    }
  }

  /** A permutation of a non-empty domain is its first entry inserted into a permutation of the rest. */
  lemma PermsParent(dom: seq<int>, q: seq<int>) returns (p: seq<int>, i: nat)
    requires dom != [] && q in Perms(dom)
    ensures p in Perms(dom[1..]) && i <= |p| && q == p[..i] + [dom[0]] + p[i..]
  {
    p, i :| p in Perms(dom[1..]) && 0 <= i <= |p| && q == p[..i] + [dom[0]] + p[i..];
  }

  /** Every rearrangement of the domain is in Perms(dom). */
  lemma {:induction false} PermsComplete(dom: seq<int>, q: seq<int>)
    requires multiset(q) == multiset(dom)
    ensures q in Perms(dom)
    decreases |dom|
  {
    if dom == [] {
      assert |q| == |multiset(q)| == 0;
    } else {
      assert dom == [dom[0]] + dom[1..];
      assert dom[0] in multiset(q);
      var i :| 0 <= i < |q| && q[i] == dom[0];
      var p := q[..i] + q[i + 1..];
      assert p[..i] == q[..i] && p[i..] == q[i + 1..];
      assert q == p[..i] + [dom[0]] + p[i..];
      MultisetRemove(p, i, dom, q);
      PermsComplete(dom[1..], p);
    }
  }

  /** The permutations of the domain are exactly the sequences with the same entries, counted with multiplicity. */
  lemma PermsMembers(dom: seq<int>, q: seq<int>)
    ensures q in Perms(dom) <==> multiset(q) == multiset(dom)
  {
    if q in Perms(dom) {
      PermsSound(dom, q);
    }
    if multiset(q) == multiset(dom) {
      PermsComplete(dom, q);
    }
  }

  /** A list without repeats holds each of its values once. */
  lemma {:induction false} DistinctCounts(t: seq<int>)
    requires Distinct(t)
    ensures forall v :: multiset(t)[v] == if v in t then 1 else 0
  {
    if t != [] {
      assert t == [t[0]] + t[1..];
      assert Distinct(t[1..]) by {
        forall i, j | 0 <= i < j < |t[1..]| ensures t[1..][i] != t[1..][j] {
          assert t[1..][i] == t[i + 1] && t[1..][j] == t[j + 1];
        }
      }
      assert t[0] !in t[1..] by {
        forall j | 0 <= j < |t[1..]| ensures t[1..][j] != t[0] {
          assert t[1..][j] == t[j + 1];
        }
      }
      DistinctCounts(t[1..]);
    }
  }

  /** A list without repeats has as many distinct values as entries. */
  lemma {:induction false} DistinctCard(t: seq<int>)
    requires Distinct(t)
    ensures |Elems(t)| == |t|
  {
    if t != [] {
      assert Distinct(t[1..]) by {
        forall i, j | 0 <= i < j < |t[1..]| ensures t[1..][i] != t[1..][j] {
          assert t[1..][i] == t[i + 1] && t[1..][j] == t[j + 1];
        }
      }
      assert t[0] !in Elems(t[1..]) by {
        forall j | 0 <= j < |t[1..]| ensures t[1..][j] != t[0] {
          assert t[1..][j] == t[j + 1];
        }
      }
      DistinctCard(t[1..]);
      assert Elems(t) == Elems(t[1..]) + {t[0]};
    }
  }

  /** A subset no smaller than its superset is all of it. */
  lemma {:induction false} SubsetFull(a: set<int>, b: set<int>)
    requires a <= b && |a| >= |b|
    ensures a == b
    decreases |a|
  {
    if !exists x :: x in a {
      assert a == {};
      assert |b| == 0;
    } else {
      var x :| x in a;
      assert |a - {x}| == |a| - 1 && |b - {x}| == |b| - 1;
      SubsetFull(a - {x}, b - {x});
      assert a == (a - {x}) + {x} && b == (b - {x}) + {x};
    }
  }

  /**
   * Pigeonhole on the domain: n values of 1..n without repeats are an
   * arrangement of the domain, and an arrangement of the domain is n values
   * of 1..n without repeats.
   */
  lemma ArrangementsOfDomain(t: seq<int>, n: nat)
    ensures (|t| == n && Distinct(t) && forall i :: 0 <= i < |t| ==> t[i] in Domain(n))
            <==> multiset(t) == multiset(Domain(n))
  {
    var d := Domain(n);
    DistinctCounts(d);
    if |t| == n && Distinct(t) && forall i :: 0 <= i < |t| ==> t[i] in d {
      DistinctCard(t);
      DistinctCard(d);
      assert Elems(t) <= Elems(d);
      SubsetFull(Elems(t), Elems(d));
      DistinctCounts(t);
      forall v ensures multiset(t)[v] == multiset(d)[v] {
        assert v in t <==> v in Elems(t);
      }
    }
    if multiset(t) == multiset(d) {
      assert |t| == |multiset(t)| == |multiset(d)| == n;
      forall i | 0 <= i < |t| ensures t[i] in d {
        assert t[i] in multiset(t);
      }
      forall i, j | 0 <= i < j < |t| ensures t[i] != t[j] {
        if t[i] == t[j] {
          RepeatCount(t, i, j);
        }
      }
    }
  }

  /** A value at two positions is counted at least twice. */
  lemma RepeatCount(t: seq<int>, i: nat, j: nat)
    requires i < j < |t| && t[i] == t[j]
    ensures multiset(t)[t[i]] >= 2
  {
    assert t == t[..j] + [t[j]] + t[j + 1..];
    assert t[..j][i] == t[i];
    assert t[i] in multiset(t[..j]);
  }
}
