/**
 * What the queue operations do to the sequence of elements, as functions on
 * sequences of nodes, and the properties the queue promises about them. The
 * imperative operations in QueueEngine are proved to turn the ring's element
 * sequence into exactly these values.
 */
module QueueSpec {
  import opened CStrings
  import opened ListNodes

  // ---------------------------------------------------------------------
  // q_delete_mid

  /**
   * The index `q_delete_mid` removes from a queue of `n` elements: the lower
   * middle, with at most as many elements before it as after it and at most
   * one fewer.
   */
  function MidIndex(n: nat): (m: nat)
    requires n > 0
    ensures m < n
    ensures m <= n - 1 - m <= m + 1
  {
    (n - 1) / 2
  }

  // ---------------------------------------------------------------------
  // q_reverse

  /** `s` read back to front. */
  function Reverse<T>(s: seq<T>): (r: seq<T>)
    ensures |r| == |s|
    ensures forall k | 0 <= k < |s| :: r[k] == s[|s| - 1 - k]
  {
    if s == [] then [] else [s[|s| - 1]] + Reverse(s[..|s| - 1])
  }

  /** Reversing twice restores the original order. */
  lemma {:induction false} ReverseInvolutive<T>(s: seq<T>)
    ensures Reverse(Reverse(s)) == s
  {
    var r := Reverse(Reverse(s));
    forall k | 0 <= k < |s| ensures r[k] == s[k] {
      assert r[k] == Reverse(s)[|s| - 1 - k];
    }
  }

  /** Reversal keeps a sequence free of repetitions. */
  lemma {:induction false} DistinctReverse<T>(s: seq<T>)
    requires Distinct(s)
    ensures Distinct(Reverse(s))
  {
    DistinctPairwise(s);
    DistinctPairwise(Reverse(s));
  }

  // ---------------------------------------------------------------------
  // q_swap

  /**
   * The position whose element lands at `i` when the adjacent pairs of a
   * sequence of length `n` are exchanged: the other member of its pair, or
   * `i` itself for an unpaired last element.
   */
  function PairMate(i: nat, n: nat): (j: nat)
    requires i < n
    ensures j < n
    ensures j / 2 == i / 2
    ensures j == i <==> i % 2 == 0 && i + 1 == n
  {
    if i % 2 == 1 then i - 1 else if i + 1 < n then i + 1 else i
  }

  lemma PairMateInvolutive(i: nat, n: nat)
    requires i < n
    ensures PairMate(PairMate(i, n), n) == i
  {
    if i % 2 == 1 {
      assert (i - 1) % 2 == 0;
    } else if i + 1 < n {
      assert (i + 1) % 2 == 1;
    }
  }

  /** Exchanges elements 2k and 2k+1 for every full pair; an odd last element stays. */
  function SwapPairs<T>(s: seq<T>): (r: seq<T>)
    ensures |r| == |s|
  {
    if |s| < 2 then s else [s[1], s[0]] + SwapPairs(s[2..])
  }

  /** Position `i` of the swapped sequence holds the element at the position paired with `i`. */
  lemma {:induction false} SwapPairsAt<T>(s: seq<T>)
    ensures forall i | 0 <= i < |s| :: SwapPairs(s)[i] == s[PairMate(i, |s|)]
    decreases |s|
  {
    if |s| >= 2 {
      SwapPairsAt(s[2..]);
      var r := SwapPairs(s);
      forall i | 0 <= i < |s|
        ensures r[i] == s[PairMate(i, |s|)]
      {
        if i >= 2 {
          assert r[i] == SwapPairs(s[2..])[i - 2];
        }
      }
    }
  }

  /**
   * The state of `q_swap`'s walk over the original sequence `s0`: the first
   * `k` elements of `e` are final and swapping the pairs of the rest
   * finishes the job.
   */
  predicate SwapWalk<T(==)>(s0: seq<T>, e: seq<T>, k: nat)
  {
    k <= |e| && e[..k] + SwapPairs(e[k..]) == SwapPairs(s0)
  }

  /** The walk starts with nothing done. */
  lemma SwapWalkStart<T>(s0: seq<T>)
    ensures SwapWalk(s0, s0, 0)
  {
    assert s0[0..] == s0;
  }

  /**
   * One step of the walk: exchanging the pair at `k` and moving past it
   * keeps the walk on course.
   */
  lemma SwapWalkStep<T>(s0: seq<T>, e: seq<T>, k: nat)
    requires SwapWalk(s0, e, k) && k + 1 < |e|
    ensures SwapWalk(s0, e[k := e[k + 1]][k + 1 := e[k]], k + 2)
  {
    var t := e[k := e[k + 1]][k + 1 := e[k]];
    var u := e[k..];
    assert u[2..] == e[k + 2..] && t[k + 2..] == e[k + 2..];
    assert SwapPairs(u) == [e[k + 1], e[k]] + SwapPairs(e[k + 2..]);
    assert t[..k + 2] == e[..k] + [e[k + 1], e[k]];
  }

  /** When at most one element is left, the walk has produced the swapped sequence. */
  lemma {:induction false} SwapWalkDone<T>(s0: seq<T>, e: seq<T>, k: nat)
    requires SwapWalk(s0, e, k) && |e| <= k + 1
    ensures e == SwapPairs(s0)
  {
    assert e == e[..k] + e[k..];
  }

  /** Swapping the pairs twice restores the original order. */
  lemma {:induction false} SwapPairsInvolutive<T>(s: seq<T>)
    ensures SwapPairs(SwapPairs(s)) == s
  {
    var r := SwapPairs(SwapPairs(s));
    SwapPairsAt(s);
    SwapPairsAt(SwapPairs(s));
    forall i | 0 <= i < |s| ensures r[i] == s[i] {
      PairMateInvolutive(i, |s|);
    }
  }

  /** The two examples of pairwise swapping: an even and an odd queue. */
  lemma SwapPairsExamples<T>(a: T, b: T, c: T, d: T)
    ensures SwapPairs([a, b, c, d]) == [b, a, d, c]
    ensures SwapPairs([a, b, c]) == [b, a, c]
  {
    assert [a, b, c, d][2..] == [c, d];
    assert [a, b, c][2..] == [c];
  }

  // ---------------------------------------------------------------------
  // q_delete_dup

  /**
   * The walk of `q_delete_dup`: while the current node's string equals its
   * successor's, the successor is deleted; otherwise the walk moves on.
   */
  function CollapseRuns(s: seq<Node>): (r: seq<Node>)
    ensures |r| <= |s|
    ensures s != [] ==> r != [] && r[0] == s[0]
    ensures forall x | x in r :: x in s
    decreases |s|
  {
    if |s| <= 1 then s
    else if s[0].value == s[1].value then CollapseRuns([s[0]] + s[2..])
    else [s[0]] + CollapseRuns(s[1..])
  }

  /**
   * One deletion of the walk: with the node at `k` equal to its successor,
   * dropping the successor leaves the walk's outcome from `k` unchanged.
   */
  lemma CollapseRunsDropStep(s: seq<Node>, k: nat)
    requires k + 1 < |s| && s[k].value == s[k + 1].value
    ensures var t := s[..k + 1] + s[k + 2..];
            t[..k] + CollapseRuns(t[k..]) == s[..k] + CollapseRuns(s[k..])
  {
    var t := s[..k + 1] + s[k + 2..];
    assert t[..k] == s[..k];
    assert t[k..] == [s[k..][0]] + s[k..][2..];
  }

  /**
   * One move of the walk: a node that differs from its successor, or has
   * none, is kept, and the walk goes on from the next position.
   */
  lemma CollapseRunsKeepStep(s: seq<Node>, k: nat)
    requires k < |s| && (k + 1 == |s| || s[k].value != s[k + 1].value)
    ensures s[..k + 1] + CollapseRuns(s[k + 1..]) == s[..k] + CollapseRuns(s[k..])
  {
    assert s[k..][1..] == s[k + 1..];
    assert s[..k + 1] == s[..k] + [s[k]];
  }

  /** The nodes of `s` whose string differs from `before` and from their predecessor's. */
  function RunHeadsAfter(s: seq<Node>, before: CString): (r: seq<Node>)
    ensures |r| <= |s|
  {
    if s == [] then []
    else (if s[0].value == before then [] else [s[0]]) + RunHeadsAfter(s[1..], s[0].value)
  }

  /**
   * Reference definition: the first node of every run of equal strings, that
   * is, every node whose string differs from the string just before it.
   */
  function RunHeads(s: seq<Node>): (r: seq<Node>)
    ensures |r| <= |s|
  {
    if s == [] then [] else [s[0]] + RunHeadsAfter(s[1..], s[0].value)
  }

  lemma {:induction false} CollapseRunsCons(x: Node, t: seq<Node>)
    ensures CollapseRuns([x] + t) == [x] + RunHeadsAfter(t, x.value)
    decreases |t|
  {
    if t != [] {
      var s := [x] + t;
      assert s[1] == t[0] && s[2..] == t[1..];
      if x.value == t[0].value {
        CollapseRunsCons(x, t[1..]);
      } else {
        assert s[1..] == [t[0]] + t[1..];
        CollapseRunsCons(t[0], t[1..]);
      }
    }
  }

  /** The walk keeps exactly the first node of every run of equal strings. */
  lemma {:induction false} CollapseRunsIsRunHeads(s: seq<Node>)
    ensures CollapseRuns(s) == RunHeads(s)
  {
    if s != [] {
      assert s == [s[0]] + s[1..];
      CollapseRunsCons(s[0], s[1..]);
    }
  }

  /** No two neighbouring nodes hold equal strings. */
  predicate NoAdjacentEqual(s: seq<Node>)
  {
    forall i | 0 <= i < |s| - 1 :: s[i].value != s[i + 1].value
  }

  /** After the walk no two neighbouring elements hold equal strings. */
  lemma {:induction false} CollapseRunsNoAdjacentEqual(s: seq<Node>)
    ensures NoAdjacentEqual(CollapseRuns(s))
    decreases |s|
  {
    if |s| <= 1 {
    } else if s[0].value == s[1].value {
      assert CollapseRuns(s) == CollapseRuns([s[0]] + s[2..]);
      CollapseRunsNoAdjacentEqual([s[0]] + s[2..]);
    } else {
      var m := CollapseRuns(s[1..]);
      var r := [s[0]] + m;
      assert CollapseRuns(s) == r;
      CollapseRunsNoAdjacentEqual(s[1..]);
      forall i | 0 <= i < |r| - 1 ensures r[i].value != r[i + 1].value {
        if i == 0 {
          assert m[0] == s[1..][0] == s[1];
        } else {
          assert r[i] == m[i - 1] && r[i + 1] == m[i];
        }
      }
    }
  }

  /** The set of strings held by the nodes of `s`. */
  function ValueSet(s: seq<Node>): (r: set<CString>)
    ensures forall v :: v in r <==> v in Values(s)
  {
    if s == [] then {}
    else
      assert Values(s) == [s[0].value] + Values(s[1..]);
      {s[0].value} + ValueSet(s[1..])
  }

  /** The walk deletes no string entirely: every string still occurs. */
  lemma {:induction false} CollapseRunsKeepsValues(s: seq<Node>)
    ensures ValueSet(CollapseRuns(s)) == ValueSet(s)
    decreases |s|
  {
    if |s| <= 1 {
    } else if s[0].value == s[1].value {
      var t := [s[0]] + s[2..];
      CollapseRunsKeepsValues(t);
      assert t[1..] == s[2..] == s[1..][1..];
    } else {
      CollapseRunsKeepsValues(s[1..]);
      assert ([s[0]] + CollapseRuns(s[1..]))[1..] == CollapseRuns(s[1..]);
    }
  }

  /** Ascending by `strcmp`, equal strings allowed. */
  predicate Sorted(s: seq<Node>)
  {
    forall i, j | 0 <= i < j < |s| :: Leq(s[i].value, s[j].value)
  }

  /** Strictly ascending by `strcmp`: no string occurs twice. */
  predicate StrictlySorted(s: seq<Node>)
  {
    forall i, j | 0 <= i < j < |s| :: StrCmp(s[i].value, s[j].value) < 0
  }

  /** Dropping the second node keeps a sorted sequence sorted. */
  lemma SortedDropSecond(s: seq<Node>)
    requires Sorted(s) && |s| >= 2
    ensures Sorted([s[0]] + s[2..])
  {
    var t := [s[0]] + s[2..];
    forall i, j | 0 <= i < j < |t| ensures Leq(t[i].value, t[j].value) {
      assert t[j] == s[j + 1];
      assert t[i] == s[if i == 0 then 0 else i + 1];
    }
  }

  /** A node strictly below every node of a strictly ascending sequence can go in front. */
  lemma StrictlySortedCons(x: Node, m: seq<Node>)
    requires StrictlySorted(m) && forall y | y in m :: StrCmp(x.value, y.value) < 0
    ensures StrictlySorted([x] + m)
  {
    var r := [x] + m;
    forall i, j | 0 <= i < j < |r| ensures StrCmp(r[i].value, r[j].value) < 0 {
      if i == 0 {
        assert r[j] == m[j - 1];
      } else {
        assert r[i] == m[i - 1] && r[j] == m[j - 1];
      }
    }
  }

  /**
   * On a sorted queue the walk leaves every string exactly once, in ascending
   * order: none is lost, and none is left twice.
   */
  lemma CollapseRunsOfSorted(s: seq<Node>)
    requires Sorted(s)
    ensures StrictlySorted(CollapseRuns(s))
    ensures ValueSet(CollapseRuns(s)) == ValueSet(s)
  {
    CollapseRunsOfSortedStrict(s);
    CollapseRunsKeepsValues(s);
  }

  /** On a sorted queue the strings the walk leaves are strictly ascending. */
  lemma {:induction false} CollapseRunsOfSortedStrict(s: seq<Node>)
    requires Sorted(s)
    ensures StrictlySorted(CollapseRuns(s))
    decreases |s|
  {
    if |s| <= 1 {
    } else if s[0].value == s[1].value {
      SortedDropSecond(s);
      CollapseRunsOfSortedStrict([s[0]] + s[2..]);
    } else {
      var m := CollapseRuns(s[1..]);
      CollapseRunsOfSortedStrict(s[1..]);
      forall x | x in m ensures StrCmp(s[0].value, x.value) < 0 {
        var k :| 0 <= k < |s| - 1 && s[1..][k] == x;
        assert s[k + 1] == x;
        LessLeqTransitive(s[0].value, s[1].value, x.value);
      }
      StrictlySortedCons(s[0], m);
    }
  }

  // ---------------------------------------------------------------------
  // merge, merge_sort, q_sort

  /**
   * `merge`: repeatedly takes the smaller head of two lists, the first list's
   * on a tie (`strcmp(v1, v2) <= 0`).
   */
  function MergeSeq(a: seq<Node>, b: seq<Node>): seq<Node>
    decreases |a| + |b|
  {
    if a == [] then b
    else if b == [] then a
    else if Leq(a[0].value, b[0].value) then [a[0]] + MergeSeq(a[1..], b)
    else [b[0]] + MergeSeq(a, b[1..])
  }

  /** Merging loses and invents no node: the result is a permutation of both lists together. */
  lemma {:induction false} MergeSeqPermutes(a: seq<Node>, b: seq<Node>)
    ensures multiset(MergeSeq(a, b)) == multiset(a) + multiset(b)
    decreases |a| + |b|
  {
    if a != [] && b != [] {
      if Leq(a[0].value, b[0].value) {
        MergeSeqPermutes(a[1..], b);
        HeadPermutes(a);
        assert MergeSeq(a, b) == [a[0]] + MergeSeq(a[1..], b);
      } else {
        MergeSeqPermutes(a, b[1..]);
        HeadPermutes(b);
        assert MergeSeq(a, b) == [b[0]] + MergeSeq(a, b[1..]);
      }
    }
  }

  /** A non-empty list's nodes are its head together with its tail's nodes. */
  lemma HeadPermutes(s: seq<Node>)
    requires s != []
    ensures multiset(s) == multiset{s[0]} + multiset(s[1..])
  {
    assert s == [s[0]] + s[1..];
  }

  /**
   * Where `merge_sort` cuts a chain of `n >= 2` nodes: the left part takes
   * the ceiling of n/2, so both parts are non-empty.
   */
  function Half(n: nat): (h: nat)
    requires n >= 2
    ensures 0 < h < n
    ensures n - h <= h <= n - h + 1
  {
    (n + 1) / 2
  }

  /** `merge_sort`: sort both halves, then merge them. */
  function MergeSortSeq(s: seq<Node>): seq<Node>
    decreases |s|
  {
    if |s| <= 1 then s
    else
      var h := Half(|s|);
      MergeSeq(MergeSortSeq(s[..h]), MergeSortSeq(s[h..]))
  }

  /** The sort loses and invents no node: the result is a permutation of its input. */
  lemma {:induction false} MergeSortSeqPermutes(s: seq<Node>)
    ensures multiset(MergeSortSeq(s)) == multiset(s)
    decreases |s|
  {
    if |s| > 1 {
      var h := Half(|s|);
      MergeSortSeqPermutes(s[..h]);
      MergeSortSeqPermutes(s[h..]);
      MergeSeqPermutes(MergeSortSeq(s[..h]), MergeSortSeq(s[h..]));
      SplitPermutes(s, h);
    }
  }

  /** Cutting a sequence in two keeps its nodes: the halves' multisets add up to it. */
  lemma SplitPermutes(s: seq<Node>, h: nat)
    requires h <= |s|
    ensures multiset(s) == multiset(s[..h]) + multiset(s[h..])
  {
    assert s == s[..h] + s[h..];
  }

  lemma SortedCons(x: Node, m: seq<Node>)
    requires Sorted(m)
    requires forall y | y in m :: Leq(x.value, y.value)
    ensures Sorted([x] + m)
  {
    var r := [x] + m;
    forall i, j | 0 <= i < j < |r| ensures Leq(r[i].value, r[j].value) {
      if i == 0 {
        assert r[j] in m;
      } else {
        assert r[i] == m[i - 1] && r[j] == m[j - 1];
      }
    }
  }

  /** Merging two sorted lists gives a sorted list. */
  lemma {:induction false} MergeSeqSorted(a: seq<Node>, b: seq<Node>)
    requires Sorted(a) && Sorted(b)
    ensures Sorted(MergeSeq(a, b))
    decreases |a| + |b|
  {
    if a != [] && b != [] {
      if Leq(a[0].value, b[0].value) {
        var m := MergeSeq(a[1..], b);
        MergeSeqSorted(a[1..], b);
        MergeSeqPermutes(a[1..], b);
        forall y | y in m ensures Leq(a[0].value, y.value) {
          assert y in multiset(m);
          if y in a[1..] {
            var k :| 0 <= k < |a[1..]| && a[1..][k] == y;
            assert a[k + 1] == y;
          } else {
            assert y in multiset(b);
            var k :| 0 <= k < |b| && b[k] == y;
            LeqTransitive(a[0].value, b[0].value, y.value);
          }
        }
        SortedCons(a[0], m);
      } else {
        StrCmpAntisymmetric(a[0].value, b[0].value);
        var m := MergeSeq(a, b[1..]);
        MergeSeqSorted(a, b[1..]);
        MergeSeqPermutes(a, b[1..]);
        forall y | y in m ensures Leq(b[0].value, y.value) {
          assert y in multiset(m);
          if y in b[1..] {
            var k :| 0 <= k < |b[1..]| && b[1..][k] == y;
            assert b[k + 1] == y;
          } else {
            assert y in multiset(a);
            var k :| 0 <= k < |a| && a[k] == y;
            LeqTransitive(b[0].value, a[0].value, y.value);
          }
        }
        SortedCons(b[0], m);
      }
    }
  }

  /** The result of the merge sort is ascending. */
  lemma {:induction false} MergeSortSeqSorted(s: seq<Node>)
    ensures Sorted(MergeSortSeq(s))
    decreases |s|
  {
    if |s| > 1 {
      var h := Half(|s|);
      MergeSortSeqSorted(s[..h]);
      MergeSortSeqSorted(s[h..]);
      MergeSeqSorted(MergeSortSeq(s[..h]), MergeSortSeq(s[h..]));
    }
  }

  /** The nodes of `s` that hold the string `v`, in their order in `s`. */
  function WithValue(s: seq<Node>, v: CString): (r: seq<Node>)
    ensures |r| <= |s|
    ensures forall i | 0 <= i < |r| :: r[i].value == v
  {
    if s == [] then []
    else (if s[0].value == v then [s[0]] else []) + WithValue(s[1..], v)
  }

  lemma {:induction false} WithValueConcat(a: seq<Node>, b: seq<Node>, v: CString)
    ensures WithValue(a + b, v) == WithValue(a, v) + WithValue(b, v)
  {
    if a != [] {
      assert (a + b)[1..] == a[1..] + b;
      WithValueConcat(a[1..], b, v);
    } else {
      assert a + b == b;
    }
  }

  lemma {:induction false} WithValueNone(s: seq<Node>, v: CString)
    requires forall k | 0 <= k < |s| :: s[k].value != v
    ensures WithValue(s, v) == []
  {
    if s != [] {
      WithValueNone(s[1..], v);
    }
  }

  /**
   * Merging keeps, for every string, the nodes holding it in the order of the
   * first list followed by the second: taking the first list's head on a tie
   * is what makes this hold.
   */
  lemma {:induction false} MergeSeqWithValue(a: seq<Node>, b: seq<Node>, v: CString)
    requires Sorted(a)
    ensures WithValue(MergeSeq(a, b), v) == WithValue(a, v) + WithValue(b, v)
    decreases |a| + |b|
  {
    if a == [] {
    } else if b == [] {
      assert WithValue(b, v) == [];
    } else if Leq(a[0].value, b[0].value) {
      MergeSeqWithValue(a[1..], b, v);
      assert MergeSeq(a, b) == [a[0]] + MergeSeq(a[1..], b);
      assert a == [a[0]] + a[1..];
      WithValueLeftStep(a[0], MergeSeq(a[1..], b), a[1..], b, v);
    } else {
      MergeSeqWithValue(a, b[1..], v);
      MergeSeqWithValueTie(a, b[0], v);
      assert MergeSeq(a, b) == [b[0]] + MergeSeq(a, b[1..]);
      assert b == [b[0]] + b[1..];
      WithValueRightStep(b[0], MergeSeq(a, b[1..]), a, b[1..], v);
    }
  }

  /** Taking the first list's head keeps the order of the nodes holding `v`. */
  lemma {:induction false} WithValueLeftStep(x: Node, m: seq<Node>, a: seq<Node>, b: seq<Node>, v: CString)
    requires WithValue(m, v) == WithValue(a, v) + WithValue(b, v)
    ensures WithValue([x] + m, v) == WithValue([x] + a, v) + WithValue(b, v)
  {
    WithValueCons(x, m, v);
    WithValueCons(x, a, v);
  }

  /**
   * Taking the second list's head `y` first keeps the order of the nodes
   * holding `v`, provided the first list holds no `v` when `y` does.
   */
  lemma {:induction false} WithValueRightStep(y: Node, m: seq<Node>, a: seq<Node>, c: seq<Node>, v: CString)
    requires y.value == v ==> WithValue(a, v) == []
    requires WithValue(m, v) == WithValue(a, v) + WithValue(c, v)
    ensures WithValue([y] + m, v) == WithValue(a, v) + WithValue([y] + c, v)
  {
    WithValueCons(y, m, v);
    WithValueCons(y, c, v);
  }

  lemma {:induction false} WithValueCons(x: Node, m: seq<Node>, v: CString)
    ensures WithValue([x] + m, v) == (if x.value == v then [x] else []) + WithValue(m, v)
  {
    assert ([x] + m)[1..] == m;
  }

  /**
   * When the second list's head is taken ahead of a sorted first list, no
   * node of the first list holds that head's string.
   */
  lemma {:induction false} MergeSeqWithValueTie(a: seq<Node>, y: Node, v: CString)
    requires Sorted(a) && a != [] && !Leq(a[0].value, y.value)
    ensures y.value == v ==> WithValue(a, v) == []
  {
    if y.value == v {
      forall k | 0 <= k < |a| ensures a[k].value != v {
        if k > 0 {
          assert Leq(a[0].value, a[k].value);
        }
      }
      WithValueNone(a, v);
    }
  }

  /**
   * The sort is stable: for every string, the nodes holding it keep their
   * relative order.
   */
  lemma {:induction false} MergeSortSeqStable(s: seq<Node>, v: CString)
    ensures WithValue(MergeSortSeq(s), v) == WithValue(s, v)
    decreases |s|
  {
    if |s| > 1 {
      var h := Half(|s|);
      var left, right := s[..h], s[h..];
      var sl, sr := MergeSortSeq(left), MergeSortSeq(right);
      assert MergeSortSeq(s) == MergeSeq(sl, sr);
      MergeSortSeqSorted(left);
      MergeSeqWithValue(sl, sr, v);
      MergeSortSeqStable(left, v);
      MergeSortSeqStable(right, v);
      WithValueConcat(left, right, v);
      assert left + right == s;
    }
  }

  /** Merging two lists whose concatenation is already sorted concatenates them. */
  lemma {:induction false} MergeSeqOfOrdered(a: seq<Node>, b: seq<Node>)
    requires Sorted(a + b)
    ensures MergeSeq(a, b) == a + b
    decreases |a|
  {
    if a == [] {
      assert a + b == b;
    } else if b == [] {
      assert a + b == a;
    } else {
      assert (a + b)[0] == a[0] && (a + b)[|a|] == b[0];
      assert (a + b)[1..] == a[1..] + b;
      MergeSeqOfOrdered(a[1..], b);
    }
  }

  /** Sorting an already sorted queue changes nothing. */
  lemma {:induction false} MergeSortSeqOfSorted(s: seq<Node>)
    requires Sorted(s)
    ensures MergeSortSeq(s) == s
    decreases |s|
  {
    if |s| > 1 {
      var h := Half(|s|);
      assert s[..h] + s[h..] == s;
      assert Sorted(s[..h]) by {
        forall i, j | 0 <= i < j < h ensures Leq(s[..h][i].value, s[..h][j].value) {
          assert s[..h][i] == s[i] && s[..h][j] == s[j];
        }
      }
      assert Sorted(s[h..]) by {
        forall i, j | 0 <= i < j < |s| - h ensures Leq(s[h..][i].value, s[h..][j].value) {
          assert s[h..][i] == s[h + i] && s[h..][j] == s[h + j];
        }
      }
      MergeSortSeqOfSorted(s[..h]);
      MergeSortSeqOfSorted(s[h..]);
      MergeSeqOfOrdered(s[..h], s[h..]);
    }
  }

  /** Sorting twice is sorting once. */
  lemma {:induction false} MergeSortSeqIdempotent(s: seq<Node>)
    ensures MergeSortSeq(MergeSortSeq(s)) == MergeSortSeq(s)
  {
    MergeSortSeqSorted(s);
    MergeSortSeqOfSorted(MergeSortSeq(s));
  }
}
