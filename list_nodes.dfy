/**
 * The link node of the intrusive list and the shapes a run of nodes can take:
 * a stretch of mutually linked nodes, and the NULL-terminated chain the sort
 * works on. An element embeds its link, so the model lets one node carry both
 * the links and the element's string; the sentinel is a node whose string is
 * never read.
 */
module ListNodes {
  import opened CStrings

  class Node {
    /** The element's own copy of its string; it is never replaced once stored. */
    const value: CString
    var next: Node?
    var prev: Node?

    constructor (s: CString)
      ensures value == s && next == null && prev == null
    {
      value := s;
      next := null;
      prev := null;
    }
  }

  /** The first position of `x` in `s`, or `|s|` when `x` does not occur. */
  function IndexOf<T(==)>(s: seq<T>, x: T): (k: nat)
    ensures k <= |s|
  {
    if s == [] then 0 else if s[0] == x then 0 else 1 + IndexOf(s[1..], x)
  }

  /** No node occurs twice: each is first found at its own position. */
  predicate Distinct<T(==)>(s: seq<T>)
  {
    forall i {:trigger IndexOf(s, s[i])} | 0 <= i < |s| :: IndexOf(s, s[i]) == i
  }

  /** `Distinct` read at every position, for proofs that compare nodes by position. */
  lemma {:induction false} DistinctIndex<T>(s: seq<T>)
    requires Distinct(s)
    ensures forall i | 0 <= i < |s| :: IndexOf(s, s[i]) == i
  {
  }

  /** In a sequence free of repetitions, no other position holds the node at `i`. */
  lemma DistinctAt<T>(s: seq<T>, i: int)
    requires Distinct(s) && 0 <= i < |s|
    ensures forall k | 0 <= k < |s| && k != i :: s[k] != s[i]
  {
    forall k | 0 <= k < |s| && k != i
      ensures s[k] != s[i]
    {
      assert IndexOf(s, s[k]) == k && IndexOf(s, s[i]) == i;
    }
  }

  /** A value not found before position `i` is first found at `i`. */
  lemma {:induction false} IndexOfFirst<T>(s: seq<T>, i: int)
    requires 0 <= i < |s| && forall j | 0 <= j < i :: s[j] != s[i]
    ensures IndexOf(s, s[i]) == i
  {
    if i > 0 {
      assert s[1..][i - 1] == s[i];
      IndexOfFirst(s[1..], i - 1);
    }
  }

  /** `Distinct` is the pairwise form: any two positions hold different nodes. */
  lemma DistinctPairwise<T>(s: seq<T>)
    ensures Distinct(s) <==> forall i, j | 0 <= i < j < |s| :: s[i] != s[j]
  {
    if Distinct(s) {
      DistinctIndex(s);
    }
    if forall i, j | 0 <= i < j < |s| :: s[i] != s[j] {
      forall i | 0 <= i < |s|
        ensures IndexOf(s, s[i]) == i
      {
        IndexOfFirst(s, i);
      }
    }
  }

  /** Putting a node not yet present in front keeps a sequence free of repetitions. */
  lemma DistinctCons<T>(x: T, r: seq<T>)
    requires x !in r && Distinct(r)
    ensures Distinct([x] + r)
  {
    var s := [x] + r;
    forall i | 0 < i < |s|
      ensures IndexOf(s, s[i]) == i
    {
      assert s[1..] == r && s[i] == r[i - 1];
    }
  }

  /** Without its first node, a sequence free of repetitions stays so and lacks that node. */
  lemma DistinctTail<T>(s: seq<T>)
    requires Distinct(s) && s != []
    ensures s[0] !in s[1..] && Distinct(s[1..])
  {
    var r := s[1..];
    DistinctIndex(s);
    forall i | 0 <= i < |r|
      ensures r[i] != s[0] && IndexOf(r, r[i]) == i
    {
      assert r[i] == s[i + 1];
    }
  }

  /** A sequence free of repetitions holds each value at most once. */
  lemma {:induction false} DistinctCount<T>(s: seq<T>, x: T)
    requires Distinct(s)
    ensures multiset(s)[x] <= 1
  {
    if s != [] {
      assert s == [s[0]] + s[1..];
      DistinctTail(s);
      DistinctCount(s[1..], x);
      if x == s[0] {
        assert x !in multiset(s[1..]);
      }
    }
  }

  /** Any part or rearrangement of a sequence free of repetitions has none either. */
  lemma {:induction false} DistinctSub<T>(s: seq<T>, t: seq<T>)
    requires Distinct(s) && multiset(t) <= multiset(s)
    ensures Distinct(t)
    decreases |t|
  {
    if t != [] {
      assert t == [t[0]] + t[1..];
      DistinctCount(s, t[0]);
      DistinctSub(s, t[1..]);
      DistinctCons(t[0], t[1..]);
    }
  }

  /** Appending a node not yet present keeps a sequence free of repetitions. */
  lemma DistinctAppend<T>(s: seq<T>, x: T)
    requires Distinct(s) && x !in s
    ensures Distinct(s + [x])
  {
    DistinctPairwise(s);
    DistinctPairwise(s + [x]);
  }

  /** A slice of a sequence free of repetitions has none either. */
  lemma DistinctSlice<T>(s: seq<T>, lo: int, hi: int)
    requires Distinct(s) && 0 <= lo <= hi <= |s|
    ensures Distinct(s[lo..hi])
  {
    DistinctPairwise(s);
    DistinctPairwise(s[lo..hi]);
  }

  /** Unlinking the node at `i` keeps a sequence free of repetitions, and that node is gone. */
  lemma DistinctRemove<T>(s: seq<T>, i: int)
    requires Distinct(s) && 0 <= i < |s|
    ensures Distinct(s[..i] + s[i + 1..]) && s[i] !in s[..i] + s[i + 1..]
  {
    var t := s[..i] + s[i + 1..];
    assert s == s[..i] + [s[i]] + s[i + 1..];
    assert multiset(s) == multiset(t) + multiset{s[i]};
    DistinctSub(s, t);
    DistinctCount(s, s[i]);
  }

  /** Exchanging the neighbours at `i` and `i + 1` keeps a sequence free of repetitions. */
  lemma DistinctSwap<T>(s: seq<T>, i: int)
    requires Distinct(s) && 0 <= i && i + 1 < |s|
    ensures Distinct(s[i := s[i + 1]][i + 1 := s[i]])
  {
    DistinctPairwise(s);
    DistinctPairwise(s[i := s[i + 1]][i + 1 := s[i]]);
  }

  /** Each node of `s[lo..hi]` but the last links forward to the next, which links back. */
  ghost predicate Linked(s: seq<Node>, lo: int, hi: int)
    requires 0 <= lo && hi <= |s|
    reads s
  {
    forall p {:trigger s[p].next} | lo <= p < hi - 1 :: s[p].next == s[p + 1] && s[p + 1].prev == s[p]
  }

  /**
   * `first` starts a NULL-terminated chain whose nodes are exactly `s`: the
   * shape `q_sort` breaks the ring into. Every node's `prev` is its
   * predecessor in the chain, except the first node's, which is left free.
   */
  ghost predicate IsChain(first: Node?, s: seq<Node>)
    reads s
  {
    Distinct(s) &&
    first == (if s == [] then null else s[0]) &&
    (s != [] ==> s[|s| - 1].next == null) &&
    Linked(s, 0, |s|)
  }

  /** The strings held by the nodes of `s`, in order. */
  function Values(s: seq<Node>): (r: seq<CString>)
    ensures |r| == |s| && forall i | 0 <= i < |s| :: r[i] == s[i].value
  {
    if s == [] then [] else [s[0].value] + Values(s[1..])
  }
}
