/**
 * The sort `q_sort` delegates to: `merge` and `merge_sort` work on
 * NULL-terminated chains of nodes, cut out of the ring, and relink them in
 * place. Each is proved to leave a well-formed chain whose nodes, in order,
 * are the ones QueueSpec's `MergeSeq` and `MergeSortSeq` prescribe.
 */
module ListSort {
  import opened CStrings
  import opened ListNodes
  import opened QueueSpec

  /**
   * `merge`: relinks two disjoint chains into one, taking the head of the
   * first on a tie. A NULL argument yields the other chain unchanged.
   */
  method Merge(list1: Node?, list2: Node?, ghost a: seq<Node>, ghost b: seq<Node>)
    returns (newhead: Node?, ghost m: seq<Node>)
    requires IsChain(list1, a) && IsChain(list2, b) && Distinct(a + b)
    modifies a, b
    ensures m == MergeSeq(a, b) && IsChain(newhead, m)
  {
    m := MergeSeq(a, b);
    if list1 == null || list2 == null {
      newhead := if list2 == null then list1 else list2;
      return;
    }
    ghost var ab := a + b;
    MergeSeqDistinct(a, b);
    ChainsSideBySide(list1, list2, a, b, ab);
    var p1, p2, tail, i, q, k, tp := FirstPick(list1, list2, ab, |a|, m);
    newhead := tail;
    LinkRest(p1, p2, tail, ab, |a|, m, i, q, k, tp);
  }

  /**
   * The pick before `merge`'s loop: the head that `strcmp` puts first, the
   * first chain's on a tie, starts the merged chain and is its tail; no link
   * is written yet.
   */
  method FirstPick(list1: Node, list2: Node, ghost ab: seq<Node>, ghost na: int, ghost m: seq<Node>)
    returns (p1: Node?, p2: Node?, tail: Node, ghost i: int, ghost q: int, ghost k: int, ghost tp: int)
    requires 0 < na < |ab| && Distinct(ab) && Distinct(m) && m == MergeSeq(ab[..na], ab[na..])
    requires list1 == ab[0] && list2 == ab[na]
    requires Linked(ab, 0, na) && Linked(ab, na, |ab|) && ab[na - 1].next == null && ab[|ab| - 1].next == null
    ensures Midway(p1, p2, tail, ab, na, m, i, q, k, tp) && k == 1 && tail == m[0]
  {
    p1, p2 := list1, list2;
    i, q, k := 0, na, 0;
    var takeFirst := StrCmp(p1.value, p2.value) <= 0;
    assert ab[0..na] == ab[..na];
    MergeFromIsMergeSeq(ab, na, i, q);
    MergeStep(ab, na, m, i, q, k, takeFirst);
    if takeFirst {
      tail := p1;
      p1 := p1.next;
      LinkedSuffix(ab, i, na, i + 1);
      i, tp := i + 1, i;
    } else {
      tail := p2;
      p2 := p2.next;
      LinkedSuffix(ab, q, |ab|, q + 1);
      q, tp := q + 1, q;
    }
    k := k + 1;
  }

  /**
   * The state of `merge` between picks: `last` ends the merged prefix
   * `m[..k]`, linked in place, and `p1`/`p2` start what is left of the two
   * chains, `ab[i..na]` and `ab[q..]`, whose links are untouched; `tp` is the
   * position of `last` in `ab`.
   */
  ghost predicate Midway(p1: Node?, p2: Node?, last: Node, ab: seq<Node>, na: int,
                         m: seq<Node>, i: int, q: int, k: int, tp: int)
    reads ab, m
  {
    Picked(p1, p2, last, ab, na, m, i, q, k, tp) && Links(ab, na, m, i, q, k)
  }

  /** The part of `Midway` that is about which nodes are where, not about their links. */
  ghost predicate Picked(p1: Node?, p2: Node?, last: Node, ab: seq<Node>, na: int,
                         m: seq<Node>, i: int, q: int, k: int, tp: int)
  {
    Distinct(ab) && Distinct(m) && 0 < na < |ab| &&
    0 <= i <= na <= q <= |ab| && k == i + q - na && 0 < k <= |m| && (i < na || q < |ab|) &&
    p1 == (if i < na then ab[i] else null) &&
    p2 == (if q < |ab| then ab[q] else null) &&
    m[k..] == MergeFrom(ab, na, i, q) &&
    last == m[k - 1] &&
    ((0 < i && tp == i - 1) || (na < q && tp == q - 1)) && last == ab[tp]
  }

  /** The part of `Midway` about links: the merged prefix and both remainders are linked. */
  ghost predicate Links(ab: seq<Node>, na: int, m: seq<Node>, i: int, q: int, k: int)
    reads ab, m
  {
    0 <= i <= na <= q <= |ab| && 0 < k <= |m| &&
    Linked(m, 0, k) && Linked(ab, i, na) && Linked(ab, q, |ab|) &&
    (i < na ==> ab[na - 1].next == null) &&
    (q < |ab| ==> ab[|ab| - 1].next == null)
  }

  /** The loop of `merge`, from the state after the first pick, and the final splice. */
  method LinkRest(list1: Node?, list2: Node?, tail: Node, ghost ab: seq<Node>, ghost na: int,
                  ghost m: seq<Node>, ghost i: int, ghost q: int, ghost k: int, ghost tp: int)
    requires Midway(list1, list2, tail, ab, na, m, i, q, k, tp)
    modifies ab
    ensures IsChain(m[0], m)
  {
    var p1, p2, last := list1, list2, tail;
    ghost var i, q, k, tp := i, q, k, tp;
    while p1 != null && p2 != null
      invariant Midway(p1, p2, last, ab, na, m, i, q, k, tp)
      decreases |ab| - k
    {
      p1, p2, last, i, q, k, tp := Pick(p1, p2, last, ab, na, m, i, q, k, tp);
    }
    LinkLeft(last, p1, p2, ab, na, m, i, q, k, tp);
  }

  /**
   * One round of the loop of `merge`: the head that sorts first (the head of
   * the first chain on a tie) is linked behind `last` and becomes the new last.
   */
  method Pick(p1: Node, p2: Node, last: Node, ghost ab: seq<Node>, ghost na: int,
              ghost m: seq<Node>, ghost i: int, ghost q: int, ghost k: int, ghost tp: int)
    returns (p1': Node?, p2': Node?, last': Node, ghost i': int, ghost q': int, ghost k': int, ghost tp': int)
    requires Midway(p1, p2, last, ab, na, m, i, q, k, tp)
    modifies ab
    ensures Midway(p1', p2', last', ab, na, m, i', q', k', tp') && k' == k + 1
  {
    var takeFirst := StrCmp(p1.value, p2.value) <= 0;
    PickedStep(p1, p2, last, ab, na, m, i, q, k, tp, takeFirst);
    var x := if takeFirst then p1 else p2;
    ghost var xp := if takeFirst then i else q;
    Splice(last, x, m, k, ab, i, na, q, |ab|);
    last' := x;
    p1', p2', i', q' := p1, p2, i, q;
    if takeFirst {
      p1' := p1.next;
      LinkedSuffix(ab, i, na, i + 1);
      i' := i + 1;
    } else {
      p2' := p2.next;
      LinkedSuffix(ab, q, |ab|, q + 1);
      q' := q + 1;
    }
    k', tp' := k + 1, xp;
  }

  /**
   * What one pick does to `Picked`: the head that sorts first is the next
   * node of the merged order, and is at neither end of the splice.
   */
  lemma PickedStep(p1: Node, p2: Node, last: Node, ab: seq<Node>, na: int,
                   m: seq<Node>, i: int, q: int, k: int, tp: int, takeFirst: bool)
    requires Picked(p1, p2, last, ab, na, m, i, q, k, tp)
    requires takeFirst == Leq(p1.value, p2.value)
    ensures k < |m| && m[k] == (if takeFirst then p1 else p2)
    ensures forall p | i <= p < na || q <= p < |ab| :: ab[p] != last
    ensures forall p | i < p < na || q < p < |ab| :: ab[p] != m[k]
    ensures takeFirst ==> Picked(if i + 1 < na then ab[i + 1] else null, p2, p1, ab, na, m, i + 1, q, k + 1, i)
    ensures !takeFirst ==> Picked(p1, if q + 1 < |ab| then ab[q + 1] else null, p2, ab, na, m, i, q + 1, k + 1, q)
  {
    MergeStep(ab, na, m, i, q, k, takeFirst);
    DistinctAt(ab, tp);
    DistinctAt(ab, if takeFirst then i else q);
  }

  /**
   * The end of `merge`: one chain ran out, and the other is linked on whole
   * behind `last`, the last node taken.
   */
  method LinkLeft(last: Node, p1: Node?, p2: Node?, ghost ab: seq<Node>, ghost na: int,
                  ghost m: seq<Node>, ghost i: int, ghost q: int, ghost k: int, ghost tp: int)
    requires Midway(p1, p2, last, ab, na, m, i, q, k, tp) && (p1 == null || p2 == null)
    modifies ab
    ensures IsChain(m[0], m)
  {
    ghost var lo, hi := 0, 0;
    if p2 == null {
      lo, hi := i, na;
    } else {
      lo, hi := q, |ab|;
    }
    assert m[k..] == ab[lo..hi] && m[k] == ab[lo];
    DistinctAt(ab, tp);
    DistinctAt(ab, lo);
    var rest := if p2 == null then p1 else p2;
    Splice(last, rest, m, k, ab, lo, hi, 0, 0);
    JoinChain(m, k, ab, lo, hi);
  }

  /**
   * The splice `merge` performs at every pick: the node `x`, next in the
   * merged order `m`, goes behind `last`, which ends the linked prefix. The
   * chain segments `ab[lo1..hi1]` and `ab[lo2..hi2]` stay linked as long as
   * `last` is not in them and `x` is at most their first node.
   */
  method Splice(last: Node, x: Node, ghost m: seq<Node>, ghost k: int,
                ghost ab: seq<Node>, ghost lo1: int, ghost hi1: int, ghost lo2: int, ghost hi2: int)
    requires Distinct(m) && 1 <= k < |m| && m[k - 1] == last && m[k] == x && Linked(m, 0, k)
    requires 0 <= lo1 && hi1 <= |ab| && 0 <= lo2 && hi2 <= |ab|
    requires forall p | lo1 <= p < hi1 || lo2 <= p < hi2 :: ab[p] != last
    requires forall p | lo1 < p < hi1 || lo2 < p < hi2 :: ab[p] != x
    requires Linked(ab, lo1, hi1) && Linked(ab, lo2, hi2)
    modifies last, x
    ensures Linked(m, 0, k + 1) && last.next == x
    ensures Linked(ab, lo1, hi1) && Linked(ab, lo2, hi2)
    ensures forall p | lo1 <= p < hi1 || lo2 <= p < hi2 :: ab[p].next == old(ab[p].next)
  {
    DistinctAt(m, k);
    DistinctAt(m, k - 1);
    x.prev := last;
    last.next := x;
  }

  /** Merging two lists that share no node gives a list without repetitions. */
  lemma MergeSeqDistinct(a: seq<Node>, b: seq<Node>)
    requires Distinct(a + b)
    ensures Distinct(MergeSeq(a, b))
  {
    MergeSeqPermutes(a, b);
    DistinctSub(a + b, MergeSeq(a, b));
  }

  /** A linked stretch stays linked without its first nodes. */
  lemma LinkedSuffix(s: seq<Node>, lo: int, hi: int, lo2: int)
    requires 0 <= lo <= lo2 && hi <= |s| && Linked(s, lo, hi)
    ensures Linked(s, lo2, hi)
  {
  }

  /**
   * The merge of `ab[i..na]` and `ab[q..]`, read by positions in `ab`: the
   * order `merge` visits the nodes in once it has taken `ab[..i]` and
   * `ab[na..q]`.
   */
  ghost function MergeFrom(ab: seq<Node>, na: int, i: int, q: int): seq<Node>
    requires 0 <= i <= na <= q <= |ab|
    decreases na - i + |ab| - q
  {
    if i == na then ab[q..]
    else if q == |ab| then ab[i..na]
    else if Leq(ab[i].value, ab[q].value) then [ab[i]] + MergeFrom(ab, na, i + 1, q)
    else [ab[q]] + MergeFrom(ab, na, i, q + 1)
  }

  /** Merging by positions is merging the two slices. */
  lemma {:induction false} MergeFromIsMergeSeq(ab: seq<Node>, na: int, i: int, q: int)
    requires 0 <= i <= na <= q <= |ab|
    ensures MergeFrom(ab, na, i, q) == MergeSeq(ab[i..na], ab[q..])
    decreases na - i + |ab| - q
  {
    if i < na && q < |ab| {
      var x, y := ab[i..na], ab[q..];
      assert x[0] == ab[i] && x[1..] == ab[i + 1..na];
      assert y[0] == ab[q] && y[1..] == ab[q + 1..];
      if Leq(ab[i].value, ab[q].value) {
        MergeFromIsMergeSeq(ab, na, i + 1, q);
      } else {
        MergeFromIsMergeSeq(ab, na, i, q + 1);
      }
    }
  }

  /**
   * One pick of the loop of `merge`: the node at position `k` of the merged
   * order is the head that sorts first, and the rest of the order merges what
   * is left.
   */
  lemma MergeStep(ab: seq<Node>, na: int, m: seq<Node>, i: int, q: int, k: int, takeFirst: bool)
    requires 0 <= i < na <= q < |ab| && 0 <= k <= |m|
    requires m[k..] == MergeFrom(ab, na, i, q)
    requires takeFirst == Leq(ab[i].value, ab[q].value)
    ensures k < |m| && m[k] == (if takeFirst then ab[i] else ab[q])
    ensures m[k + 1..] == if takeFirst then MergeFrom(ab, na, i + 1, q) else MergeFrom(ab, na, i, q + 1)
  {
    assert m[k + 1..] == m[k..][1..];
  }

  /** Two chains laid side by side: their links read on the concatenation `ab`. */
  lemma ChainsSideBySide(list1: Node, list2: Node, a: seq<Node>, b: seq<Node>, ab: seq<Node>)
    requires IsChain(list1, a) && IsChain(list2, b) && ab == a + b
    ensures |a| > 0 && |b| > 0 && list1 == ab[0] && list2 == ab[|a|]
    ensures a == ab[..|a|] && b == ab[|a|..] && ab[0..|a|] == a
    ensures Linked(ab, 0, |a|) && Linked(ab, |a|, |ab|)
    ensures ab[|a| - 1].next == null && ab[|ab| - 1].next == null
  {
    forall p | 0 <= p < |a| - 1
      ensures ab[p].next == ab[p + 1] && ab[p + 1].prev == ab[p]
    {
      assert ab[p] == a[p] && ab[p + 1] == a[p + 1];
    }
    forall p | |a| <= p < |ab| - 1
      ensures ab[p].next == ab[p + 1] && ab[p + 1].prev == ab[p]
    {
      assert ab[p] == b[p - |a|] && ab[p + 1] == b[p + 1 - |a|];
    }
  }

  /**
   * A prefix linked up to position `k`, joined to a chain segment `ab[lo..hi]`
   * that makes up the rest, is one NULL-terminated chain.
   */
  lemma JoinChain(m: seq<Node>, k: int, ab: seq<Node>, lo: int, hi: int)
    requires Distinct(m) && 1 <= k < |m| && 0 <= lo < hi <= |ab| && m[k..] == ab[lo..hi]
    requires Linked(m, 0, k + 1) && Linked(ab, lo, hi) && ab[hi - 1].next == null
    ensures IsChain(m[0], m)
  {
    forall p | k <= p < |m| - 1
      ensures m[p].next == m[p + 1] && m[p + 1].prev == m[p]
    {
      assert m[p] == ab[lo + p - k] && m[p + 1] == ab[lo + p + 1 - k];
    }
    assert m[|m| - 1] == ab[hi - 1];
  }

  /**
   * `merge_sort`: a chain of fewer than two nodes is returned as it is;
   * otherwise it is cut behind its middle node, both halves are sorted and
   * the results merged. The first half gets the extra node of an odd length.
   */
  method MergeSort(first: Node?, ghost s: seq<Node>) returns (r: Node?, ghost t: seq<Node>)
    requires IsChain(first, s)
    modifies s
    ensures t == MergeSortSeq(s) && IsChain(r, t)
    decreases |s|, 0
  {
    if first == null || first.next == null {
      r, t := first, s;
      return;
    }
    var slow := FindMiddle(first, s);
    ghost var h := Half(|s|);
    var tmp := Split(slow, s, h);
    HalvesApart(s, h);
    var l1, a := SortAside(first, s[..h], tmp, s[h..]);
    var l2, b := SortAside(tmp, s[h..], l1, a);
    r, t := Merge(l1, l2, a, b);
  }

  /**
   * One recursive call of `merge_sort` as its caller sees it: the chain
   * `other`, which shares no node with `s`, is still the same chain afterwards.
   */
  method SortAside(first: Node?, ghost s: seq<Node>, other: Node?, ghost o: seq<Node>)
    returns (r: Node?, ghost t: seq<Node>)
    requires IsChain(first, s) && IsChain(other, o)
    requires forall x | x in o :: x !in s
    modifies s
    ensures t == MergeSortSeq(s) && IsChain(r, t) && IsChain(other, o)
    decreases |s|, 1
  {
    r, t := MergeSort(first, s);
    forall p | 0 <= p < |o| - 1
      ensures o[p].next == o[p + 1] && o[p + 1].prev == o[p]
    {
      assert o[p] in o && o[p + 1] in o;
      assert old(o[p].next) == o[p + 1] && old(o[p + 1].prev) == o[p];
    }
    if o != [] {
      assert o[|o| - 1] in o;
    }
  }

  /**
   * The slow/fast walk of `merge_sort`: `fast` moves two links for each one
   * of `slow`, and when `fast` can go no further `slow` is the last node of
   * the first half.
   */
  method FindMiddle(first: Node, ghost s: seq<Node>) returns (slow: Node)
    requires |s| >= 2 && IsChain(first, s)
    ensures slow == s[Half(|s|) - 1]
  {
    slow := first;
    var fast := first.next;
    ghost var c := 0;
    while fast != null && fast.next != null
      invariant 0 <= c && 2 * c + 1 <= |s|
      invariant slow == s[c]
      invariant fast == (if 2 * c + 1 < |s| then s[2 * c + 1] else null)
      decreases |s| - c
    {
      slow := slow.next;
      fast := fast.next.next;
      c := c + 1;
    }
  }

  /**
   * The cut of `merge_sort` behind `slow`, the node at position `h - 1`: the
   * chain falls apart into the chains of `s[..h]` and `s[h..]`.
   */
  method Split(slow: Node, ghost s: seq<Node>, ghost h: int) returns (tmp: Node)
    requires 0 < h < |s| && slow == s[h - 1] && IsChain(s[0], s)
    modifies slow, s[h]
    ensures tmp == s[h] && IsChain(s[0], s[..h]) && IsChain(tmp, s[h..])
  {
    tmp := slow.next;
    tmp.prev := null;
    slow.next := null;
    DistinctAt(s, h - 1);
    DistinctAt(s, h);
    DistinctSlice(s, 0, h);
    DistinctSlice(s, h, |s|);
    assert s[h..|s|] == s[h..];
    forall p | 0 <= p < h - 1
      ensures s[..h][p].next == s[..h][p + 1] && s[..h][p + 1].prev == s[..h][p]
    {
      assert old(s[p].next) == s[p + 1] && old(s[p + 1].prev) == s[p];
    }
    forall p | 0 <= p < |s| - h - 1
      ensures s[h..][p].next == s[h..][p + 1] && s[h..][p + 1].prev == s[h..][p]
    {
      assert old(s[h + p].next) == s[h + p + 1] && old(s[h + p + 1].prev) == s[h + p];
    }
    assert s[..h][h - 1] == slow;
  }

  /**
   * The two halves of a chain free of repetitions share no node, and neither
   * do their sorted versions, which come from the chain's own nodes.
   */
  lemma HalvesApart(s: seq<Node>, h: int)
    requires Distinct(s) && 0 <= h <= |s|
    ensures forall x | x in s[h..] :: x !in s[..h]
    ensures forall x | x in MergeSortSeq(s[..h]) :: x !in s[h..]
    ensures forall p | 0 <= p < |MergeSortSeq(s[..h])| :: MergeSortSeq(s[..h])[p] in s
    ensures forall p | 0 <= p < |MergeSortSeq(s[h..])| :: MergeSortSeq(s[h..])[p] in s
    ensures Distinct(MergeSortSeq(s[..h]) + MergeSortSeq(s[h..]))
  {
    var a, b := MergeSortSeq(s[..h]), MergeSortSeq(s[h..]);
    MergeSortSeqPermutes(s[..h]);
    MergeSortSeqPermutes(s[h..]);
    assert s == s[..h] + s[h..];
    DistinctPairwise(s);
    forall x | x in s[h..]
      ensures x !in s[..h]
    {
    }
    forall x | x in a
      ensures x in s && x !in s[h..]
    {
      assert x in multiset(a);
    }
    forall x | x in b
      ensures x in s
    {
      assert x in multiset(b);
    }
    DistinctSub(s, a + b);
  }
}
