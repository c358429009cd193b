/**
 * The queue engine of `queue.c`: a deque of strings kept in a circular
 * doubly-linked ring of nodes that passes through a payload-free sentinel.
 * Every operation rewires `next`/`prev` fields in place; each is proved to
 * keep the ring well formed and to turn the ghost element sequence into the
 * value QueueSpec prescribes.
 *
 * A C caller holds a possibly-NULL pointer to the sentinel; here the caller
 * holds a possibly-null `Queue`, whose `head` is that sentinel.
 */
module QueueEngine {
  import opened CStrings
  import opened ListNodes
  import opened QueueSpec
  import opened ListSort

  /**
   * A queue: its sentinel `head`, the element nodes the ring passes through,
   * front to back, as the ghost sequence `elems`, and the objects it owns.
   */
  class Queue {
    const head: Node
    ghost var elems: seq<Node>
    ghost var Repr: set<object>

    /**
     * The ring invariant: from the sentinel, `next` visits every element once
     * in order and returns to the sentinel, and every `prev` undoes a `next`.
     * An empty queue's sentinel points to itself both ways.
     */
    ghost predicate Valid()
      reads this, Repr
    {
      this in Repr && head in Repr &&
      (forall i | 0 <= i < |elems| :: elems[i] in Repr && elems[i] != head) &&
      Distinct(elems) &&
      (elems == [] ==> head.next == head && head.prev == head) &&
      (elems != [] ==>
        head.next == elems[0] && elems[0].prev == head &&
        head.prev == elems[|elems| - 1] && elems[|elems| - 1].next == head) &&
      forall i | 0 <= i < |elems| - 1 ::
        elems[i].next == elems[i + 1] && elems[i + 1].prev == elems[i]
    }

    /** The node at position `k` of the ring read from the sentinel round to the sentinel. */
    ghost function RingAt(k: nat): Node
      reads this
      requires k <= |elems| + 1
    {
      if k == 0 || k == |elems| + 1 then head else elems[k - 1]
    }

    constructor (sentinel: Node)
      requires sentinel.next == sentinel && sentinel.prev == sentinel
      ensures head == sentinel && elems == [] && Valid() && Repr == {this, head}
    {
      head := sentinel;
      elems := [];
      Repr := {this, sentinel};
    }
  }

  /** The ring invariant read at element `i`: its neighbours both ways. */
  lemma ValidAt(q: Queue, i: int)
    requires q.Valid() && 0 <= i < |q.elems|
    ensures q.elems[i].next == q.RingAt(i + 2) && q.elems[i].prev == q.RingAt(i)
    ensures q.elems[i] != q.head && q.elems[i] in q.Repr
  {
    if i + 1 < |q.elems| {
      assert q.elems[i].next == q.elems[i + 1];
    }
    if i > 0 {
      assert q.elems[i - 1].next == q.elems[i];
    }
  }

  /** Only the two ends of the ring are the sentinel. */
  lemma RingAtHead(q: Queue, k: nat)
    requires q.Valid() && k <= |q.elems| + 1
    ensures q.RingAt(k) == q.head <==> k == 0 || k == |q.elems| + 1
    ensures q.RingAt(k) in q.Repr
  {
    if 0 < k <= |q.elems| {
      ValidAt(q, k - 1);
    }
  }

  /** The frame of an operation on a possibly absent queue. */
  ghost function Frame(q: Queue?): set<object>
    reads q
  {
    if q == null then {} else q.Repr
  }

  // -----------------------------------------------------------------------
  // q_new, q_free

  /** `q_new`: an empty queue whose sentinel points to itself, or NULL when allocation fails. */
  method QNew(mallocOk: bool) returns (q: Queue?)
    ensures q != null <==> mallocOk
    ensures q != null ==> fresh(q.Repr) && q.Valid() && q.elems == []
    ensures q != null ==> q.head.next == q.head && q.head.prev == q.head
  {
    if !mallocOk {
      return null;
    }
    var head := new Node([]);
    head.next := head;
    head.prev := head;
    q := new Queue(head);
  }

  /**
   * `q_free`: cuts the ring behind the last element, walks the elements
   * releasing each one, then frees the sentinel. Deallocation is modelled by
   * its order: `freed` lists the nodes in the order they are handed back,
   * every element once, front to back, and the sentinel last.
   */
  method QFree(q: Queue?) returns (freed: seq<Node>)
    requires q != null ==> q.Valid()
    modifies Frame(q)
    ensures freed == if q == null then [] else old(q.elems) + [q.head]
  {
    if q == null {
      return [];
    }
    ghost var e, n := q.elems, |q.elems|;
    if n > 0 {
      ValidAt(q, n - 1);
      DistinctAt(e, n - 1);
    }
    q.head.prev.next := null;
    q.head.prev := null;
    forall i | 0 <= i < n - 1
      ensures e[i].next == e[i + 1]
    {
      assert old(e[i].next) == e[i + 1];
    }
    var l := q.head.next;
    freed := [];
    while l != null
      invariant |freed| <= n && freed == e[..|freed|]
      invariant l == (if |freed| < n then e[|freed|] else null)
      decreases n - |freed|
    {
      var tmp := l.next;
      freed := freed + [l];
      l := tmp;
    }
    freed := freed + [q.head];
  }

  // -----------------------------------------------------------------------
  // q_size

  /** `q_size`: counts the elements by walking the ring; 0 for NULL or empty. */
  method QSize(q: Queue?) returns (count: int)
    requires q != null ==> q.Valid()
    ensures count == if q == null then 0 else |q.elems|
  {
    if q == null || q.head.next == q.head {
      return 0;
    }
    count := 0;
    var p := q.head.next;
    while p != q.head
      invariant 0 <= count <= |q.elems|
      invariant p == q.RingAt(count + 1)
      decreases |q.elems| - count
    {
      RingAtHead(q, count + 1);
      ValidAt(q, count);
      p := p.next;
      count := count + 1;
    }
    RingAtHead(q, count + 1);
  }

  // -----------------------------------------------------------------------
  // q_insert_head, q_insert_tail

  /**
   * `q_insert_head`: splices a new element holding its own copy of `s` in
   * right after the sentinel. Fails, changing nothing, for a NULL queue or
   * when the element (`mallocOk`) or the string copy (`strdupOk`) cannot be
   * allocated.
   */
  method QInsertHead(q: Queue?, s: CString, mallocOk: bool, strdupOk: bool) returns (ok: bool)
    requires q != null ==> q.Valid()
    modifies Frame(q)
    ensures ok <==> q != null && mallocOk && strdupOk
    ensures q != null ==> q.Valid()
    ensures ok ==> |q.elems| == |old(q.elems)| + 1 && q.elems[1..] == old(q.elems)
    ensures ok ==> fresh(q.elems[0]) && q.elems[0].value == s
    ensures ok ==> q.Repr == old(q.Repr) + {q.elems[0]}
    ensures q != null && !ok ==> q.elems == old(q.elems) && unchanged(old(q.Repr))
  {
    if q == null {
      return false;
    }
    if !mallocOk {
      return false;
    }
    if !strdupOk {
      // C frees the element it has just allocated; here a node is allocated only on success
      return false;
    }
    var node := new Node(s);
    var tmp := q.head.next;
    tmp.prev := node;
    node.next := tmp;
    q.head.next := node;
    node.prev := q.head;
    DistinctCons(node, q.elems);
    q.elems := [node] + q.elems;
    q.Repr := q.Repr + {node};
    ok := true;
  }

  /**
   * `q_insert_tail`: splices a new element holding its own copy of `s` in
   * right before the sentinel; fails like `QInsertHead`.
   */
  method QInsertTail(q: Queue?, s: CString, mallocOk: bool, strdupOk: bool) returns (ok: bool)
    requires q != null ==> q.Valid()
    modifies Frame(q)
    ensures ok <==> q != null && mallocOk && strdupOk
    ensures q != null ==> q.Valid()
    ensures ok ==> |q.elems| == |old(q.elems)| + 1 && q.elems[..|old(q.elems)|] == old(q.elems)
    ensures ok ==> fresh(q.elems[|old(q.elems)|]) && q.elems[|old(q.elems)|].value == s
    ensures ok ==> q.Repr == old(q.Repr) + {q.elems[|old(q.elems)|]}
    ensures q != null && !ok ==> q.elems == old(q.elems) && unchanged(old(q.Repr))
  {
    if q == null {
      return false;
    }
    if !mallocOk {
      return false;
    }
    if !strdupOk {
      // C frees the element it has just allocated; here a node is allocated only on success
      return false;
    }
    var node := new Node(s);
    var tmp := q.head.prev;
    tmp.next := node;
    node.prev := tmp;
    q.head.prev := node;
    node.next := q.head;
    DistinctAppend(q.elems, node);
    q.elems := q.elems + [node];
    q.Repr := q.Repr + {node};
    ok := true;
  }

  // -----------------------------------------------------------------------
  // q_remove_head, q_remove_tail

  /**
   * The optional copy-out of a removal: `memcpy(sp, value, bufsize)` followed
   * by `sp[bufsize - 1] = '\0'`. The string's bytes and its terminator are
   * copied as far as they fit in `bufsize` bytes.
   */
  method CopyOut(sp: array<byte>, value: CString, bufsize: nat)
    requires 1 <= bufsize <= sp.Length
    modifies sp
    ensures ReadCString(sp[..]) == Prefix(value, bufsize - 1)
    ensures sp[bufsize..] == old(sp[bufsize..])
  {
    var k := if |value| < bufsize then |value| + 1 else bufsize;
    forall i | 0 <= i < k {
      sp[i] := ByteAt(value, i);
    }
    sp[bufsize - 1] := 0;
    var p := Prefix(value, bufsize - 1);
    assert sp[..][..|p|] == p;
    ReadCStringOfTerminated(p, sp[..]);
  }

  /**
   * `q_remove_head`: unlinks the first element and hands it to the caller
   * without releasing it; NULL for a NULL or empty queue. When `sp` is given,
   * it then reads as the element's string cut to `bufsize - 1` bytes.
   */
  method QRemoveHead(q: Queue?, sp: array?<byte>, bufsize: nat) returns (e: Node?)
    requires q != null ==> q.Valid()
    requires sp != null && q != null && q.elems != [] ==> 1 <= bufsize <= sp.Length
    modifies Frame(q), sp
    ensures e != null <==> q != null && old(q.elems) != []
    ensures q != null ==> q.Valid()
    ensures e != null ==> e == old(q.elems[0]) && q.elems == old(q.elems[1..])
    ensures e != null ==> q.Repr == old(q.Repr) - {e}
    ensures e != null && sp != null ==> ReadCString(sp[..]) == Prefix(e.value, bufsize - 1)
    ensures e != null && sp != null ==> sp[bufsize..] == old(sp[bufsize..])
    ensures e == null && q != null ==> q.elems == old(q.elems) && unchanged(old(q.Repr))
    ensures e == null && sp != null ==> unchanged(sp)
  {
    var n := QSize(q);
    if n == 0 {
      return null;
    }
    var r := q.head.next;
    ValidAt(q, 0);
    RingAtHead(q, 2);
    ListDel(q, r, 0);
    if sp != null {
      CopyOut(sp, r.value, bufsize);
    }
    e := r;
  }

  /**
   * `q_remove_tail`: unlinks the last element and hands it to the caller;
   * otherwise as `QRemoveHead`.
   */
  method QRemoveTail(q: Queue?, sp: array?<byte>, bufsize: nat) returns (e: Node?)
    requires q != null ==> q.Valid()
    requires sp != null && q != null && q.elems != [] ==> 1 <= bufsize <= sp.Length
    modifies Frame(q), sp
    ensures e != null <==> q != null && old(q.elems) != []
    ensures q != null ==> q.Valid()
    ensures e != null ==> e == old(q.elems[|q.elems| - 1]) && q.elems == old(q.elems[..|q.elems| - 1])
    ensures e != null ==> q.Repr == old(q.Repr) - {e}
    ensures e != null && sp != null ==> ReadCString(sp[..]) == Prefix(e.value, bufsize - 1)
    ensures e != null && sp != null ==> sp[bufsize..] == old(sp[bufsize..])
    ensures e == null && q != null ==> q.elems == old(q.elems) && unchanged(old(q.Repr))
    ensures e == null && sp != null ==> unchanged(sp)
  {
    var n := QSize(q);
    if n == 0 {
      return null;
    }
    var r := q.head.prev;
    ValidAt(q, n - 1);
    RingAtHead(q, n - 1);
    ghost var s := q.elems;
    ListDel(q, r, n - 1);
    assert s[..n - 1] + s[n..] == s[..n - 1];
    if sp != null {
      CopyOut(sp, r.value, bufsize);
    }
    e := r;
  }

  // -----------------------------------------------------------------------
  // q_delete_mid

  /** `list_del`: unlinks `node`, the element at index `i`, by joining its neighbours. */
  method ListDel(q: Queue, node: Node, ghost i: nat)
    requires q.Valid() && i < |q.elems| && node == q.elems[i]
    modifies q, node.prev, node.next
    ensures q.Valid() && q.Repr == old(q.Repr) - {node}
    ensures q.elems == old(q.elems[..i] + q.elems[i + 1..])
  {
    ValidAt(q, i);
    ghost var s := q.elems;
    DistinctRemove(s, i);
    DistinctIndex(s);
    var prev, next := node.prev, node.next;
    label L:
    prev.next := next;
    next.prev := prev;
    q.elems := s[..i] + s[i + 1..];
    q.Repr := q.Repr - {node};
    ghost var t := q.elems;
    RemovedAt(s, t, i);
    forall j | 0 <= j < |t|
      ensures t[j] in q.Repr && t[j] != q.head
    {
      assert t[j] == s[if j < i then j else j + 1];
    }
    forall j | 0 <= j < |t| - 1
      ensures t[j].next == t[j + 1] && t[j + 1].prev == t[j]
    {
      if j + 1 < i {
        assert old@L(s[j].next) == s[j + 1] && old@L(s[j + 1].prev) == s[j];
      } else if i < j {
        assert old@L(s[j + 1].next) == s[j + 2] && old@L(s[j + 2].prev) == s[j + 1];
      }
    }
  }

  /** Where the elements land once the one at `i` is cut out. */
  lemma RemovedAt(s: seq<Node>, t: seq<Node>, i: int)
    requires 0 <= i < |s| && t == s[..i] + s[i + 1..]
    ensures |t| == |s| - 1
    ensures forall j | 0 <= j < |t| :: t[j] == s[if j < i then j else j + 1]
  {
  }

  /**
   * `q_delete_mid`: walks a slow cursor one step and a fast cursor two steps
   * at a time from the first element until the fast one reaches the
   * sentinel, then deletes the slow cursor's element: index (n-1)/2 of n.
   * Fails only for a NULL or empty queue.
   */
  method QDeleteMid(q: Queue?) returns (ok: bool)
    requires q != null ==> q.Valid()
    modifies Frame(q)
    ensures ok <==> q != null && old(q.elems) != []
    ensures q != null ==> q.Valid()
    ensures ok ==> var m := MidIndex(|old(q.elems)|);
                   q.elems == old(q.elems[..m] + q.elems[m + 1..])
    ensures ok ==> q.Repr == old(q.Repr) - {old(q.elems[MidIndex(|q.elems|)])}
    ensures q != null && !ok ==> q.elems == old(q.elems) && q.Repr == old(q.Repr)
  {
    var n := QSize(q);
    if n == 0 {
      return false;
    }
    ValidAt(q, 0);
    var slow, fast := q.head.next, q.head.next.next;
    ghost var t := 0;
    while fast != q.head && fast.next != q.head
      modifies {}
      invariant 0 <= t && 2 * t + 2 <= n + 1
      invariant slow == q.elems[t]
      invariant fast == q.RingAt(2 * t + 2)
      decreases n - 2 * t
    {
      assert 2 * t + 2 <= n && fast == q.elems[2 * t + 1] by {
        RingAtHead(q, 2 * t + 2);
      }
      assert 2 * t + 3 <= n && fast.next == q.elems[2 * t + 2] by {
        ValidAt(q, 2 * t + 1);
        RingAtHead(q, 2 * t + 3);
      }
      assert fast.next.next == q.RingAt(2 * t + 4) by {
        ValidAt(q, 2 * t + 2);
      }
      assert slow.next == q.elems[t + 1] by {
        ValidAt(q, t);
      }
      slow := slow.next;
      fast := fast.next.next;
      t := t + 1;
    }
    assert t == MidIndex(n) by {
      RingAtHead(q, 2 * t + 2);
      if fast != q.head {
        ValidAt(q, 2 * t + 1);
        RingAtHead(q, 2 * t + 3);
      }
    }
    assert slow.prev in q.Repr && slow.next in q.Repr by {
      ValidAt(q, t);
      RingAtHead(q, t);
      RingAtHead(q, t + 2);
    }
    ListDel(q, slow, t);
    ok := true;
  }

  // -----------------------------------------------------------------------
  // q_delete_dup

  /**
   * `q_delete_dup`: walks the queue and, at each element, unlinks the
   * elements right after it for as long as they hold an equal string, so
   * that one element is left of every run of equal strings. Fails only for a
   * NULL or empty queue.
   */
  method QDeleteDup(q: Queue?) returns (ok: bool)
    requires q != null ==> q.Valid()
    modifies Frame(q)
    ensures ok <==> q != null && old(q.elems) != []
    ensures q != null ==> q.Valid()
    ensures q != null ==> q.elems == CollapseRuns(old(q.elems))
    ensures q != null ==> q.Repr <= old(q.Repr)
    ensures q != null ==> forall x | x in old(q.elems) && x !in q.elems :: x !in q.Repr
    ensures q != null && !ok ==> q.Repr == old(q.Repr)
  {
    var n := QSize(q);
    if n < 1 {
      return false;
    }
    var tmp := q.head.next;
    ghost var k := 0;
    while tmp != q.head
      invariant q.Valid() && q.Repr <= old(q.Repr)
      invariant Dropped(old(q.elems), q.elems, q.Repr)
      invariant 0 <= k <= |q.elems| && tmp == q.RingAt(k + 1)
      invariant q.elems[..k] + CollapseRuns(q.elems[k..]) == CollapseRuns(old(q.elems))
      decreases |q.elems| - k
    {
      assert k < |q.elems| && tmp.next == q.RingAt(k + 2) by {
        RingAtHead(q, k + 1);
        ValidAt(q, k);
      }
      while tmp.next != q.head && StrCmp(tmp.value, tmp.next.value) == 0
        invariant q.Valid() && q.Repr <= old(q.Repr)
        invariant Dropped(old(q.elems), q.elems, q.Repr)
        invariant 0 <= k < |q.elems| && tmp == q.elems[k] && tmp.next == q.RingAt(k + 2)
        invariant q.elems[..k] + CollapseRuns(q.elems[k..]) == CollapseRuns(old(q.elems))
        decreases |q.elems|
      {
        assert k + 1 < |q.elems| && tmp.next == q.elems[k + 1] by {
          RingAtHead(q, k + 2);
        }
        assert tmp.next.next in q.Repr by {
          ValidAt(q, k + 1);
          RingAtHead(q, k + 3);
        }
        DropNext(q, tmp, k, old(q.elems), old(q.Repr));
      }
      assert k + 1 == |q.elems| || tmp.next == q.elems[k + 1] by {
        RingAtHead(q, k + 2);
      }
      CollapseRunsKeepStep(q.elems, k);
      tmp := tmp.next;
      k := k + 1;
    }
    assert k == |q.elems| by {
      RingAtHead(q, k + 1);
    }
    assert q.elems[k..] == [];
    ok := true;
  }

  /**
   * One round of `q_delete_dup`'s inner loop: the element after `tmp`, which
   * holds an equal string, is unlinked and released, and the walk still
   * heads for `CollapseRuns(e0)`.
   */
  method DropNext(q: Queue, tmp: Node, ghost k: nat, ghost e0: seq<Node>, ghost r0: set<object>)
    requires q.Valid() && q.Repr <= r0 && Dropped(e0, q.elems, q.Repr)
    requires k + 1 < |q.elems| && tmp == q.elems[k] && tmp.value == q.elems[k + 1].value
    requires q.elems[..k] + CollapseRuns(q.elems[k..]) == CollapseRuns(e0)
    modifies q, tmp, q.elems[k + 1].next
    ensures q.Valid() && q.Repr <= r0 && Dropped(e0, q.elems, q.Repr)
    ensures k < |q.elems| == old(|q.elems|) - 1 && tmp == q.elems[k] && tmp.next == q.RingAt(k + 2)
    ensures q.elems[..k] + CollapseRuns(q.elems[k..]) == CollapseRuns(e0)
  {
    ValidAt(q, k);
    ValidAt(q, k + 1);
    CollapseRunsDropStep(q.elems, k);
    DroppedStep(e0, q.elems, q.Repr, k + 1);
    ListDel(q, tmp.next, k + 1);
    ValidAt(q, k);
  }

  /**
   * What `q_delete_dup` has released so far, starting from the elements
   * `e0`: every element `s` still holds was there at the start, and every
   * element gone from `s` is gone from the footprint `r` too.
   */
  ghost predicate Dropped(e0: seq<Node>, s: seq<Node>, r: set<object>)
  {
    (forall x | x in s :: x in e0) && (forall x | x in e0 && x !in s :: x !in r)
  }

  /** Unlinking the element at `j` and releasing it keeps `Dropped`. */
  lemma DroppedStep(e0: seq<Node>, s: seq<Node>, r: set<object>, j: int)
    requires Dropped(e0, s, r) && 0 <= j < |s|
    ensures Dropped(e0, s[..j] + s[j + 1..], r - {s[j]})
  {
    var t := s[..j] + s[j + 1..];
    forall x | x in t
      ensures x in e0
    {
      assert x in s[..j] || x in s[j + 1..];
    }
    forall x | x in e0 && x !in t
      ensures x !in r - {s[j]}
    {
      assert s == s[..j] + [s[j]] + s[j + 1..];
    }
  }

  /**
   * The relinking in `q_swap`'s loop: the elements at `i` and `i + 1` trade
   * places in the ring, their outer neighbours now pointing to them the
   * other way round.
   */
  method SwapAdjacent(q: Queue, node1: Node, node2: Node, ghost i: nat)
    requires q.Valid() && i + 1 < |q.elems| && node1 == q.elems[i] && node2 == q.elems[i + 1]
    modifies q, node1, node2, node1.prev, node2.next
    ensures q.Valid() && q.Repr == old(q.Repr)
    ensures q.elems == old(q.elems[i := q.elems[i + 1]][i + 1 := q.elems[i]])
  {
    ValidAt(q, i);
    ValidAt(q, i + 1);
    ghost var s := q.elems;
    DistinctSwap(s, i);
    DistinctIndex(s);
    label L:
    node1.prev.next := node2;
    node2.prev := node1.prev;

    node2.next.prev := node1;
    node1.next := node2.next;

    node1.prev := node2;
    node2.next := node1;
    q.elems := s[i := s[i + 1]][i + 1 := s[i]];
    ghost var t := q.elems;
    forall j | 0 <= j < |t| - 1
      ensures t[j].next == t[j + 1] && t[j + 1].prev == t[j]
    {
      if j + 1 < i || i + 1 < j {
        assert old@L(s[j].next) == s[j + 1] && old@L(s[j + 1].prev) == s[j];
      }
    }
  }

  /**
   * One round of `q_swap`'s loop: the pair at `2p` trades places, the walk
   * moves on by two, and `node1`, now second of the pair, points to what
   * follows the pair.
   */
  method SwapStep(q: Queue, node1: Node, node2: Node, ghost s0: seq<Node>, ghost p: nat)
    requires q.Valid() && 2 * p + 1 < |q.elems| && node1 == q.elems[2 * p] && node2 == q.elems[2 * p + 1]
    requires SwapWalk(s0, q.elems, 2 * p)
    modifies q, node1, node2, node1.prev, node2.next
    ensures q.Valid() && q.Repr == old(q.Repr) && |q.elems| == |old(q.elems)|
    ensures SwapWalk(s0, q.elems, 2 * p + 2) && node1 == q.elems[2 * p + 1]
    ensures node1.next == q.RingAt(2 * p + 3)
    ensures node1.next == q.head <==> 2 * p + 2 == |q.elems|
  {
    SwapWalkStep(s0, q.elems, 2 * p);
    SwapAdjacent(q, node1, node2, 2 * p);
    ValidAt(q, 2 * p + 1);
    RingAtHead(q, 2 * p + 3);
  }

  // -----------------------------------------------------------------------
  // q_swap

  /**
   * `q_swap`: walks the queue a pair at a time and relinks each pair of
   * neighbours in the opposite order; an odd last element stays where it is.
   */
  method QSwap(q: Queue?)
    requires q != null ==> q.Valid()
    modifies Frame(q)
    ensures q != null ==> q.Valid() && q.elems == SwapPairs(old(q.elems))
    ensures q != null ==> q.Repr == old(q.Repr)
  {
    var n := QSize(q);
    if n <= 1 {
      return;
    }
    SwapWalkStart(q.elems);
    var node1 := q.head.next;
    ValidAt(q, 0);
    var node2 := node1.next;
    ghost var p := 0;
    while node1 != q.head && node2 != q.head
      invariant q.Valid() && q.Repr == old(q.Repr)
      invariant |q.elems| == n && 0 <= 2 * p < n
      invariant node1 == q.elems[2 * p] && node2 == q.RingAt(2 * p + 2)
      invariant SwapWalk(old(q.elems), q.elems, 2 * p)
      decreases n - 2 * p
    {
      assert node2 == q.elems[2 * p + 1] by {
        RingAtHead(q, 2 * p + 2);
      }
      assert node1.prev in q.Repr && node2.next in q.Repr by {
        ValidAt(q, 2 * p);
        ValidAt(q, 2 * p + 1);
      }
      SwapStep(q, node1, node2, old(q.elems), p);
      node1 := node1.next;
      p := p + 1;
      if node1 == q.head {
        break;
      }
      assert node1.next == q.RingAt(2 * p + 2) by {
        ValidAt(q, 2 * p);
      }
      node2 := node1.next;
    }
    if 2 * p < n {
      RingAtHead(q, 2 * p + 2);
    }
    SwapWalkDone(old(q.elems), q.elems, 2 * p);
  }

  // -----------------------------------------------------------------------
  // q_reverse

  /**
   * The links `q_reverse` leaves behind, read along `ring`, the sentinel, the
   * elements `e` and the sentinel again: every node points forwards to its
   * former predecessor and back to its former successor. With the elements
   * recorded back to front, that is again a ring.
   */
  lemma {:induction false} ReversedRingValid(q: Queue, e: seq<Node>, ring: seq<Node>)
    requires |e| >= 1 && ring == [q.head] + e + [q.head]
    requires q.elems == Reverse(e) && Distinct(e)
    requires q in q.Repr && q.head in q.Repr
    requires forall j | 0 <= j < |e| :: e[j] in q.Repr && e[j] != q.head
    requires q.head.next == ring[|e|]
    requires forall k | 0 <= k < |e| :: ring[k + 1].next == ring[k]
    requires forall k | 0 <= k <= |e| :: ring[k].prev == ring[k + 1]
    ensures q.Valid()
  {
    var n := |e|;
    DistinctReverse(e);
    var r := q.elems;
    assert ring[1] == e[0] && ring[n] == e[n - 1] && ring[n + 1] == q.head;
    assert ring[1].next == ring[0] && ring[0].prev == ring[1];
    forall i | 0 <= i < n - 1
      ensures r[i].next == r[i + 1] && r[i + 1].prev == r[i]
    {
      assert r[i] == ring[n - i] && r[i + 1] == ring[n - 1 - i];
    }
  }

  /**
   * `q_reverse`: exchanges every node's `next` and `prev`, so the ring runs
   * the other way round. No effect on a NULL queue or one of fewer than two
   * elements.
   */
  method QReverse(q: Queue?)
    requires q != null ==> q.Valid()
    modifies Frame(q)
    ensures q != null ==> q.Valid() && q.Repr == old(q.Repr)
    ensures q != null ==> q.elems == Reverse(old(q.elems))
  {
    var n := QSize(q);
    if n <= 1 {
      assert q != null ==> q.elems == Reverse(q.elems);
      return;
    }
    ghost var e := q.elems;
    ghost var ring := [q.head] + e + [q.head];
    RingLinks(q, ring);
    DistinctCons(q.head, e);
    assert ring[..n + 1] == [q.head] + e;
    FlipRing(q.head, ring);
    q.elems := Reverse(e);
    ReversedRingValid(q, e, ring);
  }

  /**
   * The `do`-`while` loop of `q_reverse`. `ring` is the ring read from the
   * sentinel `head` round to `head` again. Starting at the sentinel, the loop
   * visits every node once in ring order, pointing its `prev` at the node it
   * came from via `next` and its `next` at the node visited before it. The
   * loop is written as its first pass, over the sentinel, followed by a
   * `while` loop over the elements.
   */
  method FlipRing(head: Node, ghost ring: seq<Node>)
    requires |ring| >= 3 && ring[0] == head && ring[|ring| - 1] == head
    requires Distinct(ring[..|ring| - 1])
    requires head.prev == ring[|ring| - 2]
    requires forall k | 0 <= k < |ring| - 1 :: ring[k].next == ring[k + 1]
    modifies ring
    ensures head.next == ring[|ring| - 2]
    ensures forall k | 0 <= k < |ring| - 2 :: ring[k + 1].next == ring[k]
    ensures forall k | 0 <= k < |ring| - 1 :: ring[k].prev == ring[k + 1]
  {
    ghost var n := |ring| - 2;
    var ptr, prevNode, nextNode := head, head.prev, head.next;
    assert ring[0].next == ring[1] && ring[1].next == ring[2];
    DistinctAt(ring[..n + 1], 0);
    ptr.prev := nextNode;
    ptr.next := prevNode;
    prevNode := ptr;
    ptr := ptr.prev;
    nextNode := ptr.next;
    ghost var c := 1;
    while ptr != head
      invariant 1 <= c <= n + 1 && ptr == ring[c] && prevNode == ring[c - 1]
      invariant c <= n ==> nextNode == ring[c + 1]
      invariant forall k | c <= k <= n :: ring[k].next == ring[k + 1]
      invariant head.next == ring[n]
      invariant forall k | 0 <= k && k + 1 < c :: ring[k + 1].next == ring[k]
      invariant forall k | 0 <= k < c :: ring[k].prev == ring[k + 1]
      decreases n + 1 - c
    {
      DistinctAt(ring[..n + 1], c);
      ptr.prev := nextNode;
      ptr.next := prevNode;

      prevNode := ptr;
      ptr := ptr.prev;
      nextNode := ptr.next;
      c := c + 1;
    }
  }

  /** A valid ring read from the sentinel round to the sentinel: each node's `next` is the following one. */
  lemma RingLinks(q: Queue, ring: seq<Node>)
    requires q.Valid() && ring == [q.head] + q.elems + [q.head]
    ensures forall k | 0 <= k < |ring| - 1 :: ring[k].next == ring[k + 1]
    ensures forall k | 0 <= k < |ring| - 1 :: ring[k + 1].prev == ring[k]
  {
    forall k | 0 <= k < |ring| - 1
      ensures ring[k].next == ring[k + 1] && ring[k + 1].prev == ring[k]
    {
      assert ring[k] == q.RingAt(k) && ring[k + 1] == q.RingAt(k + 1);
      if k > 0 {
        ValidAt(q, k - 1);
      }
    }
  }

  // -----------------------------------------------------------------------
  // q_sort

  /**
   * `q_sort`: opens the ring into a NULL-terminated chain, sorts the chain
   * with `merge_sort`, and closes the sorted chain into a ring through the
   * sentinel again. No effect on a NULL queue or one of fewer than two
   * elements.
   */
  method QSort(q: Queue?)
    requires q != null ==> q.Valid()
    modifies Frame(q)
    ensures q != null ==> q.Valid() && q.Repr == old(q.Repr)
    ensures q != null ==> q.elems == MergeSortSeq(old(q.elems))
  {
    var n := QSize(q);
    if n <= 1 {
      assert q != null ==> q.elems == MergeSortSeq(q.elems);
      return;
    }
    ghost var e := q.elems;
    var tmp := BreakRing(q);
    var newhead, t := MergeSort(tmp, e);
    SortedNodesFrom(e);
    CloseRing(q, newhead, t);
  }

  /**
   * The first half of `q_sort`: the last element's `next`, the first
   * element's `prev` and both links of the sentinel are cleared, leaving the
   * elements as a chain that starts at the returned first element.
   */
  method BreakRing(q: Queue) returns (tmp: Node)
    requires q.Valid() && |q.elems| >= 2
    modifies q.head, q.elems[0], q.elems[|q.elems| - 1]
    ensures tmp == q.elems[0] && IsChain(tmp, q.elems)
    ensures q.head.next == null && q.head.prev == null
  {
    ghost var e, n := q.elems, |q.elems|;
    ValidAt(q, 0);
    ValidAt(q, n - 1);
    DistinctAt(e, 0);
    DistinctAt(e, n - 1);
    tmp := q.head.next;
    q.head.prev.next := null;
    q.head.next.prev := null;
    q.head.prev := null;
    q.head.next := null;
    forall p | 0 <= p < n - 1
      ensures e[p].next == e[p + 1] && e[p + 1].prev == e[p]
    {
      assert old(e[p].next) == e[p + 1] && old(e[p + 1].prev) == e[p];
    }
  }

  /** Sorting moves nodes and makes up none: the result has the input's length and nodes. */
  lemma SortedNodesFrom(s: seq<Node>)
    ensures |MergeSortSeq(s)| == |s|
    ensures forall i | 0 <= i < |MergeSortSeq(s)| :: MergeSortSeq(s)[i] in s
  {
    var t := MergeSortSeq(s);
    MergeSortSeqPermutes(s);
    assert |t| == |multiset(t)| == |multiset(s)| == |s|;
    forall i | 0 <= i < |t|
      ensures t[i] in s
    {
      assert t[i] in multiset(t);
    }
  }

  /**
   * The second half of `q_sort`: the sentinel is linked in front of the
   * sorted chain `t`, the walk from the sentinel finds the chain's last node,
   * and that node and the sentinel are linked to close the ring.
   */
  method CloseRing(q: Queue, newhead: Node?, ghost t: seq<Node>)
    requires q in q.Repr && q.head in q.Repr
    requires IsChain(newhead, t) && t != []
    requires forall i | 0 <= i < |t| :: t[i] in q.Repr && t[i] != q.head
    modifies q, q.head, t
    ensures q.Valid() && q.elems == t && q.Repr == old(q.Repr)
  {
    ghost var s := LinkSentinel(q.head, newhead, t);
    var last := FindLast(q.head, s);
    forall i | 0 <= i < |t| - 1
      ensures t[i].next == t[i + 1] && t[i + 1].prev == t[i]
    {
      assert s[i + 1] == t[i] && s[i + 2] == t[i + 1];
    }
    assert s[0] == q.head && s[1] == t[0] && s[|s| - 1] == t[|t| - 1];
    LinkLast(q, last, t);
  }

  /**
   * `head->prev = *pptr; (*pptr)->next = head` in `q_sort`: the last node of
   * the chain that hangs off the sentinel is linked back to it, which closes
   * the ring.
   */
  method LinkLast(q: Queue, last: Node, ghost t: seq<Node>)
    requires q in q.Repr && q.head in q.Repr && t != [] && Distinct(t)
    requires forall i | 0 <= i < |t| :: t[i] in q.Repr && t[i] != q.head
    requires q.head.next == t[0] && t[0].prev == q.head && last == t[|t| - 1]
    requires forall i | 0 <= i < |t| - 1 :: t[i].next == t[i + 1] && t[i + 1].prev == t[i]
    modifies q, q.head, last
    ensures q.Valid() && q.elems == t && q.Repr == old(q.Repr)
  {
    DistinctAt(t, |t| - 1);
    q.head.prev := last;
    last.next := q.head;
    q.elems := t;
  }

  /**
   * `head->next = newhead; newhead->prev = head` in `q_sort`: the sentinel,
   * whose links were cleared, becomes the first node of the sorted chain.
   */
  method LinkSentinel(head: Node, newhead: Node?, ghost t: seq<Node>) returns (ghost s: seq<Node>)
    requires IsChain(newhead, t) && t != []
    requires forall i | 0 <= i < |t| :: t[i] != head
    modifies head, newhead
    ensures s == [head] + t && IsChain(head, s)
    ensures forall i | 0 <= i < |t| :: t[i].next == old(t[i].next)
  {
    s := [head] + t;
    DistinctCons(head, t);
    DistinctAt(t, 0);
    head.next := newhead;
    newhead.prev := head;
    forall p | 0 < p < |s| - 1
      ensures s[p].next == s[p + 1] && s[p + 1].prev == s[p]
    {
      assert s[p] == t[p - 1] && s[p + 1] == t[p];
      assert old(t[p - 1].next) == t[p] && old(t[p].prev) == t[p - 1];
    }
  }

  /**
   * The `pptr` walk of `q_sort`: from the first node of a chain, follow
   * `next` until it is NULL; the node reached is the chain's last.
   */
  method FindLast(first: Node, ghost s: seq<Node>) returns (last: Node)
    requires IsChain(first, s)
    ensures s != [] && last == s[|s| - 1]
  {
    last := first;
    ghost var c := 0;
    while last.next != null
      invariant 0 <= c < |s| && last == s[c]
      decreases |s| - c
    {
      last := last.next;
      c := c + 1;
    }
  }
}
