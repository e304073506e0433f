/**
 * Model of llist.c: singly linked nodes carrying a read id (or an item in
 * the same storage), and the merge of two lists sorted by descending read
 * id into one, relinking the existing nodes and dropping the node of `b`
 * whenever both heads carry the same id.
 */
module LinkedList {
  /**
   * ll_node: a next pointer and a payload. The payload is the union of a
   * read id and an item pointer; the type parameter says which one a node
   * holds. No operation here changes a payload once set.
   */
  class LNode<T> {
    var next: LNode?<T>
    const payload: T

    constructor Init(v: T)
      ensures next == null && payload == v
    {
      next := null;
      payload := v;
    }
  }

  /** create_node_num: a fresh node with no successor carrying the read id. */
  method CreateNodeNum(id: int) returns (n: LNode<int>)
    ensures fresh(n) && n.next == null && n.payload == id
  {
    n := new LNode.Init(id);
  }

  /** create_node_item: a fresh node with no successor carrying the item. */
  method CreateNodeItem<T>(item: T) returns (n: LNode<T>)
    ensures fresh(n) && n.next == null && n.payload == item
  {
    n := new LNode.Init(item);
  }

  /** No node appears twice in ns. */
  ghost predicate Distinct<T>(ns: seq<LNode<T>>) {
    forall p, q :: 0 <= p < q < |ns| ==> ns[p] != ns[q]
  }

  /**
   * head starts the list whose nodes, in order, are ns: each node's next is
   * the following one, the last one's next is null, and no node repeats.
   */
  ghost predicate ListFrom<T>(head: LNode?<T>, ns: seq<LNode<T>>)
    reads ns
  {
    && (if |ns| == 0 then head == null else head == ns[0])
    && (forall k :: 0 <= k < |ns| - 1 ==> ns[k].next == ns[k + 1])
    && (|ns| > 0 ==> ns[|ns| - 1].next == null)
    && Distinct(ns)
  }

  /** The read ids along a list of nodes. */
  function Ids(ns: seq<LNode<int>>): (ids: seq<int>)
    ensures |ids| == |ns| && forall k :: 0 <= k < |ns| ==> ids[k] == ns[k].payload
  {
    seq(|ns|, k requires 0 <= k < |ns| => ns[k].payload)
  }

  /**
   * The merge on ids: the greater head goes first; on equal heads one copy
   * is kept and both lists move on; once a list is empty the rest of the
   * other follows unchanged.
   */
  function Merge(x: seq<int>, y: seq<int>): seq<int>
    decreases |x| + |y|
  {
    if |x| == 0 then y
    else if |y| == 0 then x
    else if x[0] > y[0] then [x[0]] + Merge(x[1..], y)
    else if x[0] < y[0] then [y[0]] + Merge(x, y[1..])
    else [x[0]] + Merge(x[1..], y[1..])
  }

  /** Strictly descending: every id is greater than every id after it. */
  ghost predicate Descending(x: seq<int>) {
    forall p, q :: 0 <= p < q < |x| ==> x[p] > x[q]
  }

  /**
   * The merge of two strictly descending lists holds exactly the ids of
   * both, is strictly descending, and starts with the greater head.
   */
  lemma {:induction false} MergeSorted(x: seq<int>, y: seq<int>)
    requires Descending(x) && Descending(y)
    ensures Descending(Merge(x, y))
    ensures forall v :: v in Merge(x, y) <==> v in x || v in y
    decreases |x| + |y|
  {
    if |x| > 0 && |y| > 0 {
      var m := Merge(x, y);
      if x[0] > y[0] {
        MergeSorted(x[1..], y);
        DescendingHead(x);
        assert forall v :: v in x <==> v == x[0] || v in x[1..] by {
          assert x == [x[0]] + x[1..];
        }
        HeadAboveAll(x[0], Merge(x[1..], y), x[1..], y);
      } else if x[0] < y[0] {
        MergeSorted(x, y[1..]);
        DescendingHead(y);
        assert forall v :: v in y <==> v == y[0] || v in y[1..] by {
          assert y == [y[0]] + y[1..];
        }
        HeadAboveAll(y[0], Merge(x, y[1..]), x, y[1..]);
      } else {
        MergeSorted(x[1..], y[1..]);
        DescendingHead(x);
        DescendingHead(y);
        assert forall v :: v in x <==> v == x[0] || v in x[1..] by {
          assert x == [x[0]] + x[1..];
        }
        assert forall v :: v in y <==> v == y[0] || v in y[1..] by {
          assert y == [y[0]] + y[1..];
        }
        HeadAboveAll(x[0], Merge(x[1..], y[1..]), x[1..], y[1..]);
      }
    }
  }

  /** The tail of a strictly descending list is strictly descending and below its head. */
  lemma DescendingHead(x: seq<int>)
    requires |x| > 0 && Descending(x)
    ensures Descending(x[1..])
    ensures forall v :: v in x[1..] ==> v < x[0]
  {
    forall v | v in x[1..] ensures v < x[0] {
      var k :| 0 <= k < |x[1..]| && x[1..][k] == v;
      assert x[k + 1] == v;
    }
  }

  /** Prefixing a value above every element of a descending list keeps it descending. */
  lemma HeadAboveAll(h: int, m: seq<int>, x: seq<int>, y: seq<int>)
    requires Descending(m)
    requires forall v :: v in m <==> v in x || v in y
    requires forall v :: v in x ==> v < h
    requires forall v :: v in y ==> v < h
    ensures Descending([h] + m)
  {
    var r := [h] + m;
    forall p, q | 0 <= p < q < |r| ensures r[p] > r[q] {
      assert r[q] == m[q - 1] && m[q - 1] in m;
      if p > 0 {
        assert r[p] == m[p - 1];
      }
    }
  }

  /** The ids two lists share. */
  function Common(x: seq<int>, y: seq<int>): set<int> {
    set v | v in x && v in y
  }

  /**
   * On strictly descending lists, each shared id appears once in the
   * merge: its length is |x| + |y| less the number of shared ids.
   */
  lemma {:induction false} MergeLength(x: seq<int>, y: seq<int>)
    requires Descending(x) && Descending(y)
    ensures |Merge(x, y)| == |x| + |y| - |Common(x, y)|
    decreases |x| + |y|
  {
    if |x| == 0 {
      assert Common(x, y) == {};
    } else if |y| == 0 {
      assert Common(x, y) == {};
    } else {
      DescendingHead(x);
      DescendingHead(y);
      if x[0] > y[0] {
        MergeLength(x[1..], y);
        CommonStep(x, y, true, false);
      } else if x[0] < y[0] {
        MergeLength(x, y[1..]);
        CommonStep(x, y, false, true);
      } else {
        MergeLength(x[1..], y[1..]);
        CommonStep(x, y, true, true);
      }
    }
  }

  /**
   * Dropping the head of x, of y, or of both: a head greater than every id
   * of the other list is not shared, and a common head is shared once.
   */
  lemma CommonStep(x: seq<int>, y: seq<int>, dropX: bool, dropY: bool)
    requires |x| > 0 && |y| > 0 && (dropX || dropY)
    requires x[0] !in x[1..] && y[0] !in y[1..]
    requires dropX && !dropY ==> x[0] !in y
    requires dropY && !dropX ==> y[0] !in x
    requires dropX && dropY ==> x[0] == y[0]
    ensures var c := Common(if dropX then x[1..] else x, if dropY then y[1..] else y);
      |Common(x, y)| == |c| + (if dropX && dropY then 1 else 0)
  {
    assert x == [x[0]] + x[1..] && y == [y[0]] + y[1..];
    var c := Common(if dropX then x[1..] else x, if dropY then y[1..] else y);
    if dropX && dropY {
      assert Common(x, y) == c + {x[0]};
      assert x[0] !in c;
    } else {
      assert Common(x, y) == c;
    }
  }

  /** A list merged with the empty list, on either side, is unchanged. */
  lemma MergeEmpty(x: seq<int>)
    ensures Merge(x, []) == x && Merge([], x) == x
  {
  }

  /** Each node of ns but the last links to the following one; the last links to null. */
  ghost predicate Chain(ns: seq<LNode<int>>)
    reads ns
  {
    && (forall k :: 0 <= k < |ns| - 1 ==> ns[k].next == ns[k + 1])
    && (|ns| > 0 ==> ns[|ns| - 1].next == null)
  }

  /**
   * What is left of list ns from position i on is still linked as it was,
   * and none of its nodes has been taken into the result.
   */
  ghost predicate Remaining(ns: seq<LNode<int>>, i: int, taken: set<LNode<int>>)
    reads ns
  {
    && 0 <= i <= |ns|
    && (forall k :: i <= k < |ns| - 1 ==> ns[k].next == ns[k + 1])
    && (i < |ns| ==> ns[|ns| - 1].next == null)
    && (forall k :: i <= k < |ns| ==> ns[k] !in taken)
  }

  /**
   * The result built so far: sorted heads it (null while empty), last is
   * its last node, each node but the last links to the following one, no
   * node repeats, and its nodes are exactly those taken. The last node's
   * next is not yet decided.
   */
  ghost predicate Built(sorted: LNode?<int>, last: LNode?<int>, rs: seq<LNode<int>>, taken: set<LNode<int>>)
    reads rs
  {
    && (if |rs| == 0 then sorted == null && last == null else sorted == rs[0] && last == rs[|rs| - 1])
    && (forall k :: 0 <= k < |rs| - 1 ==> rs[k].next == rs[k + 1])
    && Distinct(rs)
    && (forall k :: 0 <= k < |rs| ==> rs[k] in taken)
  }

  /**
   * The state of the merge between steps: i nodes of la and j of lb have
   * been consumed, x and y are the heads of what is left, the result so far
   * is rs, and its ids followed by the merge of what is left are the whole
   * merge of the two lists.
   */
  ghost predicate Merging(la: seq<LNode<int>>, lb: seq<LNode<int>>, i: int, j: int,
                          x: LNode?<int>, y: LNode?<int>, sorted: LNode?<int>, last: LNode?<int>,
                          rs: seq<LNode<int>>, taken: set<LNode<int>>, out: seq<int>, total: seq<int>)
    reads la, lb, rs
  {
    && Distinct(la) && Distinct(lb)
    && (forall p, q :: 0 <= p < |la| && 0 <= q < |lb| ==> la[p] != lb[q])
    && Remaining(la, i, taken) && Remaining(lb, j, taken)
    && x == (if i < |la| then la[i] else null)
    && y == (if j < |lb| then lb[j] else null)
    && Built(sorted, last, rs, taken)
    && (forall k :: 0 <= k < |rs| ==> rs[k] in la || rs[k] in lb)
    && |out| == |rs| && (forall k :: 0 <= k < |rs| ==> out[k] == rs[k].payload)
    && out + Merge(Ids(la)[i..], Ids(lb)[j..]) == total
  }

  /** The first i nodes of la are all in the result rs: no node of a is dropped. */
  ghost predicate Kept(la: seq<LNode<int>>, i: int, rs: seq<LNode<int>>) {
    i <= |la| && forall p :: 0 <= p < i ==> la[p] in rs
  }

  /**
   * merge_sorted_list: relinks the nodes of a and b into one list whose ids
   * are Merge of theirs. The result's nodes are nodes of a and b (nothing is
   * allocated); on equal heads the node of a is kept and the node of b is
   * left out of the result (the source frees it). Payloads never change.
   * The pointer-to-pointer `traverse` is either the address of `sorted`
   * (while the result is empty) or that of the last result node's next,
   * which is where Link writes.
   */
  method MergeSortedList(a: LNode?<int>, b: LNode?<int>,
                         ghost la: seq<LNode<int>>, ghost lb: seq<LNode<int>>)
    returns (sorted: LNode?<int>, ghost rs: seq<LNode<int>>)
    requires ListFrom(a, la) && ListFrom(b, lb)
    requires forall p, q :: 0 <= p < |la| && 0 <= q < |lb| ==> la[p] != lb[q]
    modifies la, lb
    ensures ListFrom(sorted, rs)
    ensures Ids(rs) == Merge(Ids(la), Ids(lb))
    ensures forall n :: n in rs ==> n in la || n in lb
    ensures forall n :: n in la ==> n in rs
  {
    ghost var total := Merge(Ids(la), Ids(lb));
    var x := a;
    var y := b;
    ghost var i, j := 0, 0;
    ghost var taken: set<LNode<int>> := {};
    ghost var out: seq<int> := [];
    sorted := null;
    var last: LNode?<int> := null;
    rs := [];
    Start(a, b, la, lb);
    while x != null && y != null
      invariant Merging(la, lb, i, j, x, y, sorted, last, rs, taken, out, total)
      invariant Kept(la, i, rs)
      decreases |la| - i + |lb| - j
    {
      assert last != null ==> last in la || last in lb;
      sorted, last, x, y, i, j, rs, taken, out := Step(sorted, last, x, y, la, lb, i, j, rs, taken, out, total);
    }
    sorted, rs := Finish(sorted, last, x, y, rs, taken, out, la, i, lb, j, total);
  }

  /** Before the first pass nothing is consumed and the result is empty. */
  lemma Start(a: LNode?<int>, b: LNode?<int>, la: seq<LNode<int>>, lb: seq<LNode<int>>)
    requires ListFrom(a, la) && ListFrom(b, lb)
    requires forall p, q :: 0 <= p < |la| && 0 <= q < |lb| ==> la[p] != lb[q]
    ensures Merging(la, lb, 0, 0, a, b, null, null, [], {}, [], Merge(Ids(la), Ids(lb)))
  {
    assert Ids(la)[0..] == Ids(la) && Ids(lb)[0..] == Ids(lb);
  }

  /**
   * One pass of the loop: the greater head (the head of a on a tie, when
   * the head of b is dropped) is taken, linked after the result, and the
   * lists it came from move on.
   */
  method Step(sorted: LNode?<int>, last: LNode?<int>, x: LNode?<int>, y: LNode?<int>,
              ghost la: seq<LNode<int>>, ghost lb: seq<LNode<int>>, ghost i: int, ghost j: int,
              ghost rs: seq<LNode<int>>, ghost taken: set<LNode<int>>, ghost out: seq<int>,
              ghost total: seq<int>)
    returns (sorted': LNode?<int>, last': LNode?<int>, x': LNode?<int>, y': LNode?<int>,
             ghost i': int, ghost j': int, ghost rs': seq<LNode<int>>,
             ghost taken': set<LNode<int>>, ghost out': seq<int>)
    requires Merging(la, lb, i, j, x, y, sorted, last, rs, taken, out, total)
    requires x != null && y != null
    modifies if last == null then {} else {last}
    requires Kept(la, i, rs)
    ensures Merging(la, lb, i', j', x', y', sorted', last', rs', taken', out', total)
    ensures Kept(la, i', rs')
    ensures i' + j' > i + j
  {
    x', y', i', j' := x, y, i, j;
    var take: LNode<int>;
    Apart(la, lb, i, j);
    if x.payload > y.payload {
      take := x;
      Advance(la, i, taken, take);
      Keep(lb, j, taken, take);
      x', i' := x.next, i + 1;
    } else if x.payload < y.payload {
      take := y;
      Keep(la, i, taken, take);
      Advance(lb, j, taken, take);
      y', j' := y.next, j + 1;
    } else {
      take := x;
      Advance(la, i, taken, take);
      Advance(lb, j, taken, take);
      x', i' := x.next, i + 1;
      y', j' := y.next, j + 1;
    }
    OutStep(out, take.payload, Ids(la), Ids(lb), i, j, i', j', total);
    sorted', last' := Link(sorted, last, take, rs, taken, la, i', lb, j');
    rs' := rs + [take];
    taken' := taken + {take};
    out' := out + [take.payload];
  }

  /**
   * Once one list is exhausted (the loop's exit), the rest of the other is
   * linked after the result built so far.
   */
  method Finish(sorted: LNode?<int>, last: LNode?<int>, x: LNode?<int>, y: LNode?<int>,
                ghost rs: seq<LNode<int>>, ghost taken: set<LNode<int>>, ghost out: seq<int>,
                ghost la: seq<LNode<int>>, ghost i: int, ghost lb: seq<LNode<int>>, ghost j: int,
                ghost total: seq<int>)
    returns (head: LNode?<int>, ghost rs': seq<LNode<int>>)
    requires Merging(la, lb, i, j, x, y, sorted, last, rs, taken, out, total)
    requires x == null || y == null
    requires Kept(la, i, rs)
    modifies if last == null then {} else {last}
    ensures ListFrom(head, rs') && Ids(rs') == total
    ensures forall n :: n in rs' ==> n in la || n in lb
    ensures forall n :: n in la ==> n in rs'
  {
    ghost var idsA, idsB := Ids(la), Ids(lb);
    ghost var rest: seq<LNode<int>>;
    if x != null {
      rest := la[i..];
      assert Ids(rest) == idsA[i..];
      RestIsList(la, i, taken);
      RestFrom(la, i, la, lb);
    } else {
      rest := lb[j..];
      assert Ids(rest) == idsB[j..];
      RestIsList(lb, j, taken);
      RestFrom(lb, j, la, lb);
    }
    TailIds(out, rs, rest, idsA, idsB, i, j, x != null, total);
    // *traverse = a != NULL ? a : b
    var tail := if x != null then x else y;
    head := Attach(sorted, last, tail, rs, rest, taken);
    FromEither(rs, rest, la, lb);
    rs' := rs + rest;
  }

  /**
   * *traverse = tail: the rest of one list is linked after the result
   * built so far, or becomes the result when nothing was built.
   */
  method Attach(sorted: LNode?<int>, last: LNode?<int>, tail: LNode?<int>,
                ghost rs: seq<LNode<int>>, ghost rest: seq<LNode<int>>, ghost taken: set<LNode<int>>)
    returns (head: LNode?<int>)
    requires Built(sorted, last, rs, taken)
    requires Chain(rest) && Distinct(rest) && forall k :: 0 <= k < |rest| ==> rest[k] !in taken
    requires tail == if |rest| == 0 then null else rest[0]
    modifies if last == null then {} else {last}
    ensures ListFrom(head, rs + rest)
  {
    if last == null {
      head := tail;
    } else {
      assert last !in rest;
      last.next := tail;
      head := sorted;
    }
    Concat(head, rs, rest, taken);
  }

  /** The nodes from position i on of a list that is la or lb are nodes of la or lb. */
  lemma RestFrom(ns: seq<LNode<int>>, i: int, la: seq<LNode<int>>, lb: seq<LNode<int>>)
    requires 0 <= i <= |ns| && (ns == la || ns == lb)
    ensures forall k :: 0 <= k < |ns[i..]| ==> ns[i..][k] in la || ns[i..][k] in lb
  {
    forall k | 0 <= k < |ns[i..]| ensures ns[i..][k] in la || ns[i..][k] in lb {
      assert ns[i..][k] == ns[i + k];
    }
  }

  /**
   * Once one list is exhausted, the ids of the result followed by those of
   * the other list's rest are the whole merge.
   */
  lemma TailIds(out: seq<int>, rs: seq<LNode<int>>, rest: seq<LNode<int>>,
                idsA: seq<int>, idsB: seq<int>, i: int, j: int, fromA: bool, total: seq<int>)
    requires 0 <= i <= |idsA| && 0 <= j <= |idsB|
    requires fromA ==> j == |idsB| && Ids(rest) == idsA[i..]
    requires !fromA ==> i == |idsA| && Ids(rest) == idsB[j..]
    requires |out| == |rs| && forall k :: 0 <= k < |rs| ==> out[k] == rs[k].payload
    requires out + Merge(idsA[i..], idsB[j..]) == total
    ensures Ids(rs + rest) == total
  {
    MergeEmpty(idsA[i..]);
    MergeEmpty(idsB[j..]);
    assert idsA[|idsA|..] == [] && idsB[|idsB|..] == [];
    assert Ids(rs) == out;
    assert Ids(rs + rest) == Ids(rs) + Ids(rest);
  }

  /**
   * The head of what is left moves on: its next is the following node, and
   * t (the head itself, or a node not among those left) joins the taken.
   */
  lemma Advance(ns: seq<LNode<int>>, i: int, taken: set<LNode<int>>, t: LNode<int>)
    requires Distinct(ns) && Remaining(ns, i, taken) && i < |ns|
    requires t == ns[i] || forall k :: i <= k < |ns| ==> ns[k] != t
    ensures ns[i].next == if i + 1 < |ns| then ns[i + 1] else null
    ensures Remaining(ns, i + 1, taken + {t})
  {
  }

  /** What is left stays left when a node not among it is taken. */
  lemma Keep(ns: seq<LNode<int>>, i: int, taken: set<LNode<int>>, t: LNode<int>)
    requires Remaining(ns, i, taken)
    requires forall k :: i <= k < |ns| ==> ns[k] != t
    ensures Remaining(ns, i, taken + {t})
  {
  }

  /** The head of what is left of one of two disjoint lists is not left in the other. */
  lemma Apart(la: seq<LNode<int>>, lb: seq<LNode<int>>, i: int, j: int)
    requires forall p, q :: 0 <= p < |la| && 0 <= q < |lb| ==> la[p] != lb[q]
    requires 0 <= i <= |la| && 0 <= j <= |lb|
    ensures i < |la| ==> forall k :: j <= k < |lb| ==> lb[k] != la[i]
    ensures j < |lb| ==> forall k :: i <= k < |la| ==> la[k] != lb[j]
  {
  }

  /**
   * *traverse = take; traverse = &take->next: take becomes the result's new
   * last node. Only the old last node's next changes, and that node is in
   * the result, so what is left of either list is untouched.
   */
  method Link(sorted: LNode?<int>, last: LNode?<int>, take: LNode<int>,
              ghost rs: seq<LNode<int>>, ghost taken: set<LNode<int>>,
              ghost la: seq<LNode<int>>, ghost i: int, ghost lb: seq<LNode<int>>, ghost j: int)
    returns (sorted': LNode?<int>, last': LNode<int>)
    requires Built(sorted, last, rs, taken) && take !in taken
    requires Remaining(la, i, taken + {take}) && Remaining(lb, j, taken + {take})
    modifies if last == null then {} else {last}
    ensures Built(sorted', last', rs + [take], taken + {take}) && last' == take
    ensures Remaining(la, i, taken + {take}) && Remaining(lb, j, taken + {take})
  {
    sorted' := sorted;
    if last == null {
      sorted' := take;
    } else {
      last.next := take;
    }
    last' := take;
    ghost var r := rs + [take];
    forall p, q | 0 <= p < q < |r| ensures r[p] != r[q] {
      if q == |rs| { assert r[p] == rs[p] && rs[p] in taken; } else { assert r[p] == rs[p] && r[q] == rs[q]; }
    }
    forall k | 0 <= k < |r| - 1 ensures r[k].next == r[k + 1] {
      if k < |rs| - 1 { assert r[k] == rs[k] != last; }
    }
  }

  /** The merged ids so far grow by the id of the node taken, as Merge says. */
  lemma OutStep(out: seq<int>, v: int, x: seq<int>, y: seq<int>, i0: int, j0: int, i: int, j: int, total: seq<int>)
    requires 0 <= i0 < |x| && 0 <= j0 < |y|
    requires x[i0] > y[j0] ==> v == x[i0] && i == i0 + 1 && j == j0
    requires x[i0] < y[j0] ==> v == y[j0] && i == i0 && j == j0 + 1
    requires x[i0] == y[j0] ==> v == x[i0] && i == i0 + 1 && j == j0 + 1
    requires out + Merge(x[i0..], y[j0..]) == total
    ensures (out + [v]) + Merge(x[i..], y[j..]) == total
  {
    MergeUnfold(x[i0..], y[j0..]);
    assert x[i0..][1..] == x[i0 + 1..] && y[j0..][1..] == y[j0 + 1..];
    assert Merge(x[i0..], y[j0..]) == [v] + Merge(x[i..], y[j..]);
    assert out + ([v] + Merge(x[i..], y[j..])) == (out + [v]) + Merge(x[i..], y[j..]);
  }

  /** What is left of a list from i on is a list itself, none of whose nodes is taken. */
  lemma RestIsList(ns: seq<LNode<int>>, i: int, taken: set<LNode<int>>)
    requires Distinct(ns) && Remaining(ns, i, taken)
    ensures Distinct(ns[i..]) && Chain(ns[i..])
    ensures forall k :: 0 <= k < |ns[i..]| ==> ns[i..][k] !in taken
  {
    var r := ns[i..];
    forall p, q | 0 <= p < q < |r| ensures r[p] != r[q] {
      assert r[p] == ns[i + p] && r[q] == ns[i + q];
    }
    forall k | 0 <= k < |r| - 1 ensures r[k].next == r[k + 1] {
      assert r[k] == ns[i + k] && r[k + 1] == ns[i + k + 1];
    }
  }

  /** Every node of rs + rest comes from la or lb when every node of each part does. */
  lemma FromEither(rs: seq<LNode<int>>, rest: seq<LNode<int>>, la: seq<LNode<int>>, lb: seq<LNode<int>>)
    requires forall k :: 0 <= k < |rs| ==> rs[k] in la || rs[k] in lb
    requires forall k :: 0 <= k < |rest| ==> rest[k] in la || rest[k] in lb
    ensures forall n :: n in rs + rest ==> n in la || n in lb
  {
  }

  /** One step of Merge on two non-empty lists. */
  lemma MergeUnfold(x: seq<int>, y: seq<int>)
    requires |x| > 0 && |y| > 0
    ensures x[0] > y[0] ==> Merge(x, y) == [x[0]] + Merge(x[1..], y)
    ensures x[0] < y[0] ==> Merge(x, y) == [y[0]] + Merge(x, y[1..])
    ensures x[0] == y[0] ==> Merge(x, y) == [x[0]] + Merge(x[1..], y[1..])
  {
  }

  /** Linking the result so far to the rest of one list gives one whole list. */
  lemma Concat(head: LNode?<int>, rs: seq<LNode<int>>, rest: seq<LNode<int>>, taken: set<LNode<int>>)
    requires Distinct(rs) && Chain(rest) && Distinct(rest)
    requires forall k :: 0 <= k < |rs| ==> rs[k] in taken
    requires forall k :: 0 <= k < |rest| ==> rest[k] !in taken
    requires |rs| == 0 ==> head == if |rest| == 0 then null else rest[0]
    requires |rs| > 0 ==> head == rs[0]
    requires forall k :: 0 <= k < |rs| - 1 ==> rs[k].next == rs[k + 1]
    requires |rs| > 0 ==> rs[|rs| - 1].next == if |rest| == 0 then null else rest[0]
    ensures ListFrom(head, rs + rest)
  {
    var r := rs + rest;
    forall k | 0 <= k < |r| - 1 ensures r[k].next == r[k + 1] {
      if k < |rs| - 1 {
        assert r[k] == rs[k] && r[k + 1] == rs[k + 1];
      } else if k == |rs| - 1 {
        assert r[k + 1] == rest[0];
      } else {
        assert r[k] == rest[k - |rs|] && r[k + 1] == rest[k + 1 - |rs|];
      }
    }
    forall p, q | 0 <= p < q < |r| ensures r[p] != r[q] {
      if q < |rs| {
        assert r[p] == rs[p] && r[q] == rs[q];
      } else if |rs| <= p {
        assert r[p] == rest[p - |rs|] && r[q] == rest[q - |rs|];
      } else {
        assert r[p] == rs[p] && r[q] == rest[q - |rs|];
      }
    }
  }
}
