/**
 * The contig records of assembler_model.cpp and what the unitig stage
 * leaves in them: every k-mer of the table consumed into exactly one
 * unitig, whose windows it is among.
 */
module Contigs {
  import opened KmerTable
  import opened DeBruijn

  /**
   * struct contig: its own index, its sequence, the ids of the reads behind
   * it, the next and previous unitig of its chain (0 for none) and the
   * header of the chain it belongs to.
   */
  datatype Contig = Contig(ctind: int, s: string, sid: set<int>, nxt: int, prv: int, hdr: int)

  /** The "$" record put at index 0 once the reads are indexed; the global cntg starts zeroed. */
  const Sentinel: Contig := Contig(0, "$", {}, 0, 0, 0)

  /** A freshly generated unitig record at index i: its own header, unlinked. */
  predicate Unlinked(c: Contig, i: int) {
    c.ctind == i && c.hdr == i && c.nxt == 0 && c.prv == 0
  }

  /**
   * Unitig i of ctgs, built from the table h0 the unitig stage started
   * with, as the table h now has it: a fresh record of at least k bases
   * whose windows hold no repeat, are joined one to the next, are consumed
   * into unitig i, and whose ids sid unites.
   */
  ghost predicate UnitigAt(h0: map<string, Kmer>, h: map<string, Kmer>, ctgs: seq<Contig>, i: int, k: int)
    requires 0 <= i < |ctgs| && k >= 1
  {
    var c := ctgs[i];
    var ws := Windows(c.s, k);
    && Unlinked(c, i)
    && |c.s| >= k
    && (forall p, q :: 0 <= p < q < |ws| ==> ws[p] != ws[q])
    && Chained(h0.Keys, ws)
    && (forall w :: w in ws ==> w in h && h[w] == Kmer(i, []))
    && c.sid == RidUnion(h0, ws)
  }

  /**
   * Unitig i cannot be extended past its last k-mer a: when a has a single
   * successor x, and x a single predecessor, x holds no ids and was
   * consumed into unitig i or an earlier one.
   */
  ghost predicate ClosedRight(K: set<string>, h: map<string, Kmer>, a: string, i: int)
    requires |a| >= 1
  {
    var e := Successors(K, a);
    |e| == 1 && |Predecessors(K, a[1..] + e)| == 1 ==>
      a[1..] + e in h && !Live(h, a[1..] + e) && h[a[1..] + e].utgno <= i
  }

  /** The mirror of ClosedRight before the first k-mer b of unitig i. */
  ghost predicate ClosedLeft(K: set<string>, h: map<string, Kmer>, b: string, i: int)
    requires |b| >= 1
  {
    var e := Predecessors(K, b);
    |e| == 1 && |Successors(K, e + b[..|b| - 1])| == 1 ==>
      e + b[..|b| - 1] in h && !Live(h, e + b[..|b| - 1]) && h[e + b[..|b| - 1]].utgno <= i
  }

  /** Unitig i of ctgs cannot be extended at either end in the table h, whose keys are K. */
  ghost predicate EndsClosed(K: set<string>, h: map<string, Kmer>, ctgs: seq<Contig>, i: int, k: int)
    requires 0 <= i < |ctgs| && k >= 1
  {
    var ws := Windows(ctgs[i].s, k);
    |ws| >= 1 && ClosedRight(K, h, ws[|ws| - 1], i) && ClosedLeft(K, h, ws[0], i)
  }

  /** A single successor is a key. */
  lemma SuccessorIsKey(K: set<string>, a: string)
    requires |a| >= 1 && |Successors(K, a)| == 1
    ensures a[1..] + Successors(K, a) in K
  {
    var e := Successors(K, a);
    assert e == [e[0]] && e[0] in e;
  }

  /** A single predecessor is a key. */
  lemma PredecessorIsKey(K: set<string>, b: string)
    requires |b| >= 1 && |Predecessors(K, b)| == 1
    ensures Predecessors(K, b) + b[..|b| - 1] in K
  {
    var e := Predecessors(K, b);
    assert e == [e[0]] && e[0] in e;
  }

  /**
   * The unitig stage after the unitigs n0.. have been generated from h0:
   * the table keeps its keys; a k-mer still holding ids holds what it held
   * in h0; any other belongs to one of the new unitigs and is among its
   * windows.
   */
  ghost predicate Built(h0: map<string, Kmer>, h: map<string, Kmer>, ctgs: seq<Contig>, n0: int, k: int) {
    && k >= 1
    && 0 <= n0 <= |ctgs|
    && h.Keys == h0.Keys
    && (forall i :: n0 <= i < |ctgs| ==> UnitigAt(h0, h, ctgs, i, k))
    && (forall w :: w in h && Live(h, w) ==> h[w] == h0[w])
    && (forall w :: w in h && !Live(h, w) ==>
          && n0 <= h[w].utgno < |ctgs|
          && h[w] == Kmer(h[w].utgno, [])
          && w in Windows(ctgs[h[w].utgno].s, k))
  }

  /** The unitigs n0.. of ctgs are maximal in the table h, whose keys are K. */
  ghost predicate Maximal(K: set<string>, h: map<string, Kmer>, ctgs: seq<Contig>, n0: int, k: int) {
    && k >= 1
    && forall i :: 0 <= n0 <= i < |ctgs| ==> EndsClosed(K, h, ctgs, i, k)
  }

  /** Nothing is built before the first unitig. */
  lemma BuiltStart(h0: map<string, Kmer>, ctgs: seq<Contig>, k: int)
    requires k >= 1 && forall w :: w in h0 ==> Live(h0, w)
    ensures Built(h0, h0, ctgs, |ctgs|, k) && Maximal(h0.Keys, h0, ctgs, |ctgs|, k)
  {
  }

  /** One more unitig, grown from a table in the built state, keeps it built. */
  lemma BuildStep(h0: map<string, Kmer>, h: map<string, Kmer>, ctgs: seq<Contig>, n0: int, k: int,
                  g: map<string, Kmer>, c: Contig)
    requires Built(h0, h, ctgs, n0, k)
    requires Unlinked(c, |ctgs|) && Walk(h, g, k, |ctgs|, c.s, c.sid, Windows(c.s, k))
    ensures Built(h0, g, ctgs + [c], n0, k)
  {
    var ws := Windows(c.s, k);
    var ctgs' := ctgs + [c];
    forall i | n0 <= i < |ctgs'|
      ensures UnitigAt(h0, g, ctgs', i, k)
    {
      if i < |ctgs| {
        assert UnitigAt(h0, h, ctgs, i, k);
        forall w | w in Windows(ctgs[i].s, k)
          ensures w in g && g[w] == Kmer(i, [])
        {
          assert !Live(h, w);
          assert w !in ws;
        }
      } else {
        RidUnionAgree(h, h0, ws);
      }
    }
    forall w | w in g && !Live(g, w)
      ensures n0 <= g[w].utgno < |ctgs'| && g[w] == Kmer(g[w].utgno, [])
      ensures w in Windows(ctgs'[g[w].utgno].s, k)
    {
      if w !in ws {
        assert g[w] == h[w];
      }
    }
  }

  /**
   * One more unitig, stopped where it cannot be extended, keeps the
   * unitigs maximal: the earlier ones stay closed, and the new one is
   * closed once the table is built with it.
   */
  lemma CloseStep(h0: map<string, Kmer>, h: map<string, Kmer>, ctgs: seq<Contig>, n0: int, k: int,
                  g: map<string, Kmer>, c: Contig)
    requires Maximal(h0.Keys, h, ctgs, n0, k) && h.Keys == h0.Keys
    requires Walk(h, g, k, |ctgs|, c.s, c.sid, Windows(c.s, k))
    requires RightEnd(h.Keys, g, Windows(c.s, k)[|Windows(c.s, k)| - 1])
    requires LeftEnd(h.Keys, g, Windows(c.s, k)[0])
    requires Built(h0, g, ctgs + [c], n0, k)
    ensures Maximal(h0.Keys, g, ctgs + [c], n0, k)
  {
    var ws := Windows(c.s, k);
    var ctgs' := ctgs + [c];
    forall i | 0 <= n0 <= i < |ctgs'|
      ensures EndsClosed(h0.Keys, g, ctgs', i, k)
    {
      if i < |ctgs| {
        assert EndsClosed(h0.Keys, h, ctgs, i, k);
        var wi := Windows(ctgs[i].s, k);
        ClosedStays(h0, h, g, k, |ctgs|, c.s, c.sid, ws, wi[|wi| - 1], wi[0], i);
      } else {
        EndsClose(h0, g, ctgs', n0, k, ws[|ws| - 1], ws[0]);
      }
    }
  }

  /** A k-mer that held no ids before a walk is left as it was. */
  lemma StaysDead(h: map<string, Kmer>, g: map<string, Kmer>, k: int, idx: int, s: string, sid: set<int>,
                  ws: seq<string>, w: string)
    requires Walk(h, g, k, idx, s, sid, ws) && w in h && !Live(h, w)
    ensures w in g && g[w] == h[w]
  {
    assert w !in ws;
  }

  /** The ends of an earlier unitig stay closed across a walk. */
  lemma ClosedStays(h0: map<string, Kmer>, h: map<string, Kmer>, g: map<string, Kmer>, k: int, idx: int,
                    s: string, sid: set<int>, ws: seq<string>, a: string, b: string, i: int)
    requires Walk(h, g, k, idx, s, sid, ws) && |a| >= 1 && |b| >= 1
    requires ClosedRight(h0.Keys, h, a, i) && ClosedLeft(h0.Keys, h, b, i)
    ensures ClosedRight(h0.Keys, g, a, i) && ClosedLeft(h0.Keys, g, b, i)
  {
    var e := Successors(h0.Keys, a);
    if |e| == 1 && |Predecessors(h0.Keys, a[1..] + e)| == 1 {
      StaysDead(h, g, k, idx, s, sid, ws, a[1..] + e);
    }
    var d := Predecessors(h0.Keys, b);
    if |d| == 1 && |Successors(h0.Keys, d + b[..|b| - 1])| == 1 {
      StaysDead(h, g, k, idx, s, sid, ws, d + b[..|b| - 1]);
    }
  }

  /**
   * The ends where the newest unitig stopped are closed: a stop on a
   * neighbour without ids leaves it consumed by one of the unitigs built.
   */
  lemma EndsClose(h0: map<string, Kmer>, g: map<string, Kmer>, cs: seq<Contig>, n0: int, k: int, a: string, b: string)
    requires |cs| >= 1 && |a| >= 1 && |b| >= 1 && Built(h0, g, cs, n0, k)
    requires RightEnd(h0.Keys, g, a) && LeftEnd(h0.Keys, g, b)
    ensures ClosedRight(h0.Keys, g, a, |cs| - 1) && ClosedLeft(h0.Keys, g, b, |cs| - 1)
  {
    var e := Successors(h0.Keys, a);
    if |e| == 1 && |Predecessors(h0.Keys, a[1..] + e)| == 1 {
      SuccessorIsKey(h0.Keys, a);
    }
    var d := Predecessors(h0.Keys, b);
    if |d| == 1 && |Successors(h0.Keys, d + b[..|b| - 1])| == 1 {
      PredecessorIsKey(h0.Keys, b);
    }
  }

  /**
   * The unitigs built are maximal: the single successor of a unitig's last
   * k-mer, when that successor has a single predecessor, is a k-mer of the
   * same or an earlier unitig; so is the single predecessor of its first
   * k-mer, when that has a single successor.
   */
  lemma UnitigsAreMaximal(h0: map<string, Kmer>, h: map<string, Kmer>, ctgs: seq<Contig>, n0: int, k: int, i: int)
    requires Built(h0, h, ctgs, n0, k) && Maximal(h0.Keys, h, ctgs, n0, k) && n0 <= i < |ctgs|
    ensures var ws := Windows(ctgs[i].s, k);
            |ws| >= 1 &&
            var a, b := ws[|ws| - 1], ws[0];
            var e, d := Successors(h0.Keys, a), Predecessors(h0.Keys, b);
            && (|e| == 1 && |Predecessors(h0.Keys, a[1..] + e)| == 1 ==>
                  exists j :: n0 <= j <= i && a[1..] + e in Windows(ctgs[j].s, k))
            && (|d| == 1 && |Successors(h0.Keys, d + b[..|b| - 1])| == 1 ==>
                  exists j :: n0 <= j <= i && d + b[..|b| - 1] in Windows(ctgs[j].s, k))
  {
    assert EndsClosed(h0.Keys, h, ctgs, i, k);
    var ws := Windows(ctgs[i].s, k);
    var a, b := ws[|ws| - 1], ws[0];
    var e, d := Successors(h0.Keys, a), Predecessors(h0.Keys, b);
    if |e| == 1 && |Predecessors(h0.Keys, a[1..] + e)| == 1 {
      var x := a[1..] + e;
      assert x in Windows(ctgs[h[x].utgno].s, k);
    }
    if |d| == 1 && |Successors(h0.Keys, d + b[..|b| - 1])| == 1 {
      var x := d + b[..|b| - 1];
      assert x in Windows(ctgs[h[x].utgno].s, k);
    }
  }

  /** The integers lo up to hi, hi excluded. */
  function Span(lo: int, hi: int): (r: set<int>)
    ensures forall i :: i in r <==> lo <= i < hi
    decreases hi - lo
  {
    if hi <= lo then {} else Span(lo, hi - 1) + {hi - 1}
  }

  /** One more integer at the top of a span. */
  lemma SpanSnoc(lo: int, hi: int)
    requires lo <= hi
    ensures Span(lo, hi + 1) == Span(lo, hi) + {hi}
  {
  }

  /** Appending leaves every prefix of the old sequence as it was. */
  lemma PrefixSnoc<T>(xs: seq<T>, x: T, n: int)
    requires 0 <= n <= |xs|
    ensures (xs + [x])[..n] == xs[..n]
  {
  }
}
