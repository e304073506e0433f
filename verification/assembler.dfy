/**
 * The assembly pipeline of assembler_model.cpp as one object holding its
 * global tables: the k-mer table hmap and its copy hmap2, the contig
 * records ctgs, the set hdrst of chain headers and the set tip of unitigs
 * marked as tips. k and abd are the two numbers main reads from its
 * arguments.
 */
module Assembly {
  import opened KmerTable
  import opened DeBruijn
  import opened Contigs
  import opened UnitigLoop
  import opened Chains
  import opened Traces

  /** The entries of h whose keys are in S. */
  function Restrict(h: map<string, Kmer>, S: set<string>): (r: map<string, Kmer>)
    ensures r.Keys == h.Keys * S && forall w :: w in r ==> r[w] == h[w]
  {
    map w | w in h && w in S :: h[w]
  }

  /** The entries of h whose keys are not in ws. */
  function Without(h: map<string, Kmer>, ws: seq<string>): (r: map<string, Kmer>)
    ensures r.Keys == h.Keys - (set w | w in ws) && forall w :: w in r ==> r[w] == h[w]
  {
    map w | w in h && w !in ws :: h[w]
  }

  /** Erasing one more key. */
  lemma WithoutSnoc(h: map<string, Kmer>, ws: seq<string>, i: int)
    requires 0 <= i < |ws|
    ensures Without(h, ws[..i + 1]) == Without(h, ws[..i]) - {ws[i]}
  {
    assert ws[..i + 1] == ws[..i] + [ws[i]];
  }

  /** A prefix of a prefix. */
  lemma TakeTake<T>(r: seq<T>, i: int, j: int)
    requires 0 <= i <= j <= |r|
    ensures r[..j][..i] == r[..i]
  {
  }

  /** The whole sequence as a prefix. */
  lemma TakeAll<T>(r: seq<T>)
    ensures r[..|r|] == r
  {
  }

  /** Copying one more entry extends the copy by that key. */
  lemma CopyStep(h2: map<string, Kmer>, h: map<string, Kmer>, done: set<string>, w: string)
    requires w in h
    ensures (h2 + Restrict(h, done))[w := h[w]] == h2 + Restrict(h, done + {w})
  {
  }

  /**
   * The tables and records the unitig stage leaves from the reads rs: h2
   * the table as indexed, h its pruned keys all consumed into the unitigs
   * of u after the sentinel, each its own chain and header.
   */
  ghost predicate UnitigStage(rs: seq<string>, k: int, abd: int, h2: map<string, Kmer>, h: map<string, Kmer>,
                              u: seq<Contig>) {
    && k >= 1 && h2 == IndexAll(rs, k)
    && |u| >= 1 && u[0] == Sentinel && Built(Pruned(IndexAll(rs, k), abd), h, u, 1, k)
    && Maximal(Pruned(IndexAll(rs, k), abd).Keys, h, u, 1, k)
    && (forall w :: w in h ==> !Live(h, w))
    && Linked(u, Span(1, |u|)) && Scorable(h, u, k) && (forall i :: 0 <= i < |u| ==> u[i].prv == 0)
  }

  /** The facts the stages up to the unitigs establish, gathered. */
  lemma UnitigStageHolds(rs: seq<string>, k: int, abd: int, h2: map<string, Kmer>, h: map<string, Kmer>,
                         u: seq<Contig>)
    requires k >= 1 && h2 == IndexAll(rs, k)
    requires |u| >= 1 && u[0] == Sentinel && Built(Pruned(IndexAll(rs, k), abd), h, u, 1, k)
    requires Maximal(Pruned(IndexAll(rs, k), abd).Keys, h, u, 1, k)
    requires forall w :: w in h ==> !Live(h, w)
    requires Linked(u, Span(1, |u|)) && Scorable(h, u, k) && (forall i :: 0 <= i < |u| ==> u[i].prv == 0)
    ensures UnitigStage(rs, k, abd, h2, h, u)
  {
  }

  class Assembler {
    const k: int
    const abd: int
    var hmap: map<string, Kmer>
    var hmap2: map<string, Kmer>
    var ctgs: seq<Contig>
    var hdrst: set<int>
    var tip: set<int>

    /** The globals before main runs: every table empty. */
    constructor (k: int, abd: int)
      ensures this.k == k && this.abd == abd
      ensures hmap == map[] && hmap2 == map[] && ctgs == [] && hdrst == {} && tip == {}
    {
      this.k := k;
      this.abd := abd;
      hmap := map[];
      hmap2 := map[];
      ctgs := [];
      hdrst := {};
      tip := {};
    }

    /** The inner loop of main: id is appended to the entry of each k-length window of read, left to right. */
    method IndexRead(read: string, id: int)
      requires k >= 1
      modifies this`hmap
      ensures hmap == AddAll(old(hmap), Windows(read, k), id)
    {
      ghost var ws := Windows(read, k);
      var i := 0;
      while i + k <= |read|
        invariant 0 <= i <= |ws|
        invariant hmap == AddAll(old(hmap), ws[..i], id)
      {
        var str := read[i..i + k];
        assert ws[..i + 1][..i] == ws[..i];
        hmap := AddId(hmap, str, id);
        i := i + 1;
      }
      assert ws[..i] == ws;
    }

    /**
     * The read loop of main and the sentinel after it: each read is cleaned
     * and indexed under its number, then the "$" record becomes contig 0.
     * The table is then in shape: keys of k bases, id lists non-empty,
     * non-decreasing and below the number of reads.
     */
    method IndexReads(rs: seq<string>)
      requires k >= 1 && hmap == map[] && ctgs == []
      modifies this`hmap, this`ctgs
      ensures hmap == IndexAll(rs, k)
      ensures Indexed(hmap, k, |rs|) && BaseKeys(hmap)
      ensures ctgs == [Sentinel]
    {
      for n := 0 to |rs|
        invariant hmap == IndexAll(rs[..n], k) && ctgs == []
      {
        var read := CleanRead(rs[n]);
        IndexRead(read, n);
        assert rs[..n + 1][..n] == rs[..n];
      }
      assert rs[..|rs|] == rs;
      IndexAllShape(rs, k);
      ctgs := ctgs + [Sentinel];
    }

    /**
     * The pruning loops of main: every entry is copied into hmap2, and the
     * scarce k-mers (fewer ids than abd, compared as sizes) are collected
     * and then erased.
     */
    method Prune()
      modifies this`hmap, this`hmap2
      ensures hmap2 == old(hmap2) + old(hmap)
      ensures hmap == Pruned(old(hmap), abd)
    {
      var doomed := CopyAndCollect();
      EraseKeys(doomed);
      assert Without(old(hmap), doomed) == Pruned(old(hmap), abd);
    }

    /**
     * The first pruning loop of main: each entry is copied into hmap2, and
     * the scarce keys (fewer ids than abd, compared as sizes) are collected.
     */
    method CopyAndCollect() returns (doomed: seq<string>)
      modifies this`hmap2
      ensures hmap2 == old(hmap2) + hmap
      ensures forall w :: w in doomed <==> w in hmap && Scarce(hmap[w], abd)
    {
      doomed := [];
      var todo := hmap.Keys;
      while todo != {}
        invariant todo <= hmap.Keys
        invariant hmap2 == old(hmap2) + Restrict(hmap, hmap.Keys - todo)
        invariant forall w :: w in doomed <==> w in hmap.Keys - todo && Scarce(hmap[w], abd)
        decreases todo
      {
        var w :| w in todo;
        CopyStep(old(hmap2), hmap, hmap.Keys - todo, w);
        hmap2 := hmap2[w := hmap[w]];
        if Scarce(hmap[w], abd) {
          doomed := doomed + [w];
        }
        todo := todo - {w};
      }
      assert Restrict(hmap, hmap.Keys) == hmap;
    }

    /** The second pruning loop of main: each collected key is erased. */
    method EraseKeys(doomed: seq<string>)
      modifies this`hmap
      ensures hmap == Without(old(hmap), doomed)
    {
      for i := 0 to |doomed|
        invariant hmap == Without(old(hmap), doomed[..i])
      {
        WithoutSnoc(old(hmap), doomed, i);
        hmap := hmap - {doomed[i]};
      }
      assert doomed[..|doomed|] == doomed;
    }

    /**
     * generateUnitigs(orig): the unitig through orig becomes contig
     * |ctgs|, its own header, unlinked, and enters hdrst. Its windows are
     * exactly the k-mers consumed, it cannot be extended at either end, and
     * hmap gains no key.
     */
    method GenerateUnitigs(orig: string)
      requires k >= 1 && |orig| == k && Live(hmap, orig)
      modifies this`hmap, this`ctgs, this`hdrst
      ensures Generated(old(hmap), hmap, old(ctgs), ctgs, old(hdrst), hdrst, orig, k)
    {
      var idx := |ctgs|;
      var g, s, sid := Grow(hmap, orig, k, idx);
      hmap := g;
      hdrst := hdrst + {idx};
      ctgs := ctgs + [Contig(idx, s, sid, 0, 0, idx)];
    }

    /**
     * The unitig loop of main: each k-mer still holding ids when it is
     * reached starts a unitig. Afterwards no k-mer holds ids, and each
     * belongs to exactly one new unitig, among whose windows it is (see
     * Built); the new unitigs are maximal (see Maximal) and are the
     * headers added to hdrst.
     */
    method BuildUnitigs()
      requires k >= 1 && forall w :: w in hmap ==> |w| == k && Live(hmap, w)
      modifies this`hmap, this`ctgs, this`hdrst
      ensures |ctgs| >= |old(ctgs)| && ctgs[..|old(ctgs)|] == old(ctgs)
      ensures Built(old(hmap), hmap, ctgs, |old(ctgs)|, k)
      ensures Maximal(old(hmap).Keys, hmap, ctgs, |old(ctgs)|, k)
      ensures forall w :: w in hmap ==> !Live(hmap, w)
      ensures hdrst == old(hdrst) + Span(|old(ctgs)|, |ctgs|)
    {
      ghost var h0, n0 := hmap, |ctgs|;
      BuiltStart(h0, ctgs, k);
      var todo := hmap.Keys;
      while todo != {}
        invariant Building(h0, n0, old(ctgs), old(hdrst), todo)
        decreases todo
      {
        var w :| w in todo;
        Visit(w, h0, n0, old(ctgs), old(hdrst), todo);
        todo := todo - {w};
      }
    }

    /** The state of the unitig loop of main while the keys in todo are still to be visited. */
    ghost predicate Building(h0: map<string, Kmer>, n0: int, c0: seq<Contig>, hd0: set<int>, todo: set<string>)
      reads this
    {
      Visiting(h0, n0, c0, hd0, todo, hmap, ctgs, hdrst, k) && Maximal(h0.Keys, hmap, ctgs, n0, k)
    }

    /** One pass of the unitig loop of main: a k-mer still holding ids starts a unitig. */
    method Visit(w: string, ghost h0: map<string, Kmer>, ghost n0: int, ghost c0: seq<Contig>,
                 ghost hd0: set<int>, ghost todo: set<string>)
      requires Building(h0, n0, c0, hd0, todo) && w in todo
      modifies this`hmap, this`ctgs, this`hdrst
      ensures Building(h0, n0, c0, hd0, todo - {w})
    {
      if |hmap[w].rid| > 0 {
        ghost var h, cs, hd := hmap, ctgs, hdrst;
        VisitLive(h0, n0, c0, hd0, todo, h, cs, hd, k, w);
        GenerateUnitigs(w);
        VisitStep(h0, n0, c0, hd0, todo, h, cs, hd, k, w, hmap, ctgs, hdrst);
        VisitCloses(h0, n0, h, cs, hd, k, w, hmap, ctgs, hdrst);
      }
    }

    /**
     * tips_removal: every unitig after the sentinel that is shorter than
     * 2k and has no successor at its suffix or no predecessor at its
     * prefix is added to tip.
     */
    method TipsRemoval()
      requires LongEnough(ctgs, k)
      modifies this`tip
      ensures tip == old(tip) + TipsBelow(hmap.Keys, ctgs, k, |ctgs|)
    {
      var i := 1;
      while i < |ctgs|
        invariant 1 <= i
        invariant tip == old(tip) + TipsBelow(hmap.Keys, ctgs, k, i)
      {
        var s := ctgs[i].s;
        var suff := s[|s| - k + 1..];
        var pre := s[..k - 1];
        var r, l := CountEnds(suff, pre);
        assert TipsBelow(hmap.Keys, ctgs, k, i + 1)
            == TipsBelow(hmap.Keys, ctgs, k, i) + if IsTip(hmap.Keys, s, k) then {i} else {};
        if (l == 0 || r == 0) && |s| < 2 * k {
          tip := tip + {i};
        }
        i := i + 1;
      }
      assert TipsBelow(hmap.Keys, ctgs, k, i) == TipsBelow(hmap.Keys, ctgs, k, |ctgs|);
    }

    /** The counting loop of tips_removal: the keys extending suff on the right and pre on the left. */
    method CountEnds(suff: string, pre: string) returns (r: int, l: int)
      ensures r == |RightOf(hmap.Keys, suff, Bases)| && l == |LeftOf(hmap.Keys, pre, Bases)|
    {
      r, l := 0, 0;
      for j := 0 to 4
        invariant r == |RightOf(hmap.Keys, suff, Bases[..j])| && l == |LeftOf(hmap.Keys, pre, Bases[..j])|
      {
        assert Bases[..j + 1][..j] == Bases[..j];
        if suff + [Bases[j]] in hmap {
          r := r + 1;
        }
        if [Bases[j]] + pre in hmap {
          l := l + 1;
        }
      }
      assert Bases[..4] == Bases;
    }

    /**
     * The scoring loop of branching for the tail ind: each end of its
     * suffix whose unitig heads another chain and is not a tip is scored by
     * its mate-pair support, and the first best positive score wins (0 for
     * none).
     */
    method ChooseSuccessor(ind: int) returns (mxind: int)
      requires Scorable(hmap, ctgs, k) && 1 <= ind < |ctgs|
      ensures mxind == OpenChoice(hmap, ctgs, tip, ind, k)
    {
      var mxx := 0;
      mxind := 0;
      var s := ctgs[ind].s;
      var suff := s[|s| - k + 1..];
      ghost var ws := Ends(suff);
      ghost var sc, tg := OpenScores(hmap, ctgs, tip, ind, ws), Targets(hmap, ws);
      for j := 0 to 4
        invariant mxx >= 0 && (mxx, mxind) == Best(sc[..j], tg[..j])
      {
        TakeTake(sc, j, j + 1);
        TakeTake(tg, j, j + 1);
        var w := suff + [Bases[j]];
        if w in hmap {
          var indd := hmap[w].utgno;
          if ctgs[indd].prv == 0 && indd !in tip && indd != ctgs[ind].hdr {
            var tpcnt := MateCount(ctgs[ctgs[indd].hdr].sid, ctgs[ctgs[ind].hdr].sid);
            if tpcnt > mxx {
              mxx := tpcnt;
              mxind := indd;
            }
          }
        }
      }
      TakeAll(sc);
      TakeAll(tg);
    }

    /**
     * A commit of branching: m follows ind, the header of ind's chain takes
     * the ids and appends the sequence of m's header, which leaves the
     * headers, and m's header becomes ind's.
     */
    method Commit(ind: int, m: int)
      requires 0 <= ind < |ctgs| && 0 <= m < |ctgs| && 0 <= ctgs[ind].hdr < |ctgs| && 0 <= ctgs[m].hdr < |ctgs|
      modifies this`ctgs, this`hdrst
      ensures ctgs == Link(old(ctgs), ind, m)
      ensures hdrst == old(hdrst) - {old(ctgs)[m].hdr}
    {
      ctgs := ctgs[ind := ctgs[ind].(nxt := m)];
      ctgs := ctgs[m := ctgs[m].(prv := ind)];
      var H, M := ctgs[ind].hdr, ctgs[m].hdr;
      ctgs := ctgs[H := ctgs[H].(sid := ctgs[H].sid + ctgs[M].sid)];
      ctgs := ctgs[H := ctgs[H].(s := ctgs[H].s + ctgs[M].s)];
      hdrst := hdrst - {ctgs[m].hdr};
      ctgs := ctgs[m := ctgs[m].(hdr := ctgs[ind].hdr)];
    }

    /**
     * The extension loop of branching from the head ind0: while the tail
     * has no successor, the chosen head is committed after it. The commits
     * made are run, the chain of choices from ind0 up to the tail where the
     * loop stops (see Run); the records stay rooted and only grow, and the
     * heads linked leave the headers.
     */
    method Extend(ind0: int, ghost cid0: seq<int>, ghost rk0: seq<nat>)
        returns (ghost cid: seq<int>, ghost rk: seq<nat>, ghost run: seq<Step>)
      requires Rooted(ctgs, hdrst, cid0, rk0) && Scorable(hmap, ctgs, k)
      requires 1 <= ind0 < |ctgs| && ctgs[ind0].prv == 0 && ind0 !in tip
      modifies this`ctgs, this`hdrst
      ensures Extending(hmap, old(ctgs), old(hdrst), ind0, k, ctgs, hdrst, cid, rk, Tail(ind0, run))
      ensures Run(hmap, tip, k, old(ctgs), ind0, run)
      ensures ctgs == Replay(old(ctgs), run) && hdrst == old(hdrst) - Heads(run)
    {
      var ind := ind0;
      cid, rk, run := cid0, rk0, [];
      while ctgs[ind].nxt == 0
        invariant ExtendingFrom(old(ctgs), old(hdrst), ind0, cid, rk, ind)
        invariant Traced(old(ctgs), old(hdrst), ind0, run, ind)
        decreases |hdrst|
      {
        var mxind := ChooseSuccessor(ind);
        if mxind == 0 {
          break;
        }
        cid, rk, run := Advance(ind, mxind, old(ctgs), old(hdrst), ind0, cid, rk, run);
        ind := mxind;
      }
    }

    /** One pass of the extension loop of branching, with the commit it adds to the run. */
    method Advance(ind: int, m: int, ghost c0: seq<Contig>, ghost hd0: set<int>, ghost ind0: int,
                   ghost cid0: seq<int>, ghost rk0: seq<nat>, ghost run0: seq<Step>)
        returns (ghost cid: seq<int>, ghost rk: seq<nat>, ghost run: seq<Step>)
      requires ExtendingFrom(c0, hd0, ind0, cid0, rk0, ind) && Traced(c0, hd0, ind0, run0, ind)
      requires ctgs[ind].nxt == 0 && m == OpenChoice(hmap, ctgs, tip, ind, k) && m != 0
      modifies this`ctgs, this`hdrst
      ensures ExtendingFrom(c0, hd0, ind0, cid, rk, m) && Traced(c0, hd0, ind0, run, m)
      ensures |hdrst| < |old(hdrst)|
    {
      ghost var cs, hd := ctgs, hdrst;
      cid, rk := Follow(ind, m, c0, hd0, ind0, cid0, rk0);
      TracingSnoc(hmap, tip, k, c0, hd0, ind0, run0, ind, cs, hd, m);
      run := run0 + [(ind, m)];
    }

    /** One pass of the extension loop of branching: the chosen head m is committed after the tail ind. */
    method Follow(ind: int, m: int, ghost c0: seq<Contig>, ghost hd0: set<int>, ghost ind0: int,
                  ghost cid0: seq<int>, ghost rk0: seq<nat>) returns (ghost cid: seq<int>, ghost rk: seq<nat>)
      requires ExtendingFrom(c0, hd0, ind0, cid0, rk0, ind)
      requires ctgs[ind].nxt == 0 && m == OpenChoice(hmap, ctgs, tip, ind, k) && m != 0
      modifies this`ctgs, this`hdrst
      ensures Followed(hmap, k, c0, hd0, ind0, old(ctgs), old(hdrst), ind, m, ctgs, hdrst, cid, rk)
    {
      ExtendKeeps(hmap, c0, hd0, ind0, k, ctgs, hdrst, cid0, rk0, ind, tip, m);
      Commit(ind, m);
      cid, rk := Reroot(cid0, m, cid0[ind]), Rerank(cid0, rk0, m, rk0[ind] + 1);
    }

    /** The state of the extension loop of branching, as Extending states it of the fields. */
    ghost predicate ExtendingFrom(c0: seq<Contig>, hd0: set<int>, ind0: int, cid: seq<int>, rk: seq<nat>, ind: int)
      reads this
    {
      Extending(hmap, c0, hd0, ind0, k, ctgs, hdrst, cid, rk, ind)
    }

    /** The commits of the extension loop so far, as Tracing states them of the fields. */
    ghost predicate Traced(c0: seq<Contig>, hd0: set<int>, ind0: int, run: seq<Step>, ind: int)
      reads this
    {
      Tracing(hmap, tip, k, c0, hd0, ind0, run, ind, ctgs, hdrst)
    }

    /**
     * branching: the unitigs are visited in the sorted order, and each that
     * heads its chain and is not a tip is extended. The commits made are
     * steps, one run per unitig of order (see Greedy), and the records are
     * those steps replayed: every unitig lies on a chain rooted at a header
     * (see HeadIsRoot), and the heads linked leave the headers.
     */
    method Branching(order: seq<int>) returns (ghost cid: seq<int>, ghost rk: seq<nat>,
                                               ghost steps: seq<Step>, ghost cuts: seq<int>)
      requires Linked(ctgs, hdrst) && Scorable(hmap, ctgs, k) && SortedOrder(ctgs, order)
      requires forall i :: 0 <= i < |ctgs| ==> ctgs[i].prv == 0
      modifies this`ctgs, this`hdrst
      ensures Rooted(ctgs, hdrst, cid, rk) && Scorable(hmap, ctgs, k) && Grown(old(ctgs), ctgs)
      ensures Greedy(hmap, tip, k, old(ctgs), order, steps, cuts)
      ensures ctgs == Replay(old(ctgs), steps) && hdrst == old(hdrst) - Heads(steps)
    {
      SinglesAreRooted(ctgs, hdrst);
      cid, rk := seq(|ctgs|, i => i), seq(|ctgs|, i => 0);
      steps, cuts := [], [0];
      for p := 0 to |order|
        invariant Rooted(ctgs, hdrst, cid, rk) && Scorable(hmap, ctgs, k) && Grown(old(ctgs), ctgs)
        invariant Branched(old(ctgs), old(hdrst), order[..p], steps, cuts)
      {
        TakeSnoc(order, p + 1);
        cid, rk, steps, cuts := Branch(order[p], old(ctgs), old(hdrst), order[..p], cid, rk, steps, cuts);
      }
      assert order[..|order|] == order;
    }

    /** One pass of branching: ind is passed over, or extended from. */
    method Branch(ind: int, ghost c0: seq<Contig>, ghost hd0: set<int>, ghost ord: seq<int>,
                  ghost cid0: seq<int>, ghost rk0: seq<nat>, ghost steps0: seq<Step>, ghost cuts0: seq<int>)
        returns (ghost cid: seq<int>, ghost rk: seq<nat>, ghost steps: seq<Step>, ghost cuts: seq<int>)
      requires Rooted(ctgs, hdrst, cid0, rk0) && Scorable(hmap, ctgs, k) && Grown(c0, ctgs)
      requires Branched(c0, hd0, ord, steps0, cuts0) && 0 <= ind < |ctgs|
      modifies this`ctgs, this`hdrst
      ensures Rooted(ctgs, hdrst, cid, rk) && Scorable(hmap, ctgs, k) && Grown(c0, ctgs)
      ensures Branched(c0, hd0, ord + [ind], steps, cuts)
    {
      ghost var run: seq<Step> := [];
      ghost var cs, hd := ctgs, hdrst;
      cid, rk := cid0, rk0;
      if ctgs[ind].prv != 0 || ind == 0 || ind in tip {
      } else {
        cid, rk, run := Extend(ind, cid0, rk0);
        GrownTrans(c0, cs, ctgs);
      }
      BranchSnoc(hmap, tip, k, c0, hd0, ord, steps0, cuts0, cs, hd, ind, run, ctgs, hdrst);
      steps, cuts := steps0 + run, cuts0 + [|steps0| + |run|];
    }

    /** The state of branching after the unitigs of ord, as BranchState states it of the fields. */
    ghost predicate Branched(c0: seq<Contig>, hd0: set<int>, ord: seq<int>, steps: seq<Step>, cuts: seq<int>)
      reads this
    {
      BranchState(hmap, tip, k, c0, hd0, ord, steps, cuts, ctgs, hdrst)
    }

    /**
     * The output loop of branching: the headers in ascending order, the
     * sentinel and the tips skipped, each with its chain's sequence.
     */
    method Output() returns (ids: seq<int>, contigs: seq<string>)
      requires forall i :: i in hdrst ==> 0 <= i < |ctgs|
      ensures forall p, q :: 0 <= p < q < |ids| ==> ids[p] < ids[q]
      ensures forall i :: i in ids <==> i in hdrst && i != 0 && i !in tip
      ensures |contigs| == |ids|
      ensures forall p :: 0 <= p < |ids| ==> 0 <= ids[p] < |ctgs| && contigs[p] == ctgs[ids[p]].s
    {
      ids, contigs := [], [];
      var rest := hdrst;
      while rest != {}
        invariant rest <= hdrst
        invariant forall p, q :: 0 <= p < q < |ids| ==> ids[p] < ids[q]
        invariant forall p, y :: 0 <= p < |ids| && y in rest ==> ids[p] < y
        invariant forall i :: i in ids <==> i in hdrst - rest && i != 0 && i !in tip
        invariant |contigs| == |ids|
        invariant forall p :: 0 <= p < |ids| ==> 0 <= ids[p] < |ctgs| && contigs[p] == ctgs[ids[p]].s
        decreases rest
      {
        HasLeast(rest);
        var x :| x in rest && forall y :: y in rest ==> x <= y;
        rest := rest - {x};
        if x == 0 || x in tip {
          continue;
        }
        ids := ids + [x];
        contigs := contigs + [ctgs[x].s];
      }
    }

    /**
     * The sort of branching: the unitigs 1..|ctgs|-1 ordered by cmp, by
     * insertion after every unitig that cmp does not put after it. cmp
     * leaves ties unordered and so does std::sort; this keeps them in index
     * order.
     */
    method SortUnitigs() returns (order: seq<int>)
      requires |ctgs| >= 1
      ensures SortedOrder(ctgs, order)
    {
      order := [];
      for i := 1 to |ctgs|
        invariant SortedBelow(ctgs, order, i)
      {
        var p := 0;
        while p < |order| && !Cmp(ctgs[i], ctgs[order[p]])
          invariant 0 <= p <= |order|
          invariant forall q :: 0 <= q < p ==> !Cmp(ctgs[i], ctgs[order[q]])
        {
          p := p + 1;
        }
        InsertSorted(ctgs, order, i, p);
        order := order[..p] + [i] + order[p..];
      }
    }

    /**
     * main from the reads on: index, prune, build the unitigs, sort them and
     * chain them, then list the headers. hmap2 keeps the table as indexed;
     * the unitig stage leaves the records u, every k-mer that survived
     * pruning consumed into one of them (see Built); branching makes the
     * commits steps over the sorted order (see Greedy), so the records are
     * those steps replayed on u; and the output lists the headers left in
     * ascending order with their chains' sequences.
     */
    method Assemble(rs: seq<string>)
        returns (ids: seq<int>, contigs: seq<string>, ghost u: seq<Contig>, ghost order: seq<int>,
                 ghost steps: seq<Step>, ghost cuts: seq<int>, ghost cid: seq<int>, ghost rk: seq<nat>)
      requires k >= 1 && hmap == map[] && hmap2 == map[] && ctgs == [] && hdrst == {}
      modifies this`hmap, this`hmap2, this`ctgs, this`hdrst
      ensures UnitigsOf(rs, u) && hmap.Keys == Pruned(IndexAll(rs, k), abd).Keys
      ensures SortedOrder(u, order) && Greedy(hmap, tip, k, u, order, steps, cuts)
      ensures ctgs == Replay(u, steps) && hdrst == Span(1, |u|) - Heads(steps)
      ensures Rooted(ctgs, hdrst, cid, rk)
      ensures forall p, q :: 0 <= p < q < |ids| ==> ids[p] < ids[q]
      ensures forall i :: i in ids <==> i in hdrst && i !in tip
      ensures |contigs| == |ids|
      ensures forall p :: 0 <= p < |ids| ==> 0 <= ids[p] < |ctgs| && contigs[p] == ctgs[ids[p]].s
    {
      u := Unitigs(rs);
      var ord := SortUnitigs();
      order := ord;
      cid, rk, steps, cuts := Branching(ord);
      ids, contigs := Output();
    }

    /**
     * main up to branching: the reads indexed into hmap, which hmap2
     * keeps, then pruned, and the unitigs built from what is left, u.
     */
    method Unitigs(rs: seq<string>) returns (ghost u: seq<Contig>)
      requires k >= 1 && hmap == map[] && hmap2 == map[] && ctgs == [] && hdrst == {}
      modifies this`hmap, this`hmap2, this`ctgs, this`hdrst
      ensures UnitigsOf(rs, u) && ctgs == u && hdrst == Span(1, |u|)
    {
      IndexAndPrune(rs);
      ghost var pruned := hmap;
      BuildUnitigs();
      u := ctgs;
      BuiltIsScorable(pruned, hmap, ctgs, k);
      UnitigStageHolds(rs, k, abd, hmap2, hmap, u);
    }

    /** The read loop and the pruning loops of main: hmap2 keeps the table as indexed, hmap is pruned. */
    method IndexAndPrune(rs: seq<string>)
      requires k >= 1 && hmap == map[] && hmap2 == map[] && ctgs == [] && hdrst == {}
      modifies this`hmap, this`hmap2, this`ctgs
      ensures hmap2 == IndexAll(rs, k) && hmap == Pruned(IndexAll(rs, k), abd)
      ensures forall w :: w in hmap ==> |w| == k && Live(hmap, w)
      ensures ctgs == [Sentinel] && hdrst == {}
    {
      IndexReads(rs);
      ghost var indexed := hmap;
      Prune();
      PrunedShape(indexed, abd, k, |rs|);
      assert map[] + indexed == indexed;
    }

    /** The tables and records the unitig stage leaves from the reads rs, as UnitigStage states it of the fields. */
    ghost predicate UnitigsOf(rs: seq<string>, u: seq<Contig>)
      reads this
    {
      UnitigStage(rs, k, abd, hmap2, hmap, u)
    }
  }
}
