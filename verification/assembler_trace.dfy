/**
 * The commits branching makes, as a trace: the (tail, head) pairs it
 * links, in the order it links them. The trace a run of branching leaves
 * is pinned down by the unitigs' order and the records it starts from
 * (see GreedyIsUnique), so stating the records as the trace replayed
 * states which links were made.
 */
module Traces {
  import opened KmerTable
  import opened Contigs
  import opened Chains

  /** A commit of branching: the tail ind and the head m linked after it. */
  type Step = (int, int)

  /** Link where its indices name records, and otherwise the records unchanged. */
  function SafeLink(cs: seq<Contig>, ind: int, m: int): (r: seq<Contig>)
    ensures |r| == |cs|
    ensures 0 <= ind < |cs| && 0 <= m < |cs| && 0 <= cs[ind].hdr < |cs| && 0 <= cs[m].hdr < |cs|
            ==> r == Link(cs, ind, m)
  {
    if 0 <= ind < |cs| && 0 <= m < |cs| && 0 <= cs[ind].hdr < |cs| && 0 <= cs[m].hdr < |cs| then
      LinkAt(cs, ind, m, 0);
      Link(cs, ind, m)
    else cs
  }

  /** The records after each commit of steps in turn. */
  function Replay(cs: seq<Contig>, steps: seq<Step>): (r: seq<Contig>)
    ensures |r| == |cs|
    decreases |steps|
  {
    if |steps| == 0 then cs
    else
      var last := steps[|steps| - 1];
      SafeLink(Replay(cs, steps[..|steps| - 1]), last.0, last.1)
  }

  /** Replaying a + b is replaying b after a. */
  lemma {:induction false} ReplayAppend(cs: seq<Contig>, a: seq<Step>, b: seq<Step>)
    ensures Replay(cs, a + b) == Replay(Replay(cs, a), b)
    decreases |b|
  {
    if |b| == 0 {
      assert a + b == a;
    } else {
      var last := b[|b| - 1];
      assert (a + b)[..|a + b| - 1] == a + b[..|b| - 1];
      ReplayAppend(cs, a, b[..|b| - 1]);
    }
  }

  /** The heads the steps link, each of which leaves the headers. */
  function Heads(steps: seq<Step>): (r: set<int>)
    ensures forall m :: m in r <==> exists p :: 0 <= p < |steps| && steps[p].1 == m
  {
    set p | 0 <= p < |steps| :: steps[p].1
  }

  lemma HeadsAppend(a: seq<Step>, b: seq<Step>)
    ensures Heads(a + b) == Heads(a) + Heads(b)
  {
    forall m | m in Heads(a) + Heads(b) ensures m in Heads(a + b) {
      if m in Heads(a) {
        var p :| 0 <= p < |a| && a[p].1 == m;
        assert (a + b)[p].1 == m;
      } else {
        var p :| 0 <= p < |b| && b[p].1 == m;
        assert (a + b)[|a| + p].1 == m;
      }
    }
  }

  /**
   * A commit the extension loop makes at the tail ind: ind has no
   * successor yet and m, a unitig and not none, is its choice.
   */
  ghost predicate Chooses(h: map<string, Kmer>, tip: set<int>, k: int, cs: seq<Contig>, ind: int, m: int) {
    && Scorable(h, cs, k) && 1 <= ind < |cs| && cs[ind].nxt == 0
    && m == OpenChoice(h, cs, tip, ind, k) && m != 0
  }

  /** Where the extension loop stops at the tail t: t has a successor, or nothing to choose. */
  ghost predicate Stops(h: map<string, Kmer>, tip: set<int>, k: int, cs: seq<Contig>, t: int) {
    && Scorable(h, cs, k) && 1 <= t < |cs|
    && (cs[t].nxt != 0 || OpenChoice(h, cs, tip, t, k) == 0)
  }

  /** The tail reached from ind0 after the commits of run. */
  function Tail(ind0: int, run: seq<Step>): int {
    if |run| == 0 then ind0 else run[|run| - 1].1
  }

  /** Each commit of run is made at the tail the ones before it reached from ind0, and is its choice. */
  ghost predicate Extended(h: map<string, Kmer>, tip: set<int>, k: int, cs: seq<Contig>, ind0: int, run: seq<Step>) {
    forall p {:trigger run[..p]} :: 0 <= p < |run| ==>
      run[p].0 == Tail(ind0, run[..p]) && Chooses(h, tip, k, Replay(cs, run[..p]), run[p].0, run[p].1)
  }

  /** Branching passes over ind: the sentinel, a unitig that already has a predecessor, or a tip. */
  predicate Skipped(tip: set<int>, cs: seq<Contig>, ind: int) {
    !(1 <= ind < |cs|) || cs[ind].prv != 0 || ind in tip
  }

  /**
   * The commits branching makes when it reaches ind0 with the records cs:
   * none when it passes over ind0, and otherwise the chain of choices from
   * ind0 on, up to the tail where the extension loop stops.
   */
  ghost predicate Run(h: map<string, Kmer>, tip: set<int>, k: int, cs: seq<Contig>, ind0: int, run: seq<Step>) {
    if Skipped(tip, cs, ind0) then run == []
    else Extended(h, tip, k, cs, ind0, run) && Stops(h, tip, k, Replay(cs, run), Tail(ind0, run))
  }

  /**
   * The commits of branching over the unitigs of order from the records
   * c0: cut at cuts into one run per unitig, each made from the records
   * the runs before it left.
   */
  ghost predicate Greedy(h: map<string, Kmer>, tip: set<int>, k: int, c0: seq<Contig>, order: seq<int>,
                         steps: seq<Step>, cuts: seq<int>) {
    && |cuts| == |order| + 1 && cuts[0] == 0 && cuts[|order|] == |steps|
    && (forall i :: 0 <= i <= |order| ==> 0 <= cuts[i] <= |steps|)
    && forall i :: 0 <= i < |order| ==> RunAt(h, tip, k, c0, order, steps, cuts, i)
  }

  /** The i-th cut of steps is the run of unitig order[i] from the records the earlier cuts left. */
  ghost predicate RunAt(h: map<string, Kmer>, tip: set<int>, k: int, c0: seq<Contig>, order: seq<int>,
                        steps: seq<Step>, cuts: seq<int>, i: int) {
    && 0 <= i < |order| && i + 1 < |cuts| && 0 <= cuts[i] <= cuts[i + 1] <= |steps|
    && Run(h, tip, k, Replay(c0, steps[..cuts[i]]), order[i], steps[cuts[i]..cuts[i + 1]])
  }

  /** Appending a unitig's run keeps every earlier cut in place. */
  lemma RunAtAppend(h: map<string, Kmer>, tip: set<int>, k: int, c0: seq<Contig>, order: seq<int>,
                    steps: seq<Step>, cuts: seq<int>, ind: int, run: seq<Step>, last: int, i: int)
    requires RunAt(h, tip, k, c0, order, steps, cuts, i)
    ensures RunAt(h, tip, k, c0, order + [ind], steps + run, cuts + [last], i)
  {
    var o, s, c := order + [ind], steps + run, cuts + [last];
    assert c[i] == cuts[i] && c[i + 1] == cuts[i + 1] && o[i] == order[i];
    Slices(steps, run, cuts[i], cuts[i + 1]);
    RunCongruent(h, tip, k, Replay(c0, steps[..cuts[i]]), Replay(c0, s[..c[i]]), order[i], o[i],
                 steps[cuts[i]..cuts[i + 1]], s[c[i]..c[i + 1]]);
  }

  /** The appended run becomes the last cut. */
  lemma RunAtLast(h: map<string, Kmer>, tip: set<int>, k: int, c0: seq<Contig>, order: seq<int>,
                  steps: seq<Step>, cuts: seq<int>, ind: int, run: seq<Step>)
    requires |cuts| == |order| + 1 && cuts[|order|] == |steps|
    requires Run(h, tip, k, Replay(c0, steps), ind, run)
    ensures RunAt(h, tip, k, c0, order + [ind], steps + run, cuts + [|steps| + |run|], |order|)
  {
    var o, s, c := order + [ind], steps + run, cuts + [|steps| + |run|];
    var i := |order|;
    assert c[i] == |steps| && c[i + 1] == |steps| + |run| && o[i] == ind;
    Slices(steps, run, |steps|, |steps| + |run|);
    assert s[..c[i]] == steps;
    RunCongruent(h, tip, k, Replay(c0, steps), Replay(c0, s[..c[i]]), ind, o[i], run, s[c[i]..c[i + 1]]);
  }

  /** A prefix one longer is the prefix and the element after it. */
  lemma TakeSnoc<T>(r: seq<T>, n: int)
    requires 0 < n <= |r|
    ensures r[..n] == r[..n - 1] + [r[n - 1]]
  {
  }

  /** The slices of a + b that lie within a, or are b. */
  lemma Slices(a: seq<Step>, b: seq<Step>, i: int, j: int)
    requires 0 <= i <= j <= |a| || (i == |a| && j == |a| + |b|)
    ensures (a + b)[..i] == a[..i] && (a + b)[i..j] == if j <= |a| then a[i..j] else b
  {
  }

  /** A prefix is a shorter prefix and the slice after it. */
  lemma TakeSplit(r: seq<Step>, i: int, j: int)
    requires 0 <= i <= j <= |r|
    ensures r[..j] == r[..i] + r[i..j]
  {
  }

  /** One more commit at the tail reached extends a chain of choices. */
  lemma ExtendedSnoc(h: map<string, Kmer>, tip: set<int>, k: int, cs: seq<Contig>, ind0: int, run: seq<Step>, m: int)
    requires Extended(h, tip, k, cs, ind0, run)
    requires Chooses(h, tip, k, Replay(cs, run), Tail(ind0, run), m)
    ensures var r := run + [(Tail(ind0, run), m)];
      && Extended(h, tip, k, cs, ind0, r)
      && Replay(cs, r) == SafeLink(Replay(cs, run), Tail(ind0, run), m)
      && Tail(ind0, r) == m
  {
    var r := run + [(Tail(ind0, run), m)];
    assert r[..|run|] == run;
    forall p | 0 <= p < |r|
      ensures r[p].0 == Tail(ind0, r[..p]) && Chooses(h, tip, k, Replay(cs, r[..p]), r[p].0, r[p].1)
    {
      if p < |run| {
        assert r[..p] == run[..p];
      }
    }
  }

  /**
   * The extension loop from ind0 with the records c0 and headers hd0, at
   * the tail ind with records cs and headers hd: its commits so far are
   * run, a chain of choices from ind0 to ind, replayed on c0, and the heads
   * they link have left the headers.
   */
  ghost predicate Tracing(h: map<string, Kmer>, tip: set<int>, k: int, c0: seq<Contig>, hd0: set<int>, ind0: int,
                          run: seq<Step>, ind: int, cs: seq<Contig>, hd: set<int>) {
    && ind == Tail(ind0, run) && Extended(h, tip, k, c0, ind0, run)
    && cs == Replay(c0, run) && hd == hd0 - Heads(run)
  }

  /** A commit of the choice at the tail continues the trace. */
  lemma TracingSnoc(h: map<string, Kmer>, tip: set<int>, k: int, c0: seq<Contig>, hd0: set<int>, ind0: int,
                    run: seq<Step>, ind: int, cs: seq<Contig>, hd: set<int>, m: int)
    requires Tracing(h, tip, k, c0, hd0, ind0, run, ind, cs, hd) && Chooses(h, tip, k, cs, ind, m)
    ensures Tracing(h, tip, k, c0, hd0, ind0, run + [(ind, m)], m, SafeLink(cs, ind, m), hd - {m})
  {
    ExtendedSnoc(h, tip, k, c0, ind0, run, m);
    HeadsAppend(run, [(ind, m)]);
  }

  /**
   * A pass of the extension loop from ind0, from the tail ind with records
   * cs and headers hd to the records r and headers rh: m, committed after
   * ind, is the new tail of the loop's state, and has left the headers.
   */
  ghost predicate Followed(h: map<string, Kmer>, k: int, c0: seq<Contig>, hd0: set<int>, ind0: int,
                           cs: seq<Contig>, hd: set<int>, ind: int, m: int,
                           r: seq<Contig>, rh: set<int>, cid: seq<int>, rk: seq<nat>) {
    && Extending(h, c0, hd0, ind0, k, r, rh, cid, rk, m)
    && r == SafeLink(cs, ind, m) && rh == hd - {m} && |rh| < |hd|
  }

  /**
   * A pass of the extension loop keeps its state: the choice m heads a
   * chain, and committing it after the tail ind leaves m the tail, the
   * records rooted and scorable, and m out of the headers.
   */
  lemma ExtendKeeps(h: map<string, Kmer>, c0: seq<Contig>, hd0: set<int>, ind0: int, k: int,
                    cs: seq<Contig>, hd: set<int>, cid: seq<int>, rk: seq<nat>, ind: int, tip: set<int>, m: int)
    requires Extending(h, c0, hd0, ind0, k, cs, hd, cid, rk, ind)
    requires cs[ind].nxt == 0 && m == OpenChoice(h, cs, tip, ind, k) && m != 0
    ensures 1 <= m < |cs| && cs[m].hdr == m && 0 <= cs[ind].hdr < |cs|
    ensures Followed(h, k, c0, hd0, ind0, cs, hd, ind, m, Link(cs, ind, m), hd - {m},
                     Reroot(cid, m, cid[ind]), Rerank(cid, rk, m, rk[ind] + 1))
  {
    ExtendChoice(h, c0, hd0, ind0, k, cs, hd, cid, rk, ind, tip, m);
    OpenChoiceIsBest(h, cs, tip, ind, k);
    ExtendLinks(h, c0, hd0, ind0, k, cs, hd, cid, rk, ind, m);
    assert m in hd;
  }

  /** Committing a head other than the chain's own after the tail keeps the loop's state, at the new tail. */
  lemma ExtendLinks(h: map<string, Kmer>, c0: seq<Contig>, hd0: set<int>, ind0: int, k: int,
                    cs: seq<Contig>, hd: set<int>, cid: seq<int>, rk: seq<nat>, ind: int, m: int)
    requires Extending(h, c0, hd0, ind0, k, cs, hd, cid, rk, ind)
    requires cs[ind].nxt == 0 && 1 <= m < |cs| && cs[m].prv == 0 && m != cs[ind].hdr
    ensures Extending(h, c0, hd0, ind0, k, Link(cs, ind, m), hd - {m},
                      Reroot(cid, m, cid[ind]), Rerank(cid, rk, m, rk[ind] + 1), m)
  {
    LinkKeepsAll(h, cs, hd, cid, rk, ind, m, k);
    GrownTrans(c0, cs, Link(cs, ind, m));
  }

  /** One more run, from the records the runs before it left, extends the commits of branching. */
  lemma GreedySnoc(h: map<string, Kmer>, tip: set<int>, k: int, c0: seq<Contig>, order: seq<int>,
                   steps: seq<Step>, cuts: seq<int>, ind: int, run: seq<Step>)
    requires Greedy(h, tip, k, c0, order, steps, cuts)
    requires Run(h, tip, k, Replay(c0, steps), ind, run)
    ensures Greedy(h, tip, k, c0, order + [ind], steps + run, cuts + [|steps| + |run|])
  {
    var o, s, c := order + [ind], steps + run, cuts + [|steps| + |run|];
    forall i | 0 <= i < |o|
      ensures RunAt(h, tip, k, c0, o, s, c, i)
    {
      if i < |order| {
        assert RunAt(h, tip, k, c0, order, steps, cuts, i);
        RunAtAppend(h, tip, k, c0, order, steps, cuts, ind, run, |steps| + |run|, i);
      } else {
        RunAtLast(h, tip, k, c0, order, steps, cuts, ind, run);
      }
    }
  }

  /**
   * The state of branching from the records c0 and headers hd0 after the
   * unitigs of order, with records cs and headers hd: the commits made are
   * steps, replayed on c0, and the heads they link have left the headers.
   */
  ghost predicate BranchState(h: map<string, Kmer>, tip: set<int>, k: int, c0: seq<Contig>, hd0: set<int>,
                            order: seq<int>, steps: seq<Step>, cuts: seq<int>, cs: seq<Contig>, hd: set<int>) {
    && Greedy(h, tip, k, c0, order, steps, cuts)
    && cs == Replay(c0, steps) && hd == hd0 - Heads(steps)
  }

  /** One more run of branching, from ind, keeps its state. */
  lemma BranchSnoc(h: map<string, Kmer>, tip: set<int>, k: int, c0: seq<Contig>, hd0: set<int>,
                   order: seq<int>, steps: seq<Step>, cuts: seq<int>, cs: seq<Contig>, hd: set<int>,
                   ind: int, run: seq<Step>, r: seq<Contig>, rh: set<int>)
    requires BranchState(h, tip, k, c0, hd0, order, steps, cuts, cs, hd)
    requires Run(h, tip, k, cs, ind, run) && r == Replay(cs, run) && rh == hd - Heads(run)
    ensures BranchState(h, tip, k, c0, hd0, order + [ind], steps + run, cuts + [|steps| + |run|], r, rh)
  {
    RunAppends(h, tip, k, c0, order, steps, cuts, ind, run);
  }

  /** The commits, records and heads once one more run is made. */
  lemma RunAppends(h: map<string, Kmer>, tip: set<int>, k: int, c0: seq<Contig>, order: seq<int>,
                   steps: seq<Step>, cuts: seq<int>, ind: int, run: seq<Step>)
    requires Greedy(h, tip, k, c0, order, steps, cuts)
    requires Run(h, tip, k, Replay(c0, steps), ind, run)
    ensures Greedy(h, tip, k, c0, order + [ind], steps + run, cuts + [|steps| + |run|])
    ensures Replay(c0, steps + run) == Replay(Replay(c0, steps), run)
    ensures Heads(steps + run) == Heads(steps) + Heads(run)
  {
    GreedySnoc(h, tip, k, c0, order, steps, cuts, ind, run);
    ReplayAppend(c0, steps, run);
    HeadsAppend(steps, run);
  }

  /** Run of equal arguments. */
  lemma RunCongruent(h: map<string, Kmer>, tip: set<int>, k: int, cs1: seq<Contig>, cs2: seq<Contig>,
                     ind1: int, ind2: int, r1: seq<Step>, r2: seq<Step>)
    requires Run(h, tip, k, cs1, ind1, r1) && cs1 == cs2 && ind1 == ind2 && r1 == r2
    ensures Run(h, tip, k, cs2, ind2, r2)
  {
  }

  /** Two chains of choices from the same tail agree as far as both go. */
  lemma {:induction false} ExtendedAgree(h: map<string, Kmer>, tip: set<int>, k: int, cs: seq<Contig>, ind0: int,
                                         r1: seq<Step>, r2: seq<Step>, n: nat)
    requires Extended(h, tip, k, cs, ind0, r1) && Extended(h, tip, k, cs, ind0, r2)
    requires n <= |r1| && n <= |r2|
    ensures r1[..n] == r2[..n]
  {
    if n > 0 {
      ExtendedAgree(h, tip, k, cs, ind0, r1, r2, n - 1);
      assert r1[n - 1] == r2[n - 1];
      TakeSnoc(r1, n);
      TakeSnoc(r2, n);
    }
  }

  /** A chain of choices that is cut short is not one the extension loop stops at. */
  lemma RunNotShort(h: map<string, Kmer>, tip: set<int>, k: int, cs: seq<Contig>, ind0: int,
                    r1: seq<Step>, r2: seq<Step>)
    requires Extended(h, tip, k, cs, ind0, r1) && Stops(h, tip, k, Replay(cs, r1), Tail(ind0, r1))
    requires Extended(h, tip, k, cs, ind0, r2)
    ensures |r2| <= |r1|
  {
    if |r1| < |r2| {
      assert r1 == r1[..|r1|];
      ExtendedAgree(h, tip, k, cs, ind0, r1, r2, |r1|);
    }
  }

  /** What branching commits from a unitig is determined by the records it reaches it with. */
  lemma RunIsUnique(h: map<string, Kmer>, tip: set<int>, k: int, cs: seq<Contig>, ind0: int,
                    r1: seq<Step>, r2: seq<Step>)
    requires Run(h, tip, k, cs, ind0, r1) && Run(h, tip, k, cs, ind0, r2)
    ensures r1 == r2
  {
    if !Skipped(tip, cs, ind0) {
      RunNotShort(h, tip, k, cs, ind0, r1, r2);
      RunNotShort(h, tip, k, cs, ind0, r2, r1);
      ExtendedAgree(h, tip, k, cs, ind0, r1, r2, |r1|);
      assert r1 == r1[..|r1|] && r2 == r2[..|r2|];
    }
  }

  /** The runs over the first n unitigs of two traces of branching coincide. */
  lemma {:induction false} GreedyAgree(h: map<string, Kmer>, tip: set<int>, k: int, c0: seq<Contig>, order: seq<int>,
                                       s1: seq<Step>, c1: seq<int>, s2: seq<Step>, c2: seq<int>, n: nat)
    requires Greedy(h, tip, k, c0, order, s1, c1) && Greedy(h, tip, k, c0, order, s2, c2)
    requires n <= |order|
    ensures c1[n] == c2[n] && s1[..c1[n]] == s2[..c2[n]]
  {
    if n > 0 {
      var i := n - 1;
      GreedyAgree(h, tip, k, c0, order, s1, c1, s2, c2, i);
      assert RunAt(h, tip, k, c0, order, s1, c1, i) && RunAt(h, tip, k, c0, order, s2, c2, i);
      RunCongruent(h, tip, k, Replay(c0, s2[..c2[i]]), Replay(c0, s1[..c1[i]]), order[i], order[i],
                   s2[c2[i]..c2[n]], s2[c2[i]..c2[n]]);
      RunIsUnique(h, tip, k, Replay(c0, s1[..c1[i]]), order[i], s1[c1[i]..c1[n]], s2[c2[i]..c2[n]]);
      TakeSplit(s1, c1[i], c1[n]);
      TakeSplit(s2, c2[i], c2[n]);
    }
  }

  /**
   * Branching over a given order from given records has exactly one
   * trace: the links it makes are determined, so a contract stating the
   * records as a trace replayed states them completely.
   */
  lemma GreedyIsUnique(h: map<string, Kmer>, tip: set<int>, k: int, c0: seq<Contig>, order: seq<int>,
                       s1: seq<Step>, c1: seq<int>, s2: seq<Step>, c2: seq<int>)
    requires Greedy(h, tip, k, c0, order, s1, c1) && Greedy(h, tip, k, c0, order, s2, c2)
    ensures s1 == s2 && c1 == c2
  {
    GreedyAgree(h, tip, k, c0, order, s1, c1, s2, c2, |order|);
    assert s1 == s1[..c1[|order|]] && s2 == s2[..c2[|order|]];
    forall i | 0 <= i < |c1| ensures c1[i] == c2[i] {
      GreedyAgree(h, tip, k, c0, order, s1, c1, s2, c2, i);
    }
  }
}
