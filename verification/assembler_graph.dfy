/**
 * The de Bruijn walks of generateUnitigs in assembler_model.cpp. Two
 * k-mers are neighbours when the last k-1 characters of one are the first
 * k-1 of the other; a walk extends a unitig through a neighbour only when
 * the step is unambiguous both ways and the neighbour still holds read ids.
 * Each k-mer it passes through is consumed: its utgno becomes the new
 * unitig's index and its id list is emptied.
 */
module DeBruijn {
  import opened KmerTable

  /** cmap: the bases in the order the neighbours of a k-mer are tried. */
  const Bases: string := "ATGC"

  /** The bases among cs, in order, that extend the overlap o on the right to a key. */
  function RightOf(K: set<string>, o: string, cs: string): (r: string)
    ensures |r| <= |cs|
    ensures forall c :: c in r <==> c in cs && o + [c] in K
  {
    if |cs| == 0 then []
    else
      assert cs == cs[..|cs| - 1] + [cs[|cs| - 1]];
      RightOf(K, o, cs[..|cs| - 1]) + if o + [cs[|cs| - 1]] in K then [cs[|cs| - 1]] else []
  }

  /** The bases among cs, in order, that extend the overlap o on the left to a key. */
  function LeftOf(K: set<string>, o: string, cs: string): (r: string)
    ensures |r| <= |cs|
    ensures forall c :: c in r <==> c in cs && [c] + o in K
  {
    if |cs| == 0 then []
    else
      assert cs == cs[..|cs| - 1] + [cs[|cs| - 1]];
      LeftOf(K, o, cs[..|cs| - 1]) + if [cs[|cs| - 1]] + o in K then [cs[|cs| - 1]] else []
  }

  /** The bases c, in A, T, G, C order, such that w[1..] + c is a key: the successors of w. */
  function Successors(K: set<string>, w: string): string
    requires |w| >= 1
  {
    RightOf(K, w[1..], Bases)
  }

  /** The bases c, in A, T, G, C order, such that c + w[..|w|-1] is a key: the predecessors of w. */
  function Predecessors(K: set<string>, w: string): string
    requires |w| >= 1
  {
    LeftOf(K, w[..|w| - 1], Bases)
  }

  /**
   * The successor loop of generateUnitigs: the bases c, tried in cmap
   * order, for which o + c is a key are pushed onto edg.
   */
  method PushRight(h: map<string, Kmer>, o: string, edg: string) returns (e: string)
    ensures e == edg + RightOf(h.Keys, o, Bases)
  {
    e := edg;
    for i := 0 to 4
      invariant e == edg + RightOf(h.Keys, o, Bases[..i])
    {
      assert Bases[..i + 1][..i] == Bases[..i];
      if o + [Bases[i]] in h {
        e := e + [Bases[i]];
      }
    }
    assert Bases[..4] == Bases;
  }

  /** The predecessor loop of generateUnitigs: the bases c for which c + o is a key are pushed onto edg. */
  method PushLeft(h: map<string, Kmer>, o: string, edg: string) returns (e: string)
    ensures e == edg + LeftOf(h.Keys, o, Bases)
  {
    e := edg;
    for i := 0 to 4
      invariant e == edg + LeftOf(h.Keys, o, Bases[..i])
    {
      assert Bases[..i + 1][..i] == Bases[..i];
      if [Bases[i]] + o in h {
        e := e + [Bases[i]];
      }
    }
    assert Bases[..4] == Bases;
  }

  /** A k-mer that is a key and still holds read ids. */
  predicate Live(g: map<string, Kmer>, w: string) {
    w in g && |g[w].rid| > 0
  }

  /** The ids of a list as a set. */
  function Elems(r: seq<int>): set<int> {
    set x | x in r
  }

  /** The union of the read ids the table holds for the k-mers of p. */
  function RidUnion(h: map<string, Kmer>, p: seq<string>): set<int> {
    if |p| == 0 then {} else RidUnion(h, p[..|p| - 1]) + Elems(Before(h, p[|p| - 1]).rid)
  }

  /** Putting a k-mer in front of p adds its ids to the union. */
  lemma {:induction false} RidUnionFront(h: map<string, Kmer>, w: string, p: seq<string>)
    ensures RidUnion(h, [w] + p) == Elems(Before(h, w).rid) + RidUnion(h, p)
  {
    if |p| > 0 {
      assert ([w] + p)[..|p|] == [w] + p[..|p| - 1];
      RidUnionFront(h, w, p[..|p| - 1]);
    } else {
      assert ([w] + p)[..0] == [];
    }
  }

  /** Two tables that agree on the k-mers of p give the same union. */
  lemma {:induction false} RidUnionAgree(h: map<string, Kmer>, h': map<string, Kmer>, p: seq<string>)
    requires forall i :: 0 <= i < |p| ==> p[i] in h && p[i] in h' && h[p[i]] == h'[p[i]]
    ensures RidUnion(h, p) == RidUnion(h', p)
  {
    if |p| > 0 {
      RidUnionAgree(h, h', p[..|p| - 1]);
    }
  }

  /**
   * The step from a to b inside a unitig: a has exactly one successor and
   * b exactly one predecessor.
   */
  predicate Joined(K: set<string>, a: string, b: string) {
    |a| >= 1 && |b| >= 1 && |Successors(K, a)| == 1 && |Predecessors(K, b)| == 1
  }

  /**
   * Where a forward walk stops at a: a has no single successor, or that
   * successor has no ids left, or it has more than one predecessor.
   */
  predicate RightEnd(K: set<string>, g: map<string, Kmer>, a: string)
    requires |a| >= 1
  {
    var e := Successors(K, a);
    |e| != 1 || !Live(g, a[1..] + e) || |Predecessors(K, a[1..] + e)| != 1
  }

  /**
   * Where a backward walk stops at b: b has no single predecessor, or that
   * predecessor has no ids left, or it has more than one successor.
   */
  predicate LeftEnd(K: set<string>, g: map<string, Kmer>, b: string)
    requires |b| >= 1
  {
    var e := Predecessors(K, b);
    |e| != 1 || !Live(g, e + b[..|b| - 1]) || |Successors(K, e + b[..|b| - 1])| != 1
  }

  /** The k-mers of path, in order, are the k-length windows of s. */
  ghost predicate Spells(k: int, s: string, path: seq<string>) {
    && k >= 1
    && |path| >= 1
    && |s| == |path| + k - 1
    && (forall i :: 0 <= i < |path| ==> s[i..i + k] == path[i])
  }

  /** Every k-mer of path held ids in h, and none repeats. */
  ghost predicate Fresh(h: map<string, Kmer>, path: seq<string>) {
    && (forall i :: 0 <= i < |path| ==> Live(h, path[i]))
    && (forall i, j :: 0 <= i < j < |path| ==> path[i] != path[j])
  }

  /** g is h with exactly the k-mers of path consumed into unitig idx. */
  ghost predicate Consumed(h: map<string, Kmer>, g: map<string, Kmer>, idx: int, path: seq<string>) {
    && g.Keys == h.Keys
    && (forall w :: w in g ==> g[w] == if w in path then Kmer(idx, []) else h[w])
  }

  /** Consecutive k-mers of path are joined. */
  ghost predicate Chained(K: set<string>, path: seq<string>) {
    forall i :: 0 <= i < |path| - 1 ==> Joined(K, path[i], path[i + 1])
  }

  /**
   * The state of a walk that started from table h with unitig index idx:
   * the k-mers passed, in order, are the k-length windows of s; each held
   * ids in h, none repeats, and consecutive ones are joined; the table now
   * has exactly them consumed and keeps its keys; sid is the union of
   * their ids.
   */
  ghost predicate Walk(h: map<string, Kmer>, g: map<string, Kmer>, k: int, idx: int,
                       s: string, sid: set<int>, path: seq<string>) {
    && Spells(k, s, path)
    && Fresh(h, path)
    && Consumed(h, g, idx, path)
    && Chained(h.Keys, path)
    && sid == RidUnion(h, path)
  }

  /** The k-mers that still hold ids; every step of a walk removes one. */
  function LiveSet(g: map<string, Kmer>): set<string> {
    set w | w in g && |g[w].rid| > 0
  }

  /** Consuming a k-mer that held ids shrinks the set of those that do. */
  lemma LiveSetShrinks(g: map<string, Kmer>, w: string, idx: int)
    requires Live(g, w)
    ensures LiveSet(g[w := Kmer(idx, [])]) < LiveSet(g)
  {
    assert w in LiveSet(g);
  }

  /** The walk's first step: the start k-mer consumed alone. */
  lemma WalkStart(h: map<string, Kmer>, orig: string, k: int, idx: int)
    requires k >= 1 && |orig| == k && Live(h, orig)
    ensures Walk(h, h[orig := Kmer(idx, [])], k, idx, orig, Elems(h[orig].rid), [orig])
  {
    assert orig[0..k] == orig;
    assert [orig][..0] == [];
    assert Before(h, orig) == h[orig];
  }

  /** Appending the k-mer that overlaps the last one appends its last base to the spelled string. */
  lemma SpellsSnoc(k: int, s: string, path: seq<string>, nx: string)
    requires Spells(k, s, path) && |nx| == k && nx[..k - 1] == path[|path| - 1][1..]
    ensures Spells(k, s + [nx[k - 1]], path + [nx])
  {
    var n := |path|;
    var a := path[n - 1];
    var s', p' := s + [nx[k - 1]], path + [nx];
    forall i | 0 <= i < n + 1
      ensures s'[i..i + k] == p'[i]
    {
      if i < n {
        assert s'[i..i + k] == s[i..i + k];
      } else {
        assert s[n - 1..n - 1 + k] == a;
        assert s'[i..i + k] == s[n..n + k - 1] + [nx[k - 1]];
      }
    }
  }

  /** Putting the k-mer that overlaps the first one in front puts its first base in front of the spelled string. */
  lemma SpellsCons(k: int, s: string, path: seq<string>, nx: string)
    requires Spells(k, s, path) && |nx| == k && nx[1..] == path[0][..k - 1]
    ensures Spells(k, [nx[0]] + s, [nx] + path)
  {
    var n := |path|;
    var s', p' := [nx[0]] + s, [nx] + path;
    forall i | 0 <= i < n + 1
      ensures s'[i..i + k] == p'[i]
    {
      if i > 0 {
        assert s'[i..i + k] == s[i - 1..i - 1 + k];
      } else {
        assert s[0..k] == path[0];
        assert s'[0..k] == [nx[0]] + s[0..k - 1];
      }
    }
  }

  /** Consuming one more k-mer that held ids keeps the walk's k-mers fresh and its table consumed. */
  lemma ConsumeNext(h: map<string, Kmer>, g: map<string, Kmer>, idx: int, path: seq<string>, nx: string)
    requires Fresh(h, path) && Consumed(h, g, idx, path) && Live(g, nx)
    ensures nx !in path && g[nx] == h[nx]
    ensures Fresh(h, path + [nx]) && Consumed(h, g[nx := Kmer(idx, [])], idx, path + [nx])
    ensures Fresh(h, [nx] + path) && Consumed(h, g[nx := Kmer(idx, [])], idx, [nx] + path)
  {
    var p' := [nx] + path;
    forall i, j | 0 <= i < j < |p'| ensures p'[i] != p'[j] {
      if i > 0 {
        assert p'[i] == path[i - 1] && p'[j] == path[j - 1];
      }
    }
  }

  /** Extending a chain at either end by a joined k-mer keeps it chained. */
  lemma ChainedEnds(K: set<string>, path: seq<string>, nx: string)
    requires Chained(K, path) && |path| >= 1
    ensures Joined(K, path[|path| - 1], nx) ==> Chained(K, path + [nx])
    ensures Joined(K, nx, path[0]) ==> Chained(K, [nx] + path)
  {
    var p' := [nx] + path;
    if Joined(K, nx, path[0]) {
      forall i | 0 <= i < |p'| - 1
        ensures Joined(K, p'[i], p'[i + 1])
      {
        if i > 0 {
          assert p'[i] == path[i - 1] && p'[i + 1] == path[i];
        }
      }
    }
  }

  /** A forward step through nx, the single successor of the last k-mer, extends the walk by one base. */
  lemma ForwardStep(h: map<string, Kmer>, g: map<string, Kmer>, k: int, idx: int,
                    s: string, sid: set<int>, path: seq<string>, nx: string)
    requires Walk(h, g, k, idx, s, sid, path)
    requires |nx| == k && nx[..k - 1] == path[|path| - 1][1..]
    requires Live(g, nx) && Joined(h.Keys, path[|path| - 1], nx)
    ensures Walk(h, g[nx := Kmer(idx, [])], k, idx, s + [nx[k - 1]],
                 sid + Elems(g[nx].rid), path + [nx])
  {
    SpellsSnoc(k, s, path, nx);
    ConsumeNext(h, g, idx, path, nx);
    ChainedEnds(h.Keys, path, nx);
    assert (path + [nx])[..|path|] == path;
    assert Before(h, nx) == g[nx];
  }

  /** A backward step through nx, the single predecessor of the first k-mer, extends the walk by one base in front. */
  lemma BackwardStep(h: map<string, Kmer>, g: map<string, Kmer>, k: int, idx: int,
                     s: string, sid: set<int>, path: seq<string>, nx: string)
    requires Walk(h, g, k, idx, s, sid, path)
    requires |nx| == k && nx[1..] == path[0][..k - 1]
    requires Live(g, nx) && Joined(h.Keys, nx, path[0])
    ensures Walk(h, g[nx := Kmer(idx, [])], k, idx, [nx[0]] + s,
                 sid + Elems(g[nx].rid), [nx] + path)
  {
    SpellsCons(k, s, path, nx);
    ConsumeNext(h, g, idx, path, nx);
    ChainedEnds(h.Keys, path, nx);
    RidUnionFront(h, nx, path);
    assert Before(h, nx) == g[nx];
  }

  /**
   * The forward loop of generateUnitigs, from the start k-mer orig: it
   * consumes orig, then keeps appending the last base of the single
   * successor while that successor still holds ids and has a single
   * predecessor, consuming it.
   */
  method Forward(h: map<string, Kmer>, orig: string, k: int, idx: int)
    returns (g: map<string, Kmer>, s: string, sid: set<int>, ghost path: seq<string>)
    requires k >= 1 && |orig| == k && Live(h, orig)
    ensures Walk(h, g, k, idx, s, sid, path) && path[0] == orig
    ensures RightEnd(h.Keys, g, path[|path| - 1])
  {
    WalkStart(h, orig, k, idx);
    g := h[orig := Kmer(idx, [])];
    s, sid, path := orig, Elems(h[orig].rid), [orig];
    var tmp := orig;
    while true
      invariant Walk(h, g, k, idx, s, sid, path) && path[0] == orig && tmp == path[|path| - 1]
      decreases LiveSet(g)
    {
      var edg := PushRight(g, tmp[1..], []);
      assert edg == Successors(h.Keys, tmp);
      if |edg| != 1 {
        break;
      }
      var nx := tmp[1..] + edg;
      assert nx == tmp[1..] + [edg[0]] && edg[0] in edg;
      if |g[nx].rid| < 1 {
        break;
      }
      assert nx[..k - 1] == tmp[1..];
      edg := PushLeft(g, nx[..k - 1], edg);
      assert edg[1..] == Predecessors(h.Keys, nx);
      if |edg| != 2 {
        break;
      }
      ForwardStep(h, g, k, idx, s, sid, path, nx);
      LiveSetShrinks(g, nx, idx);
      s := s + [nx[k - 1]];
      sid := sid + Elems(g[nx].rid);
      g := g[nx := Kmer(idx, [])];
      path := path + [nx];
      tmp := nx;
    }
  }

  /**
   * The backward loop of generateUnitigs, from the start k-mer: it keeps
   * putting the single predecessor's first base in front while that
   * predecessor still holds ids and has a single successor, consuming it.
   * (The source's first pass through the loop consumes the start k-mer
   * again, which the forward loop has already emptied, so it is left out.)
   */
  method Backward(h: map<string, Kmer>, g0: map<string, Kmer>, k: int, idx: int,
                  s0: string, sid0: set<int>, ghost path0: seq<string>)
    returns (g: map<string, Kmer>, s: string, sid: set<int>, ghost pre: seq<string>)
    requires Walk(h, g0, k, idx, s0, sid0, path0)
    ensures Walk(h, g, k, idx, s, sid, pre + path0)
    ensures LeftEnd(h.Keys, g, (pre + path0)[0])
  {
    g, s, sid, pre := g0, s0, sid0, [];
    ghost var path := path0;
    var tmp := s0[..k];
    assert s0[0..k] == path0[0];
    assert path == pre + path0;
    while true
      invariant path == pre + path0
      invariant Walk(h, g, k, idx, s, sid, path) && tmp == path[0]
      decreases LiveSet(g)
    {
      var edg := PushLeft(g, tmp[..k - 1], []);
      assert edg == Predecessors(h.Keys, tmp);
      if |edg| != 1 {
        break;
      }
      var nx := edg + tmp[..k - 1];
      assert nx == [edg[0]] + tmp[..k - 1] && edg[0] in edg;
      if |g[nx].rid| < 1 {
        break;
      }
      assert nx[1..] == tmp[..k - 1];
      edg := PushRight(g, nx[1..], edg);
      assert edg[1..] == Successors(h.Keys, nx);
      if |edg| != 2 {
        break;
      }
      BackwardStep(h, g, k, idx, s, sid, path, nx);
      LiveSetShrinks(g, nx, idx);
      s := [edg[0]] + s;
      sid := sid + Elems(g[nx].rid);
      g := g[nx := Kmer(idx, [])];
      path := [nx] + path;
      pre := [nx] + pre;
      tmp := nx;
    }
  }

  /**
   * A later stage of a walk only consumes more: a k-mer without ids stays
   * without them.
   */
  lemma DeadStays(h: map<string, Kmer>, g0: map<string, Kmer>, g: map<string, Kmer>, k: int, idx: int,
                  s0: string, sid0: set<int>, path0: seq<string>, s: string, sid: set<int>, pre: seq<string>)
    requires Walk(h, g0, k, idx, s0, sid0, path0) && Walk(h, g, k, idx, s, sid, pre + path0)
    ensures forall w :: w in g0 && !Live(g0, w) ==> w in g && !Live(g, w)
  {
    forall w | w in g0 && !Live(g0, w)
      ensures w in g && !Live(g, w)
    {
      if w in path0 {
        assert w in pre + path0;
      }
    }
  }

  /** A walk's end found maximal stays so when later walks consume more. */
  lemma RightEndStays(K: set<string>, g0: map<string, Kmer>, g: map<string, Kmer>, a: string)
    requires |a| >= 1 && RightEnd(K, g0, a) && g0.Keys == g.Keys
    requires forall w :: w in g0 && !Live(g0, w) ==> w in g && !Live(g, w)
    ensures RightEnd(K, g, a)
  {
  }

  /** The k-mers a walk spells out are exactly the k-length windows of its string. */
  lemma SpellsWindows(k: int, s: string, path: seq<string>)
    requires Spells(k, s, path)
    ensures path == Windows(s, k)
  {
  }

  /**
   * generateUnitigs on values: the two walks from orig. The unitig's
   * windows are the k-mers consumed, each held ids and none repeats,
   * consecutive ones are joined, sid is the union of their ids, and
   * neither end can be extended any further.
   */
  method Grow(h: map<string, Kmer>, orig: string, k: int, idx: int)
    returns (g: map<string, Kmer>, s: string, sid: set<int>)
    requires k >= 1 && |orig| == k && Live(h, orig)
    ensures Walk(h, g, k, idx, s, sid, Windows(s, k)) && orig in Windows(s, k)
    ensures RightEnd(h.Keys, g, Windows(s, k)[|Windows(s, k)| - 1])
    ensures LeftEnd(h.Keys, g, Windows(s, k)[0])
  {
    var g1, s1, sid1, path1 := Forward(h, orig, k, idx);
    ghost var pre;
    g, s, sid, pre := Backward(h, g1, k, idx, s1, sid1, path1);
    DeadStays(h, g1, g, k, idx, s1, sid1, path1, s, sid, pre);
    RightEndStays(h.Keys, g1, g, path1[|path1| - 1]);
    SpellsWindows(k, s, pre + path1);
    assert (pre + path1)[|pre + path1| - 1] == path1[|path1| - 1];
    assert (pre + path1)[|pre|] == orig;
  }

  /** After a walk, the k-mers it passed and those that held no ids before hold none. */
  lemma WalkKills(h: map<string, Kmer>, g: map<string, Kmer>, k: int, idx: int,
                  s: string, sid: set<int>, path: seq<string>)
    requires Walk(h, g, k, idx, s, sid, path)
    ensures forall w :: w in g && (w in path || !Live(h, w)) ==> !Live(g, w)
  {
  }
}
