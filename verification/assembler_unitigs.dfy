/**
 * The unitig loop of main in assembler_model.cpp: every k-mer still
 * holding ids, visited in the table's order, starts a unitig through
 * generateUnitigs.
 */
module UnitigLoop {
  import opened KmerTable
  import opened DeBruijn
  import opened Contigs

  /**
   * What generateUnitigs(orig) does to the table h, the records cs and the
   * headers hd: the unitig through orig becomes record |cs|, its own
   * header, unlinked, and enters the headers. Its windows are exactly the
   * k-mers consumed, it cannot be extended at either end, and the table
   * gains no key.
   */
  ghost predicate Generated(h: map<string, Kmer>, g: map<string, Kmer>, cs: seq<Contig>, cs': seq<Contig>,
                            hd: set<int>, hd': set<int>, orig: string, k: int) {
    && k >= 1
    && |cs'| == |cs| + 1
    && cs' == cs + [cs'[|cs|]]
    && hd' == hd + {|cs|}
    && var c := cs'[|cs|];
    && Unlinked(c, |cs|)
    && orig in Windows(c.s, k)
    && Walk(h, g, k, |cs|, c.s, c.sid, Windows(c.s, k))
    && RightEnd(h.Keys, g, Windows(c.s, k)[|Windows(c.s, k)| - 1])
    && LeftEnd(h.Keys, g, Windows(c.s, k)[0])
  }

  /**
   * The unitig loop of main with the keys in todo still to be visited:
   * every key is k long, the records before n0 are as they were, unitigs
   * n0.. are built, the new ones are the headers added, and every key
   * already visited holds no ids.
   */
  ghost predicate Visiting(h0: map<string, Kmer>, n0: int, c0: seq<Contig>, hd0: set<int>, todo: set<string>,
                           h: map<string, Kmer>, cs: seq<Contig>, hd: set<int>, k: int) {
    && (forall w :: w in h0 ==> |w| == k)
    && todo <= h.Keys
    && 0 <= n0 <= |cs| && cs[..n0] == c0
    && Built(h0, h, cs, n0, k)
    && hd == hd0 + Span(n0, |cs|)
    && (forall w :: w in h && w !in todo ==> !Live(h, w))
  }

  /** A key still to be visited that holds ids can start a unitig. */
  lemma VisitLive(h0: map<string, Kmer>, n0: int, c0: seq<Contig>, hd0: set<int>, todo: set<string>,
                  h: map<string, Kmer>, cs: seq<Contig>, hd: set<int>, k: int, w: string)
    requires Visiting(h0, n0, c0, hd0, todo, h, cs, hd, k) && w in todo && |h[w].rid| > 0
    ensures k >= 1 && |w| == k && Live(h, w)
  {
  }

  /** Generating the unitig through a visited key that held ids keeps the loop's state. */
  lemma VisitStep(h0: map<string, Kmer>, n0: int, c0: seq<Contig>, hd0: set<int>, todo: set<string>,
                  h: map<string, Kmer>, cs: seq<Contig>, hd: set<int>, k: int, w: string,
                  g: map<string, Kmer>, cs': seq<Contig>, hd': set<int>)
    requires Visiting(h0, n0, c0, hd0, todo, h, cs, hd, k) && w in todo
    requires Generated(h, g, cs, cs', hd, hd', w, k)
    ensures Visiting(h0, n0, c0, hd0, todo - {w}, g, cs', hd', k)
  {
    var c := cs'[|cs|];
    BuildStep(h0, h, cs, n0, k, g, c);
    WalkKills(h, g, k, |cs|, c.s, c.sid, Windows(c.s, k));
    PrefixSnoc(cs, c, n0);
    SpanSnoc(n0, |cs|);
  }

  /** Generating the unitig through a visited key keeps the unitigs built so far maximal. */
  lemma VisitCloses(h0: map<string, Kmer>, n0: int, h: map<string, Kmer>, cs: seq<Contig>, hd: set<int>, k: int,
                    w: string, g: map<string, Kmer>, cs': seq<Contig>, hd': set<int>)
    requires Maximal(h0.Keys, h, cs, n0, k) && h.Keys == h0.Keys
    requires Generated(h, g, cs, cs', hd, hd', w, k) && Built(h0, g, cs', n0, k)
    ensures Maximal(h0.Keys, g, cs', n0, k)
  {
    CloseStep(h0, h, cs, n0, k, g, cs'[|cs|]);
  }
}
