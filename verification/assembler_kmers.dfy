/**
 * The k-mer table of assembler_model.cpp: the cleaning of a read, its
 * k-length windows, and what indexing a read does to the table mapping
 * each k-mer to the ids of the reads it occurs in.
 */
module KmerTable {
  /** struct kmer: the unitig the k-mer was placed in (0 until then) and the ids of the reads holding it. */
  datatype Kmer = Kmer(utgno: int, rid: seq<int>)

  predicate IsBase(c: char) {
    c == 'A' || c == 'T' || c == 'G' || c == 'C'
  }

  /** The cleaning of one character: anything but A, T, G and C becomes C. */
  function CleanChar(c: char): (r: char)
    ensures IsBase(r)
    ensures IsBase(c) ==> r == c
  {
    if IsBase(c) then c else 'C'
  }

  /** A read after cleaning, character by character. */
  function Cleaned(read: string): (r: string)
    ensures |r| == |read|
    ensures forall i :: 0 <= i < |read| ==> r[i] == CleanChar(read[i])
  {
    if |read| == 0 then [] else Cleaned(read[..|read| - 1]) + [CleanChar(read[|read| - 1])]
  }

  /** Cleaning leaves only bases, keeps every base where it was, and a second cleaning changes nothing. */
  lemma CleanedIsClean(read: string)
    ensures forall i :: 0 <= i < |read| ==> IsBase(Cleaned(read)[i])
    ensures forall i :: 0 <= i < |read| && IsBase(read[i]) ==> Cleaned(read)[i] == read[i]
    ensures Cleaned(Cleaned(read)) == Cleaned(read)
  {
  }

  /** The cleaning loop of main: each character that is not a base is overwritten with C. */
  method CleanRead(read: string) returns (r: string)
    ensures r == Cleaned(read)
  {
    r := read;
    for i := 0 to |r|
      invariant |r| == |read|
      invariant forall j :: 0 <= j < i ==> r[j] == CleanChar(read[j])
      invariant forall j :: i <= j < |r| ==> r[j] == read[j]
    {
      if r[i] != 'A' && r[i] != 'T' && r[i] != 'G' && r[i] != 'C' {
        r := r[i := 'C'];
      }
    }
  }

  /** The k-length windows of a read, left to right: none when the read is shorter than k. */
  function Windows(read: string, k: int): (ws: seq<string>)
    requires k >= 1
    ensures |ws| == if |read| < k then 0 else |read| - k + 1
    ensures forall i :: 0 <= i < |ws| ==> ws[i] == read[i..i + k]
  {
    if |read| < k then [] else seq(|read| - k + 1, i requires 0 <= i <= |read| - k => read[i..i + k])
  }

  /**
   * hmap[w].rid.emplace_back(id): a k-mer not yet in the table is first
   * added with utgno 0 and no ids.
   */
  function AddId(h: map<string, Kmer>, w: string, id: int): map<string, Kmer> {
    if w in h then h[w := h[w].(rid := h[w].rid + [id])] else h[w := Kmer(0, [id])]
  }

  /** The table after the ids of the windows ws, in order, are appended under id. */
  function AddAll(h: map<string, Kmer>, ws: seq<string>, id: int): map<string, Kmer> {
    if |ws| == 0 then h else AddId(AddAll(h, ws[..|ws| - 1], id), ws[|ws| - 1], id)
  }

  /** n copies of id. */
  function Repeat(id: int, n: nat): (r: seq<int>)
    ensures |r| == n && forall i :: 0 <= i < n ==> r[i] == id
  {
    seq(n, _ => id)
  }

  /** Indexing windows ws under id adds exactly the windows as keys. */
  lemma {:induction false} AddAllKeys(h: map<string, Kmer>, ws: seq<string>, id: int)
    ensures AddAll(h, ws, id).Keys == h.Keys + set w | w in ws
  {
    if |ws| > 0 {
      AddAllKeys(h, ws[..|ws| - 1], id);
      assert ws == ws[..|ws| - 1] + [ws[|ws| - 1]];
    }
  }

  /** The entry for w after ids are appended: the old entry, or utgno 0 and no ids. */
  function Before(h: map<string, Kmer>, w: string): Kmer {
    if w in h then h[w] else Kmer(0, [])
  }

  /**
   * Indexing windows ws under id keeps every utgno (0 for a new key) and
   * appends id to each k-mer once per window that equals it.
   */
  lemma {:induction false} AddAllValues(h: map<string, Kmer>, ws: seq<string>, id: int, w: string)
    requires w in AddAll(h, ws, id)
    ensures AddAll(h, ws, id)[w] == Before(h, w).(rid := Before(h, w).rid + Repeat(id, multiset(ws)[w]))
  {
    var g := AddAll(h, ws, id);
    if |ws| > 0 {
      var init, last := ws[..|ws| - 1], ws[|ws| - 1];
      assert ws == init + [last];
      assert multiset(ws)[w] == multiset(init)[w] + (if w == last then 1 else 0);
      if w in AddAll(h, init, id) {
        AddAllValues(h, init, id, w);
        if w == last {
          assert Repeat(id, multiset(ws)[w]) == Repeat(id, multiset(init)[w]) + [id];
        }
      } else {
        AddAllKeys(h, init, id);
        assert w !in init;
      }
    }
  }

  predicate NonDecreasing(s: seq<int>) {
    forall p, q :: 0 <= p < q < |s| ==> s[p] <= s[q]
  }

  /**
   * The shape of the table while reads are indexed: every key is k long,
   * has at least one id, and its ids are read ids below n in
   * non-decreasing order.
   */
  ghost predicate Indexed(h: map<string, Kmer>, k: int, n: int) {
    forall w :: w in h ==>
      && |w| == k
      && |h[w].rid| > 0
      && NonDecreasing(h[w].rid)
      && (forall i :: 0 <= i < |h[w].rid| ==> 0 <= h[w].rid[i] < n)
  }

  /**
   * Indexing read number n (ids count reads from 0) keeps the table in
   * shape for the next read: ids only grow, so every list stays
   * non-decreasing.
   */
  lemma IndexKeepsShape(h: map<string, Kmer>, read: string, k: int, n: int)
    requires k >= 1 && 0 <= n && Indexed(h, k, n)
    ensures Indexed(AddAll(h, Windows(read, k), n), k, n + 1)
  {
    var ws := Windows(read, k);
    var g := AddAll(h, ws, n);
    AddAllKeys(h, ws, n);
    forall w | w in g
      ensures |w| == k && |g[w].rid| > 0 && NonDecreasing(g[w].rid)
      ensures forall i :: 0 <= i < |g[w].rid| ==> 0 <= g[w].rid[i] < n + 1
    {
      AddAllValues(h, ws, n, w);
      var old_ := Before(h, w).rid;
      var r := g[w].rid;
      if w !in h {
        assert w in ws;
        assert multiset(ws)[w] > 0;
      }
      forall p, q | 0 <= p < q < |r| ensures r[p] <= r[q] {
        if q < |old_| {
          assert r[p] == old_[p] && r[q] == old_[q];
        } else if p < |old_| {
          assert r[p] == old_[p];
        }
      }
    }
  }

  /**
   * The table after the loop of main over the reads: read number n (from
   * 0) is cleaned and each of its k-length windows gets id n, in order.
   */
  function IndexAll(rs: seq<string>, k: int): map<string, Kmer>
    requires k >= 1
  {
    if |rs| == 0 then map[]
    else AddAll(IndexAll(rs[..|rs| - 1], k), Windows(Cleaned(rs[|rs| - 1]), k), |rs| - 1)
  }

  /** Every key is spelled in A, T, G and C only. */
  ghost predicate BaseKeys(h: map<string, Kmer>) {
    forall w, i :: w in h && 0 <= i < |w| ==> IsBase(w[i])
  }

  /**
   * After the rs are indexed every key is a k-length string of bases
   * with a non-empty, non-decreasing list of read ids below the number of
   * rs.
   */
  lemma {:induction false} IndexAllShape(rs: seq<string>, k: int)
    requires k >= 1
    ensures Indexed(IndexAll(rs, k), k, |rs|) && BaseKeys(IndexAll(rs, k))
  {
    if |rs| > 0 {
      var n := |rs| - 1;
      IndexAllShape(rs[..n], k);
      IndexKeepsShape(IndexAll(rs[..n], k), Cleaned(rs[n]), k, n);
      CleanWindows(IndexAll(rs[..n], k), rs[n], k, n);
    }
  }

  /** Indexing a cleaned read adds only keys spelled in bases. */
  lemma CleanWindows(h: map<string, Kmer>, read: string, k: int, id: int)
    requires k >= 1 && BaseKeys(h)
    ensures BaseKeys(AddAll(h, Windows(Cleaned(read), k), id))
  {
    var ws := Windows(Cleaned(read), k);
    AddAllKeys(h, ws, id);
    forall w, i | w in AddAll(h, ws, id) && 0 <= i < |w|
      ensures IsBase(w[i])
    {
      if w !in h {
        var j :| 0 <= j < |ws| && ws[j] == w;
        assert w[i] == Cleaned(read)[j + i];
      }
    }
  }

  /** std::size_t is 64 bits wide: rid.size() ranges below this bound. */
  const SizeBound: int := 0x1_0000_0000_0000_0000

  /**
   * rid.size() < abd at assembler_model.cpp:480. The int abd is converted
   * to std::size_t for the comparison, so a negative abd compares as
   * 2^64 + abd.
   */
  predicate Scarce(e: Kmer, abd: int) {
    |e.rid| < abd % SizeBound
  }

  /** The table after pruning: the k-mers that are not scarce, their entries unchanged. */
  function Pruned(h: map<string, Kmer>, abd: int): map<string, Kmer> {
    map w | w in h && !Scarce(h[w], abd) :: h[w]
  }

  /**
   * Pruning an indexed table leaves it indexed: it drops entries and
   * changes none, and it keeps exactly the entries that are not scarce.
   */
  lemma PrunedShape(h: map<string, Kmer>, abd: int, k: int, n: int)
    requires Indexed(h, k, n) && BaseKeys(h)
    ensures Indexed(Pruned(h, abd), k, n) && BaseKeys(Pruned(h, abd))
    ensures forall w :: w in Pruned(h, abd) ==> !Scarce(Pruned(h, abd)[w], abd)
    ensures forall w :: w in h && !Scarce(h[w], abd) ==> w in Pruned(h, abd)
  {
  }

  /** With abd in the range of a size, a k-mer is scarce exactly when it has fewer than abd ids. */
  lemma ScarceBelowAbd(e: Kmer, abd: int)
    requires 0 <= abd < SizeBound
    ensures Scarce(e, abd) <==> |e.rid| < abd
  {
  }

  /**
   * A negative abd of 32 bits prunes every k-mer: each has fewer ids than
   * 2^64 + abd.
   */
  lemma NegativeAbdPrunesAll(h: map<string, Kmer>, abd: int)
    requires -0x8000_0000 <= abd < 0
    requires forall w :: w in h ==> |h[w].rid| < 0x8000_0000_0000_0000
    ensures Pruned(h, abd) == map[]
  {
    forall w | w in h
      ensures Scarce(h[w], abd)
    {
      assert abd % SizeBound == SizeBound + abd;
    }
  }
}
