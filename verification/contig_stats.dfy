/**
 * Model of the contig-length statistics shared by repeat_feature.py and
 * create_features.py: the list of contig lengths, their floor average,
 * N50 and L50, the largest and smallest length, and the diagonal
 * run-length count of a contig's self dot plot.
 *
 * The contigs dictionary is modelled by the sequence of its values in the
 * dictionary's iteration order; the ids play no part in any statistic.
 */
module ContigStats {
  datatype Option<T> = None | Some(value: T)

  /** Python's sum over a list of ints. */
  function Sum(s: seq<int>): int {
    if |s| == 0 then 0 else s[0] + Sum(s[1..])
  }

  /** Extending a list by one element adds that element to the sum. */
  lemma {:induction false} SumSnoc(s: seq<int>, x: int)
    ensures Sum(s + [x]) == Sum(s) + x
  {
    if |s| > 0 {
      assert (s + [x])[1..] == s[1..] + [x];
      SumSnoc(s[1..], x);
    }
  }

  // ---------------------------------------------------------------------
  // length, individual_length

  /**
   * individual_length: the length of one contig, 0 exactly for the empty
   * contig, the case where the source also prints 1 (not modelled).
   */
  function IndividualLength(contig: string): (n: nat)
    ensures n == 0 <==> contig == []
  {
    |contig|
  }

  /** The list `length` builds: one entry per contig, in iteration order. */
  function LengthList(contigs: seq<string>): (ls: seq<nat>)
    ensures |ls| == |contigs|
    ensures forall k :: 0 <= k < |contigs| ==> ls[k] == IndividualLength(contigs[k])
  {
    if |contigs| == 0 then []
    else LengthList(contigs[..|contigs| - 1]) + [IndividualLength(contigs[|contigs| - 1])]
  }

  /** length: appends the length of each contig in turn. */
  method Lengths(contigs: seq<string>) returns (ls: seq<nat>)
    ensures ls == LengthList(contigs)
    ensures |ls| == |contigs| && forall k :: 0 <= k < |contigs| ==> ls[k] == |contigs[k]|
  {
    ls := [];
    for k := 0 to |contigs|
      invariant ls == LengthList(contigs[..k])
    {
      assert contigs[..k + 1][..k] == contigs[..k];
      ls := ls + [|contigs[k]|];
    }
    assert contigs[..|contigs|] == contigs;
  }

  // ---------------------------------------------------------------------
  // average_contig_length

  /**
   * average_contig_length: the sum floor-divided by the count (Python 2
   * `/` on ints); an empty list divides by zero.
   */
  function AverageContigLength(ls: seq<nat>): (r: Option<int>)
    ensures r.None? <==> |ls| == 0
    ensures r.Some? ==> r.value * |ls| <= Sum(ls) < (r.value + 1) * |ls|
  {
    if |ls| == 0 then None else Some(Sum(ls) / |ls|)
  }

  // ---------------------------------------------------------------------
  // max and min, read_length_features

  /** Python's max over a non-empty list. */
  function Max(s: seq<int>): (m: int)
    requires |s| > 0
    ensures m in s && forall k :: 0 <= k < |s| ==> s[k] <= m
  {
    if |s| == 1 then s[0]
    else
      var rest := Max(s[1..]);
      assert forall k :: 1 <= k < |s| ==> s[k] == s[1..][k - 1];
      if s[0] >= rest then s[0] else rest
  }

  /** Python's min over a non-empty list. */
  function Min(s: seq<int>): (m: int)
    requires |s| > 0
    ensures m in s && forall k :: 0 <= k < |s| ==> m <= s[k]
  {
    if |s| == 1 then s[0]
    else
      var rest := Min(s[1..]);
      assert forall k :: 1 <= k < |s| ==> s[k] == s[1..][k - 1];
      if s[0] <= rest then s[0] else rest
  }

  /** The integer part of read_length_features: the largest and the smallest length. */
  datatype LengthBounds = LengthBounds(max: int, min: int)

  /**
   * read_length_features: max and min of the length list, both drawn from
   * it, with min <= max; `max` of an empty list raises.
   */
  function ReadLengthFeatures(ls: seq<nat>): (r: Option<LengthBounds>)
    ensures r.None? <==> |ls| == 0
    ensures r.Some? ==> r.value.max in ls && r.value.min in ls && r.value.min <= r.value.max
    ensures r.Some? ==> forall k :: 0 <= k < |ls| ==> r.value.min <= ls[k] <= r.value.max
  {
    if |ls| == 0 then None else Some(LengthBounds(Max(ls), Min(ls)))
  }

  /**
   * The deviations computed for each contig of the dictionary,
   * max - length and length - min, are never negative.
   */
  lemma DeviationsNonNegative(contigs: seq<string>, k: int)
    requires 0 <= k < |contigs|
    ensures ReadLengthFeatures(LengthList(contigs)).Some?
    ensures var b := ReadLengthFeatures(LengthList(contigs)).value;
      b.max - IndividualLength(contigs[k]) >= 0 && IndividualLength(contigs[k]) - b.min >= 0
  {
    assert LengthList(contigs)[k] == IndividualLength(contigs[k]);
  }

  /** Sum lies between count * min and count * max. */
  lemma {:induction false} SumBounds(s: seq<int>, lo: int, hi: int)
    requires forall k :: 0 <= k < |s| ==> lo <= s[k] <= hi
    ensures lo * |s| <= Sum(s) <= hi * |s|
  {
    if |s| > 0 {
      assert forall k :: 0 <= k < |s[1..]| ==> s[1..][k] == s[k + 1];
      SumBounds(s[1..], lo, hi);
    }
  }

  /** Multiplying both sides of a <= b by a non-negative n. */
  lemma {:induction false} MulLe(a: int, b: int, n: int)
    requires a <= b && 0 <= n
    ensures a * n <= b * n
    decreases n
  {
    if n > 0 {
      MulLe(a, b, n - 1);
      assert a * n == a * (n - 1) + a && b * n == b * (n - 1) + b;
    }
  }

  /** The floor average lies between the smallest and the largest length. */
  lemma AverageBetweenBounds(ls: seq<nat>)
    requires |ls| > 0
    ensures Min(ls) <= AverageContigLength(ls).value <= Max(ls)
  {
    var n, avg, lo, hi := |ls|, AverageContigLength(ls).value, Min(ls), Max(ls);
    SumBounds(ls, lo, hi);
    assert lo * n <= Sum(ls) <= hi * n;
    assert (hi + 1) * n == hi * n + n;
    if avg < lo {
      MulLe(avg + 1, lo, n);
      assert false;
    }
    if avg > hi {
      MulLe(hi + 1, avg, n);
      assert false;
    }
  }

  // ---------------------------------------------------------------------
  // sorted(..., reverse=True)

  predicate Descending(s: seq<int>) {
    forall p, q :: 0 <= p < q < |s| ==> s[p] >= s[q]
  }

  /** Inserts x into a descending list, before the first element it is not below. */
  function Insert(x: int, s: seq<int>): (r: seq<int>)
    requires Descending(s)
    ensures |r| == |s| + 1 && (r[0] == x || (|s| > 0 && r[0] == s[0]))
    ensures Descending(r) && multiset(r) == multiset(s) + multiset{x}
    ensures Sum(r) == Sum(s) + x
  {
    if |s| == 0 || x >= s[0] then [x] + s
    else
      var t := Insert(x, s[1..]);
      assert s == [s[0]] + s[1..];
      assert s[0] >= t[0];
      [s[0]] + t
  }

  /** Python's sorted(s, reverse=True) on ints: the descending permutation of s. */
  function SortDesc(s: seq<int>): (r: seq<int>)
    ensures Descending(r) && multiset(r) == multiset(s) && |r| == |s|
    ensures Sum(r) == Sum(s)
  {
    if |s| == 0 then []
    else
      assert s == [s[0]] + s[1..];
      Insert(s[0], SortDesc(s[1..]))
  }

  /** Any element of a list is at most the head of a descending list with the same elements. */
  lemma HeadBound(a: seq<int>, b: seq<int>)
    requires Descending(b) && |a| > 0 && multiset(a) == multiset(b)
    ensures |b| > 0 && a[0] <= b[0]
  {
    assert a[0] in multiset(b);
    var q :| 0 <= q < |b| && b[q] == a[0];
  }

  /** Two descending lists holding the same elements are the same list. */
  lemma {:induction false} DescendingUnique(a: seq<int>, b: seq<int>)
    requires Descending(a) && Descending(b) && multiset(a) == multiset(b)
    ensures a == b
    decreases |a|
  {
    if |a| > 0 {
      HeadBound(a, b);
      HeadBound(b, a);
      assert a == [a[0]] + a[1..] && b == [b[0]] + b[1..];
      assert multiset(a[1..]) == multiset(a) - multiset{a[0]};
      assert multiset(b[1..]) == multiset(b) - multiset{b[0]};
      DescendingUnique(a[1..], b[1..]);
    } else {
      assert |b| == |multiset(b)| == 0;
    }
  }

  // ---------------------------------------------------------------------
  // N50, L50

  /** Twice the sum of s[0..p] reaches total (`temp_sum >= total * 0.5`, exact on ints). */
  predicate Reached(s: seq<int>, total: int, p: int)
    requires 0 <= p < |s|
  {
    2 * Sum(s[..p + 1]) >= total
  }

  /**
   * Scanning the descending list s from position k on: the first element
   * at which the running sum reaches half of total, if any.
   */
  function Reach(s: seq<int>, total: int, k: nat): (r: Option<int>)
    requires k <= |s|
    decreases |s| - k
  {
    if k == |s| then None
    else if Reached(s, total, k) then Some(s[k])
    else Reach(s, total, k + 1)
  }

  /** N50 of a list of lengths: the value the loop of `N50` returns, None when `answer` stays unbound. */
  function N50Of(ls: seq<nat>): Option<int> {
    Reach(SortDesc(ls), Sum(ls), 0)
  }

  /**
   * N50: sums the lengths in descending order and returns the first at
   * which the running sum reaches half the total.
   */
  method N50(contigs: seq<string>) returns (answer: Option<int>)
    ensures answer == N50Of(LengthList(contigs))
  {
    var contigLengthList := Lengths(contigs);
    var totalLength := Sum(contigLengthList);
    var sortedList := SortDesc(contigLengthList);
    var tempSum := 0;
    answer := None;
    var k := 0;
    while k < |sortedList|
      invariant 0 <= k <= |sortedList|
      invariant tempSum == Sum(sortedList[..k])
      invariant Reach(sortedList, totalLength, 0) == Reach(sortedList, totalLength, k)
    {
      SumSnoc(sortedList[..k], sortedList[k]);
      assert sortedList[..k] + [sortedList[k]] == sortedList[..k + 1];
      tempSum := tempSum + sortedList[k];
      if 2 * tempSum >= totalLength {
        answer := Some(sortedList[k]);
        return;
      }
      k := k + 1;
    }
  }

  /**
   * Reach from k yields s[p] for the first position p >= k whose prefix
   * reaches half the total, and nothing when no such position exists.
   */
  lemma {:induction false} ReachIsFirst(s: seq<int>, total: int, k: nat)
    requires k <= |s|
    ensures Reach(s, total, k).Some? <==> exists p :: k <= p < |s| && Reached(s, total, p)
    ensures Reach(s, total, k).Some? ==> exists p :: (k <= p < |s|
      && Reach(s, total, k).value == s[p]
      && Reached(s, total, p)
      && forall q :: k <= q < p ==> !Reached(s, total, q))
    decreases |s| - k
  {
    if k < |s| && !Reached(s, total, k) {
      ReachIsFirst(s, total, k + 1);
      if Reach(s, total, k).Some? {
        var p :| k + 1 <= p < |s|
          && Reach(s, total, k).value == s[p]
          && Reached(s, total, p)
          && forall q :: k + 1 <= q < p ==> !Reached(s, total, q);
        assert forall q :: k <= q < p ==> !Reached(s, total, q);
      }
    }
  }

  /** Lengths never sum to less than 0. */
  lemma {:induction false} SumNonNegative(s: seq<nat>)
    ensures Sum(s) >= 0
  {
    if |s| > 0 {
      SumNonNegative(s[1..]);
    }
  }

  /** Whatever Reach yields is an element of the list. */
  lemma {:induction false} ReachInList(s: seq<int>, total: int, k: nat)
    requires k <= |s|
    ensures Reach(s, total, k).Some? ==> Reach(s, total, k).value in s
    decreases |s| - k
  {
    if k < |s| && !Reached(s, total, k) {
      ReachInList(s, total, k + 1);
    }
  }

  /** N50 is defined exactly when there is a contig. */
  lemma N50Defined(ls: seq<nat>)
    ensures N50Of(ls).Some? <==> |ls| > 0
  {
    var s := SortDesc(ls);
    ReachIsFirst(s, Sum(ls), 0);
    if |ls| > 0 {
      assert s[..|s| - 1 + 1] == s;
      SumNonNegative(ls);
      assert Reached(s, Sum(ls), |s| - 1);
    }
  }

  /** N50, when defined, is one of the lengths and at most the largest. */
  lemma N50InList(ls: seq<nat>)
    ensures N50Of(ls).Some? ==> N50Of(ls).value in ls && N50Of(ls).value <= Max(ls)
  {
    var s := SortDesc(ls);
    ReachInList(s, Sum(ls), 0);
    if N50Of(ls).Some? {
      assert N50Of(ls).value in multiset(s);
    }
  }

  /**
   * N50 is the length, in descending order, at which the running sum first
   * reaches half the total.
   */
  lemma N50IsHalfPoint(ls: seq<nat>)
    requires |ls| > 0
    ensures exists p :: (0 <= p < |ls|
      && N50Of(ls) == Some(SortDesc(ls)[p])
      && Reached(SortDesc(ls), Sum(ls), p)
      && forall q :: 0 <= q < p ==> !Reached(SortDesc(ls), Sum(ls), q))
  {
    N50Defined(ls);
    ReachIsFirst(SortDesc(ls), Sum(ls), 0);
  }

  /** N50 depends only on the multiset of lengths, not on the dictionary's order. */
  lemma N50Permutation(a: seq<nat>, b: seq<nat>)
    requires multiset(a) == multiset(b)
    ensures N50Of(a) == N50Of(b)
  {
    DescendingUnique(SortDesc(a), SortDesc(b));
  }

  /** The first position of v in s (list.index). */
  function IndexOf(s: seq<int>, v: int): (i: nat)
    requires v in s
    ensures i < |s| && s[i] == v && forall k :: 0 <= k < i ==> s[k] != v
  {
    if s[0] == v then 0
    else
      assert v in s[1..] by { assert s == [s[0]] + s[1..]; }
      1 + IndexOf(s[1..], v)
  }

  /**
   * L50: one plus the first position, in dictionary order, of a contig
   * whose length is the N50; fails when N50 does.
   */
  function L50(contigs: seq<string>): (r: Option<int>)
    ensures r.None? <==> |contigs| == 0
    ensures r.Some? ==> (1 <= r.value <= |contigs| && N50Of(LengthList(contigs)).Some?
      && LengthList(contigs)[r.value - 1] == N50Of(LengthList(contigs)).value
      && forall k :: 0 <= k < r.value - 1 ==> LengthList(contigs)[k] != N50Of(LengthList(contigs)).value)
  {
    var ls := LengthList(contigs);
    N50Defined(ls);
    N50InList(ls);
    match N50Of(ls)
    case None => None
    case Some(v) =>
      Some(IndexOf(ls, v) + 1)
  }

  // ---------------------------------------------------------------------
  // dotplot_count

  /** The window_size of repeat_feature.py. */
  const WindowSize := 6

  /**
   * The length of the run of matches contig[i-t] == contig[j-t], t = 0, 1, ...,
   * ending at cell (i, j) of the dot plot.
   */
  function Run(c: string, i: int, j: int): (n: nat)
    requires i < |c| && j < |c|
    ensures n == 0 || (n <= i + 1 && n <= j + 1)
    decreases i
  {
    if i < 0 || j < 0 || c[i] != c[j] then 0 else 1 + Run(c, i - 1, j - 1)
  }

  /**
   * Run(c, i, j) is the longest run: the t-th cells back from (i, j) match
   * for every t below it, and the cell just before the run does not.
   */
  lemma {:induction false} RunIsMaximal(c: string, i: int, j: int, t: nat)
    requires i < |c| && j < |c|
    ensures t < Run(c, i, j) ==> c[i - t] == c[j - t]
    ensures t == Run(c, i, j) && 0 <= i - t && 0 <= j - t ==> c[i - t] != c[j - t]
    decreases i
  {
    if 0 <= i && 0 <= j && c[i] == c[j] && t > 0 {
      RunIsMaximal(c, i - 1, j - 1, t - 1);
    }
  }

  /** Row r of the dot plot as the list holds it once row r is done: the diagonal cell is 0. */
  function Row(c: string, r: int, k: int): nat
    requires r < |c| && 0 <= k < |c|
  {
    if r < 0 || k == r then 0 else Run(c, r, k)
  }

  /**
   * A run counted by dotplot_count: one of at least WindowSize matches
   * ending at (r, k) off the diagonal, before the last row, that stops there
   * because the next cell down the diagonal mismatches, or because k is
   * the last column (unless row r + 1 is the last row, whose last cell is
   * the diagonal, which the loop skips).
   */
  predicate Ends(c: string, r: int, k: int)
    requires 0 <= k < |c|
  {
    && 0 <= r < |c| - 1
    && k != r
    && Run(c, r, k) >= WindowSize
    && (if k == |c| - 1 then r + 1 != |c| - 1 else c[r + 1] != c[k + 1])
  }

  /** The number of counted runs ending in row r at columns from..|c|-1. */
  function EndsIn(c: string, r: int, from: nat): nat
    decreases |c| - from
  {
    if r < 0 || from >= |c| then 0
    else (if Ends(c, r, from) then 1 else 0) + EndsIn(c, r, from + 1)
  }

  /** The number of counted runs ending in rows 0..m-1. */
  function RowsEnds(c: string, m: int): nat
    decreases m
  {
    if m <= 0 then 0 else RowsEnds(c, m - 1) + EndsIn(c, m - 1, 0)
  }

  /** What dotplot_count returns: every counted run, over all rows. */
  function DotplotCountOf(c: string): nat {
    RowsEnds(c, |c| - 1)
  }

  /**
   * dotplot_count: row by row, the one-row dot plot is updated from the
   * last column down, each cell from its diagonal predecessor in the
   * previous row, and count grows when a run of at least WindowSize stops.
   */
  method DotplotCount(contig: string) returns (count: nat)
    ensures count == DotplotCountOf(contig)
  {
    var n := |contig|;
    var dotplot := new nat[n](_ => 0);
    count := 0;
    for i := 0 to n
      invariant forall k :: 0 <= k < n ==> dotplot[k] == Row(contig, i - 1, k)
      invariant count == RowsEnds(contig, i - 1)
    {
      var j := n;
      while j > 0
        invariant 0 <= j <= n
        invariant forall k :: j <= k < n ==> dotplot[k] == Row(contig, i, k)
        invariant forall k :: 0 <= k < j ==> dotplot[k] == Row(contig, i - 1, k)
        invariant count == RowsEnds(contig, i - 1) + (if j == n then 0 else EndsIn(contig, i - 1, if j == 0 then 0 else j - 1))
        modifies dotplot
      {
        j := j - 1;
        ColumnStep(contig, i, j);
        if i == j {
          dotplot[i] := 0;
        } else {
          if j == n - 1 && dotplot[j] >= WindowSize {
            count := count + 1;
          }
          if contig[i] == contig[j] {
            if j > 0 {
              dotplot[j] := dotplot[j - 1] + 1;
            } else {
              dotplot[j] := 1;
            }
          } else {
            if j > 0 && dotplot[j - 1] >= WindowSize {
              count := count + 1;
            }
            dotplot[j] := 0;
          }
        }
      }
      assert RowsEnds(contig, i) == RowsEnds(contig, i - 1) + EndsIn(contig, i - 1, 0);
    }
  }

  /**
   * Processing cell (i, j): the new cell is Row(i, j) computed from the
   * previous row, and the two checks of the loop body add exactly the runs
   * counted in row i - 1 that the cell's column newly covers.
   */
  lemma ColumnStep(c: string, i: int, j: int)
    requires 0 <= j < |c| && 0 <= i < |c|
    ensures i != j && c[i] == c[j] && j > 0 ==> Row(c, i, j) == Row(c, i - 1, j - 1) + 1
    ensures i != j && c[i] == c[j] && j == 0 ==> Row(c, i, j) == 1
    ensures i != j && c[i] != c[j] ==> Row(c, i, j) == 0
    ensures i == j ==> Row(c, i, j) == 0
    ensures var first := if j == |c| - 1 && i != j && Row(c, i - 1, j) >= WindowSize then 1 else 0;
      var second := if i != j && c[i] != c[j] && j > 0 && Row(c, i - 1, j - 1) >= WindowSize then 1 else 0;
      (if j == |c| - 1 then 0 else EndsIn(c, i - 1, j)) + first + second
        == EndsIn(c, i - 1, if j == 0 then 0 else j - 1)
  {
    if j == |c| - 1 && i - 1 >= 0 {
      assert EndsIn(c, i - 1, j + 1) == 0;
    }
  }

  /** No run before the last row is longer than |c| - 1. */
  lemma {:induction false} EndsInShort(c: string, r: int, from: nat)
    requires |c| <= WindowSize
    ensures EndsIn(c, r, from) == 0
    decreases |c| - from
  {
    if 0 <= r && from < |c| {
      if r < |c| - 1 {
        assert Run(c, r, from) <= r + 1 < WindowSize;
      }
      EndsInShort(c, r, from + 1);
    }
  }

  /** A contig no longer than the window yields a count of 0. */
  lemma {:induction false} DotplotShort(c: string, m: int)
    requires |c| <= WindowSize
    ensures RowsEnds(c, m) == 0
    decreases m
  {
    if m > 0 {
      DotplotShort(c, m - 1);
      EndsInShort(c, m - 1, 0);
    }
  }
}
