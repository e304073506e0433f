/**
 * Model of bucket_sort.c: the A0 C1 G2 T3 base codec, the in-place counting
 * sort over the four bases, and the rotation that copies a string through a
 * temporary buffer and writes it back with strncpy.
 */
module BucketSort {

  /** The characters in code order: "ACGT"[v] is the base with code v. */
  const CodeOrder: string := "ACGT"

  /** get_char_val: A=0, C=1, G=2, T=3, and -1 for any other character. */
  function CharVal(c: char): (v: int)
    ensures -1 <= v < 4
    ensures v == -1 <==> c !in CodeOrder
    ensures v != -1 ==> CodeOrder[v] == c
  {
    match c
    case 'A' => 0
    case 'C' => 1
    case 'G' => 2
    case 'T' => 3
    case _ => -1
  }

  /**
   * get_char_bp: the inverse table. The source's switch has no default, so a
   * value outside 0..3 falls off the end of the function; the model demands
   * a code in range.
   */
  function CharBp(bp: int): (c: char)
    requires 0 <= bp < 4
    ensures CharVal(c) == bp
  {
    if bp == 0 then 'A' else if bp == 1 then 'C' else if bp == 2 then 'G' else 'T'
  }

  /** A base string is sorted when its codes never decrease (A < C < G < T). */
  ghost predicate BaseSorted(s: seq<char>) {
    forall i, j :: 0 <= i < j < |s| ==> CharVal(s[i]) <= CharVal(s[j])
  }

  /** Every character is one of A, C, G, T. */
  ghost predicate AllBases(s: seq<char>) {
    forall i :: 0 <= i < |s| ==> CharVal(s[i]) != -1
  }

  /** The four base counts of a base string add up to its length. */
  lemma {:induction false} BaseCountsSum(s: seq<char>)
    requires AllBases(s)
    ensures multiset(s)['A'] + multiset(s)['C'] + multiset(s)['G'] + multiset(s)['T'] == |s|
  {
    if s != [] {
      var t := s[..|s| - 1];
      assert s == t + [s[|s| - 1]];
      assert AllBases(t) by {
        forall i | 0 <= i < |t| ensures CharVal(t[i]) != -1 {
          assert t[i] == s[i];
        }
      }
      BaseCountsSum(t);
      assert CharVal(s[|s| - 1]) != -1;
    }
  }

  /**
   * bucket_sort: counts each base into buckets[0..4) and overwrites
   * string[0..len) with the counted bases in code order. Every character of
   * string[0..len) must be a base: any other character makes the source
   * index buckets[-1].
   */
  method BucketSort(a: array<char>, len: int)
    requires 0 <= len <= a.Length
    requires AllBases(a[..len])
    modifies a
    ensures BaseSorted(a[..len])
    ensures multiset(a[..len]) == multiset(old(a[..len]))
    ensures a[len..] == old(a[len..])
  {
    ghost var orig := a[..len];
    var buckets := CountBases(a, len);
    BaseCountsSum(orig);
    ghost var b := buckets[..];
    WriteRuns(a, len, buckets);
    assert a[..len] == Fill(b, 4);
    FillSorted(b, 4);
    FillPermutes(b, orig);
  }

  /** Laying down the counted bases gives back the multiset that was counted. */
  lemma FillPermutes(b: seq<int>, orig: seq<char>)
    requires |b| == 4 && AllBases(orig)
    requires forall v :: 0 <= v < 4 ==> b[v] == multiset(orig)[CharBp(v)]
    ensures multiset(Fill(b, 4)) == multiset(orig)
  {
    forall x
      ensures multiset(Fill(b, 4))[x] == multiset(orig)[x]
    {
      FillCounts(b, 4, x);
      if CharVal(x) == -1 {
        assert x !in orig;
      } else {
        assert x == CharBp(CharVal(x));
      }
    }
  }

  /** The counting pass of bucket_sort: buckets[v] is how often base v occurs in string[0..len). */
  method CountBases(a: array<char>, len: int) returns (buckets: array<int>)
    requires 0 <= len <= a.Length
    requires AllBases(a[..len])
    ensures fresh(buckets) && buckets.Length == 4
    ensures forall v :: 0 <= v < 4 ==> buckets[v] == multiset(a[..len])[CharBp(v)]
  {
    buckets := new int[4](_ => 0);
    var i := 0;
    while i < len
      modifies buckets
      invariant 0 <= i <= len
      invariant forall v :: 0 <= v < 4 ==> buckets[v] == multiset(a[..i])[CharBp(v)]
    {
      assert CharVal(a[i]) != -1;
      var v := CharVal(a[i]);
      assert a[..i + 1] == a[..i] + [a[i]];
      buckets[v] := buckets[v] + 1;
      i := i + 1;
    }
    assert a[..len] == a[..i];
  }

  /**
   * The writing pass of bucket_sort: buckets[v] copies of each base v, in
   * code order, from the start of the string.
   */
  method WriteRuns(a: array<char>, len: int, buckets: array<int>)
    requires buckets.Length == 4 && 0 <= len <= a.Length
    requires forall v :: 0 <= v < 4 ==> buckets[v] >= 0
    requires buckets[0] + buckets[1] + buckets[2] + buckets[3] == len
    modifies a
    ensures a[..len] == Fill(buckets[..], 4)
    ensures a[len..] == old(a[len..])
  {
    ghost var b := buckets[..];
    var count := 0;
    var i := 0;
    while i < 4
      modifies a
      invariant 0 <= i <= 4 && 0 <= count
      invariant buckets[..] == b
      invariant count + SumFrom(b, i) == len
      invariant a[..count] == Fill(b, i)
      invariant a[len..] == old(a[len..])
    {
      var c := CharBp(i);
      var j := 0;
      while j < buckets[i]
        modifies a
        invariant 0 <= j <= buckets[i] && 0 <= count
        invariant count + (b[i] - j) + SumFrom(b, i + 1) == len
        invariant a[..count] == Fill(b, i) + Rep(c, j)
        invariant a[len..] == old(a[len..])
      {
        ghost var before := a[..count];
        a[count] := c;
        assert a[..count + 1] == before + [c];
        assert Rep(c, j + 1) == Rep(c, j) + [c];
        count := count + 1;
        j := j + 1;
      }
      assert Fill(b, i + 1) == Fill(b, i) + Rep(c, b[i]);
      i := i + 1;
    }
  }

  /** n copies of c. */
  function Rep(c: char, n: int): (r: seq<char>)
    requires 0 <= n
    ensures |r| == n && forall t :: 0 <= t < n ==> r[t] == c
  {
    seq(n, _ => c)
  }

  /** What the writing loop has laid down after buckets 0..i: b[v] copies of each base v < i. */
  function Fill(b: seq<int>, i: int): seq<char>
    requires |b| == 4 && 0 <= i <= 4
    requires forall v :: 0 <= v < 4 ==> b[v] >= 0
  {
    if i == 0 then [] else Fill(b, i - 1) + Rep(CharBp(i - 1), b[i - 1])
  }

  /** The laid-down bases are in code order and use only codes below i. */
  lemma {:induction false} FillSorted(b: seq<int>, i: int)
    requires |b| == 4 && 0 <= i <= 4
    requires forall v :: 0 <= v < 4 ==> b[v] >= 0
    ensures BaseSorted(Fill(b, i))
    ensures forall t :: 0 <= t < |Fill(b, i)| ==> 0 <= CharVal(Fill(b, i)[t]) < i
  {
    if i > 0 {
      FillSorted(b, i - 1);
      var f, r := Fill(b, i - 1), Rep(CharBp(i - 1), b[i - 1]);
      assert Fill(b, i) == f + r;
      forall t | 0 <= t < |f + r| ensures 0 <= CharVal((f + r)[t]) < i {
        if t < |f| { assert (f + r)[t] == f[t]; } else { assert (f + r)[t] == r[t - |f|]; }
      }
    }
  }

  /** Base v occurs b[v] times in the laid-down prefix once its bucket is done. */
  lemma {:induction false} FillCounts(b: seq<int>, i: int, x: char)
    requires |b| == 4 && 0 <= i <= 4
    requires forall v :: 0 <= v < 4 ==> b[v] >= 0
    ensures multiset(Fill(b, i))[x] == if 0 <= CharVal(x) < i then b[CharVal(x)] else 0
  {
    if i > 0 {
      FillCounts(b, i - 1, x);
      var r := Rep(CharBp(i - 1), b[i - 1]);
      assert multiset(r)[x] == if x == CharBp(i - 1) then b[i - 1] else 0 by {
        RepCount(CharBp(i - 1), b[i - 1], x);
      }
    }
  }

  lemma {:induction false} RepCount(c: char, n: int, x: char)
    requires 0 <= n
    ensures multiset(Rep(c, n))[x] == if x == c then n else 0
  {
    if n > 0 {
      assert Rep(c, n) == Rep(c, n - 1) + [c];
      RepCount(c, n - 1, x);
    }
  }

  /** b[i] + ... + b[3]: the cells the writing loop has still to fill. */
  function SumFrom(b: seq<int>, i: int): int
    requires |b| == 4 && 0 <= i <= 4
  {
    if i == 0 then b[0] + b[1] + b[2] + b[3]
    else if i == 1 then b[1] + b[2] + b[3]
    else if i == 2 then b[2] + b[3]
    else if i == 3 then b[3]
    else 0
  }

  /** The rotation rotating_sort computes into its buffer: s[p..] then s[..p]. */
  function Rotation(s: seq<char>, p: int): (r: seq<char>)
    requires 0 <= p <= |s|
    ensures |r| == |s|
    ensures forall t :: 0 <= t < |s| ==> r[t] == if t < |s| - p then s[p + t] else s[t - (|s| - p)]
  {
    s[p..] + s[..p]
  }

  /**
   * What strncpy leaves in the destination when it copies |s| characters
   * from s: the characters up to the first NUL, and NUL from there on.
   */
  function StrNCopy(s: seq<char>): (r: seq<char>)
    ensures |r| == |s|
    ensures '\0' !in s ==> r == s
  {
    seq(|s|, t requires 0 <= t < |s| => if '\0' in s[..t + 1] then '\0' else s[t])
  }

  /**
   * rotating_sort: makes string[0..len) the rotation of its old content
   * that starts at `pointer`, through a temporary buffer of len + 1 bytes
   * and strncpy. A pointer outside 0..len makes the source read before the
   * string or write past the buffer.
   */
  method RotatingSort(a: array<char>, len: int, pointer: int)
    requires 0 <= pointer <= len <= a.Length
    modifies a
    ensures a[..len] == StrNCopy(Rotation(old(a[..len]), pointer))
    ensures a[len..] == old(a[len..])
  {
    ghost var rot := Rotation(a[..len], pointer);
    var sorted := new char[len + 1];
    sorted[len] := '\0';
    var count := 0;
    var i := pointer;
    while i < len
      modifies sorted
      invariant pointer <= i <= len
      invariant count == i - pointer
      invariant sorted[..count] == rot[..count]
    {
      sorted[count] := a[i];
      assert sorted[..count + 1] == rot[..count + 1] by {
        assert sorted[..count + 1] == sorted[..count] + [a[i]];
        assert rot[..count + 1] == rot[..count] + [rot[count]];
      }
      count := count + 1;
      i := i + 1;
    }
    i := 0;
    while i < pointer
      modifies sorted
      invariant 0 <= i <= pointer
      invariant count == len - pointer + i
      invariant sorted[..count] == rot[..count]
    {
      sorted[count] := a[i];
      assert sorted[..count + 1] == rot[..count + 1] by {
        assert sorted[..count + 1] == sorted[..count] + [a[i]];
        assert rot[..count + 1] == rot[..count] + [rot[count]];
      }
      count := count + 1;
      i := i + 1;
    }
    assert sorted[..len] == rot;
    StrNCpy(a, sorted, len);
  }

  /**
   * strncpy(dst, src, n): copies src until its first NUL and pads the rest
   * of the n characters with NUL.
   */
  method StrNCpy(dst: array<char>, src: array<char>, n: int)
    requires 0 <= n <= dst.Length && n <= src.Length && dst != src
    modifies dst
    ensures dst[..n] == StrNCopy(src[..n])
    ensures dst[n..] == old(dst[n..])
  {
    ghost var s := src[..n];
    var seenNul := false;
    var i := 0;
    while i < n
      invariant 0 <= i <= n
      invariant seenNul == ('\0' in s[..i])
      invariant dst[..i] == StrNCopy(s)[..i]
      invariant dst[n..] == old(dst[n..])
    {
      if src[i] == '\0' {
        seenNul := true;
      }
      assert s[..i + 1] == s[..i] + [s[i]];
      dst[i] := if seenNul then '\0' else src[i];
      i := i + 1;
    }
  }

  /** With no NUL in the string, rotating_sort is exactly the rotation. */
  lemma RotatingSortWithoutNul(s: seq<char>, p: int)
    requires 0 <= p <= |s| && '\0' !in s
    ensures StrNCopy(Rotation(s, p)) == s[p..] + s[..p]
  {
    assert '\0' !in Rotation(s, p) by {
      forall t | 0 <= t < |s| ensures Rotation(s, p)[t] != '\0' {
        if t < |s| - p { assert s[p + t] in s; } else { assert s[t - (|s| - p)] in s; }
      }
    }
  }

  /** Rotating by 0 or by len leaves the string as it was. */
  lemma RotationIdentity(s: seq<char>, p: int)
    requires p == 0 || p == |s|
    ensures Rotation(s, p) == s
  {
    if p == 0 { assert s[0..] == s; } else { assert s[..|s|] == s; }
  }

  /** Any rotation keeps the multiset of characters. */
  lemma RotationPermutes(s: seq<char>, p: int)
    requires 0 <= p <= |s|
    ensures multiset(Rotation(s, p)) == multiset(s)
  {
    assert s == s[..p] + s[p..];
  }

  /** The code and base tables are mutually inverse on A, C, G, T and 0..3. */
  lemma {:induction false} CodecRoundTrip(c: char, v: int)
    ensures CharVal(c) != -1 ==> CharBp(CharVal(c)) == c
    ensures 0 <= v < 4 ==> CharVal(CharBp(v)) == v
  {
  }
}
