/**
 * Model of binning.c: the T0 G1 C2 A3 base codec, the table of hash-table
 * sizes, and the rolling base-4 score that picks a read's 4-character
 * signature through a circular buffer.
 */
module Binning {
  import BucketSort

  /** MMER_SIZE: the signature length. */
  const MmerSize: int := 4

  /** The characters in code order: "TGCA"[v] is the base with code v. */
  const CodeOrder: string := "TGCA"

  /** getval: T=0, G=1, C=2, A=3, and -1 for any other character. */
  function GetVal(c: char): (v: int)
    ensures -1 <= v < 4
  {
    match c
    case 'T' => 0
    case 'G' => 1
    case 'C' => 2
    case 'A' => 3
    case _ => -1
  }

  /**
   * getbp: the inverse table. The switch has no default, so a code outside
   * 0..3 returns nothing defined; the model demands a code in range.
   */
  function GetBp(bp: int): (c: char)
    requires 0 <= bp < 4
    ensures GetVal(c) == bp
  {
    if bp == 0 then 'T' else if bp == 1 then 'G' else if bp == 2 then 'C' else 'A'
  }

  /**
   * getval gives -1 exactly off the alphabet and the code of a base is its
   * position in "TGCA"; the two tables are mutually inverse on T, G, C, A
   * and 0..3.
   */
  lemma CodecRoundTrip(c: char, v: int)
    ensures GetVal(c) == -1 <==> c !in CodeOrder
    ensures GetVal(c) != -1 ==> CodeOrder[GetVal(c)] == c && GetBp(GetVal(c)) == c
    ensures 0 <= v < 4 ==> GetVal(GetBp(v)) == v
  {
  }

  /** hash_sizes: the capacities the hash table grows through. */
  const HashSizes: seq<int> := [
    53, 101, 211, 503, 1553, 3407, 6803, 12503, 25013, 50261,
    104729, 250007, 500009, 1000003, 2000029, 4000037, 10000019,
    25000009, 50000047, 104395301, 217645177, 512927357, 1000000007
  ]

  /** The sizes strictly grow, so each step up is a real enlargement. */
  lemma HashSizesAscending()
    ensures |HashSizes| == 23
    ensures forall i, j :: 0 <= i < j < |HashSizes| ==> HashSizes[i] < HashSizes[j]
  {
  }

  /** A read every character of which is T, G, C or A. */
  ghost predicate ValidRead(read: seq<char>) {
    forall i :: 0 <= i < |read| ==> GetVal(read[i]) != -1
  }

  /**
   * The read as the circular buffer sees it: four 'Z' of initial padding,
   * then the read, so the j-th character fed in sits at position j + 4.
   */
  function PaddedAt(read: seq<char>, j: int): char
    requires 0 <= j < |read| + MmerSize
  {
    if j < MmerSize then 'Z' else read[j - MmerSize]
  }

  /**
   * The contents of the circular buffer, oldest first, once n characters of
   * the read have gone through it: the last four of "ZZZZ" followed by the
   * first n characters.
   */
  function Window(read: seq<char>, n: int): (w: seq<char>)
    requires 0 <= n <= |read|
    ensures |w| == MmerSize
  {
    [PaddedAt(read, n), PaddedAt(read, n + 1), PaddedAt(read, n + 2), PaddedAt(read, n + 3)]
  }

  /** The base-4 value of a window, oldest character most significant. */
  function Score(w: seq<char>): int
    requires |w| == MmerSize
  {
    64 * GetVal(w[0]) + 16 * GetVal(w[1]) + 4 * GetVal(w[2]) + GetVal(w[3])
  }

  /** The score of the buffer once n characters of the read have gone through it. */
  function WindowScore(read: seq<char>, n: int): int
    requires 0 <= n <= |read|
  {
    Score(Window(read, n))
  }

  /**
   * The score as the loop keeps it: -85 for "ZZZZ", then for each character
   * the oldest one's weight is dropped, the rest shifted one base-4 digit up
   * and the new character's code added.
   */
  function RollingScore(read: seq<char>, n: int): int
    requires 0 <= n <= |read|
  {
    if n == 0 then -85
    else (RollingScore(read, n - 1) - GetVal(PaddedAt(read, n - 1)) * 64) * 4 + GetVal(read[n - 1])
  }

  /** Slot of the circular buffer that holds the t-th oldest character when the oldest is at mc. */
  function Slot(mc: int, t: int): (s: int)
    requires 0 <= mc < MmerSize && 0 <= t < MmerSize
    ensures 0 <= s < MmerSize
  {
    if mc + t < MmerSize then mc + t else mc + t - MmerSize
  }

  /**
   * The circular buffer holds the window after n characters, oldest first
   * from slot mc on.
   */
  ghost predicate BufferHolds(buf: seq<char>, mc: int, read: seq<char>, n: int)
    requires |buf| == MmerSize && 0 <= mc < MmerSize && 0 <= n <= |read|
  {
    forall t :: 0 <= t < MmerSize ==> buf[Slot(mc, t)] == PaddedAt(read, n + t)
  }

  /**
   * One turn of the loop: overwriting the oldest slot with the next character
   * keeps the buffer in step with the window.
   */
  lemma BufferStep(buf: seq<char>, mc: int, read: seq<char>, n: int)
    requires |buf| == MmerSize && 0 <= mc < MmerSize && 0 <= n < |read|
    requires BufferHolds(buf, mc, read, n)
    ensures buf[mc] == PaddedAt(read, n)
    ensures var next := if mc + 1 == MmerSize then 0 else mc + 1;
            BufferHolds(buf[mc := read[n]], next, read, n + 1)
  {
    var buf' := buf[mc := read[n]];
    var next := if mc + 1 == MmerSize then 0 else mc + 1;
    assert buf[mc] == PaddedAt(read, n) by { assert Slot(mc, 0) == mc; }
    forall t | 0 <= t < MmerSize ensures buf'[Slot(next, t)] == PaddedAt(read, n + 1 + t) {
      if t < MmerSize - 1 {
        assert Slot(next, t) == Slot(mc, t + 1);
      } else {
        assert Slot(next, t) == mc;
      }
    }
  }

  /** Rotating the buffer to start after the newest slot puts the window in read order. */
  lemma RotationStep(buf: seq<char>, mc: int, read: seq<char>, n: int)
    requires |buf| == MmerSize && 0 <= mc < MmerSize && 0 <= n < |read|
    requires BufferHolds(buf, mc, read, n)
    ensures BucketSort.Rotation(buf[mc := read[n]], mc + 1) == Window(read, n + 1)
  {
    BufferStep(buf, mc, read, n);
    var buf' := buf[mc := read[n]];
    var next := if mc + 1 == MmerSize then 0 else mc + 1;
    var r := BucketSort.Rotation(buf', mc + 1);
    var w := Window(read, n + 1);
    forall t | 0 <= t < MmerSize ensures r[t] == w[t] {
      assert r[t] == buf'[Slot(next, t)];
    }
  }

  /** n = best is the first of 1..|read| at which the window score is greatest. */
  ghost predicate IsFirstBest(read: seq<char>, best: int) {
    && 1 <= best <= |read|
    && (forall n :: 1 <= n <= |read| ==> WindowScore(read, n) <= WindowScore(read, best))
    && (forall n :: 1 <= n < best ==> WindowScore(read, n) < WindowScore(read, best))
  }

  /** The rolling update keeps exactly the score of the window. */
  lemma {:induction false} RollingScoreIsWindowScore(read: seq<char>, n: int)
    requires 0 <= n <= |read|
    ensures RollingScore(read, n) == WindowScore(read, n)
  {
    if n > 0 {
      RollingScoreIsWindowScore(read, n - 1);
      assert PaddedAt(read, n + 3) == read[n - 1];
    }
  }

  /** No window ever scores below that of "ZZZZ". */
  lemma ScoreAtLeastEmpty(read: seq<char>, n: int)
    requires 0 <= n <= |read|
    ensures WindowScore(read, n) >= -85
  {
  }

  /** A window holds only read characters and the 'Z' padding, never NUL. */
  lemma WindowHasNoNul(read: seq<char>, n: int)
    requires 0 <= n <= |read| && '\0' !in read
    ensures '\0' !in Window(read, n)
  {
    forall j | 0 <= j < |read| + MmerSize ensures PaddedAt(read, j) != '\0' {
      if j >= MmerSize {
        assert read[j - MmerSize] in read;
      }
    }
  }

  /**
   * After i characters, maxScore is the greatest window score so far and
   * best the first position reaching it, or 0 with maxScore -85 while no
   * window has beaten "ZZZZ".
   */
  ghost predicate Tracked(read: seq<char>, i: int, best: int, maxScore: int) {
    && 0 <= best <= i <= |read|
    && (forall n :: 1 <= n <= i ==> RollingScore(read, n) <= maxScore)
    && (forall n :: 1 <= n < best ==> RollingScore(read, n) < maxScore)
    && (best == 0 ==> maxScore == -85)
    && (best != 0 ==> maxScore == RollingScore(read, best) > -85)
  }

  /** Taking one more window: a strictly greater score moves best there, any other keeps it. */
  lemma TrackStep(read: seq<char>, i: int, best: int, maxScore: int)
    requires i < |read| && Tracked(read, i, best, maxScore)
    ensures RollingScore(read, i + 1) > maxScore ==> Tracked(read, i + 1, i + 1, RollingScore(read, i + 1))
    ensures RollingScore(read, i + 1) <= maxScore ==> Tracked(read, i + 1, best, maxScore)
  {
    RollingScoreIsWindowScore(read, i + 1);
    ScoreAtLeastEmpty(read, i + 1);
  }

  /** At the end of the read, best is the first best window, or 0 when every window scores -85. */
  lemma TrackedAtEnd(read: seq<char>, best: int, maxScore: int)
    requires Tracked(read, |read|, best, maxScore)
    ensures best != 0 ==> IsFirstBest(read, best) && maxScore == WindowScore(read, best) > -85
    ensures best == 0 ==> maxScore == -85 && forall n :: 1 <= n <= |read| ==> WindowScore(read, n) == -85
  {
    forall n | 0 <= n <= |read| ensures RollingScore(read, n) == WindowScore(read, n) {
      RollingScoreIsWindowScore(read, n);
    }
    if best == 0 {
      forall n | 1 <= n <= |read| ensures WindowScore(read, n) == -85 {
        ScoreAtLeastEmpty(read, n);
      }
    }
  }

  /**
   * The variables of the signature loop: the buffer, mer_count, score,
   * max_score, insert_point and signature, plus the position of the
   * recorded window (0 while none is recorded).
   */
  datatype ScanState = ScanState(
    buffer: seq<char>, merCount: int, score: int,
    maxScore: int, insertPoint: int, signature: seq<char>, best: int)

  /** One turn of the signature loop on the n-th character c. */
  ghost function ScanStep(st: ScanState, c: char, n: int): (r: ScanState)
    requires |st.buffer| == MmerSize && 0 <= st.merCount < MmerSize && |st.signature| == MmerSize
    ensures |r.buffer| == MmerSize && 0 <= r.merCount < MmerSize && |r.signature| == MmerSize
  {
    var score := (st.score - GetVal(st.buffer[st.merCount]) * 64) * 4 + GetVal(c);
    var buffer := st.buffer[st.merCount := c];
    var next := if st.merCount + 1 == MmerSize then 0 else st.merCount + 1;
    var record := score > st.maxScore;
    ScanState(
      buffer, next, score,
      if record then score else st.maxScore,
      if record then st.merCount + 1 else st.insertPoint,
      if record then buffer else st.signature,
      if record then n + 1 else st.best)
  }

  /** The loop variables after the first n characters, from the previous signature and insert point. */
  ghost function Scan(read: seq<char>, n: int, signature: seq<char>, insertPoint: int): (r: ScanState)
    requires 0 <= n <= |read| && |signature| == MmerSize
    ensures |r.buffer| == MmerSize && 0 <= r.merCount < MmerSize && |r.signature| == MmerSize
  {
    if n == 0 then ScanState("ZZZZ", 0, -85, -85, insertPoint, signature, 0)
    else ScanStep(Scan(read, n - 1, signature, insertPoint), read[n - 1], n - 1)
  }

  /** The buffer holds the current window, oldest character first from slot mer_count. */
  lemma {:induction false} ScanBuffer(read: seq<char>, n: int, signature: seq<char>, insertPoint: int)
    requires 0 <= n <= |read| && |signature| == MmerSize
    ensures var r := Scan(read, n, signature, insertPoint);
      BufferHolds(r.buffer, r.merCount, read, n)
  {
    if n > 0 {
      ScanBuffer(read, n - 1, signature, insertPoint);
      var st := Scan(read, n - 1, signature, insertPoint);
      var r := ScanStep(st, read[n - 1], n - 1);
      assert Scan(read, n, signature, insertPoint) == r;
      assert r.buffer == st.buffer[st.merCount := read[n - 1]];
      assert r.merCount == if st.merCount + 1 == MmerSize then 0 else st.merCount + 1;
      BufferStep(st.buffer, st.merCount, read, n - 1);
    }
  }

  /** The slot at mer_count holds the oldest character, the one the next turn overwrites. */
  lemma ScanOldest(read: seq<char>, n: int, signature: seq<char>, insertPoint: int)
    requires 0 <= n < |read| && |signature| == MmerSize
    ensures var r := Scan(read, n, signature, insertPoint);
      r.buffer[r.merCount] == PaddedAt(read, n)
  {
    ScanBuffer(read, n, signature, insertPoint);
    var r := Scan(read, n, signature, insertPoint);
    BufferStep(r.buffer, r.merCount, read, n);
  }

  /** score is the rolling score of the current window. */
  lemma {:induction false} ScanScore(read: seq<char>, n: int, signature: seq<char>, insertPoint: int)
    requires 0 <= n <= |read| && |signature| == MmerSize
    ensures Scan(read, n, signature, insertPoint).score == RollingScore(read, n)
  {
    if n > 0 {
      ScanScore(read, n - 1, signature, insertPoint);
      ScanOldest(read, n - 1, signature, insertPoint);
      var st := Scan(read, n - 1, signature, insertPoint);
      var r := ScanStep(st, read[n - 1], n - 1);
      assert Scan(read, n, signature, insertPoint) == r;
    }
  }

  /** max_score and the recorded position track the first greatest window. */
  lemma {:induction false} ScanTracks(read: seq<char>, n: int, signature: seq<char>, insertPoint: int)
    requires 0 <= n <= |read| && |signature| == MmerSize
    ensures var r := Scan(read, n, signature, insertPoint);
      Tracked(read, n, r.best, r.maxScore)
  {
    if n > 0 {
      ScanTracks(read, n - 1, signature, insertPoint);
      ScanScore(read, n, signature, insertPoint);
      var st := Scan(read, n - 1, signature, insertPoint);
      var r := ScanStep(st, read[n - 1], n - 1);
      assert Scan(read, n, signature, insertPoint) == r;
      TrackStep(read, n - 1, st.best, st.maxScore);
      if r.score > st.maxScore {
        assert r.best == n && r.maxScore == r.score;
      } else {
        assert r.best == st.best && r.maxScore == st.maxScore;
      }
    }
  }

  /**
   * The recorded signature rotated by insert_point is the recorded window;
   * with nothing recorded the previous signature and insert point are kept.
   */
  lemma {:induction false} ScanRecords(read: seq<char>, n: int, signature: seq<char>, insertPoint: int)
    requires 0 <= n <= |read| && |signature| == MmerSize
    ensures var r := Scan(read, n, signature, insertPoint);
      && 0 <= r.best <= n
      && (r.best == 0 ==> r.insertPoint == insertPoint && r.signature == signature)
      && (r.best != 0 ==> && 1 <= r.insertPoint <= MmerSize
                          && BucketSort.Rotation(r.signature, r.insertPoint) == Window(read, r.best))
  {
    if n > 0 {
      ScanRecords(read, n - 1, signature, insertPoint);
      var st := Scan(read, n - 1, signature, insertPoint);
      var r := ScanStep(st, read[n - 1], n - 1);
      assert Scan(read, n, signature, insertPoint) == r;
      if r.score > st.maxScore {
        ScanBuffer(read, n - 1, signature, insertPoint);
        RotationStep(st.buffer, st.merCount, read, n - 1);
        assert r.signature == st.buffer[st.merCount := read[n - 1]];
        assert r.insertPoint == st.merCount + 1 && r.best == n;
      } else {
        assert r.signature == st.signature && r.insertPoint == st.insertPoint && r.best == st.best;
      }
    }
  }

  /** What the loop leaves once the whole read has gone through it. */
  lemma ScanResult(read: seq<char>, signature: seq<char>, insertPoint: int)
    requires '\0' !in read && |signature| == MmerSize && 0 <= insertPoint <= MmerSize
    ensures var r := Scan(read, |read|, signature, insertPoint);
      && 0 <= r.best <= |read|
      && 0 <= r.insertPoint <= MmerSize
      && (r.best == 0 ==> && r.maxScore == -85
                          && r.insertPoint == insertPoint
                          && r.signature == signature
                          && forall n :: 1 <= n <= |read| ==> WindowScore(read, n) == -85)
      && (r.best != 0 ==> && IsFirstBest(read, r.best)
                          && r.maxScore == WindowScore(read, r.best) > -85
                          && 1 <= r.insertPoint <= MmerSize
                          && BucketSort.StrNCopy(BucketSort.Rotation(r.signature, r.insertPoint)) == Window(read, r.best))
  {
    var r := Scan(read, |read|, signature, insertPoint);
    ScanTracks(read, |read|, signature, insertPoint);
    ScanRecords(read, |read|, signature, insertPoint);
    TrackedAtEnd(read, r.best, r.maxScore);
    if r.best != 0 {
      WindowHasNoNul(read, r.best);
    }
  }

  /**
   * The signature loop of main for one read (without its newline):
   * `signature` and `insertPoint` are the values left by the previous read,
   * since the source resets neither. The buffer starts as "ZZZZ" with score
   * -85; each character updates the score as a rolling base-4 value, and a
   * strictly greater score records the buffer and the slot after the newest
   * character. rotating_sort then turns the recorded buffer back into read
   * order. When no window beats -85 (a read with no T, G, C or A), the
   * previous signature is rotated again by the previous insert point.
   */
  method ReadSignature(read: seq<char>, signature: array<char>, insertPoint: int)
    returns (newInsert: int, maxScore: int, ghost best: int)
    requires '\0' !in read
    requires signature.Length == MmerSize + 1
    requires 0 <= insertPoint <= MmerSize
    modifies signature
    ensures signature[MmerSize] == '\0'
    ensures 0 <= best <= |read|
    ensures best == 0 ==> && maxScore == -85
                          && newInsert == insertPoint
                          && signature[..MmerSize] == BucketSort.StrNCopy(BucketSort.Rotation(old(signature[..MmerSize]), insertPoint))
                          && forall n :: 1 <= n <= |read| ==> WindowScore(read, n) == -85
    ensures best != 0 ==> && IsFirstBest(read, best)
                          && maxScore == WindowScore(read, best) > -85
                          && signature[..MmerSize] == Window(read, best)
                          && 1 <= newInsert <= MmerSize
  {
    ghost var oldSig := signature[..MmerSize];
    var mmer := new char[MmerSize + 1];
    for t := 0 to MmerSize
      modifies mmer
      invariant forall s :: 0 <= s < t ==> mmer[s] == 'Z'
    {
      mmer[t] := 'Z';
    }
    mmer[MmerSize] := '\0';
    signature[MmerSize] := '\0';
    assert signature[..MmerSize] == oldSig;
    assert mmer[..MmerSize] == "ZZZZ";
    newInsert, maxScore, best := RollSignature(read, mmer, signature, insertPoint);

    ghost var r := Scan(read, |read|, oldSig, insertPoint);
    ScanResult(read, oldSig, insertPoint);
    ghost var recorded := signature[..MmerSize];
    assert recorded == r.signature && newInsert == r.insertPoint;
    BucketSort.RotatingSort(signature, MmerSize, newInsert);
    assert signature[..MmerSize] == BucketSort.StrNCopy(BucketSort.Rotation(recorded, newInsert));
    assert signature[MmerSize] == signature[MmerSize..][0];
  }

  /**
   * The loop itself, on the buffer mmer holding "ZZZZ": it leaves max_score,
   * insert_point, the signature and the recorded position as Scan says.
   */
  method RollSignature(read: seq<char>, mmer: array<char>, signature: array<char>, insertPoint: int)
    returns (newInsert: int, maxScore: int, ghost best: int)
    requires mmer != signature
    requires mmer.Length == MmerSize + 1 && signature.Length == MmerSize + 1
    requires mmer[..MmerSize] == "ZZZZ"
    modifies mmer, signature
    ensures signature[MmerSize] == old(signature[MmerSize])
    ensures var r := Scan(read, |read|, old(signature[..MmerSize]), insertPoint);
      && maxScore == r.maxScore && newInsert == r.insertPoint
      && signature[..MmerSize] == r.signature && best == r.best
  {
    ghost var oldSig := signature[..MmerSize];
    var merCount := 0;
    var score := -85;
    maxScore := score;
    newInsert := insertPoint;
    best := 0;
    var i := 0;
    while i < |read|
      invariant 0 <= i <= |read|
      invariant signature[MmerSize] == old(signature[MmerSize])
      invariant Scan(read, i, oldSig, insertPoint)
        == ScanState(mmer[..MmerSize], merCount, score, maxScore, newInsert, signature[..MmerSize], best)
    {
      ghost var buf := mmer[..MmerSize];
      ghost var st := Scan(read, i, oldSig, insertPoint);
      assert Scan(read, i + 1, oldSig, insertPoint) == ScanStep(st, read[i], i);
      score := score - GetVal(mmer[merCount]) * 64;
      score := score * 4;
      score := score + GetVal(read[i]);
      mmer[merCount] := read[i];
      assert mmer[..MmerSize] == buf[merCount := read[i]];
      if score > maxScore {
        maxScore := score;
        newInsert := merCount + 1;
        // strncpy(signature, mmer, MMER_SIZE): mmer holds no NUL
        forall t | 0 <= t < MmerSize {
          signature[t] := mmer[t];
        }
        assert signature[..MmerSize] == mmer[..MmerSize];
        best := i + 1;
      }
      merCount := merCount + 1;
      if merCount == MmerSize {
        merCount := 0;
      }
      i := i + 1;
    }
  }

  /** With at least four characters the window is just the last four of the read so far. */
  lemma FullWindow(read: seq<char>, n: int)
    requires MmerSize <= n <= |read|
    ensures Window(read, n) == read[n - MmerSize..n]
  {
  }

  /**
   * On a valid read of at least four characters, a window still holding
   * 'Z' padding scores below every full window.
   */
  lemma {:induction false} FullWindowWins(read: seq<char>, n: int, m: int)
    requires ValidRead(read)
    requires 1 <= n < MmerSize <= m <= |read|
    ensures WindowScore(read, n) < 0 <= WindowScore(read, m)
  {
    forall j | m <= j < m + MmerSize ensures GetVal(PaddedAt(read, j)) >= 0 {
      assert PaddedAt(read, j) == read[j - MmerSize];
    }
  }

  /**
   * Hence on a valid read of at least four characters the signature is a
   * substring of the read, and every window that competes with it is one too:
   * the signature is the first four-character substring of greatest score.
   */
  lemma {:induction false} SignatureIsFullWindow(read: seq<char>, best: int)
    requires ValidRead(read) && |read| >= MmerSize
    requires IsFirstBest(read, best)
    ensures MmerSize <= best
    ensures Window(read, best) == read[best - MmerSize..best]
    ensures forall m :: MmerSize <= m <= |read| ==> Window(read, m) == read[m - MmerSize..m]
  {
    if best < MmerSize {
      FullWindowWins(read, best, |read|);
      assert false;
    }
    FullWindow(read, best);
    forall m | MmerSize <= m <= |read|
      ensures Window(read, m) == read[m - MmerSize..m]
    {
      FullWindow(read, m);
    }
  }

  /**
   * On valid windows the score orders by the first differing character, A
   * highest and T lowest.
   */
  lemma ScoreComparesFirstDifference(u: seq<char>, w: seq<char>, k: int)
    requires |u| == MmerSize && |w| == MmerSize
    requires ValidRead(u) && ValidRead(w)
    requires 0 <= k < MmerSize && u[..k] == w[..k] && GetVal(u[k]) < GetVal(w[k])
    ensures Score(u) < Score(w)
  {
    assert forall t :: 0 <= t < k ==> u[t] == w[t] by {
      forall t | 0 <= t < k ensures u[t] == w[t] {
        assert u[..k][t] == w[..k][t];
      }
    }
    assert GetVal(u[0]) >= 0 && GetVal(u[1]) >= 0 && GetVal(u[2]) >= 0 && GetVal(u[3]) >= 0;
    assert GetVal(w[0]) <= 3 && GetVal(w[1]) <= 3 && GetVal(w[2]) <= 3 && GetVal(w[3]) <= 3;
  }
}
