/**
 * Model of the node helpers of compressed_trie.c: the A0 T1 G2 C3 base
 * codec, the four 2-bit base fields packed into one byte, the comparison of
 * a string prefix against a node's bases, the packing of a prefix into a
 * node, the dropping of matched bases, and the allocation of a fresh node.
 */
module CompressedTrie {
  /** A 2-bit unsigned bit-field. */
  type Bits2 = x: int | 0 <= x < 4

  /** The characters in code order: "ATGC"[v] is the base with code v. */
  const CodeOrder: string := "ATGC"

  /** getval: A=0, T=1, G=2, C=3, and -1 for any other character. */
  function GetVal(c: char): (v: int)
    ensures -1 <= v < 4
  {
    match c
    case 'A' => 0
    case 'T' => 1
    case 'G' => 2
    case 'C' => 3
    case _ => -1
  }

  /** getbp: the inverse table on a 2-bit code. */
  function GetBp(bp: Bits2): (c: char)
    ensures GetVal(c) == bp
  {
    if bp == 0 then 'A' else if bp == 1 then 'T' else if bp == 2 then 'G' else 'C'
  }

  /**
   * getval gives -1 exactly off the alphabet, the code of a base is its
   * position in "ATGC", and the two tables are mutually inverse.
   */
  lemma CodecRoundTrip(c: char, v: Bits2)
    ensures GetVal(c) == -1 <==> c !in CodeOrder
    ensures GetVal(c) != -1 ==> CodeOrder[GetVal(c)] == c && GetBp(GetVal(c)) == c
    ensures GetVal(GetBp(v)) == v
  {
  }

  /** The union basepairs: four 2-bit fields bp0..bp3 sharing one byte u. */
  datatype BasePairs = BasePairs(bp0: Bits2, bp1: Bits2, bp2: Bits2, bp3: Bits2)

  /** Field j of the union. */
  function Field(bp: BasePairs, j: int): Bits2
    requires 0 <= j < 4
  {
    if j == 0 then bp.bp0 else if j == 1 then bp.bp1 else if j == 2 then bp.bp2 else bp.bp3
  }

  /**
   * The byte u seen through the union, with bp0 in the two lowest bits (the
   * layout the compiler gives the bit-fields on the usual targets).
   */
  function Packed(bp: BasePairs): (u: int)
    ensures 0 <= u < 256
  {
    bp.bp0 + 4 * bp.bp1 + 16 * bp.bp2 + 64 * bp.bp3
  }

  /** The fields read through the union after the byte u is stored. */
  function Unpack(u: int): (bp: BasePairs)
    requires 0 <= u < 256
  {
    var q1 := u / 4;
    var q2 := q1 / 4;
    BasePairs(u % 4, q1 % 4, q2 % 4, q2 / 4)
  }

  /** Dividing a + 4q by 4 gives back q and a. */
  lemma DivMod4(a: int, q: int)
    requires 0 <= a < 4
    ensures (a + 4 * q) / 4 == q && (a + 4 * q) % 4 == a
  {
  }

  /** Storing a byte and reading the fields, or the reverse, loses nothing. */
  lemma PackRoundTrip(bp: BasePairs, u: int)
    requires 0 <= u < 256
    ensures Unpack(Packed(bp)) == bp
    ensures Packed(Unpack(u)) == u
    ensures Unpack(0) == BasePairs(0, 0, 0, 0)
  {
    DivMod4(bp.bp0, bp.bp1 + 4 * bp.bp2 + 16 * bp.bp3);
    DivMod4(bp.bp1, bp.bp2 + 4 * bp.bp3);
    DivMod4(bp.bp2, bp.bp3);
    DivMod4(u % 4, u / 4);
    DivMod4(u / 4 % 4, u / 4 / 4);
    DivMod4(u / 4 / 4 % 4, u / 4 / 4 / 4);
  }

  /** Storing a 2-bit field: an int is truncated to its two low bits, so -1 becomes 3. */
  function ToBits2(v: int): (b: Bits2)
    ensures 0 <= v < 4 ==> b == v
  {
    v % 4
  }

  /**
   * checkcommon: the number of leading bases of str, at most four and at most
   * strLen, that agree with the node's fields. A 2-bit field never equals
   * -1, so a character off the alphabet always ends the match. A result of 0
   * is the case the source reports as an error.
   */
  function CheckCommon(str: seq<char>, strLen: int, bp: BasePairs): (i: int)
    requires strLen <= |str|
    ensures 0 <= i <= 4 && (i == 0 || i <= strLen)
    ensures forall j :: 0 <= j < i ==> Field(bp, j) == GetVal(str[j])
    ensures i < 4 && i < strLen ==> Field(bp, i) != GetVal(str[i])
  {
    if strLen >= 1 && bp.bp0 == GetVal(str[0]) then
      if strLen >= 2 && bp.bp1 == GetVal(str[1]) then
        if strLen >= 3 && bp.bp2 == GetVal(str[2]) then
          if strLen >= 4 && bp.bp3 == GetVal(str[3]) then 4 else 3
        else 2
      else 1
    else 0
  }

  /**
   * setbps: field j takes the code of str[j] for j below strLen; the local
   * union is not initialised, so the other fields keep whatever `prior`
   * held.
   */
  function SetBps(str: seq<char>, strLen: int, prior: BasePairs): (bp: BasePairs)
    requires strLen <= |str|
    ensures forall j :: 0 <= j < 4 && j < strLen ==> Field(bp, j) == ToBits2(GetVal(str[j]))
    ensures forall j :: 0 <= j < 4 && strLen <= j ==> Field(bp, j) == Field(prior, j)
  {
    var b0 := if strLen > 0 then ToBits2(GetVal(str[0])) else prior.bp0;
    var b1 := if strLen > 1 then ToBits2(GetVal(str[1])) else prior.bp1;
    var b2 := if strLen > 2 then ToBits2(GetVal(str[2])) else prior.bp2;
    var b3 := if strLen > 3 then ToBits2(GetVal(str[3])) else prior.bp3;
    BasePairs(b0, b1, b2, b3)
  }

  /** The number of leading characters of str among the first k that are bases. */
  function ValidPrefix(str: seq<char>, k: int): (n: int)
    requires 0 <= k <= |str|
    ensures 0 <= n <= k
    ensures forall j :: 0 <= j < n ==> GetVal(str[j]) != -1
    ensures n < k ==> GetVal(str[n]) == -1
  {
    if k == 0 then 0
    else if ValidPrefix(str, k - 1) < k - 1 then ValidPrefix(str, k - 1)
    else if GetVal(str[k - 1]) == -1 then k - 1
    else k
  }

  /**
   * Packing a prefix and comparing it back: the match runs over the first
   * min(strLen, 4) characters up to the first one that is not a base,
   * whatever the uninitialised fields held.
   */
  lemma {:induction false} SetCheckCommon(str: seq<char>, strLen: int, prior: BasePairs)
    requires 0 <= strLen <= |str|
    ensures CheckCommon(str, strLen, SetBps(str, strLen, prior))
            == ValidPrefix(str, if strLen < 4 then strLen else 4)
  {
  }

  /** Round trip: on bases only, the whole packed prefix, up to four, matches. */
  lemma SetCheckRoundTrip(str: seq<char>, strLen: int, prior: BasePairs)
    requires 1 <= strLen <= |str|
    requires forall j :: 0 <= j < strLen ==> GetVal(str[j]) != -1
    ensures CheckCommon(str, strLen, SetBps(str, strLen, prior)) == if strLen < 4 then strLen else 4
  {
    SetCheckCommon(str, strLen, prior);
  }

  /**
   * reducebps: after m = 1, 2 or 3 matched bases, fields m..3 move down to
   * 0..3-m and the top m fields keep their old values; any other m leaves
   * the union as it was.
   */
  function ReduceBps(bp: BasePairs, m: int): (r: BasePairs)
    ensures 1 <= m <= 3 ==> forall j :: 0 <= j < 4 - m ==> Field(r, j) == Field(bp, j + m)
    ensures 1 <= m <= 3 ==> forall j :: 4 - m <= j < 4 ==> Field(r, j) == Field(bp, j)
    ensures !(1 <= m <= 3) ==> r == bp
  {
    if m == 1 then bp.(bp0 := bp.bp1, bp1 := bp.bp2, bp2 := bp.bp3)
    else if m == 2 then bp.(bp0 := bp.bp2, bp1 := bp.bp3)
    else if m == 3 then bp.(bp0 := bp.bp3)
    else bp
  }

  /**
   * Dropping a bases and then b more leaves, in the fields that still hold
   * bases, what dropping a + b at once leaves.
   */
  lemma ReduceCompose(bp: BasePairs, a: int, b: int)
    requires 1 <= a && 1 <= b && a + b <= 3
    ensures forall j :: 0 <= j < 4 - (a + b) ==>
      Field(ReduceBps(ReduceBps(bp, a), b), j) == Field(ReduceBps(bp, a + b), j)
  {
    forall j | 0 <= j < 4 - (a + b)
      ensures Field(ReduceBps(ReduceBps(bp, a), b), j) == Field(ReduceBps(bp, a + b), j)
    {
      assert Field(ReduceBps(ReduceBps(bp, a), b), j) == Field(ReduceBps(bp, a), j + b);
    }
  }

  /**
   * When a node of size s is split after m < s matched bases, the bases the
   * lower half keeps are the node's bases from m on, and the string's next
   * base after the match differs from the first of them.
   */
  lemma SplitKeepsSuffix(str: seq<char>, strLen: int, bp: BasePairs, s: int)
    requires strLen <= |str| && s <= 4
    requires 1 <= CheckCommon(str, strLen, bp) < s
    ensures var m := CheckCommon(str, strLen, bp);
      && (forall j :: 0 <= j < s - m ==> Field(ReduceBps(bp, m), j) == Field(bp, j + m))
      && (m < strLen ==> Field(ReduceBps(bp, m), 0) != GetVal(str[m]))
  {
  }

  /** A trie node: size and isleaf bit-fields, the bases, and four children. */
  class TrieNode {
    var size: int
    var isLeaf: int
    var bp: BasePairs
    var children: seq<TrieNode?>

    /** init: size 0, not a leaf, the byte u stored as 0 so every base field is 0, no children. */
    constructor Init()
      ensures size == 0 && isLeaf == 0
      ensures bp == BasePairs(0, 0, 0, 0)
      ensures |children| == 4 && forall k :: 0 <= k < 4 ==> children[k] == null
    {
      size := 0;
      bp := BasePairs(0, 0, 0, 0);
      children := [null, null, null, null];
      isLeaf := 0;
    }
  }
}
