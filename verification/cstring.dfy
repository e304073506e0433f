/**
 * Model of cstring.c: a record holding a C string with a cursor over it.
 * `str` and `ptr` are pointers into the caller's characters, modelled as
 * offsets from the start of those characters.
 */
module CursorString {
  datatype Option<T> = None | Some(value: T)

  /** strlen: the position of the first NUL. */
  function StrLen(s: seq<char>): (n: int)
    requires '\0' in s
    ensures 0 <= n < |s| && s[n] == '\0' && '\0' !in s[..n]
  {
    if s[0] == '\0' then 0
    else
      assert '\0' in s[1..] by { var k :| 0 <= k < |s| && s[k] == '\0'; assert s[1..][k - 1] == '\0'; }
      var n := 1 + StrLen(s[1..]);
      assert s[..n] == [s[0]] + s[1..][..n - 1];
      n
  }

  /** The fields of a cstring record: the two pointers as offsets, and the three counts. */
  datatype Cursor = Cursor(str: int, ptr: int, len: int, index: int, newLen: int)

  /** The record keeps its counts in step: what was erased plus what is left is the whole length. */
  predicate Consistent(c: Cursor) {
    c.index + c.newLen == c.len
  }

  /**
   * erase_str on the record's values: an offset that would take index past
   * len fails and changes nothing; otherwise index grows by offset, new_len
   * shrinks by it, and str moves on by the new cumulative index from where
   * it already was.
   */
  function Erase(c: Cursor, offset: int): (r: Option<Cursor>)
    ensures r.None? <==> c.index + offset > c.len
    ensures r.Some? ==> r.value.ptr == c.ptr && r.value.len == c.len
    ensures r.Some? && Consistent(c) ==> Consistent(r.value)
  {
    if c.index + offset > c.len then None
    else
      var index := c.index + offset;
      Some(c.(index := index, str := c.str + index, newLen := c.newLen - offset))
  }

  /** A cstring record. */
  class CString {
    /** The caller's characters; the record never copies or changes them. */
    const chars: seq<char>
    var str: int
    var ptr: int
    var len: int
    var index: int
    var newLen: int

    function State(): Cursor
      reads this
    {
      Cursor(str, ptr, len, index, newLen)
    }

    /**
     * init_str: both pointers at the start of the string, nothing erased,
     * and len and new_len the string's length.
     */
    constructor InitStr(s: seq<char>)
      requires '\0' in s
      ensures chars == s
      ensures State() == Cursor(0, 0, StrLen(s), 0, StrLen(s))
      ensures Consistent(State())
    {
      chars := s;
      str := 0;
      ptr := 0;
      index := 0;
      len := StrLen(s);
      newLen := len;
    }

    /**
     * erase_str: returns null and leaves the record as it was when
     * index + offset > len; otherwise updates it as Erase says and returns
     * the same record.
     */
    method EraseStr(offset: int) returns (r: CString?)
      modifies this
      ensures r == null || r == this
      ensures Erase(old(State()), offset) == if r == null then None else Some(State())
      ensures r == null ==> State() == old(State())
    {
      if index + offset > len {
        return null;
      }
      index := index + offset;
      str := str + index;
      newLen := newLen - offset;
      return this;
    }
  }

  /** A run of erases applied one after another, stopping at the first that fails. */
  function EraseAll(c: Cursor, offsets: seq<int>): Option<Cursor>
    decreases |offsets|
  {
    if |offsets| == 0 then Some(c)
    else match Erase(c, offsets[0])
      case None => None
      case Some(c') => EraseAll(c', offsets[1..])
  }

  /**
   * Any run of successful erases keeps the record consistent and never
   * moves ptr: the cursor the trie insertion reads through stays at the
   * start of the string.
   */
  lemma {:induction false} EraseAllKeeps(c: Cursor, offsets: seq<int>)
    requires Consistent(c)
    ensures EraseAll(c, offsets).Some? ==> Consistent(EraseAll(c, offsets).value)
    ensures EraseAll(c, offsets).Some? ==> EraseAll(c, offsets).value.ptr == c.ptr
    decreases |offsets|
  {
    if |offsets| > 0 {
      match Erase(c, offsets[0])
      case None =>
      case Some(c') => EraseAllKeeps(c', offsets[1..]);
    }
  }

  /**
   * As written, str does not follow index: from a fresh record of length
   * 2, erasing 1 and then 1 again leaves index 2 but str 3, past the
   * terminating NUL.
   */
  lemma EraseDrifts()
    ensures var c := Cursor(0, 0, 2, 0, 2);
      && EraseAll(c, [1, 1]).Some?
      && EraseAll(c, [1, 1]).value.index == 2
      && EraseAll(c, [1, 1]).value.str == 3
  {
    var c := Cursor(0, 0, 2, 0, 2);
    var c1 := Cursor(1, 0, 2, 1, 1);
    var c2 := Cursor(3, 0, 2, 2, 0);
    assert Erase(c1, 1) == Some(c2);
    assert EraseAll(c1, [1]) == Some(c2) by {
      assert [1][1..] == [];
    }
    assert Erase(c, 1) == Some(c1);
    assert EraseAll(c, [1, 1]) == Some(c2) by {
      assert [1, 1][1..] == [1];
    }
  }

  /** erase_str as evidently intended: str moves by offset, so it always sits at index. */
  function EraseIntended(c: Cursor, offset: int): (r: Option<Cursor>)
    ensures r.None? <==> c.index + offset > c.len
    ensures r.Some? ==> r.value.ptr == c.ptr && r.value.len == c.len && r.value.index == c.index + offset
  {
    if c.index + offset > c.len then None
    else Some(c.(index := c.index + offset, str := c.str + offset, newLen := c.newLen - offset))
  }

  /** A run of intended erases, stopping at the first that fails. */
  function EraseAllIntended(c: Cursor, offsets: seq<int>): Option<Cursor>
    decreases |offsets|
  {
    if |offsets| == 0 then Some(c)
    else match EraseIntended(c, offsets[0])
      case None => None
      case Some(c') => EraseAllIntended(c', offsets[1..])
  }

  /**
   * With the intended update, str stays at the start of the part not yet
   * erased (str == index) and the counts stay consistent, however many
   * erases run.
   */
  lemma {:induction false} EraseIntendedTracksIndex(c: Cursor, offsets: seq<int>)
    requires Consistent(c) && c.str == c.index
    ensures EraseAllIntended(c, offsets).Some? ==>
      var d := EraseAllIntended(c, offsets).value;
      Consistent(d) && d.str == d.index && d.ptr == c.ptr
    decreases |offsets|
  {
    if |offsets| > 0 {
      match EraseIntended(c, offsets[0])
      case None =>
      case Some(c') => EraseIntendedTracksIndex(c', offsets[1..]);
    }
  }
}
