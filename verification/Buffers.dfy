/** The two growing containers of the cipher: the word array and the byte buffer. */
module Buffers {

  /** Reads position `k` of a zero-extended sequence of words. */
  function At(ws: seq<bv32>, k: nat): bv32 {
    if k < |ws| then ws[k] else 0
  }

  /** The first `n` words of the zero-extended sequence. */
  function ZeroExtended(ws: seq<bv32>, n: nat): (r: seq<bv32>)
    ensures |r| == n
    ensures forall k | 0 <= k < n :: r[k] == At(ws, k)
  {
    seq(n, k requires 0 <= k => At(ws, k))
  }

  /** A growing array of words; `used` is the number of words written so far. */
  class WordArray {
    var elem: array<bv32>
    var used: nat

    ghost predicate Valid()
      reads this
    {
      used <= elem.Length
    }

    function Contents(): seq<bv32>
      requires Valid()
      reads this, elem
    {
      elem[..used]
    }

    constructor (size: nat)
      ensures Valid() && Contents() == []
      ensures fresh(elem) && elem.Length == size
    {
      elem := new bv32[size];
      used := 0;
    }

    /** Appends one word. A full array doubles its size, which makes room only if the size is not zero. */
    method Insert(w: bv32)
      requires Valid() && 0 < elem.Length
      modifies this, elem
      ensures Valid() && 0 < elem.Length
      ensures elem == old(elem) || fresh(elem)
      ensures Contents() == old(Contents()) + [w]
      ensures elem.Length == if old(used) == old(elem.Length) then 2 * old(elem.Length) else old(elem.Length)
    {
      if used == elem.Length {
        var bigger := new bv32[2 * elem.Length];
        for i := 0 to used
          invariant used <= elem.Length <= bigger.Length
          invariant elem == old(elem) && used == old(used)
          invariant fresh(bigger) && bigger[..i] == elem[..i] && elem[..] == old(elem[..])
        {
          bigger[i] := elem[i];
        }
        elem := bigger;
      }
      elem[used] := w;
      used := used + 1;
    }

    /** Overwrites a word already written. */
    method Set(k: nat, w: bv32)
      requires Valid() && k < used
      modifies elem
      ensures Valid() && Contents() == old(Contents())[k := w]
    {
      elem[k] := w;
    }

    /** Makes the first `n` places count as written, the new ones with zero. */
    method ZeroTo(n: nat)
      requires Valid()
      modifies this, elem
      ensures Valid() && used == (if old(used) < n then n else old(used))
      ensures elem == old(elem) || fresh(elem)
      ensures Contents() == ZeroExtended(old(Contents()), used)
    {
      if used < n {
        var bigger := new bv32[n];
        for i := 0 to n
          invariant Valid() && elem == old(elem) && used == old(used) && elem[..] == old(elem[..])
          invariant fresh(bigger) && bigger[..i] == ZeroExtended(old(Contents()), i)
        {
          bigger[i] := Get(i);
        }
        elem := bigger;
        used := n;
      } else {
        assert Contents() == ZeroExtended(Contents(), used);
      }
    }

    /** Reads a word; what lies past the words written counts as zero. */
    function Get(k: nat): (w: bv32)
      requires Valid()
      reads this, elem
      ensures w == At(Contents(), k)
    {
      if k < used then elem[k] else 0
    }
  }

  /** A growing buffer of bytes. Its contents are the first `len` bytes. */
  class ByteBuffer {
    var str: array<bv8>
    var len: nat

    ghost predicate Valid()
      reads this
    {
      len < str.Length
    }

    function Contents(): seq<bv8>
      requires Valid()
      reads this, str
    {
      str[..len]
    }

    constructor (size: nat)
      requires 0 < size
      ensures Valid() && Contents() == []
      ensures fresh(str) && str.Length == size && str[0] == 0
    {
      str := new bv8[size];
      new;
      str[0] := 0;
      len := 0;
    }

    /** Appends a nonempty string; the terminator goes one place after the next free one. */
    method Push(s: seq<bv8>)
      requires Valid() && s != []
      modifies this, str
      ensures Valid()
      ensures str == old(str) || fresh(str)
      ensures Contents() == old(Contents()) + s
      ensures str.Length == old(str.Length) + if old(len) + |s| + 1 < old(str.Length) then 0 else |s| + 1
      ensures len + 1 < str.Length && str[len + 1] == 0
    {
      if str.Length <= len + |s| + 1 {
        var bigger := new bv8[|s| + str.Length + 1];
        for i := 0 to len
          invariant len <= str.Length <= bigger.Length
          invariant str == old(str) && len == old(len)
          invariant fresh(bigger) && bigger[..i] == str[..i] && str[..] == old(str[..])
        {
          bigger[i] := str[i];
        }
        str := bigger;
      }
      forall i | 0 <= i < |s| {
        str[len + i] := s[i];
      }
      len := len + |s|;
      str[len + 1] := 0;
    }

    /** Forgets the contents but keeps the storage. */
    method Clear()
      requires Valid()
      modifies `len
      ensures Valid() && Contents() == []
    {
      len := 0;
    }
  }
}
