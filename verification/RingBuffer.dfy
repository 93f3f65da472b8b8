/** The receive ring buffer: a fixed array with wrapping head and tail positions, and the value-level
    operations (find, bump, pop) that it implements on its unread contents. */
module RingBuffer {

  // ---- the operations on the unread bytes -----------------------------------------------------

  /** `rbuf_memcmp` stops at the head: bytes that have not arrived count as equal. */
  predicate Agrees(b: string, needle: string) {
    forall i :: 0 <= i < |b| && i < |needle| ==> b[i] == needle[i]
  }

  /** `rbuf_find_bytes`: the first position whose available bytes agree with the needle, or |b|.
      A needle cut short by the end of the buffer is reported as found. */
  function FindBytes(b: string, needle: string): (idx: nat)
    ensures idx <= |b|
  {
    if b == "" || Agrees(b, needle) then 0 else 1 + FindBytes(b[1..], needle)
  }

  /** The search reports the first agreeing position and no other. */
  lemma {:induction false} FindIs(b: string, needle: string, idx: nat)
    requires idx <= |b|
    ensures FindBytes(b, needle) == idx
       <==> (idx < |b| ==> Agrees(b[idx..], needle)) && forall j :: 0 <= j < idx ==> !Agrees(b[j..], needle)
  {
    assert b[0..] == b;
    if b != "" && idx > 0 {
      FindIs(b[1..], needle, idx - 1);
      assert b[1..][idx - 1..] == b[idx..];
      assert forall j :: 0 < j < idx ==> b[j..] == b[1..][j - 1..];
      assert forall j :: 0 <= j < idx - 1 ==> b[1..][j..] == b[j + 1..];
    }
  }

  /** `rbuf_bump_tail` refuses to move past the head and then changes nothing. */
  function BumpTail(b: string, n: nat): string {
    if n > |b| then b else b[n..]
  }

  // ---- the implementation ---------------------------------------------------------------------

  class Rbuf {
    const data: array<char>
    var head: nat
    var tail: nat
    var sizeData: nat

    ghost predicate Valid()
      reads this
    {
      && head < data.Length && tail < data.Length && sizeData <= data.Length
      && head == Wrap(tail + sizeData)
    }

    function Wrap(i: nat): nat
    {
      if i < data.Length then i else i - data.Length
    }

    /** The unread bytes, oldest first. */
    ghost function Contents(): (s: string)
      requires Valid()
      reads this, data
      ensures |s| == sizeData
      ensures forall i :: 0 <= i < sizeData ==> s[i] == data[Wrap(tail + i)]
    {
      seq(sizeData, i requires 0 <= i < sizeData && Valid() reads this, data => data[Wrap(tail + i)])
    }

    constructor (size: nat)
      requires size > 0
      ensures Valid() && Contents() == "" && data.Length == size && fresh(data)
    {
      data := new char[size](_ => '\0');
      head, tail, sizeData := 0, 0, 0;
    }

    /** Appends one received byte when there is room (`rbuf_push` copies its argument this way). */
    method Put(c: char) returns (ok: bool)
      requires Valid()
      modifies this, data
      ensures Valid()
      ensures ok <==> old(sizeData) < data.Length
      ensures Contents() == if ok then old(Contents()) + [c] else old(Contents())
    {
      ok := sizeData < data.Length;
      if ok {
        data[head] := c;
        head := Wrap(head + 1);
        sizeData := sizeData + 1;
      }
    }

    /** Appends an arrival that fits. */
    method Push(s: string)
      requires Valid() && sizeData + |s| <= data.Length
      modifies this, data
      ensures Valid() && Contents() == old(Contents()) + s
    {
      hide Contents;
      for i := 0 to |s|
        invariant Valid() && sizeData + |s| - i <= data.Length
        invariant Contents() == old(Contents()) + s[..i]
      {
        var _ := Put(s[i]);
      }
    }

    /** Skipping nothing in a full buffer trips the assertion of `rbuf_bump_tail`. */
    predicate TripsOn(bytes: nat)
      reads this
    {
      bytes == 0 && sizeData > 0 && sizeData == data.Length
    }

    /** `rbuf_bump_tail`, including its reset to the array start once everything is read. */
    method BumpTailBy(bytes: nat) returns (ok: bool)
      requires Valid() && !TripsOn(bytes)
      modifies this
      ensures Valid()
      ensures ok <==> bytes <= old(sizeData)
      ensures Contents() == BumpTail(old(Contents()), bytes)
    {
      ok := bytes <= sizeData;
      if ok {
        tail := Wrap(tail + bytes);
        sizeData := sizeData - bytes;
        if tail == head {
          assert sizeData == 0;
          head, tail := 0, 0;
        }
        forall i | 0 <= i < sizeData
          ensures Contents()[i] == old(Contents())[bytes + i]
        {
          assert Wrap(tail + i) == Wrap(old(tail) + (bytes + i));
        }
      }
    }

    /** `rbuf_pop`: copies one linear range, then the one after the wrap. */
    method Pop(len: nat) returns (out: string)
      requires Valid() && !TripsOn(len)
      modifies this
      ensures Valid()
      ensures out == old(Contents())[..if len < old(sizeData) then len else old(sizeData)]
      ensures Contents() == old(Contents())[|out|..]
      decreases len
    {
      if sizeData == 0 || len == 0 {
        assert Contents()[0..] == Contents();
        return "";
      }
      ghost var all := Contents();
      out := PopLinear(len);
      hide Contents;
      if |out| < len {
        var rest := Pop(len - |out|);
        assert all[|out|..][|rest|..] == all[|out| + |rest|..];
        out := out + rest;
      }
    }

    /** The range up to the head or to the end of the array. */
    method PopLinear(len: nat) returns (out: string)
      requires Valid() && sizeData > 0 && len > 0
      modifies this
      ensures Valid()
      ensures 0 < |out| <= len && |out| <= old(sizeData)
      ensures out == old(Contents())[..|out|]
      ensures Contents() == old(Contents())[|out|..]
    {
      var linear := if tail >= head then data.Length - tail else head - tail;
      var n := if linear < len then linear else len;
      out := data[tail..tail + n];
      ghost var all := Contents();
      assert out == all[..n];
      var _ := BumpTailBy(n);
    }

    /** `rbuf_memcmp` from the k-th unread byte. */
    method Memcmp(k: nat, needle: string) returns (equal: bool)
      requires Valid()
      requires k < sizeData && needle != ""
      ensures equal <==> Agrees(Contents()[k..], needle)
    {
      ghost var b := Contents()[k..];
      var haystack, j := Wrap(tail + k), 0;
      // head == tail means full here: the first byte is compared before the position test
      if haystack == head {
        if data[haystack] != needle[0] {
          assert b[0] != needle[0];
          return false;
        }
        haystack, j := Wrap(haystack + 1), 1;
      }
      while haystack != head && j < |needle|
        invariant 0 <= j <= |needle| && k + j <= sizeData
        invariant haystack == Wrap(tail + (if k + j < data.Length then k + j else 0))
        invariant haystack == head <==> k + j == sizeData
        invariant forall i :: 0 <= i < j ==> b[i] == needle[i]
        decreases |needle| - j
      {
        if data[haystack] != needle[j] {
          assert b[j] != needle[j];
          return false;
        }
        haystack, j := Wrap(haystack + 1), j + 1;
      }
      return true;
    }

    /** `rbuf_find_bytes`. */
    method Find(needle: string) returns (idx: nat)
      requires Valid() && needle != ""
      ensures idx == FindBytes(Contents(), needle)
    {
      idx := 0;
      while idx < sizeData
        invariant idx <= sizeData
        invariant forall j :: 0 <= j < idx ==> !Agrees(Contents()[j..], needle)
      {
        var equal := Memcmp(idx, needle);
        if equal {
          break;
        }
        idx := idx + 1;
      }
      FindIs(Contents(), needle, idx);
    }
  }
}
