/**
 Flash memory: an array of bytes read and written as words, high byte first.
 */
module FlashMemory {
  import opened Bytes

  /** Word k of the bytes d. */
  function WordAt(d: seq<byte>, k: nat): word
    requires 2 * k + 1 < |d|
  {
    var high: int := d[2 * k];
    high * 256 + d[2 * k + 1]
  }

  function WordsOf(d: seq<byte>): (w: seq<word>)
    ensures |w| == |d| / 2
    ensures forall k :: 0 <= k < |w| ==> w[k] == WordAt(d, k)
  {
    seq(|d| / 2, k requires 0 <= k < |d| / 2 => WordAt(d, k))
  }

  function SetWord(d: seq<byte>, k: nat, w: word): seq<byte>
    requires 2 * k + 1 < |d|
  {
    d[2 * k := w / 256][2 * k + 1 := w % 256]
  }

  lemma SetWordSets(d: seq<byte>, k: nat, w: word)
    requires 2 * k + 1 < |d|
    ensures WordsOf(SetWord(d, k, w)) == WordsOf(d)[k := w]
  {
  }

  /** The first byte of a word is its high byte. */
  lemma HighByteFirst(high: byte, low: byte)
    ensures WordsOf([high, low]) == [256 * high as int + low]
    ensures SetWord([0, 0], 0, 256 * high as int + low) == [high, low]
  {
    var w: word := 256 * high as int + low;
    assert w / 256 == high && w % 256 == low;
  }

  class Flash {
    const data: array<byte>

    /** A new flash is all ones. */
    constructor (size: nat)
      ensures fresh(data) && data.Length == size
      ensures forall i :: 0 <= i < size ==> data[i] == 0xff
    {
      data := new byte[size](_ => 0xff);
      new;
      for i := 0 to size
        invariant forall j :: 0 <= j < i ==> data[j] == 0xff
      {
        data[i] := 0xff;
      }
    }

    ghost function Words(): seq<word>
      reads data
    {
      WordsOf(data[..])
    }

    /** Reading outside the flash stops the simulator. */
    method Read(addr: int) returns (w: word)
      requires 0 <= addr && 2 * addr + 1 < data.Length
      ensures w == Words()[addr]
    {
      var high: int := data[2 * addr];
      w := high * 256 + data[2 * addr + 1];
    }

    method Write(addr: int, val: word)
      requires 0 <= addr && 2 * addr + 1 < data.Length
      modifies data
      ensures data[..] == SetWord(old(data[..]), addr, val)
      ensures Words() == old(Words())[addr := val]
    {
      SetWordSets(data[..], addr, val);
      data[2 * addr] := val / 256;
      data[2 * addr + 1] := val % 256;
    }

    /** The low byte of a word is at the odd address. */
    method WriteLo8(addr: int, val: byte)
      requires 0 <= addr && 2 * addr + 1 < data.Length
      modifies data
      ensures data[..] == old(data[..])[2 * addr + 1 := val]
    {
      data[2 * addr + 1] := val;
    }

    /** The high byte of a word is at the even address. */
    method WriteHi8(addr: int, val: byte)
      requires 0 <= addr && 2 * addr + 1 < data.Length
      modifies data
      ensures data[..] == old(data[..])[2 * addr := val]
    {
      data[2 * addr] := val;
    }
  }
}
