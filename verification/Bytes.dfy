/** Bytes and byte vectors, and the big-endian encoding of unsigned integers. */
module Bytes {
  type Byte = bv8

  /** A growable byte vector. */
  class ByteVector {
    var data: array<Byte>

    function Contents(): seq<Byte>
      reads this, data
    {
      data[..]
    }

    constructor ()
      ensures Contents() == [] && fresh(data)
    {
      data := new Byte[0];
    }

    /** Replaces the contents by `n` zero bytes. */
    method AssignZeros(n: nat)
      modifies this
      ensures fresh(data) && data.Length == n && forall i :: 0 <= i < n ==> data[i] == 0
    {
      data := new Byte[n](_ => 0);
    }

    /** Appends zero bytes up to a larger size. */
    method Grow(n: nat)
      requires data.Length <= n
      modifies this
      ensures fresh(data)
      ensures Contents() == old(Contents()) + Zeros(n - old(data.Length))
    {
      var before := data;
      data := new Byte[n](i requires 0 <= i reads before => if i < before.Length then before[i] else 0);
    }
  }

  function Zeros(n: nat): seq<Byte> {
    seq(n, _ => 0)
  }

  // ----- big-endian integers -----

  function ReadBe16(data: seq<Byte>, at: nat): bv16
    requires at + 2 <= |data|
  {
    ((data[at] as bv16) << 8) | (data[at + 1] as bv16)
  }

  function ReadBe32(data: seq<Byte>, at: nat): bv32
    requires at + 4 <= |data|
  {
    ((data[at] as bv32) << 24) | ((data[at + 1] as bv32) << 16) | ((data[at + 2] as bv32) << 8) | (data[at + 3] as bv32)
  }

  function ReadBe64(data: seq<Byte>, at: nat): bv64
    requires at + 8 <= |data|
  {
    ((data[at] as bv64) << 56) | ((data[at + 1] as bv64) << 48) | ((data[at + 2] as bv64) << 40)
    | ((data[at + 3] as bv64) << 32) | ((data[at + 4] as bv64) << 24) | ((data[at + 5] as bv64) << 16)
    | ((data[at + 6] as bv64) << 8) | (data[at + 7] as bv64)
  }

  function Be16(v: bv16): (r: seq<Byte>)
    ensures |r| == 2
  {
    [((v >> 8) & 0xFF) as Byte, (v & 0xFF) as Byte]
  }

  function Be32(v: bv32): (r: seq<Byte>)
    ensures |r| == 4
  {
    [((v >> 24) & 0xFF) as Byte, ((v >> 16) & 0xFF) as Byte, ((v >> 8) & 0xFF) as Byte, (v & 0xFF) as Byte]
  }

  function Be64(v: bv64): (r: seq<Byte>)
    ensures |r| == 8
  {
    [((v >> 56) & 0xFF) as Byte, ((v >> 48) & 0xFF) as Byte, ((v >> 40) & 0xFF) as Byte, ((v >> 32) & 0xFF) as Byte,
     ((v >> 24) & 0xFF) as Byte, ((v >> 16) & 0xFF) as Byte, ((v >> 8) & 0xFF) as Byte, (v & 0xFF) as Byte]
  }

  /** Splitting a joined word gives the bytes, and joining the split gives the word. */
  lemma Split16(a: Byte, b: Byte)
    ensures var v := ((a as bv16) << 8) | (b as bv16);
            ((v >> 8) & 0xFF) as Byte == a && (v & 0xFF) as Byte == b
  {
  }

  lemma Join16(v: bv16)
    ensures ((((v >> 8) & 0xFF) as Byte as bv16) << 8) | ((v & 0xFF) as Byte as bv16) == v
  {
  }

  lemma Split32(a: Byte, b: Byte, c: Byte, d: Byte)
    ensures var v := ((a as bv32) << 24) | ((b as bv32) << 16) | ((c as bv32) << 8) | (d as bv32);
            && ((v >> 24) & 0xFF) as Byte == a && ((v >> 16) & 0xFF) as Byte == b
            && ((v >> 8) & 0xFF) as Byte == c && (v & 0xFF) as Byte == d
  {
  }

  lemma Join32(v: bv32)
    ensures ((((v >> 24) & 0xFF) as Byte as bv32) << 24) | ((((v >> 16) & 0xFF) as Byte as bv32) << 16)
            | ((((v >> 8) & 0xFF) as Byte as bv32) << 8) | ((v & 0xFF) as Byte as bv32) == v
  {
  }

  lemma TwoBytes(data: seq<Byte>, at: nat)
    requires at + 2 <= |data|
    ensures data[at..at + 2] == [data[at], data[at + 1]]
  {
  }

  lemma FourBytes(data: seq<Byte>, at: nat)
    requires at + 4 <= |data|
    ensures data[at..at + 4] == [data[at], data[at + 1], data[at + 2], data[at + 3]]
  {
  }

  /** Reading what stands at a position inverts writing, whatever surrounds it. */
  lemma Be16RoundTrip(v: bv16, data: seq<Byte>, at: nat)
    requires at + 2 <= |data| && data[at..at + 2] == Be16(v)
    ensures ReadBe16(data, at) == v
  {
    TwoBytes(data, at);
    Join16(v);
  }

  lemma Be32RoundTrip(v: bv32, data: seq<Byte>, at: nat)
    requires at + 4 <= |data| && data[at..at + 4] == Be32(v)
    ensures ReadBe32(data, at) == v
  {
    FourBytes(data, at);
    Join32(v);
  }

  lemma Be64RoundTrip(v: bv64, data: seq<Byte>, at: nat)
    requires at + 8 <= |data| && data[at..at + 8] == Be64(v)
    ensures ReadBe64(data, at) == v
  {
    var d := data[at..at + 8];
    assert data[at] == d[0] && data[at + 1] == d[1] && data[at + 2] == d[2] && data[at + 3] == d[3];
    assert data[at + 4] == d[4] && data[at + 5] == d[5] && data[at + 6] == d[6] && data[at + 7] == d[7];
  }

  /** Writing what was read restores the bytes. */
  lemma Be16Restores(data: seq<Byte>, at: nat)
    requires at + 2 <= |data|
    ensures Be16(ReadBe16(data, at)) == data[at..at + 2]
  {
    TwoBytes(data, at);
    Split16(data[at], data[at + 1]);
  }

  lemma Be32Restores(data: seq<Byte>, at: nat)
    requires at + 4 <= |data|
    ensures Be32(ReadBe32(data, at)) == data[at..at + 4]
  {
    FourBytes(data, at);
    Split32(data[at], data[at + 1], data[at + 2], data[at + 3]);
  }

  method WriteBe16(value: bv16, data: array<Byte>, at: nat)
    requires at + 2 <= data.Length
    modifies data
    ensures data[..at] == old(data[..at]) && data[at..at + 2] == Be16(value) && data[at + 2..] == old(data[at + 2..])
  {
    data[at] := ((value >> 8) & 0xFF) as Byte;
    data[at + 1] := (value & 0xFF) as Byte;
  }

  method WriteBe32(value: bv32, data: array<Byte>, at: nat)
    requires at + 4 <= data.Length
    modifies data
    ensures data[..at] == old(data[..at]) && data[at..at + 4] == Be32(value) && data[at + 4..] == old(data[at + 4..])
  {
    data[at] := ((value >> 24) & 0xFF) as Byte;
    data[at + 1] := ((value >> 16) & 0xFF) as Byte;
    data[at + 2] := ((value >> 8) & 0xFF) as Byte;
    data[at + 3] := (value & 0xFF) as Byte;
  }

  method WriteBe64(value: bv64, data: array<Byte>, at: nat)
    requires at + 8 <= data.Length
    modifies data
    ensures data[..at] == old(data[..at]) && data[at..at + 8] == Be64(value) && data[at + 8..] == old(data[at + 8..])
  {
    var bytes := [
      ((value >> 56) & 0xFF) as Byte, ((value >> 48) & 0xFF) as Byte,
      ((value >> 40) & 0xFF) as Byte, ((value >> 32) & 0xFF) as Byte,
      ((value >> 24) & 0xFF) as Byte, ((value >> 16) & 0xFF) as Byte,
      ((value >> 8) & 0xFF) as Byte, (value & 0xFF) as Byte];
    forall i | 0 <= i < 8 {
      data[at + i] := bytes[i];
    }
    assert data[at..at + 8] == bytes;
  }

  // ----- 16-bit words and integers -----

  /** The conversion of a size to a 16-bit integer. */
  function Truncate16(n: nat): bv16 {
    (n % 0x1_0000) as bv16
  }

  lemma NibbleOfInt(x: nat)
    requires x < 0x10
    ensures (x as Byte) as int == x && (x as Byte) < 0x10
  {
    assert x in {0, 1, 2, 3, 4, 5, 6, 7, 8, 9, 10, 11, 12, 13, 14, 15};
  }

  lemma NibblePairValue(h: Byte, l: Byte)
    requires h < 0x10 && l < 0x10
    ensures ((h << 4) | l) as int == 16 * (h as int) + (l as int)
  {
  }

  lemma IntOfByte(b: Byte)
    ensures (b as int) < 0x100 && (b as int) as Byte == b
  {
  }

  lemma ByteOfInt(x: nat)
    requires x < 0x100
    ensures (x as Byte) as int == x
  {
    NibbleOfInt(x / 16);
    NibbleOfInt(x % 16);
    var h, l := (x / 16) as Byte, (x % 16) as Byte;
    NibblePairValue(h, l);
    assert ((h << 4) | l) as int == x;
    IntOfByte((h << 4) | l);
  }

  lemma PairValue(h: Byte, l: Byte)
    ensures (((h as bv16) << 8) | (l as bv16)) as int == 256 * (h as int) + (l as int)
  {
  }

  lemma IntOfWord(w: bv16)
    ensures (w as int) < 0x1_0000 && (w as int) as bv16 == w
  {
  }

  lemma WordOfInt(x: nat)
    requires x < 0x1_0000
    ensures (x as bv16) as int == x
  {
    ByteOfInt(x / 256);
    ByteOfInt(x % 256);
    var h, l := (x / 256) as Byte, (x % 256) as Byte;
    var w := ((h as bv16) << 8) | (l as bv16);
    PairValue(h, l);
    assert w as int == x;
    IntOfWord(w);
  }
}
