/** The bit stream of the archiver: single bits packed into the bytes of a file, high bit first.

    A byte is a number below 256; where the program shifts and masks it, it is the sequence of
    its eight bits, low bit first, and `x |= bit << k` sets place k while `x & (1 << k)` reads it.
 */
module BitStream {
  import opened MachineWords
  import opened Options
  import opened Powers

  // ---------- Bytes and their bits ----------

  /** The n lowest bits of a number, low bit first. */
  function Bits(b: nat, n: nat): (bits: seq<bool>)
    ensures |bits| == n
  {
    if n == 0 then [] else [b % 2 == 1] + Bits(b / 2, n - 1)
  }

  function Number(bits: seq<bool>): nat {
    if bits == [] then 0 else (if bits[0] then 1 else 0) + 2 * Number(bits[1..])
  }

  lemma {:induction false} NumberOfBits(b: nat, n: nat)
    requires b < Power(2, n)
    ensures Number(Bits(b, n)) == b
  {
    if n > 0 {
      NumberOfBits(b / 2, n - 1);
      assert Bits(b, n)[1..] == Bits(b / 2, n - 1);
    }
  }

  lemma {:induction false} BitsOfNumber(bits: seq<bool>)
    ensures Number(bits) < Power(2, |bits|)
    ensures Bits(Number(bits), |bits|) == bits
  {
    if bits != [] {
      BitsOfNumber(bits[1..]);
      assert Number(bits) / 2 == Number(bits[1..]);
      assert bits == [bits[0]] + bits[1..];
    }
  }

  lemma EightBits()
    ensures Power(2, 8) == 256 && Power(2, 32) == 0x1_0000_0000
  {
    assert Power(2, 4) == 16;
    assert Power(2, 8) == 256;
    assert Power(2, 12) == 4096;
    assert Power(2, 16) == 65536;
    assert Power(2, 20) == 65536 * 16;
    assert Power(2, 24) == 65536 * 256;
    assert Power(2, 28) == 65536 * 4096;
  }

  /** Bit k of a number is what halving it k times leaves odd or even. */
  lemma {:induction false} BitAt(b: nat, n: nat, k: nat)
    requires k < n
    ensures Power(2, k) > 0 && (Bits(b, n)[k] <==> b / Power(2, k) % 2 == 1)
  {
    if k > 0 {
      BitAt(b / 2, n - 1, k - 1);
      NextDigit(b, 2, k);
    }
  }

  /** The byte with the given bits. */
  function ByteOf(bits: seq<bool>): (b: Byte)
    requires |bits| == 8
    ensures Bits(b, 8) == bits
  {
    BitsOfNumber(bits);
    EightBits();
    Number(bits)
  }

  lemma ByteOfBits(b: Byte)
    ensures ByteOf(Bits(b, 8)) == b
  {
    EightBits();
    NumberOfBits(b, 8);
  }

  // ---------- Bits of a file ----------

  function Reversed(bits: seq<bool>): (r: seq<bool>)
    ensures |r| == |bits|
  {
    seq(|bits|, i requires 0 <= i < |bits| => bits[|bits| - 1 - i])
  }

  function FileBits(file: seq<Byte>): seq<bool> {
    if file == [] then [] else Reversed(Bits(file[0], 8)) + FileBits(file[1..])
  }

  lemma {:induction false} FileBitsAppend(file: seq<Byte>, b: Byte)
    ensures FileBits(file + [b]) == FileBits(file) + Reversed(Bits(b, 8))
  {
    if file == [] {
      assert file + [b] == [b];
    } else {
      assert (file + [b])[1..] == file[1..] + [b];
      FileBitsAppend(file[1..], b);
    }
  }

  /** A file is read from the high bit of each byte down. */
  lemma {:induction false} FileBitAt(file: seq<Byte>, i: nat)
    requires i < 8 * |file|
    ensures |FileBits(file)| == 8 * |file| && Power(2, 7 - i % 8) > 0
    ensures FileBits(file)[i] <==> file[i / 8] / Power(2, 7 - i % 8) % 2 == 1
    decreases |file|
  {
    FileBitsLength(file);
    BitAt(file[0], 8, 7 - i % 8);
    if i >= 8 {
      FileBitAt(file[1..], i - 8);
      assert (i - 8) / 8 == i / 8 - 1 && (i - 8) % 8 == i % 8;
    }
  }

  lemma {:induction false} FileBitsLength(file: seq<Byte>)
    ensures |FileBits(file)| == 8 * |file|
  {
    if file != [] {
      FileBitsLength(file[1..]);
    }
  }

  /** WriteByte sends the bits of a byte low bit first. */
  function BytesBits(bytes: seq<Byte>): seq<bool> {
    if bytes == [] then [] else Bits(bytes[0], 8) + BytesBits(bytes[1..])
  }

  /** What ReadByte makes of the bits ahead: a byte, or the end of the file within it. */
  function TakeByte(bits: seq<bool>): (Option<Byte>, seq<bool>) {
    if |bits| < 8 then (None, []) else (Some(ByteOf(bits[..8])), bits[8..])
  }

  lemma TakeWrittenByte(b: Byte, rest: seq<bool>)
    ensures TakeByte(Bits(b, 8) + rest) == (Some(b), rest)
  {
    assert (Bits(b, 8) + rest)[..8] == Bits(b, 8);
    assert (Bits(b, 8) + rest)[8..] == rest;
    ByteOfBits(b);
  }

  const NoBits: seq<bool> := [false, false, false, false, false, false, false, false]

  function Zeros(n: nat): seq<bool> {
    seq(n, _ => false)
  }

  class Stream {
    var file: seq<Byte>
    var pos: nat
    var buffer: seq<bool>
    var bufferedBitsCount: nat

    /** Nothing of the file is read yet, and what is written comes behind it. */
    constructor (file: seq<Byte>)
      ensures Reading() && Unread() == FileBits(file)
      ensures Writing() && Written() == FileBits(file)
    {
      this.file, pos, buffer, bufferedBitsCount := file, 0, NoBits, 0;
      new;
      assert file[0..] == file;
    }

    // ---------- Writing ----------

    /** The buffer fills from the high bit down; the bits not yet written are clear. */
    ghost predicate Writing()
      reads this
    {
      && |buffer| == 8 && bufferedBitsCount < 8
      && forall i :: 0 <= i < 8 - bufferedBitsCount ==> !buffer[i]
    }

    ghost function Written(): seq<bool>
      reads this
      requires |buffer| == 8 && bufferedBitsCount <= 8
    {
      FileBits(file) + Reversed(buffer)[..bufferedBitsCount]
    }

    /** The file then holds what was written, filled up with zeros to a whole byte. */
    method Flush()
      requires |buffer| == 8 && bufferedBitsCount <= 8
      requires forall i :: 0 <= i < 8 - bufferedBitsCount ==> !buffer[i]
      modifies this
      ensures Writing() && bufferedBitsCount == 0
      ensures FileBits(file)
           == old(Written()) + Zeros(if old(bufferedBitsCount) == 0 then 0 else 8 - old(bufferedBitsCount))
    {
      ghost var count := bufferedBitsCount;
      if bufferedBitsCount != 0 {
        FileBitsAppend(file, ByteOf(buffer));
        assert Reversed(buffer) == Reversed(buffer)[..count] + Zeros(8 - count);
        file := file + [ByteOf(buffer)];
        buffer := NoBits;
        bufferedBitsCount := 0;
      }
    }

    method WriteBit(bit: bool)
      requires Writing()
      modifies this
      ensures Writing() && Written() == old(Written()) + [bit]
    {
      ghost var before, count := buffer, bufferedBitsCount;
      var k := 7 - bufferedBitsCount;
      buffer := buffer[k := buffer[k] || bit];
      bufferedBitsCount := bufferedBitsCount + 1;
      assert Reversed(buffer)[..count + 1] == Reversed(before)[..count] + [bit];
      assert Written() == old(Written()) + [bit];
      if bufferedBitsCount == 8 {
        Flush();
      }
    }

    method WriteByte(byte: Byte)
      requires Writing()
      modifies this
      ensures Writing() && Written() == old(Written()) + Bits(byte, 8)
      ensures forall k :: 0 <= k < 8 ==>
        Power(2, k) > 0 && (Written()[|old(Written())| + k] <==> byte / Power(2, k) % 2 == 1)
    {
      for i := 0 to 8
        invariant Writing() && Written() == old(Written()) + Bits(byte, 8)[..i]
      {
        WriteBit(Bits(byte, 8)[i]);
      }
      forall k | 0 <= k < 8
        ensures Power(2, k) > 0 && (Bits(byte, 8)[k] <==> byte / Power(2, k) % 2 == 1)
      {
        BitAt(byte, 8, k);
      }
    }

    method WriteByteArray(bytes: seq<Byte>)
      requires Writing()
      modifies this
      ensures Writing() && Written() == old(Written()) + BytesBits(bytes)
    {
      for i := 0 to |bytes|
        invariant Writing() && Written() + BytesBits(bytes[i..]) == old(Written()) + BytesBits(bytes)
      {
        assert bytes[i..][1..] == bytes[i + 1..];
        WriteByte(bytes[i]);
      }
    }

    // ---------- Reading ----------

    ghost predicate Reading()
      reads this
    {
      |buffer| == 8 && bufferedBitsCount <= 8 && pos <= |file|
    }

    ghost function Unread(): seq<bool>
      reads this
      requires Reading()
    {
      Reversed(buffer[..bufferedBitsCount]) + FileBits(file[pos..])
    }

    /** None stands for EOF. */
    method ReadBit() returns (bit: Option<bool>)
      requires Reading()
      modifies this
      ensures Reading()
      ensures if old(Unread()) == [] then bit == None && Unread() == []
              else bit == Some(old(Unread())[0]) && Unread() == old(Unread())[1..]
    {
      if bufferedBitsCount == 0 {
        if pos == |file| {
          return None;
        }
        assert file[pos..][1..] == file[pos + 1..];
        buffer := Bits(file[pos], 8);
        pos := pos + 1;
        bufferedBitsCount := 8;
        assert buffer[..8] == buffer;
        assert Unread() == old(Unread());
      }
      bufferedBitsCount := bufferedBitsCount - 1;
      assert Reversed(buffer[..bufferedBitsCount + 1]) == [buffer[bufferedBitsCount]] + Reversed(buffer[..bufferedBitsCount]);
      bit := Some(buffer[bufferedBitsCount]);
    }

    method ReadByte() returns (byte: Option<Byte>)
      requires Reading()
      modifies this
      ensures Reading()
      ensures byte == TakeByte(old(Unread())).0 && Unread() == TakeByte(old(Unread())).1
    {
      var bits := NoBits;
      for i := 0 to 8
        invariant Reading() && |bits| == 8 && |old(Unread())| >= i
        invariant Unread() == old(Unread())[i..] && bits == old(Unread())[..i] + Zeros(8 - i)
      {
        var bit := ReadBit();
        if bit == None {
          return None;
        }
        bits := bits[i := bits[i] || bit.value];
      }
      assert bits == old(Unread())[..8];
      byte := Some(ByteOf(bits));
    }

    /** A byte beyond the end of the file reads as the low byte of EOF. */
    method ReadByteArray(size: nat) returns (dest: seq<Byte>)
      requires Reading()
      modifies this
      ensures Reading() && |dest| == size
      ensures dest == TakeBytes(old(Unread()), size).0 && Unread() == TakeBytes(old(Unread()), size).1
    {
      dest := [];
      for i := 0 to size
        invariant Reading() && |dest| == i
        invariant TakeBytes(old(Unread()), size).0 == dest + TakeBytes(Unread(), size - i).0
        invariant TakeBytes(old(Unread()), size).1 == TakeBytes(Unread(), size - i).1
      {
        var byte := ReadByte();
        dest := dest + [LowByte(byte)];
      }
    }
  }

  /** EOF is -1, whose low byte is 255. */
  function LowByte(byte: Option<Byte>): Byte {
    if byte == None then 255 else byte.value
  }

  function TakeBytes(bits: seq<bool>, n: nat): (seq<Byte>, seq<bool>)
    decreases n
  {
    if n == 0 then ([], bits)
    else
      var (byte, rest) := TakeByte(bits);
      var (bytes, rest') := TakeBytes(rest, n - 1);
      ([LowByte(byte)] + bytes, rest')
  }

  lemma {:induction false} TakeWrittenBytes(bytes: seq<Byte>, rest: seq<bool>)
    ensures TakeBytes(BytesBits(bytes) + rest, |bytes|) == (bytes, rest)
  {
    if bytes == [] {
      assert BytesBits(bytes) + rest == rest;
    } else {
      assert BytesBits(bytes) + rest == Bits(bytes[0], 8) + (BytesBits(bytes[1..]) + rest);
      TakeWrittenByte(bytes[0], BytesBits(bytes[1..]) + rest);
      TakeWrittenBytes(bytes[1..], rest);
      assert bytes == [bytes[0]] + bytes[1..];
    }
  }
}
