/** The archive byte by byte, and archives that are cut short. */
module ArchiveFormat {
  import opened BitStream
  import opened HuffmanArchiver
  import opened HuffmanOptimality
  import opened HuffmanTree
  import opened MachineWords
  import opened Options
  import opened Powers

  // ---------- Cut short ----------

  lemma {:induction false} WalkShort(t: Tree<Byte>, code: string, b: Byte, bits: seq<bool>)
    requires LeadsTo(t, code, b) && bits <= CodeBits(code) && |bits| < |code|
    ensures Walked(t, bits).0 == None
  {
    match t
    case Leaf(_) =>
    case Node(l, r) =>
      if bits != [] {
        assert bits[0] == CodeBits(code)[0];
        assert bits[1..] <= CodeBits(code[1..]);
        WalkShort(if code[0] == '0' then l else r, code[1..], b, bits[1..]);
      }
  }

  /** Of codes that end early, whole ones are decoded and nothing else. */
  lemma {:induction false} DecodeShort(t: Tree<Byte>, table: seq<Option<string>>, input: seq<Byte>, rest: seq<bool>,
                                       bits: seq<bool>)
    requires |table| == 256 && forall i :: 0 <= i < |input| ==> LeadsTo(t, CodeOf(table, input[i]), input[i])
    requires bits <= Encoded(table, input) + rest
    ensures Decoded(t, bits, |input|) <= input
    decreases |input|
  {
    if input != [] {
      var code := CodeOf(table, input[0]);
      var ahead := Encoded(table, input[1..]) + rest;
      assert Encoded(table, input) + rest == CodeBits(code) + ahead;
      if |bits| < |code| {
        assert bits <= CodeBits(code);
        WalkShort(t, code, input[0], bits);
      } else {
        var more := bits[|code|..];
        assert bits == CodeBits(code) + more && more <= ahead;
        WalkCode(t, code, input[0], more);
        DecodeShort(t, table, input[1..], rest, more);
        assert input == [input[0]] + input[1..];
      }
    }
  }

  lemma {:induction false} FileBitsOfPrefix(file: seq<Byte>, n: nat)
    requires n <= |file|
    ensures |FileBits(file)| == 8 * |file| && FileBits(file[..n]) == FileBits(file)[..8 * n]
  {
    FileBitsLength(file);
    if n > 0 {
      FileBitsOfPrefix(file[1..], n - 1);
      assert file[..n][1..] == file[1..][..n - 1];
    }
  }

  /** An archive that was cut off behind its tree decompresses to the beginning of its file. */
  lemma CutArchive(input: seq<Byte>, archive: seq<Byte>, t: Tree<Byte>, table: seq<Option<string>>, padding: nat, n: nat)
    requires |input| < 0x1_0000_0000 && Layout(input, archive, t, table, padding)
    requires n <= |archive| && 8 * n >= 32 + |Serialized(t)|
    ensures Decompressed(archive[..n]) <= input
  {
    FileBitsOfPrefix(archive, n);
    var header, payload := BytesBits(LittleEndian(|input|, 4)), Encoded(table, input) + Zeros(padding);
    Regrouped(header, Serialized(t), Encoded(table, input), Zeros(padding));
    HeaderLength(|input|);
    var front := header + Serialized(t);
    var bits := FileBits(archive)[|front|..8 * n];
    assert FileBits(archive) == front + payload;
    assert FileBits(archive[..n]) == header + (Serialized(t) + bits);
    assert bits <= payload;
    HeaderRoundTrip(|input|, Serialized(t) + bits);
    ParseSerialized(t, bits);
    forall i | 0 <= i < |input|
      ensures LeadsTo(t, CodeOf(table, input[i]), input[i])
    {
      OccursIfIn(input, i);
    }
    DecodeShort(t, table, input, Zeros(padding), bits);
  }

  lemma HeaderLength(n: nat)
    ensures |BytesBits(LittleEndian(n, 4))| == 32
  {
    BytesBitsLength(LittleEndian(n, 4));
  }

  lemma {:induction false} BytesBitsLength(bytes: seq<Byte>)
    ensures |BytesBits(bytes)| == 8 * |bytes|
  {
    if bytes != [] {
      BytesBitsLength(bytes[1..]);
    }
  }

  // ---------- An archive in full ----------

  lemma {:induction false} HasLeaf(t: Tree<Byte>) returns (b: Byte)
    ensures LeafCount(t, b) >= 1
  {
    match t
    case Leaf(v) => b := v;
    case Node(l, _) => b := HasLeaf(l);
  }

  lemma NodeHasTwo(t: Tree<Byte>, b: Byte)
    requires t.Node?
    ensures exists c: Byte :: LeafCount(t, c) != One(c == b)
  {
    var c := HasLeaf(t.left);
    var d := HasLeaf(t.right);
    assert LeafCount(t, c) != One(c == b) || LeafCount(t, d) != One(d == b);
  }

  lemma OnlyLeaf(t: Tree<Byte>, b: Byte)
    requires forall c: Byte :: LeafCount(t, c) == One(c == b)
    ensures t == Leaf(b)
  {
    if t.Node? {
      NodeHasTwo(t, b);
    } else {
      assert LeafCount(t, t.value) == 1;
    }
  }

  /** A tree over two bytes has one of them on each side. */
  lemma TwoLeaves(t: Tree<Byte>, a: Byte, b: Byte)
    requires a != b && forall c: Byte :: LeafCount(t, c) == One(c == a || c == b)
    ensures t == Node(Leaf(a), Leaf(b)) || t == Node(Leaf(b), Leaf(a))
  {
    assert t.Node? by {
      assert LeafCount(t, a) == 1 && LeafCount(t, b) == 1;
    }
    var c := HasLeaf(t.left);
    var d := HasLeaf(t.right);
    assert LeafCount(t, c) == LeafCount(t.left, c) + LeafCount(t.right, c);
    assert LeafCount(t, d) == LeafCount(t.left, d) + LeafCount(t.right, d);
    forall e: Byte
      ensures LeafCount(t.left, e) == One(e == c) && LeafCount(t.right, e) == One(e == d)
    {
      assert LeafCount(t, e) == LeafCount(t.left, e) + LeafCount(t.right, e);
    }
    OnlyLeaf(t.left, c);
    OnlyLeaf(t.right, d);
  }

  /** "aab" */
  const AAB: seq<Byte> := [97, 97, 98]

  lemma AabOccurrences(b: Byte)
    ensures Occurrences(AAB, b) == if b == 97 then 2 else if b == 98 then 1 else 0
  {
    assert AAB[..2] == [97, 97] && AAB[..2][..1] == [97] && AAB[..2][..1][..0] == [];
    assert Occurrences(AAB[..2][..1], b) == One(b == 97);
    assert Occurrences(AAB[..2], b) == One(b == 97) + One(b == 97);
  }

  lemma AabTree(t: Tree<Byte>)
    requires forall b: Byte :: LeafCount(t, b) == One(Occurrences(AAB, b) > 0)
    requires forall freq :: IsFrequencyTable(freq, AAB) ==> LeftHeavy(freq, t)
    ensures t == Node(Leaf(97), Leaf(98))
  {
    forall b: Byte
      ensures LeafCount(t, b) == One(b == 97 || b == 98)
    {
      AabOccurrences(b);
    }
    TwoLeaves(t, 97, 98);
    var freq: seq<nat> := seq(256, b => if b == 97 then 2 else if b == 98 then 1 else 0);
    forall b: Byte
      ensures freq[b] == Occurrences(AAB, b)
    {
      AabOccurrences(b);
    }
    assert IsFrequencyTable(freq, AAB);
  }

  lemma OneStepCode(t: Tree<Byte>, code: string, b: Byte)
    requires t == Node(Leaf(97), Leaf(98)) && (b == 97 || b == 98) && LeadsTo(t, code, b)
    ensures code == if b == 97 then "0" else "1"
  {
    assert code == [code[0]] + code[1..];
    assert LeadsTo(t.left, code[1..], b) || LeadsTo(t.right, code[1..], b);
  }

  lemma AabCodes(table: seq<Option<string>>)
    requires Codes(Node(Leaf(97), Leaf(98)), table, AAB)
    ensures Encoded(table, AAB) == [false, false, true]
  {
    AabOccurrences(97);
    AabOccurrences(98);
    var t: Tree<Byte> := Node(Leaf(97), Leaf(98));
    OneStepCode(t, CodeOf(table, 97), 97);
    OneStepCode(t, CodeOf(table, 98), 98);
    assert CodeBits("0") == [false] && CodeBits("1") == [true];
    assert AAB[1..] == [97, 98] && AAB[1..][1..] == [98] && AAB[1..][1..][1..] == [];
    assert Encoded(table, AAB[1..][1..]) == [true];
    assert Encoded(table, AAB[1..]) == [false, true];
  }

  lemma {:induction false} NumberSplit(a: seq<bool>, b: seq<bool>)
    ensures Number(a + b) == Number(a) + Power(2, |a|) * Number(b)
    decreases |a|
  {
    if a == [] {
      assert a + b == b;
    } else {
      NumberSplit(a[1..], b);
      assert (a + b)[1..] == a[1..] + b;
      var p, n := Power(2, |a| - 1), Number(b);
      assert 2 * (p * n) == (2 * p) * n;
    }
  }

  lemma NumberOfFour(bits: seq<bool>)
    requires |bits| == 4
    ensures Number(bits) == One(bits[0]) + 2 * One(bits[1]) + 4 * One(bits[2]) + 8 * One(bits[3])
  {
    assert Number(bits[1..][1..][1..]) == One(bits[3]);
    assert Number(bits[1..][1..]) == One(bits[2]) + 2 * Number(bits[1..][1..][1..]);
    assert Number(bits[1..]) == One(bits[1]) + 2 * Number(bits[1..][1..]);
  }

  /** The value of eight bits, low bit first. */
  function LowFirst(bits: seq<bool>): nat
    requires |bits| == 8
  {
    One(bits[0]) + 2 * One(bits[1]) + 4 * One(bits[2]) + 8 * One(bits[3])
    + 16 * One(bits[4]) + 32 * One(bits[5]) + 64 * One(bits[6]) + 128 * One(bits[7])
  }

  lemma NumberHalves(bits: seq<bool>)
    requires |bits| == 8
    ensures Number(bits) == Number(bits[..4]) + 16 * Number(bits[4..])
  {
    NumberSplit(bits[..4], bits[4..]);
    assert Power(2, 4) == 16;
    assert bits == bits[..4] + bits[4..];
  }

  lemma NumberOfEight(bits: seq<bool>)
    requires |bits| == 8
    ensures Number(bits) == LowFirst(bits)
  {
    NumberHalves(bits);
    NumberOfFour(bits[..4]);
    NumberOfFour(bits[4..]);
  }

  /** The first byte of a file takes its first eight bits, high bit first. */
  lemma FirstByte(file: seq<Byte>, bits: seq<bool>, rest: seq<bool>) returns (more: seq<Byte>)
    requires |bits| == 8 && FileBits(file) == bits + rest
    ensures file == [LowFirst(Reversed(bits))] + more && FileBits(more) == rest
  {
    more := file[1..];
    var b := Bits(file[0], 8);
    assert FileBits(file)[..8] == Reversed(b) && FileBits(file)[8..] == FileBits(more);
    assert (bits + rest)[..8] == bits && (bits + rest)[8..] == rest;
    assert b == Reversed(bits);
    ByteOfBits(file[0]);
    NumberOfEight(b);
  }

  lemma BitsOfByte(b: Byte, bits: seq<bool>)
    requires |bits| == 8 && b == LowFirst(bits)
    ensures Bits(b, 8) == bits
  {
    NumberOfEight(bits);
    BitsOfNumber(bits);
  }

  lemma AabHeader()
    ensures BytesBits(LittleEndian(3, 4)) == [true, true] + Zeros(30)
  {
    var n := 3;
    BitsOfByte(3, [true, true, false, false, false, false, false, false]);
    BitsOfByte(0, Zeros(8));
    var le := LittleEndian(n, 4);
    assert le == [3, 0, 0, 0] by {
      forall k | 0 <= k < 4
        ensures le[k] == if k == 0 then 3 else 0
      {
        LittleEndianAt(n, 4, k);
        SmallDigits(k);
      }
    }
    assert le[1..] == [0, 0, 0] && le[1..][1..] == [0, 0] && le[1..][1..][1..] == [0] && le[1..][1..][1..][1..] == [];
    assert BytesBits(le[1..][1..][1..]) == Zeros(8);
    assert BytesBits(le[1..][1..]) == Zeros(16);
    assert BytesBits(le[1..]) == Zeros(24);
  }

  lemma SmallDigits(k: nat)
    requires k < 4
    ensures Power(256, k) > 0 && 3 / Power(256, k) % 256 == if k == 0 then 3 else 0
  {
    PowerMonotone(256, 0, k);
    if k > 0 {
      PowerMonotone(256, 1, k);
    }
  }

  lemma SerializedPair(x: Byte, y: Byte)
    ensures Serialized(Node(Leaf(x), Leaf(y))) == [false] + ([true] + Bits(x, 8)) + ([true] + Bits(y, 8))
  {
    var t: Tree<Byte> := Node(Leaf(x), Leaf(y));
    assert Serialized(t.left) == [true] + Bits(x, 8) && Serialized(t.right) == [true] + Bits(y, 8);
  }

  lemma AabSerialized()
    ensures Serialized(Node(Leaf(97), Leaf(98)))
      == [false, true, true, false, false, false, false, true] + [true, false, true, false, true, false, false, false]
       + [true, true, false]
  {
    var x: Byte, y: Byte := 97, 98;
    var a := [true, false, false, false, false, true, true, false];
    var b := [false, true, false, false, false, true, true, false];
    BitsOfByte(x, a);
    BitsOfByte(y, b);
    SerializedPair(x, y);
    assert [false] + ([true] + a) + ([true] + b)
      == [false, true, true, false, false, false, false, true] + [true, false, true, false, true, false, false, false]
       + [true, true, false];
  }

  const ZEROS: seq<bool> := [false, false, false, false, false, false, false, false]

  lemma SevenParts(a: seq<bool>, z: seq<bool>, c: seq<bool>, d: seq<bool>, e: seq<bool>, f: seq<bool>, g: seq<bool>)
    ensures (a + z + z + z) + (c + d + e) + f + g == a + (z + (z + (z + (c + (d + ((e + f + g) + []))))))
  {
  }

  /** Whatever the compressor makes of "aab", these are the bits, in bytes. */
  lemma AabBits(archive: seq<Byte>, t: Tree<Byte>, table: seq<Option<string>>, padding: nat)
    requires t == Node(Leaf(97), Leaf(98)) && Layout(AAB, archive, t, table, padding)
    ensures FileBits(archive)
      == [true, true, false, false, false, false, false, false] + (ZEROS + (ZEROS + (ZEROS
       + ([false, true, true, false, false, false, false, true] + ([true, false, true, false, true, false, false, false]
       + ([true, true, false, false, false, true, false, false] + []))))))
  {
    var a, c, d := [true, true, false, false, false, false, false, false],
      [false, true, true, false, false, false, false, true], [true, false, true, false, true, false, false, false];
    AabHeader();
    AabSerialized();
    AabCodes(table);
    AabPadding(archive, t, table, padding);
    AabEnds();
    SevenParts(a, ZEROS, c, d, [true, true, false], [false, false, true], Zeros(2));
  }

  lemma AabEnds()
    ensures [true, true] + Zeros(30) == [true, true, false, false, false, false, false, false] + ZEROS + ZEROS + ZEROS
    ensures [true, true, false] + [false, false, true] + Zeros(2) == [true, true, false, false, false, true, false, false]
  {
  }

  lemma AabPadding(archive: seq<Byte>, t: Tree<Byte>, table: seq<Option<string>>, padding: nat)
    requires Layout(AAB, archive, t, table, padding) && |Serialized(t)| == 19 && |Encoded(table, AAB)| == 3
    ensures padding == 2
  {
    FileBitsLength(archive);
    HeaderLength(3);
    assert 8 * |archive| == 54 + padding;
  }

  lemma AabValues()
    ensures LowFirst(Reversed([true, true, false, false, false, false, false, false])) == 0xC0
    ensures LowFirst(Reversed(ZEROS)) == 0
    ensures LowFirst(Reversed([false, true, true, false, false, false, false, true])) == 0x61
    ensures LowFirst(Reversed([true, false, true, false, true, false, false, false])) == 0xA8
    ensures LowFirst(Reversed([true, true, false, false, false, true, false, false])) == 0xC4
  {
  }

  /** Whatever the compressor makes of "aab", these are the bytes. */
  lemma ArchiveOfAab(archive: seq<Byte>, t: Tree<Byte>, table: seq<Option<string>>, padding: nat)
    requires Layout(AAB, archive, t, table, padding)
    requires forall b: Byte :: LeafCount(t, b) == One(Occurrences(AAB, b) > 0)
    requires forall freq :: IsFrequencyTable(freq, AAB) ==> LeftHeavy(freq, t)
    ensures archive == [0xC0, 0, 0, 0, 0x61, 0xA8, 0xC4]
  {
    AabTree(t);
    AabBits(archive, t, table, padding);
    AabValues();
    BytesOfSeven(archive, [true, true, false, false, false, false, false, false], ZEROS, ZEROS, ZEROS,
                 [false, true, true, false, false, false, false, true],
                 [true, false, true, false, true, false, false, false],
                 [true, true, false, false, false, true, false, false]);
  }

  lemma BytesOfSeven(file: seq<Byte>, a: seq<bool>, b: seq<bool>, c: seq<bool>, d: seq<bool>, e: seq<bool>,
                     f: seq<bool>, g: seq<bool>)
    requires |a| == |b| == |c| == |d| == |e| == |f| == |g| == 8
    requires FileBits(file) == a + (b + (c + (d + (e + (f + (g + []))))))
    ensures file == [LowFirst(Reversed(a)), LowFirst(Reversed(b)), LowFirst(Reversed(c)), LowFirst(Reversed(d)),
                     LowFirst(Reversed(e)), LowFirst(Reversed(f)), LowFirst(Reversed(g))]
  {
    var r := FirstByte(file, a, b + (c + (d + (e + (f + (g + []))))));
    r := FirstByte(r, b, c + (d + (e + (f + (g + [])))));
    r := FirstByte(r, c, d + (e + (f + (g + []))));
    r := FirstByte(r, d, e + (f + (g + [])));
    r := FirstByte(r, e, f + (g + []));
    r := FirstByte(r, f, g + []);
    r := FirstByte(r, g, []);
  }
}
