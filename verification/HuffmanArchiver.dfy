/** Compression and decompression: tree serialisation, code table, encoding and decoding. */
module HuffmanArchiver {
  import opened BitStream
  import opened Extremes
  import opened HuffmanOptimality
  import opened HuffmanTree
  import opened MachineWords
  import opened Options
  import opened Powers

  // ---------- The tree in the archive ----------

  function Serialized(t: Tree<Byte>): seq<bool> {
    match t
    case Leaf(b) => [true] + Bits(b, 8)
    case Node(l, r) => [false] + Serialized(l) + Serialized(r)
  }

  method SerializeHuffmanTree(bitOut: Stream, tree: Tree<Byte>)
    requires bitOut.Writing()
    modifies bitOut
    ensures bitOut.Writing() && bitOut.Written() == old(bitOut.Written()) + Serialized(tree)
    decreases tree
  {
    match tree
    case Leaf(value) =>
      AppendLeaf(bitOut.Written(), value);
      bitOut.WriteBit(true);
      bitOut.WriteByte(value);
    case Node(left, right) =>
      AppendNode(bitOut.Written(), left, right);
      bitOut.WriteBit(false);
      SerializeHuffmanTree(bitOut, left);
      SerializeHuffmanTree(bitOut, right);
  }

  lemma AppendLeaf(bits: seq<bool>, b: Byte)
    ensures bits + [true] + Bits(b, 8) == bits + Serialized(Leaf(b))
  {
  }

  lemma AppendNode(bits: seq<bool>, l: Tree<Byte>, r: Tree<Byte>)
    ensures bits + [false] + Serialized(l) + Serialized(r) == bits + Serialized(Node(l, r))
  {
  }

  /** The tree that the bits ahead describe and the bits after it. The end of the file reads as
      a leaf, and a byte cut off by it as 255. */
  function Parsed(bits: seq<bool>): (r: (Tree<Byte>, seq<bool>))
    ensures |r.1| <= |bits|
    decreases |bits|
  {
    if bits == [] then (Leaf(255), [])
    else if bits[0] then (Leaf(LowByte(TakeByte(bits[1..]).0)), TakeByte(bits[1..]).1)
    else
      var (l, rest) := Parsed(bits[1..]);
      var (r, rest') := Parsed(rest);
      (Node(l, r), rest')
  }

  method DeserializeHuffmanTree(bitIn: Stream) returns (tree: Tree<Byte>)
    requires bitIn.Reading()
    modifies bitIn
    ensures bitIn.Reading()
    ensures tree == Parsed(old(bitIn.Unread())).0 && bitIn.Unread() == Parsed(old(bitIn.Unread())).1
    decreases |bitIn.Unread()|
  {
    var bit := bitIn.ReadBit();
    // EOF is -1 and so counts as true
    var isLeafNode := bit == None || bit.value;
    if isLeafNode {
      var value := bitIn.ReadByte();
      tree := Leaf(LowByte(value));
    } else {
      var left := DeserializeHuffmanTree(bitIn);
      var right := DeserializeHuffmanTree(bitIn);
      tree := Node(left, right);
    }
  }

  /** Reading back a serialised tree gives the tree and leaves what follows it. */
  lemma {:induction false} ParseSerialized(t: Tree<Byte>, rest: seq<bool>)
    ensures Parsed(Serialized(t) + rest) == (t, rest)
  {
    var bits := Serialized(t) + rest;
    match t
    case Leaf(b) =>
      assert bits[1..] == Bits(b, 8) + rest;
      TakeWrittenByte(b, rest);
    case Node(l, r) =>
      assert bits[1..] == Serialized(l) + (Serialized(r) + rest);
      ParseSerialized(l, Serialized(r) + rest);
      ParseSerialized(r, rest);
  }

  // ---------- Codes ----------

  /** Following the code from the root leads to a leaf with the byte. */
  predicate LeadsTo(t: Tree<Byte>, code: string, b: Byte) {
    match t
    case Leaf(v) => code == [] && v == b
    case Node(l, r) =>
      && code != []
      && ((code[0] == '0' && LeadsTo(l, code[1..], b)) || (code[0] == '1' && LeadsTo(r, code[1..], b)))
  }

  predicate IsCode(code: string) {
    forall i :: 0 <= i < |code| ==> code[i] == '0' || code[i] == '1'
  }

  function CodeBits(code: string): (bits: seq<bool>)
    ensures |bits| == |code|
  {
    seq(|code|, i requires 0 <= i < |code| => code[i] == '1')
  }

  /** Walking down the tree along the bits: the byte found, or None at the end of the file. */
  function Walked(t: Tree<Byte>, bits: seq<bool>): (Option<Byte>, seq<bool>) {
    match t
    case Leaf(v) => (Some(v), bits)
    case Node(l, r) => if bits == [] then (None, []) else Walked(if bits[0] then r else l, bits[1..])
  }

  method DecodeByte(bitIn: Stream, tree: Tree<Byte>) returns (byte: Option<Byte>)
    requires bitIn.Reading()
    modifies bitIn
    ensures bitIn.Reading()
    ensures byte == Walked(tree, old(bitIn.Unread())).0 && bitIn.Unread() == Walked(tree, old(bitIn.Unread())).1
  {
    var curNode := tree;
    while curNode.Node?
      invariant bitIn.Reading()
      invariant Walked(curNode, bitIn.Unread()) == Walked(tree, old(bitIn.Unread()))
      decreases curNode
    {
      var bit := bitIn.ReadBit();
      match bit
      case Some(b) => curNode := if b then curNode.right else curNode.left;
      case None => return None;
    }
    byte := Some(curNode.value);
  }

  /** Decoding undoes encoding: a code followed by anything decodes to its byte. */
  lemma {:induction false} WalkCode(t: Tree<Byte>, code: string, b: Byte, rest: seq<bool>)
    requires LeadsTo(t, code, b)
    ensures Walked(t, CodeBits(code) + rest) == (Some(b), rest)
  {
    match t
    case Leaf(_) =>
      assert CodeBits(code) + rest == rest;
    case Node(l, r) =>
      assert (CodeBits(code) + rest)[1..] == CodeBits(code[1..]) + rest;
      WalkCode(if code[0] == '0' then l else r, code[1..], b, rest);
  }

  function Height<V>(t: Tree<V>): nat {
    match t
    case Leaf(_) => 0
    case Node(l, r) => 1 + Max(Height(l), Height(r))
  }

  /** A C string: the characters before the first NUL. */
  function CString(s: seq<char>): seq<char> {
    if s == [] || s[0] == '\0' then [] else [s[0]] + CString(s[1..])
  }

  lemma {:induction false} CStringPrefix(s: seq<char>, n: nat)
    requires n < |s| && s[n] == '\0' && forall i :: 0 <= i < n ==> s[i] != '\0'
    ensures CString(s) == s[..n]
  {
    if n > 0 {
      CStringPrefix(s[1..], n - 1);
    }
  }

  /** The entry of the code table for a byte below a node that is reached by the prefix. */
  ghost predicate EntryOk(node: Tree<Byte>, prefix: string, entry: Option<string>, b: Byte) {
    && entry.Some?
    && |prefix| <= |entry.value|
    && entry.value[..|prefix|] == prefix
    && IsCode(entry.value)
    && LeadsTo(node, entry.value[|prefix|..], b)
  }

  lemma EntryFromChild(node: Tree<Byte>, prefix: string, bit: char, entry: Option<string>, b: Byte)
    requires node.Node? && (bit == '0' || bit == '1')
    requires EntryOk(if bit == '0' then node.left else node.right, prefix + [bit], entry, b)
    ensures EntryOk(node, prefix, entry, b)
  {
    var code := entry.value[|prefix|..];
    assert entry.value[..|prefix| + 1][..|prefix|] == entry.value[..|prefix|];
    assert code[0] == entry.value[..|prefix| + 1][|prefix|];
    assert code[1..] == entry.value[|prefix| + 1..];
  }

  method MakeCodeTableImpl(node: Tree<Byte>, table: array<Option<string>>, curCode: array<char>, curDepth: nat)
    requires table.Length == 256 && curCode.Length == 256 && curDepth + Height(node) < 256
    requires IsCode(curCode[..curDepth])
    modifies table, curCode
    ensures curCode[..curDepth] == old(curCode[..curDepth])
    ensures forall b: Byte :: LeafCount(node, b) > 0 ==> EntryOk(node, curCode[..curDepth], table[b], b)
    ensures forall b: Byte :: LeafCount(node, b) == 0 ==> table[b] == old(table[b])
    decreases node
  {
    ghost var prefix := curCode[..curDepth];
    match node
    case Leaf(value) =>
      curCode[curDepth] := '\0';
      assert curCode[..curDepth] == prefix;
      CStringPrefix(curCode[..], curDepth);
      table[value] := Some(CString(curCode[..]));
      assert table[value].value == prefix;
    case Node(left, right) =>
      curCode[curDepth] := '0';
      assert curCode[..curDepth + 1] == prefix + ['0'];
      MakeCodeTableImpl(left, table, curCode, curDepth + 1);
      assert curCode[..curDepth] == curCode[..curDepth + 1][..curDepth];
      ghost var afterLeft := table[..];
      forall b: Byte | LeafCount(left, b) > 0
        ensures EntryOk(node, prefix, afterLeft[b], b)
      {
        EntryFromChild(node, prefix, '0', table[b], b);
      }
      curCode[curDepth] := '1';
      assert curCode[..curDepth + 1] == prefix + ['1'];
      MakeCodeTableImpl(right, table, curCode, curDepth + 1);
      assert curCode[..curDepth] == curCode[..curDepth + 1][..curDepth];
      forall b: Byte | LeafCount(right, b) > 0
        ensures EntryOk(node, prefix, table[b], b)
      {
        EntryFromChild(node, prefix, '1', table[b], b);
      }
      assert forall b: Byte :: LeafCount(right, b) == 0 ==> table[b] == afterLeft[b];
  }

  method MakeCodeTable(tree: Tree<Byte>) returns (table: array<Option<string>>)
    requires Height(tree) < 256
    ensures table.Length == 256 && fresh(table)
    ensures forall b: Byte :: LeafCount(tree, b) > 0 ==> EntryOk(tree, "", table[b], b)
    ensures forall b: Byte :: LeafCount(tree, b) == 0 ==> table[b] == None
  {
    table := new Option<string>[256](_ => None);
    var curCode := new char[256](_ => '\0');
    MakeCodeTableImpl(tree, table, curCode, 0);
    assert curCode[..0] == "";
  }

  /** The arrays of the code table are long enough: a tree with no byte twice has fewer than 256 levels. */
  lemma {:induction false} HeightBelowLeaves<V>(t: Tree<V>)
    ensures Height(t) < |Leaves(t)|
  {
    match t
    case Leaf(_) =>
    case Node(l, r) =>
      HeightBelowLeaves(l);
      HeightBelowLeaves(r);
  }

  function Total(m: seq<nat>): nat {
    if m == [] then 0 else Total(m[..|m| - 1]) + m[|m| - 1]
  }

  lemma {:induction false} TotalSum(m: seq<nat>, m1: seq<nat>, m2: seq<nat>)
    requires |m| == |m1| == |m2| && forall i :: 0 <= i < |m| ==> m[i] == m1[i] + m2[i]
    ensures Total(m) == Total(m1) + Total(m2)
  {
    if m != [] {
      var n := |m| - 1;
      TotalSum(m[..n], m1[..n], m2[..n]);
    }
  }

  lemma {:induction false} TotalOne(m: seq<nat>, b: nat)
    requires forall i :: 0 <= i < |m| ==> m[i] == One(i == b)
    ensures Total(m) == One(b < |m|)
  {
    if m != [] {
      TotalOne(m[..|m| - 1], b);
    }
  }

  lemma {:induction false} TotalAtMost(m: seq<nat>)
    requires forall i :: 0 <= i < |m| ==> m[i] <= 1
    ensures Total(m) <= |m|
  {
    if m != [] {
      TotalAtMost(m[..|m| - 1]);
    }
  }

  lemma {:induction false} LeavesAreCounted(t: Tree<Byte>)
    ensures |Leaves(t)| == Total(TreeCounts(t))
  {
    match t
    case Leaf(b) =>
      TotalOne(TreeCounts(t), b);
    case Node(l, r) =>
      LeavesAreCounted(l);
      LeavesAreCounted(r);
      TotalSum(TreeCounts(t), TreeCounts(l), TreeCounts(r));
  }

  lemma HeightFits(t: Tree<Byte>)
    requires forall b: Byte :: LeafCount(t, b) <= 1
    ensures Height(t) < 256
  {
    HeightBelowLeaves(t);
    LeavesAreCounted(t);
    TotalAtMost(TreeCounts(t));
  }

  method EmitCode(bitOut: Stream, table: array<Option<string>>, byte: Byte)
    requires bitOut.Writing() && table.Length == 256 && table[byte].Some? && IsCode(table[byte].value)
    modifies bitOut
    ensures bitOut.Writing() && bitOut.Written() == old(bitOut.Written()) + CodeBits(table[byte].value)
  {
    var code := table[byte].value;
    for i := 0 to |code|
      invariant bitOut.Writing() && bitOut.Written() == old(bitOut.Written()) + CodeBits(code)[..i]
    {
      match code[i]
      case '0' => bitOut.WriteBit(false);
      case '1' => bitOut.WriteBit(true);
    }
  }

  // ---------- Counting ----------

  function Occurrences(input: seq<Byte>, b: Byte): nat {
    if input == [] then 0 else Occurrences(input[..|input| - 1], b) + One(input[|input| - 1] == b)
  }

  ghost predicate IsFrequencyTable(freq: seq<nat>, input: seq<Byte>) {
    |freq| == 256 && forall b: Byte :: freq[b] == Occurrences(input, b)
  }

  lemma {:induction false} SinglesAfter(freq: seq<nat>, b: Byte, n: nat)
    requires |freq| == 256 && n <= 256
    ensures |Singles(freq[b := freq[b] + 1], n)| == |Singles(freq, n)| + One(b < n && freq[b] == 0)
  {
    if n > 0 {
      SinglesAfter(freq, b, n - 1);
    }
  }

  lemma {:induction false} NoSingles(freq: seq<nat>, n: nat)
    requires |freq| == 256 && n <= 256 && forall b :: 0 <= b < 256 ==> freq[b] == 0
    ensures |Singles(freq, n)| == 0
  {
    if n > 0 {
      NoSingles(freq, n - 1);
    }
  }

  method CountBytes(input: seq<Byte>) returns (freqTable: array<nat>, uniqueBytesCount: nat, totalBytesCount: nat)
    ensures fresh(freqTable) && IsFrequencyTable(freqTable[..], input)
    ensures uniqueBytesCount == |Singles(freqTable[..], 256)| && totalBytesCount == |input|
    ensures input != [] ==> uniqueBytesCount > 0
  {
    freqTable := new nat[256](_ => 0);
    uniqueBytesCount, totalBytesCount := 0, 0;
    NoSingles(freqTable[..], 256);
    for i := 0 to |input|
      invariant fresh(freqTable) && freqTable.Length == 256 && totalBytesCount == i
      invariant IsFrequencyTable(freqTable[..], input[..i])
      invariant uniqueBytesCount == |Singles(freqTable[..], 256)| && (i > 0 ==> uniqueBytesCount > 0)
    {
      var byte := input[i];
      ghost var before := freqTable[..];
      assert input[..i + 1][..i] == input[..i];
      SinglesAfter(before, byte, 256);
      if freqTable[byte] == 0 {
        uniqueBytesCount := uniqueBytesCount + 1;
      }
      freqTable[byte] := freqTable[byte] + 1;
      totalBytesCount := totalBytesCount + 1;
      assert freqTable[..] == before[byte := before[byte] + 1];
    }
    assert input[..|input|] == input;
  }

  // ---------- The archive ----------

  /** An uint32_t in memory, low byte first. */
  function LittleEndian(n: nat, size: nat): (bytes: seq<Byte>)
    ensures |bytes| == size
  {
    if size == 0 then [] else [n % 256] + LittleEndian(n / 256, size - 1)
  }

  function FromLittleEndian(bytes: seq<Byte>): nat {
    if bytes == [] then 0 else bytes[0] + 256 * FromLittleEndian(bytes[1..])
  }

  lemma {:induction false} LittleEndianAt(n: nat, size: nat, k: nat)
    requires k < size
    ensures Power(256, k) > 0 && LittleEndian(n, size)[k] == n / Power(256, k) % 256
  {
    if k > 0 {
      LittleEndianAt(n / 256, size - 1, k - 1);
      NextDigit(n, 256, k);
    }
  }

  lemma {:induction false} EndianRoundTrip(n: nat, size: nat)
    requires n < Power(256, size)
    ensures FromLittleEndian(LittleEndian(n, size)) == n
  {
    if size > 0 {
      EndianRoundTrip(n / 256, size - 1);
      assert LittleEndian(n, size)[1..] == LittleEndian(n / 256, size - 1);
    }
  }

  lemma FourBytes()
    ensures Power(256, 4) == 0x1_0000_0000
  {
    assert Power(256, 2) == 65536;
  }

  /** The codes of a file, one after the other. */
  function Encoded(table: seq<Option<string>>, input: seq<Byte>): seq<bool>
    requires |table| == 256
  {
    if input == [] then [] else CodeBits(CodeOf(table, input[0])) + Encoded(table, input[1..])
  }

  function CodeOf(table: seq<Option<string>>, b: Byte): string
    requires |table| == 256
  {
    if table[b].Some? then table[b].value else ""
  }

  /** Every byte of the file has a code in the table that leads to it in the tree. */
  ghost predicate Codes(t: Tree<Byte>, table: seq<Option<string>>, input: seq<Byte>) {
    |table| == 256 && forall b: Byte :: Occurrences(input, b) > 0 ==> LeadsTo(t, CodeOf(table, b), b)
  }

  /** The layout of an archive: the length of the file, the tree, the codes, and zeros up to a whole byte. */
  ghost predicate Layout(input: seq<Byte>, archive: seq<Byte>, t: Tree<Byte>, table: seq<Option<string>>, padding: nat) {
    && Codes(t, table, input)
    && padding < 8
    && FileBits(archive)
       == BytesBits(LittleEndian(|input|, 4)) + Serialized(t) + Encoded(table, input) + Zeros(padding)
  }

  method Compress(input: seq<Byte>)
    returns (archive: seq<Byte>, ghost tree: Tree<Byte>, ghost codes: seq<Option<string>>, ghost padding: nat)
    requires 0 < |input| < 0x1_0000_0000
    ensures Decompressed(archive) == input
    ensures Layout(input, archive, tree, codes, padding)
    ensures forall b: Byte :: LeafCount(tree, b) == One(Occurrences(input, b) > 0)
    ensures forall freq :: IsFrequencyTable(freq, input) ==> Optimal(freq, tree) && LeftHeavy(freq, tree)
  {
    var freqTable, uniqueBytesCount, totalBytesCount := CountBytes(input);
    var huffmanTree := BuildHuffmanTree(freqTable[..], uniqueBytesCount);
    archive, codes, padding := WriteArchive(input, totalBytesCount, huffmanTree);
    tree := huffmanTree;
    SameTable(freqTable[..], input);
    RoundTrip(input, archive, tree, codes, padding);
  }

  method WriteArchive(input: seq<Byte>, totalBytesCount: nat, huffmanTree: Tree<Byte>)
    returns (archive: seq<Byte>, ghost codes: seq<Option<string>>, ghost padding: nat)
    requires totalBytesCount == |input|
    requires forall b: Byte :: LeafCount(huffmanTree, b) == One(Occurrences(input, b) > 0)
    ensures Layout(input, archive, huffmanTree, codes, padding)
  {
    var bitOutput := new Stream([]);
    assert bitOutput.Written() == [];
    bitOutput.WriteByteArray(LittleEndian(totalBytesCount, 4));
    ghost var header := BytesBits(LittleEndian(totalBytesCount, 4));
    assert bitOutput.Written() == header;
    SerializeHuffmanTree(bitOutput, huffmanTree);
    HeightFits(huffmanTree);
    var codeTable := MakeCodeTable(huffmanTree);
    codes := codeTable[..];
    assert forall b: Byte :: LeafCount(huffmanTree, b) > 0 ==> EntryOk(huffmanTree, "", codes[b], b);
    EntriesAreCodes(huffmanTree, codes, input);
    EntriesForFile(huffmanTree, codes, input);
    EmitCodes(bitOutput, codeTable, input);
    assert bitOutput.Written() == header + Serialized(huffmanTree) + Encoded(codes, input);
    padding := if bitOutput.bufferedBitsCount == 0 then 0 else 8 - bitOutput.bufferedBitsCount;
    bitOutput.Flush();
    archive := bitOutput.file;
  }

  lemma SameTable(freq: seq<nat>, input: seq<Byte>)
    requires IsFrequencyTable(freq, input)
    ensures forall freq' :: IsFrequencyTable(freq', input) ==> freq' == freq
  {
    forall freq' | IsFrequencyTable(freq', input)
      ensures freq' == freq
    {
      forall b | 0 <= b < 256
        ensures freq'[b] == freq[b]
      {
        var byte: Byte := b;
        assert freq'[byte] == Occurrences(input, byte) == freq[byte];
      }
    }
  }

  lemma EntriesAreCodes(t: Tree<Byte>, table: seq<Option<string>>, input: seq<Byte>)
    requires |table| == 256
    requires forall b: Byte :: LeafCount(t, b) == One(Occurrences(input, b) > 0)
    requires forall b: Byte :: LeafCount(t, b) > 0 ==> EntryOk(t, "", table[b], b)
    ensures Codes(t, table, input)
  {
    forall b: Byte | Occurrences(input, b) > 0
      ensures LeadsTo(t, CodeOf(table, b), b)
    {
      assert EntryOk(t, "", table[b], b);
      assert table[b].value[0..] == table[b].value;
    }
  }

  lemma {:induction false} OccursIfIn(input: seq<Byte>, i: nat)
    requires i < |input|
    ensures Occurrences(input, input[i]) > 0
  {
    if i < |input| - 1 {
      OccursIfIn(input[..|input| - 1], i);
    }
  }

  /** Every byte of the file has an entry in the table. */
  ghost predicate HasCodes(table: seq<Option<string>>, input: seq<Byte>) {
    |table| == 256 && forall i :: 0 <= i < |input| ==> table[input[i]].Some? && IsCode(table[input[i]].value)
  }

  lemma EntriesForFile(t: Tree<Byte>, table: seq<Option<string>>, input: seq<Byte>)
    requires |table| == 256
    requires forall b: Byte :: LeafCount(t, b) == One(Occurrences(input, b) > 0)
    requires forall b: Byte :: LeafCount(t, b) > 0 ==> EntryOk(t, "", table[b], b)
    ensures HasCodes(table, input)
  {
    forall i | 0 <= i < |input|
      ensures table[input[i]].Some? && IsCode(table[input[i]].value)
    {
      OccursIfIn(input, i);
      assert EntryOk(t, "", table[input[i]], input[i]);
    }
  }

  /** The second pass over the file. */
  method EmitCodes(bitOut: Stream, table: array<Option<string>>, input: seq<Byte>)
    requires bitOut.Writing() && HasCodes(table[..], input)
    modifies bitOut
    ensures bitOut.Writing() && bitOut.Written() == old(bitOut.Written()) + Encoded(table[..], input)
  {
    ghost var codes := table[..];
    for i := 0 to |input|
      invariant bitOut.Writing() && table[..] == codes
      invariant bitOut.Written() + Encoded(codes, input[i..]) == old(bitOut.Written()) + Encoded(codes, input)
    {
      assert codes[input[i]].Some?;
      EncodedStep(codes, input, i, bitOut.Written());
      EmitCode(bitOut, table, input[i]);
    }
  }

  lemma EncodedStep(codes: seq<Option<string>>, input: seq<Byte>, i: nat, written: seq<bool>)
    requires |codes| == 256 && i < |input|
    ensures written + Encoded(codes, input[i..])
         == written + CodeBits(CodeOf(codes, input[i])) + Encoded(codes, input[i + 1..])
  {
    assert input[i..][1..] == input[i + 1..];
  }

  /** The bytes decoded from the bits ahead, up to a number of them or to the end of the file. */
  function Decoded(t: Tree<Byte>, bits: seq<bool>, n: nat): seq<Byte>
    decreases n
  {
    if n == 0 then []
    else
      match Walked(t, bits)
      case (None, _) => []
      case (Some(b), rest) => [b] + Decoded(t, rest, n - 1)
  }

  function Decompressed(archive: seq<Byte>): seq<Byte> {
    var (size, rest) := TakeBytes(FileBits(archive), 4);
    var (tree, rest') := Parsed(rest);
    Decoded(tree, rest', FromLittleEndian(size))
  }

  method Decompress(archive: seq<Byte>) returns (output: seq<Byte>)
    ensures output == Decompressed(archive)
  {
    var bitInput := new Stream(archive);
    var size := bitInput.ReadByteArray(4);
    var totalBytesEncoded := FromLittleEndian(size);
    var huffmanTree := DeserializeHuffmanTree(bitInput);
    output := [];
    var bytesDecoded := 0;
    while bytesDecoded < totalBytesEncoded
      invariant bitInput.Reading() && bytesDecoded <= totalBytesEncoded
      invariant output + Decoded(huffmanTree, bitInput.Unread(), totalBytesEncoded - bytesDecoded) == Decompressed(archive)
    {
      var byte := DecodeByte(bitInput, huffmanTree);
      if byte == None {
        break;
      }
      output := output + [byte.value];
      bytesDecoded := bytesDecoded + 1;
    }
  }

  /** Decoding the codes of a file gives the file, whatever follows them. */
  lemma {:induction false} DecodeEncoded(t: Tree<Byte>, table: seq<Option<string>>, input: seq<Byte>, rest: seq<bool>)
    requires |table| == 256 && forall i :: 0 <= i < |input| ==> LeadsTo(t, CodeOf(table, input[i]), input[i])
    ensures Decoded(t, Encoded(table, input) + rest, |input|) == input
  {
    if input != [] {
      var code, ahead := CodeOf(table, input[0]), Encoded(table, input[1..]) + rest;
      assert Encoded(table, input) + rest == CodeBits(code) + ahead;
      WalkCode(t, code, input[0], ahead);
      DecodeEncoded(t, table, input[1..], rest);
    }
  }

  lemma DecodePayload(t: Tree<Byte>, table: seq<Option<string>>, input: seq<Byte>, rest: seq<bool>)
    requires Codes(t, table, input)
    ensures Decoded(t, Encoded(table, input) + rest, |input|) == input
  {
    forall i | 0 <= i < |input|
      ensures LeadsTo(t, CodeOf(table, input[i]), input[i])
    {
      OccursIfIn(input, i);
    }
    DecodeEncoded(t, table, input, rest);
  }

  lemma HeaderRoundTrip(n: nat, rest: seq<bool>)
    requires n < 0x1_0000_0000
    ensures TakeBytes(BytesBits(LittleEndian(n, 4)) + rest, 4) == (LittleEndian(n, 4), rest)
    ensures FromLittleEndian(LittleEndian(n, 4)) == n
  {
    TakeWrittenBytes(LittleEndian(n, 4), rest);
    FourBytes();
    EndianRoundTrip(n, 4);
  }

  lemma Regrouped(a: seq<bool>, b: seq<bool>, c: seq<bool>, d: seq<bool>)
    ensures a + b + c + d == a + (b + (c + d))
  {
  }

  /** Whatever archive the compressor writes for a file, the decompressor gives back the file. */
  lemma RoundTrip(input: seq<Byte>, archive: seq<Byte>, t: Tree<Byte>, table: seq<Option<string>>, padding: nat)
    requires |input| < 0x1_0000_0000 && Layout(input, archive, t, table, padding)
    ensures Decompressed(archive) == input
  {
    var payload := Encoded(table, input) + Zeros(padding);
    var rest := Serialized(t) + payload;
    Regrouped(BytesBits(LittleEndian(|input|, 4)), Serialized(t), Encoded(table, input), Zeros(padding));
    HeaderRoundTrip(|input|, rest);
    ParseSerialized(t, payload);
    DecodePayload(t, table, input, Zeros(padding));
  }

  /** Compressing and decompressing a file. */
  method CompressAndDecompress(input: seq<Byte>) returns (output: seq<Byte>)
    requires 0 < |input| < 0x1_0000_0000
    ensures output == input
  {
    var archive, tree, codes, padding := Compress(input);
    output := Decompress(archive);
  }

  // ---------- The length of the archive ----------

  /** The depths of all leaves with a byte, added up. */
  function DepthSum(t: Tree<Byte>, b: Byte, depth: nat): nat {
    match t
    case Leaf(v) => if v == b then depth else 0
    case Node(l, r) => DepthSum(l, b, depth + 1) + DepthSum(r, b, depth + 1)
  }

  /** One more occurrence of a byte adds the depth of its leaf. */
  lemma {:induction false} OneMore(freq: seq<nat>, t: Tree<Byte>, b: Byte, depth: nat)
    requires |freq| == 256
    ensures PathLength(Weighed(freq[b := freq[b] + 1], t), depth)
         == PathLength(Weighed(freq, t), depth) + DepthSum(t, b, depth)
  {
    match t
    case Leaf(v) =>
      assert (freq[b] + 1) * depth == freq[b] * depth + depth;
    case Node(l, r) =>
      OneMore(freq, l, b, depth + 1);
      OneMore(freq, r, b, depth + 1);
  }

  lemma {:induction false} NoOccurrence(freq: seq<nat>, t: Tree<Byte>, depth: nat)
    requires |freq| == 256 && forall b :: 0 <= b < 256 ==> freq[b] == 0
    ensures PathLength(Weighed(freq, t), depth) == 0
  {
    match t
    case Leaf(_) =>
    case Node(l, r) =>
      NoOccurrence(freq, l, depth + 1);
      NoOccurrence(freq, r, depth + 1);
  }

  lemma {:induction false} CodeHasLeaf(t: Tree<Byte>, code: string, b: Byte)
    requires LeadsTo(t, code, b)
    ensures LeafCount(t, b) >= 1
  {
    match t
    case Leaf(_) =>
    case Node(l, r) =>
      CodeHasLeaf(if code[0] == '0' then l else r, code[1..], b);
  }

  lemma {:induction false} NoLeafNoDepth(t: Tree<Byte>, b: Byte, depth: nat)
    requires LeafCount(t, b) == 0
    ensures DepthSum(t, b, depth) == 0
  {
    match t
    case Leaf(_) =>
    case Node(l, r) =>
      NoLeafNoDepth(l, b, depth + 1);
      NoLeafNoDepth(r, b, depth + 1);
  }

  /** The code of a byte is as long as its leaf is deep. */
  lemma {:induction false} DepthOfCode(t: Tree<Byte>, code: string, b: Byte, depth: nat)
    requires LeadsTo(t, code, b) && LeafCount(t, b) == 1
    ensures DepthSum(t, b, depth) == depth + |code|
  {
    match t
    case Leaf(_) =>
    case Node(l, r) =>
      var (near, far) := if code[0] == '0' then (l, r) else (r, l);
      CodeHasLeaf(near, code[1..], b);
      DepthOfCode(near, code[1..], b, depth + 1);
      NoLeafNoDepth(far, b, depth + 1);
  }

  lemma {:induction false} EncodedLast(table: seq<Option<string>>, input: seq<Byte>)
    requires |table| == 256 && input != []
    ensures |Encoded(table, input)|
         == |Encoded(table, input[..|input| - 1])| + |CodeOf(table, input[|input| - 1])|
  {
    var last := |input| - 1;
    if last > 0 {
      EncodedLast(table, input[1..]);
      assert input[1..][..last - 1] == input[..last][1..];
    } else {
      assert input[1..] == [] && input[..last] == [];
    }
  }

  /** All bytes of a file have one leaf and a code that leads to it. */
  ghost predicate Covers(t: Tree<Byte>, table: seq<Option<string>>, input: seq<Byte>) {
    && |table| == 256
    && (forall i :: 0 <= i < |input| ==>
          LeafCount(t, input[i]) == 1 && LeadsTo(t, CodeOf(table, input[i]), input[i]))
  }

  /** The codes of a file take the sum of frequency times depth bits. */
  lemma {:induction false} EncodedLength(t: Tree<Byte>, table: seq<Option<string>>, input: seq<Byte>, freq: seq<nat>)
    requires Covers(t, table, input) && IsFrequencyTable(freq, input)
    ensures |Encoded(table, input)| == PathLength(Weighed(freq, t), 0)
    decreases |input|
  {
    if input == [] {
      assert forall b: Byte :: freq[b] == 0;
      NoOccurrence(freq, t, 0);
    } else {
      var last := |input| - 1;
      var b := input[last];
      var before := freq[b := freq[b] - 1];
      assert before[b := before[b] + 1] == freq;
      EncodedLength(t, table, input[..last], before);
      OneMore(before, t, b, 0);
      DepthOfCode(t, CodeOf(table, b), b, 0);
      EncodedLast(table, input);
    }
  }
}
