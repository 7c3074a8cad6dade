/** No prefix code encodes a file in fewer bits than the codes of the archiver. */
module PrefixCodes {
  import opened BitStream
  import opened HuffmanArchiver
  import opened HuffmanOptimality
  import opened HuffmanTree
  import opened MachineWords
  import opened Options

  /** The code of no byte of the file is the beginning of the code of another one. */
  ghost predicate IsPrefixCode(table: seq<Option<string>>, input: seq<Byte>) {
    && |table| == 256
    && forall a: Byte, b: Byte :: Occurrences(input, a) > 0 && Occurrences(input, b) > 0 && a != b ==>
         !(CodeBits(CodeOf(table, a)) <= CodeBits(CodeOf(table, b)))
  }

  // ---------- Lists of codes ----------

  datatype Coded = Coded(byte: Byte, bits: seq<bool>)

  /** Neither code begins with the other. */
  predicate Clear(c: Coded, d: Coded) {
    !(c.bits <= d.bits) && !(d.bits <= c.bits)
  }

  predicate PrefixFree(cs: seq<Coded>) {
    cs == [] || (PrefixFree(cs[1..]) && forall d :: d in cs[1..] ==> Clear(cs[0], d))
  }

  predicate AllLonger(cs: seq<Coded>) {
    forall c :: c in cs ==> c.bits != []
  }

  function CodedCount(cs: seq<Coded>, b: Byte): nat {
    if cs == [] then 0 else One(cs[0].byte == b) + CodedCount(cs[1..], b)
  }

  function TotalLength(cs: seq<Coded>): nat {
    if cs == [] then 0 else |cs[0].bits| + TotalLength(cs[1..])
  }

  /** Frequency times length of the code, with some bits more for each. */
  function CodeCost(freq: seq<nat>, cs: seq<Coded>, more: nat): nat
    requires |freq| == 256
  {
    if cs == [] then 0 else freq[cs[0].byte] * (more + |cs[0].bits|) + CodeCost(freq, cs[1..], more)
  }

  lemma {:induction false} MoreCosts(freq: seq<nat>, cs: seq<Coded>, more: nat)
    requires |freq| == 256
    ensures CodeCost(freq, cs, more) <= CodeCost(freq, cs, more + 1)
  {
    if cs != [] {
      MoreCosts(freq, cs[1..], more);
      var f, n := freq[cs[0].byte], more + |cs[0].bits|;
      assert f * (n + 1) == f * n + f;
    }
  }

  lemma SeveralAreLonger(cs: seq<Coded>)
    requires PrefixFree(cs) && |cs| >= 2
    ensures AllLonger(cs)
  {
    assert cs[1] == cs[1..][0];
    assert Clear(cs[0], cs[1]);
    forall c | c in cs
      ensures c.bits != []
    {
      assert c != cs[0] ==> c in cs[1..];
      assert c in cs[1..] ==> Clear(cs[0], c);
    }
  }

  // ---------- Codes by their first bit ----------

  function Branch(cs: seq<Coded>, bit: bool): (ds: seq<Coded>)
    requires AllLonger(cs)
  {
    if cs == [] then []
    else
      assert cs[0] in cs;
      if cs[0].bits[0] == bit then [Coded(cs[0].byte, cs[0].bits[1..])] + Branch(cs[1..], bit) else Branch(cs[1..], bit)
  }

  lemma {:induction false} BranchMember(cs: seq<Coded>, bit: bool, d: Coded)
    requires AllLonger(cs) && d in Branch(cs, bit)
    ensures Coded(d.byte, [bit] + d.bits) in cs
  {
    assert cs[0] in cs;
    var c := cs[0];
    if c.bits[0] == bit && d == Coded(c.byte, c.bits[1..]) {
      assert [bit] + d.bits == c.bits;
    } else {
      BranchMember(cs[1..], bit, d);
    }
  }

  lemma {:induction false} BranchPrefixFree(cs: seq<Coded>, bit: bool)
    requires AllLonger(cs) && PrefixFree(cs)
    ensures PrefixFree(Branch(cs, bit))
  {
    if cs != [] {
      assert cs[0] in cs;
      BranchPrefixFree(cs[1..], bit);
      var c, rest := cs[0], Branch(cs[1..], bit);
      if c.bits[0] == bit {
        var head := Coded(c.byte, c.bits[1..]);
        forall d | d in rest
          ensures Clear(head, d)
        {
          BranchMember(cs[1..], bit, d);
          assert Clear(c, Coded(d.byte, [bit] + d.bits));
          assert c.bits == [bit] + head.bits;
        }
        assert ([head] + rest)[1..] == rest;
      }
    }
  }

  lemma {:induction false} BranchCount(cs: seq<Coded>, b: Byte)
    requires AllLonger(cs)
    ensures CodedCount(cs, b) == CodedCount(Branch(cs, false), b) + CodedCount(Branch(cs, true), b)
  {
    if cs != [] {
      assert cs[0] in cs;
      BranchCount(cs[1..], b);
    }
  }

  lemma {:induction false} BranchTotal(cs: seq<Coded>)
    requires AllLonger(cs)
    ensures TotalLength(cs) == TotalLength(Branch(cs, false)) + TotalLength(Branch(cs, true)) + |cs|
  {
    if cs != [] {
      assert cs[0] in cs;
      BranchTotal(cs[1..]);
    }
  }

  lemma {:induction false} BranchCost(freq: seq<nat>, cs: seq<Coded>, more: nat)
    requires |freq| == 256 && AllLonger(cs)
    ensures CodeCost(freq, cs, more)
         == CodeCost(freq, Branch(cs, false), more + 1) + CodeCost(freq, Branch(cs, true), more + 1)
  {
    if cs != [] {
      assert cs[0] in cs;
      BranchCost(freq, cs[1..], more);
    }
  }

  // ---------- A tree as good as a prefix code ----------

  /** The codes spell a tree; where only one bit is possible, it can be left out. */
  lemma {:induction false} TreeOfCodes(freq: seq<nat>, cs: seq<Coded>, depth: nat) returns (t: Tree<Byte>)
    requires |freq| == 256 && cs != [] && PrefixFree(cs)
    ensures forall b: Byte :: LeafCount(t, b) == CodedCount(cs, b)
    ensures PathLength(Weighed(freq, t), depth) <= CodeCost(freq, cs, depth)
    decreases TotalLength(cs)
  {
    if |cs| == 1 {
      t := Leaf(cs[0].byte);
      var f, n := freq[cs[0].byte], |cs[0].bits|;
      assert f * (depth + n) == f * depth + f * n;
    } else {
      SeveralAreLonger(cs);
      var zeros, ones := Branch(cs, false), Branch(cs, true);
      BranchTotal(cs);
      BranchPrefixFree(cs, false);
      BranchPrefixFree(cs, true);
      BranchCost(freq, cs, depth);
      forall b: Byte
        ensures CodedCount(cs, b) == CodedCount(zeros, b) + CodedCount(ones, b)
      {
        BranchCount(cs, b);
      }
      if zeros == [] {
        t := TreeOfCodes(freq, ones, depth);
        MoreCosts(freq, ones, depth);
      } else if ones == [] {
        t := TreeOfCodes(freq, zeros, depth);
        MoreCosts(freq, zeros, depth);
      } else {
        var l := TreeOfCodes(freq, zeros, depth + 1);
        var r := TreeOfCodes(freq, ones, depth + 1);
        t := Node(l, r);
      }
    }
  }

  // ---------- The codes of a file ----------

  /** The codes of the bytes from k on that occur. */
  function CodesFrom(table: seq<Option<string>>, freq: seq<nat>, k: nat): seq<Coded>
    requires |table| == |freq| == 256 && k <= 256
    decreases 256 - k
  {
    if k == 256 then [] else
      (if freq[k] == 0 then [] else [Coded(k, CodeBits(CodeOf(table, k)))]) + CodesFrom(table, freq, k + 1)
  }

  lemma CodesFromStep(table: seq<Option<string>>, freq: seq<nat>, k: nat)
    requires |table| == |freq| == 256 && k < 256
    ensures var cs := CodesFrom(table, freq, k);
      if freq[k] == 0 then cs == CodesFrom(table, freq, k + 1)
      else cs != [] && cs[0] == Coded(k, CodeBits(CodeOf(table, k))) && cs[1..] == CodesFrom(table, freq, k + 1)
  {
  }

  lemma {:induction false} CodesFromCount(table: seq<Option<string>>, freq: seq<nat>, k: nat, b: Byte)
    requires |table| == |freq| == 256 && k <= 256
    ensures CodedCount(CodesFrom(table, freq, k), b) == One(k <= b && freq[b] > 0)
    decreases 256 - k
  {
    if k < 256 {
      CodesFromCount(table, freq, k + 1, b);
      CodesFromStep(table, freq, k);
    }
  }

  lemma {:induction false} CodesFromMember(table: seq<Option<string>>, freq: seq<nat>, k: nat, d: Coded)
    requires |table| == |freq| == 256 && k <= 256 && d in CodesFrom(table, freq, k)
    ensures d.byte >= k && freq[d.byte] > 0 && d.bits == CodeBits(CodeOf(table, d.byte))
    decreases 256 - k
  {
    CodesFromStep(table, freq, k);
    var cs := CodesFrom(table, freq, k);
    if freq[k] == 0 || d != cs[0] {
      CodesFromMember(table, freq, k + 1, d);
    }
  }

  lemma {:induction false} CodesFromPrefixFree(table: seq<Option<string>>, freq: seq<nat>, input: seq<Byte>, k: nat)
    requires IsPrefixCode(table, input) && IsFrequencyTable(freq, input) && k <= 256
    ensures PrefixFree(CodesFrom(table, freq, k))
    decreases 256 - k
  {
    if k < 256 {
      CodesFromPrefixFree(table, freq, input, k + 1);
      CodesFromStep(table, freq, k);
      var cs := CodesFrom(table, freq, k);
      if freq[k] > 0 {
        forall d | d in cs[1..]
          ensures Clear(cs[0], d)
        {
          CodesFromMember(table, freq, k + 1, d);
          assert Occurrences(input, k) > 0 && Occurrences(input, d.byte) > 0;
        }
      }
    }
  }

  // ---------- The length of an encoded file ----------

  /** Frequency times length of the code, over the bytes from k on. */
  function TableCost(table: seq<Option<string>>, freq: seq<nat>, k: nat): nat
    requires |table| == |freq| == 256 && k <= 256
    decreases 256 - k
  {
    if k == 256 then 0 else freq[k] * |CodeOf(table, k)| + TableCost(table, freq, k + 1)
  }

  lemma {:induction false} CodesFromCost(table: seq<Option<string>>, freq: seq<nat>, k: nat)
    requires |table| == |freq| == 256 && k <= 256
    ensures CodeCost(freq, CodesFrom(table, freq, k), 0) == TableCost(table, freq, k)
    decreases 256 - k
  {
    if k < 256 {
      CodesFromCost(table, freq, k + 1);
      CodesFromStep(table, freq, k);
    }
  }

  lemma {:induction false} OneMoreCosts(table: seq<Option<string>>, freq: seq<nat>, b: Byte, k: nat)
    requires |table| == |freq| == 256 && k <= 256
    ensures TableCost(table, freq[b := freq[b] + 1], k)
         == TableCost(table, freq, k) + (if k <= b then |CodeOf(table, b)| else 0)
    decreases 256 - k
  {
    if k < 256 {
      OneMoreCosts(table, freq, b, k + 1);
      var f, n := freq[k], |CodeOf(table, k)|;
      assert (f + 1) * n == f * n + n;
    }
  }

  lemma {:induction false} NothingCosts(table: seq<Option<string>>, freq: seq<nat>, k: nat)
    requires |table| == |freq| == 256 && k <= 256 && forall b :: 0 <= b < 256 ==> freq[b] == 0
    ensures TableCost(table, freq, k) == 0
    decreases 256 - k
  {
    if k < 256 {
      NothingCosts(table, freq, k + 1);
      assert 0 * |CodeOf(table, k)| == 0;
    }
  }

  /** Whatever the codes are. */
  lemma {:induction false} EncodedCost(table: seq<Option<string>>, input: seq<Byte>, freq: seq<nat>)
    requires |table| == 256 && IsFrequencyTable(freq, input)
    ensures |Encoded(table, input)| == TableCost(table, freq, 0)
    decreases |input|
  {
    if input == [] {
      assert forall b: Byte :: freq[b] == 0;
      NothingCosts(table, freq, 0);
    } else {
      var last := |input| - 1;
      var b := input[last];
      var before := freq[b := freq[b] - 1];
      assert before[b := before[b] + 1] == freq;
      EncodedCost(table, input[..last], before);
      OneMoreCosts(table, before, b, 0);
      EncodedLast(table, input);
    }
  }

  // ---------- The theorem ----------

  lemma PrefixTail(a: seq<bool>, b: seq<bool>)
    requires a != [] && b != []
    ensures a <= b ==> a[1..] <= b[1..]
  {
  }

  lemma {:induction false} LeavesAreApart(t: Tree<Byte>, c: string, a: Byte, d: string, b: Byte)
    requires LeadsTo(t, c, a) && LeadsTo(t, d, b) && a != b
    ensures !(CodeBits(c) <= CodeBits(d))
  {
    match t
    case Leaf(_) =>
    case Node(l, r) =>
      if c[0] == d[0] {
        LeavesAreApart(if c[0] == '0' then l else r, c[1..], a, d[1..], b);
        assert CodeBits(c)[1..] == CodeBits(c[1..]) && CodeBits(d)[1..] == CodeBits(d[1..]);
        PrefixTail(CodeBits(c), CodeBits(d));
      } else {
        assert CodeBits(c)[0] != CodeBits(d)[0];
      }
  }

  /** The codes of a tree are a prefix code. */
  lemma CodesArePrefixCode(t: Tree<Byte>, table: seq<Option<string>>, input: seq<Byte>)
    requires Codes(t, table, input)
    ensures IsPrefixCode(table, input)
  {
    forall a: Byte, b: Byte | Occurrences(input, a) > 0 && Occurrences(input, b) > 0 && a != b
      ensures !(CodeBits(CodeOf(table, a)) <= CodeBits(CodeOf(table, b)))
    {
      LeavesAreApart(t, CodeOf(table, a), a, CodeOf(table, b), b);
    }
  }

  lemma SameLeaves(t: Tree<Byte>, u: Tree<Byte>)
    requires forall b: Byte :: LeafCount(t, b) == LeafCount(u, b)
    ensures multiset(Leaves(t)) == multiset(Leaves(u))
  {
    forall b: Byte
      ensures multiset(Leaves(t))[b] == multiset(Leaves(u))[b]
    {
      LeavesCount(t, b);
      LeavesCount(u, b);
    }
  }

  /** The codes of an optimal tree are a prefix code, and no prefix code for the file encodes it in fewer bits. */
  lemma ShortestPrefixCode(input: seq<Byte>, freq: seq<nat>, t: Tree<Byte>, table: seq<Option<string>>,
                           other: seq<Option<string>>)
    requires input != [] && IsFrequencyTable(freq, input) && Optimal(freq, t) && Codes(t, table, input)
    requires forall b: Byte :: LeafCount(t, b) == One(Occurrences(input, b) > 0)
    requires IsPrefixCode(other, input)
    ensures IsPrefixCode(table, input) && |Encoded(table, input)| <= |Encoded(other, input)|
  {
    CodesArePrefixCode(t, table, input);
    CoveredByCodes(input, t, table);
    EncodedLength(t, table, input, freq);
    var cs := CodesFrom(other, freq, 0);
    CodesFromPrefixFree(other, freq, input, 0);
    forall b: Byte
      ensures CodedCount(cs, b) == LeafCount(t, b)
    {
      CodesFromCount(other, freq, 0, b);
    }
    OccursIfIn(input, 0);
    assert CodedCount(cs, input[0]) > 0;
    var u := TreeOfCodes(freq, cs, 0);
    SameLeaves(u, t);
    CodesFromCost(other, freq, 0);
    EncodedCost(other, input, freq);
  }

  lemma CoveredByCodes(input: seq<Byte>, t: Tree<Byte>, table: seq<Option<string>>)
    requires Codes(t, table, input) && forall b: Byte :: LeafCount(t, b) == One(Occurrences(input, b) > 0)
    ensures Covers(t, table, input)
  {
    forall i | 0 <= i < |input|
      ensures LeafCount(t, input[i]) == 1 && LeadsTo(t, CodeOf(table, input[i]), input[i])
    {
      OccursIfIn(input, i);
    }
  }
}
