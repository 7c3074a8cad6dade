/** What the hash of a key is, and which keys it always tells apart. */
module HashCodes {
  import opened AvlTree
  import opened HashMap
  import opened MachineWords
  import opened Powers

  const TWO_TO_THE_64: nat := 0x1_0000_0000_0000_0000

  // ---------- The closed form ----------

  /** Every byte times a power of 33, the first with the highest. */
  function Weighted(key: Key): nat {
    if key == [] then 0 else key[0] * Power(33, |key| - 1) + Weighted(key[1..])
  }

  lemma {:induction false} WeightedLast(key: Key, b: Byte)
    ensures Weighted(key + [b]) == 33 * Weighted(key) + b
  {
    var longer := key + [b];
    if key == [] {
      assert longer[1..] == [];
      assert Weighted(longer) == b * Power(33, 0) + Weighted([]);
    } else {
      WeightedLast(key[1..], b);
      assert longer[1..] == key[1..] + [b];
      var c, p := key[0], Power(33, |key| - 1);
      assert Power(33, |key|) == 33 * p;
      assert c * (33 * p) == 33 * (c * p);
    }
  }

  lemma SameRemainder(x: int, q: int)
    ensures (x + TWO_TO_THE_64 * q) % TWO_TO_THE_64 == x % TWO_TO_THE_64
  {
    QuotientIs(x + TWO_TO_THE_64 * q, TWO_TO_THE_64, x / TWO_TO_THE_64 + q, x % TWO_TO_THE_64);
  }

  /** The hash is 5381 and the bytes as digits to the base 33, modulo the size of a word. */
  lemma {:induction false} Djb2IsPolynomial(key: Key)
    ensures Djb2(key) == (5381 * Power(33, |key|) + Weighted(key)) % TWO_TO_THE_64
  {
    if key != [] {
      var last := |key| - 1;
      var rest, b := key[..last], key[last];
      Djb2IsPolynomial(rest);
      WeightedLast(rest, b);
      assert rest + [b] == key;
      var x := 5381 * Power(33, last) + Weighted(rest);
      assert 33 * x + b == 5381 * Power(33, |key|) + Weighted(key);
      var q := x / TWO_TO_THE_64;
      assert x == Djb2(rest) + TWO_TO_THE_64 * q;
      assert 33 * x + b == Djb2(rest) * 33 + b + TWO_TO_THE_64 * (33 * q);
      SameRemainder(Djb2(rest) * 33 + b, 33 * q);
    }
  }

  // ---------- Keys that are told apart ----------

  /** Since 33 is odd it has an inverse modulo the size of a word, so another byte keeps two hashes apart. */
  lemma StepTells(g: nat, h: nat, b: Byte)
    requires g < TWO_TO_THE_64 && h < TWO_TO_THE_64 && Uint64(g * 33 + b) == Uint64(h * 33 + b)
    ensures g == h
  {
    var inverse, d := 1117984489315730401, g - h;
    var q := (g * 33 + b) / TWO_TO_THE_64 - (h * 33 + b) / TWO_TO_THE_64;
    assert 33 * d == TWO_TO_THE_64 * q;
    assert 33 * inverse == 1 + 2 * TWO_TO_THE_64;
    assert d == TWO_TO_THE_64 * (inverse * q - 2 * d);
  }

  lemma Djb2IsWord(key: Key)
    ensures Djb2(key) < TWO_TO_THE_64
  {
  }

  /** The same bytes behind two keys of one hash or not make no difference. */
  lemma {:induction false} TailTells(a: Key, b: Key, tail: Key)
    ensures Djb2(a + tail) == Djb2(b + tail) <==> Djb2(a) == Djb2(b)
    decreases |tail|
  {
    if tail == [] {
      assert a + tail == a && b + tail == b;
    } else {
      var last := |tail| - 1;
      TailTells(a, b, tail[..last]);
      assert (a + tail)[..|a + tail| - 1] == a + tail[..last];
      assert (b + tail)[..|b + tail| - 1] == b + tail[..last];
      var g, h := Djb2(a + tail[..last]), Djb2(b + tail[..last]);
      Djb2IsWord(a + tail[..last]);
      Djb2IsWord(b + tail[..last]);
      if Uint64(g * 33 + tail[last]) == Uint64(h * 33 + tail[last]) {
        StepTells(g, h, tail[last]);
      }
    }
  }

  lemma LastByteTells(key: Key, x: Byte, y: Byte)
    requires x != y
    ensures Djb2(key + [x]) != Djb2(key + [y])
  {
    assert (key + [x])[..|key|] == key && (key + [y])[..|key|] == key;
  }

  predicate DifferOnlyAt(a: Key, b: Key, k: nat) {
    |a| == |b| && k < |a| && a[k] != b[k] && a[..k] == b[..k] && a[k + 1..] == b[k + 1..]
  }

  /** Two keys that differ in one byte are always told apart. */
  lemma OneByteTells(a: Key, b: Key, k: nat)
    requires DifferOnlyAt(a, b, k)
    ensures Djb2(a) != Djb2(b) && Tells(a, b)
  {
    var front, tail := a[..k], a[k + 1..];
    LastByteTells(front, a[k], b[k]);
    TailTells(front + [a[k]], front + [b[k]], tail);
    assert a == front + [a[k]] + tail && b == front + [b[k]] + tail;
  }

  /** On keys of which any two of one length differ in one byte, the hash map is a map. */
  lemma OneByteApartIsMap(keys: set<Key>, calls: seq<Call>)
    requires forall a, b :: a in keys && b in keys && a != b && |a| == |b| ==> exists k :: DifferOnlyAt(a, b, k)
    requires Uses(calls, keys)
    ensures NoClash(keys) && Answers(NewTable(), calls) == MapAnswers(map[], calls)
  {
    forall a, b | a in keys && b in keys
      ensures Tells(a, b)
    {
      if a != b && |a| == |b| {
        var k :| DifferOnlyAt(a, b, k);
        OneByteTells(a, b, k);
      }
    }
    IsMapIffNoClash(keys);
  }

  // ---------- Short keys ----------

  lemma {:induction false} WeightedBound(key: Key)
    ensures 32 * Weighted(key) <= 255 * (Power(33, |key|) - 1)
  {
    if key != [] {
      WeightedBound(key[1..]);
      var p := Power(33, |key| - 1);
      MulMonotone(key[0], 255, p);
    }
  }

  lemma TwelveBytes()
    ensures 8 * Power(33, 12) < TWO_TO_THE_64
  {
    assert Power(33, 3) == 35937;
    assert Power(33, 6) == 35937 * 35937;
    assert Power(33, 9) == 35937 * 35937 * 35937;
    assert Power(33, 12) == 35937 * 35937 * 35937 * 35937;
  }

  lemma ShortIsSmall(key: Key)
    requires |key| <= 12
    ensures Weighted(key) < TWO_TO_THE_64
  {
    WeightedBound(key);
    PowerMonotone(33, |key|, 12);
    TwelveBytes();
  }

  /** Keys of up to twelve bytes clash exactly when they are the same number to the base 33, without any modulus. */
  lemma ShortKeysClash(a: Key, b: Key)
    requires |a| == |b| <= 12 && a != b
    ensures Tells(a, b) <==> Weighted(a) != Weighted(b)
  {
    Djb2IsPolynomial(a);
    Djb2IsPolynomial(b);
    ShortIsSmall(a);
    ShortIsSmall(b);
    var c := 5381 * Power(33, |a|);
    var q := (c + Weighted(a)) / TWO_TO_THE_64 - (c + Weighted(b)) / TWO_TO_THE_64;
    if Djb2(a) == Djb2(b) {
      assert Weighted(a) - Weighted(b) == TWO_TO_THE_64 * q;
    }
  }
}
