/** How many bytes varints, strings and unknown fields take on the wire. */
module Sizes {
  import opened Common
  import opened Wire
  import Bits

  function Log2Floor(n: nat): (r: nat)
    requires n > 0
  {
    if n == 1 then 0 else 1 + Log2Floor(n / 2)
  }

  /** `value | 1`. */
  function OrOne(n: nat): (r: nat)
    ensures r > 0
  {
    n + 1 - n % 2
  }

  /** `VarintSize32` and `VarintSize64`: a multiplication and a shift instead of a division by 7. */
  function VarintSize(n: nat): nat {
    (Log2Floor(OrOne(n)) * 9 + 73) / 64
  }

  lemma {:induction false} SizeBySevenths(n: nat)
    ensures |EncodeVarint(n)| == Log2Floor(OrOne(n)) / 7 + 1
  {
    if n < 128 {
      LogOfByte(OrOne(n));
    } else {
      SizeBySevenths(n / 128);
      LogShift(n);
    }
  }

  lemma LogOfByte(n: nat)
    requires 0 < n < 128
    ensures Log2Floor(n) < 7
  {
    assert Bits.Pow2(7) == 128;
    LogBelow(n, 7);
  }

  lemma {:induction false} LogBelow(n: nat, k: nat)
    requires 0 < n < Bits.Pow2(k)
    ensures Log2Floor(n) < k
  {
    if n > 1 {
      LogBelow(n / 2, k - 1);
    }
  }

  lemma LogShift(n: nat)
    requires n >= 128
    ensures Log2Floor(OrOne(n)) == 7 + Log2Floor(OrOne(n / 128))
  {
    var a := OrOne(n);
    LogOfQuarter(a);
    LogOfQuarter(a / 4);
    LogOfQuarter(a / 16);
    assert a / 4 / 4 == a / 16 && a / 16 / 4 == a / 64 && a / 64 / 2 == a / 128 == n / 128;
    LogIgnoresLowBit(n / 128);
  }

  lemma LogOfQuarter(n: nat)
    requires n >= 4
    ensures Log2Floor(n) == 2 + Log2Floor(n / 4)
  {
    assert n / 2 / 2 == n / 4;
  }

  lemma LogIgnoresLowBit(n: nat)
    requires n > 0
    ensures Log2Floor(n) == Log2Floor(OrOne(n))
  {
    if n > 1 {
      assert OrOne(n) / 2 == n / 2;
    }
  }

  /** The size of a varint is computed exactly, over the whole 64-bit range. */
  lemma VarintSizeIsExact(n: nat)
    requires n < TWO64
    ensures VarintSize(n) == |EncodeVarint(n)|
  {
    hide Log2Floor, OrOne, EncodeVarint;
    SizeBySevenths(n);
    LogOf64Bits(n);
    SeventhsByShift(Log2Floor(OrOne(n)));
  }

  lemma LogOf64Bits(n: nat)
    requires n < TWO64
    ensures Log2Floor(OrOne(n)) < 64
  {
    hide Log2Floor;
    Bits.Pow2Of64();
    assert TWO64 % 2 == 0;
    LogBelow(OrOne(n), 64);
  }

  lemma SeventhsByShift(l: nat)
    requires l < 64
    ensures (l * 9 + 73) / 64 == l / 7 + 1
  {
  }

  function StringSize(s: seq<Byte>): nat {
    VarintSize(|s|) + |s|
  }

  /** The size of the unknown fields on the wire. */
  function FieldsSize(fs: seq<Field>): nat
    decreases fs, 0
  {
    if fs == [] then 0 else FieldSize(fs[0]) + FieldsSize(fs[1..])
  }

  function FieldSize(f: Field): nat
    decreases f, 1
  {
    VarintSize(MakeTag(f.number, WireType(f.value))) + ValueSize(f.number, f.value)
  }

  function ValueSize(number: nat, v: Value): nat
    decreases v, 0
  {
    match v
    case Varint(n) => VarintSize(n)
    case Fixed32(_) => 4
    case Fixed64(_) => 8
    case Bytes(s) => StringSize(s)
    case Group(fs) => FieldsSize(fs) + VarintSize(MakeTag(number, END_GROUP))
  }

  lemma {:induction false} FieldsSizeIsExact(fs: seq<Field>, budget: nat)
    requires FieldsOk(fs, budget)
    ensures FieldsSize(fs) == |EncodeFields(fs)|
    decreases fs, 0
  {
    if fs != [] {
      FieldSizeIsExact(fs[0], budget);
      FieldsSizeIsExact(fs[1..], budget);
    }
  }

  lemma {:induction false} FieldSizeIsExact(f: Field, budget: nat)
    requires FieldOk(f, budget)
    ensures FieldSize(f) == |EncodeField(f)|
    decreases f, 1
  {
    VarintSizeIsExact(MakeTag(f.number, WireType(f.value)));
    ValueSizeIsExact(f.number, f.value, budget);
  }

  lemma {:induction false} ValueSizeIsExact(number: nat, v: Value, budget: nat)
    requires 1 <= number <= MAX_NUMBER && ValueOk(v, budget)
    ensures ValueSize(number, v) == |EncodeValue(number, v)|
    decreases v, 0
  {
    match v
    case Varint(n) => VarintSizeIsExact(n);
    case Fixed32(_) =>
    case Fixed64(_) =>
    case Bytes(s) => VarintSizeIsExact(|s|);
    case Group(fs) =>
      FieldsSizeIsExact(fs, budget - 1);
      VarintSizeIsExact(MakeTag(number, END_GROUP));
  }
}
