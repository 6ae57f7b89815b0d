/** Big-endian byte strings, as Python's int.from_bytes, int.to_bytes and int.bit_length
    treat them (also prism/common/vrf/octets.py). */
module Octets {
  import opened Wrappers
  import opened Modular

  type Byte = b: int | 0 <= b < 256
  type Bytes = seq<Byte>

  function FromBytes(bs: Bytes): nat {
    if bs == [] then 0 else FromBytes(bs[..|bs| - 1]) * 256 + bs[|bs| - 1]
  }

  /** None stands for OverflowError. */
  function ToBytes(n: nat, len: nat): (r: Option<Bytes>)
    ensures r.Some? ==> |r.value| == len
  {
    if len == 0 then (if n == 0 then Some([]) else None) else
      var r := ToBytes(n / 256, len - 1);
      if r.None? then None else Some(r.value + [n % 256])
  }

  lemma {:induction false} FromBytesBound(bs: Bytes)
    ensures FromBytes(bs) < Pow(256, |bs|)
  {
    if bs != [] {
      FromBytesBound(bs[..|bs| - 1]);
    }
  }

  lemma {:induction false} ToBytesFits(n: nat, len: nat)
    ensures ToBytes(n, len).Some? <==> n < Pow(256, len)
  {
    if len != 0 {
      ToBytesFits(n / 256, len - 1);
    }
  }

  lemma {:induction false} FromToBytes(n: nat, len: nat)
    requires ToBytes(n, len).Some?
    ensures FromBytes(ToBytes(n, len).value) == n
  {
    if len != 0 {
      FromToBytes(n / 256, len - 1);
    }
  }

  lemma {:induction false} ToFromBytes(bs: Bytes)
    ensures ToBytes(FromBytes(bs), |bs|) == Some(bs)
  {
    if bs != [] {
      ToFromBytes(bs[..|bs| - 1]);
      assert bs[..|bs| - 1] + [bs[|bs| - 1]] == bs;
    }
  }

  /** Leading byte nonzero: the number needs all the bytes. */
  lemma {:induction false} LeadingByte(bs: Bytes)
    requires bs != [] && bs[0] > 0
    ensures FromBytes(bs) >= Pow(256, |bs| - 1)
  {
    if |bs| == 1 {
      assert FromBytes(bs[..0]) == 0;
    } else {
      LeadingByte(bs[..|bs| - 1]);
    }
  }

  lemma {:induction false} FromBytesConcat(a: Bytes, b: Bytes)
    ensures FromBytes(a + b) == FromBytes(a) * Pow(256, |b|) + FromBytes(b)
  {
    if b == [] {
      assert a + b == a;
      assert FromBytes(a) * 1 == FromBytes(a);
    } else {
      var front := b[..|b| - 1];
      FromBytesConcat(a, front);
      assert (a + b)[..|a + b| - 1] == a + front;
      assert (FromBytes(a) * Pow(256, |front|)) * 256 == FromBytes(a) * Pow(256, |b|);
    }
  }

  /** Bytes of ones only. */
  function Ones(len: nat): (bs: Bytes)
    ensures |bs| == len
  {
    if len == 0 then [] else Ones(len - 1) + [255]
  }

  lemma {:induction false} FromOnes(len: nat)
    ensures FromBytes(Ones(len)) == Pow(256, len) - 1
  {
    if len > 0 {
      FromOnes(len - 1);
    }
  }

  function BitLength(n: nat): nat {
    if n == 0 then 0 else 1 + BitLength(n / 2)
  }

  /** ceil(bit_length / 8). */
  function ByteLength(n: nat): nat {
    (BitLength(n) + 7) / 8
  }

  lemma {:induction false} BitLengthBound(n: nat, k: nat)
    ensures BitLength(n) <= k <==> n < Pow(2, k)
  {
    PowPositive(2, k);
    if n != 0 && k != 0 {
      BitLengthBound(n / 2, k - 1);
    }
  }

  lemma BitLengthOfPower(k: nat)
    ensures Pow(2, k) > 0 && BitLength(Pow(2, k)) == k + 1
  {
    PowPositive(2, k);
    BitLengthBound(Pow(2, k), k);
    BitLengthBound(Pow(2, k), k + 1);
  }

  lemma {:induction false} PowersOf256(k: nat)
    ensures Pow(256, k) == Pow(2, 8 * k)
  {
    if k != 0 {
      PowersOf256(k - 1);
      assert Pow(2, 8) == 256 by {
        assert Pow(2, 4) == 2 * (2 * (2 * (2 * Pow(2, 0))));
        assert Pow(2, 8) == 2 * (2 * (2 * (2 * Pow(2, 4))));
      }
      PowAdd(2, 8, 8 * (k - 1));
    }
  }

  lemma ByteLengthBound(n: nat, k: nat)
    ensures ByteLength(n) <= k <==> n < Pow(256, k)
  {
    BitLengthBound(n, 8 * k);
    PowersOf256(k);
  }

  /** A byte string with a nonzero leading byte survives the conversion to a number. */
  lemma NonzeroLeadRoundTrip(bs: Bytes)
    requires bs != [] && bs[0] > 0
    ensures ByteLength(FromBytes(bs)) == |bs|
    ensures ToBytes(FromBytes(bs), ByteLength(FromBytes(bs))) == Some(bs)
  {
    FromBytesBound(bs);
    LeadingByte(bs);
    ByteLengthBound(FromBytes(bs), |bs|);
    ByteLengthBound(FromBytes(bs), |bs| - 1);
    ToFromBytes(bs);
  }
}
