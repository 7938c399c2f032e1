/** The 8-bit frame checksum (src/util.rs). */
module Util {
  import opened Bytes

  /** The plain, unbounded sum of the bytes: the reference the checksum is measured against. */
  function ByteSum(s: seq<u8>): nat
  {
    if s == [] then 0 else s[0] + ByteSum(s[1..])
  }

  /** The checksum as a value: the byte sum wrapped into one byte. */
  function WrappingSum(s: seq<u8>): u8
  {
    ByteSum(s) % 256
  }

  lemma {:induction false} ByteSumSnoc(s: seq<u8>, x: u8)
    ensures ByteSum(s + [x]) == ByteSum(s) + x
  {
    if s != [] {
      assert (s + [x])[1..] == s[1..] + [x];
      ByteSumSnoc(s[1..], x);
    }
  }

  lemma {:induction false} ByteSumConcat(a: seq<u8>, b: seq<u8>)
    ensures ByteSum(a + b) == ByteSum(a) + ByteSum(b)
  {
    if a == [] {
      assert a + b == b;
    } else {
      assert (a + b)[1..] == a[1..] + b;
      ByteSumConcat(a[1..], b);
    }
  }

  /** One step of the accumulator loop: adding a byte wraps around modulo 256. */
  lemma ChecksumSnoc(s: seq<u8>, x: u8)
    ensures WrappingSum(s + [x]) == (WrappingSum(s) + x) % 256
  {
    ByteSumSnoc(s, x);
  }

  /** The checksum of a concatenation is the wrapped sum of the parts' checksums. */
  lemma ChecksumConcat(a: seq<u8>, b: seq<u8>)
    ensures WrappingSum(a + b) == (WrappingSum(a) + WrappingSum(b)) % 256
  {
    ByteSumConcat(a, b);
    WrapAdd(ByteSum(a), ByteSum(b));
  }

  /** Reducing the addends first does not change a sum modulo 256. */
  lemma WrapAdd(x: nat, y: nat)
    ensures (x + y) % 256 == (x % 256 + y % 256) % 256
  {
    assert x + y == 256 * (x / 256 + y / 256) + (x % 256 + y % 256);
  }

  lemma ChecksumEmpty()
    ensures WrappingSum([]) == 0
  {
  }

  /** Overflow wraps: 0xFF + 0x02 gives 0x01, not a saturated 0xFF. */
  lemma ChecksumWraps()
    ensures WrappingSum([0xFF, 0x02]) == 0x01
  {
  }

  /** The checksum of the badge-info request body shown beside the frame layout. */
  lemma ChecksumExample()
    ensures WrappingSum([0x62, 0xC6, 0x01, 0x00, 0x01]) == 0x2A
  {
  }

  /** `checksum`: folds `wrapping_add` over the bytes, starting from zero. */
  method Checksum(data: seq<u8>) returns (value: u8)
    ensures value == WrappingSum(data)
  {
    value := 0;
    for i := 0 to |data|
      invariant value == WrappingSum(data[..i])
    {
      assert data[..i + 1] == data[..i] + [data[i]];
      ChecksumSnoc(data[..i], data[i]);
      value := (value + data[i]) % 256;
    }
    assert data[..|data|] == data;
  }
}
