/** Bytes and big-endian integers, the alphabet of every wire format in the project. */
module Bytes {
  type Byte = b: int | 0 <= b < 0x100
  type Uint32 = n: int | 0 <= n < 0x1_0000_0000

  /** 256 to the power `width`: the number of values `width` bytes can hold. */
  ghost function Capacity(width: nat): (c: nat)
    ensures c > 0
  {
    if width == 0 then 1 else 0x100 * Capacity(width - 1)
  }

  /** The low `width` bytes of `n`, most significant first. */
  function BigEndian(n: nat, width: nat): (bytes: seq<Byte>)
    ensures |bytes| == width
  {
    if width == 0 then [] else BigEndian(n / 0x100, width - 1) + [n % 0x100]
  }

  function Uint(bytes: seq<Byte>): nat {
    if bytes == [] then 0 else Uint(bytes[..|bytes| - 1]) * 0x100 + bytes[|bytes| - 1]
  }

  /** Reading back what was written loses nothing that fits. */
  lemma {:induction false} UintOfBigEndian(n: nat, width: nat)
    requires n < Capacity(width)
    ensures Uint(BigEndian(n, width)) == n
  {
    if width > 0 {
      UintOfBigEndian(n / 0x100, width - 1);
      assert BigEndian(n, width)[..width - 1] == BigEndian(n / 0x100, width - 1);
    }
  }

  /** The representation is canonical: a byte string is the only encoding of the number it denotes. */
  lemma {:induction false} BigEndianOfUint(bytes: seq<Byte>)
    ensures Uint(bytes) < Capacity(|bytes|)
    ensures BigEndian(Uint(bytes), |bytes|) == bytes
  {
    if bytes != [] {
      BigEndianOfUint(bytes[..|bytes| - 1]);
    }
  }

  lemma CapacityOfFields()
    ensures Capacity(2) == 0x1_0000
    ensures Capacity(4) == 0x1_0000_0000
    ensures Capacity(8) == 0x1_0000_0000_0000_0000
  {
    assert Capacity(1) == 0x100 * Capacity(0);
    assert Capacity(2) == 0x100 * Capacity(1);
    assert Capacity(3) == 0x100 * Capacity(2);
    assert Capacity(4) == 0x100 * Capacity(3);
    assert Capacity(5) == 0x100 * Capacity(4);
    assert Capacity(6) == 0x100 * Capacity(5);
    assert Capacity(7) == 0x100 * Capacity(6);
  }

  /** Overwrites a stretch of a buffer, as Go's built-in copy does when the target is long enough. */
  method Copy(target: array<Byte>, at: nat, source: seq<Byte>)
    requires at + |source| <= target.Length
    modifies target
    ensures target[..] == old(target[..at]) + source + old(target[at + |source|..])
  {
    for i := 0 to |source|
      invariant target[..at] == old(target[..at])
      invariant target[at..at + i] == source[..i]
      invariant target[at + i..] == old(target[at + i..])
    {
      target[at + i] := source[i];
    }
    assert target[..] == target[..at] + target[at..at + |source|] + target[at + |source|..];
  }
}
