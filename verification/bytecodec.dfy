/** Bytes and the big-endian unsigned 32-bit field (`struct.pack('>I', n)`). */
module ByteCodec {

  /** An unsigned 8-bit value, as Python's `bytes` stores it. */
  type Byte = b: int | 0 <= b < 256

  type Bytes = seq<Byte>

  /** One past the largest value a `'>I'` field can hold. */
  const U32Limit: int := 0x1_0000_0000

  /** True when every element of `s` fits in a byte (what `bytes(list)` demands). */
  predicate AllBytes(s: seq<int>)
  {
    forall i :: 0 <= i < |s| ==> 0 <= s[i] < 256
  }

  /** Reads a list of ints that are all bytes as a byte sequence. */
  function ToBytes(s: seq<int>): (r: Bytes)
    requires AllBytes(s)
    ensures |r| == |s|
    ensures forall i :: 0 <= i < |s| ==> r[i] == s[i]
  {
    s
  }

  /** The four bytes of `n`, most significant first. */
  function BE32(n: int): (r: Bytes)
    requires 0 <= n < U32Limit
    ensures |r| == 4
  {
    [n / 0x100_0000, (n / 0x1_0000) % 0x100, (n / 0x100) % 0x100, n % 0x100]
  }

  /** The number four big-endian bytes stand for. */
  function FromBE32(b: Bytes): (n: int)
    requires |b| == 4
    ensures 0 <= n < U32Limit
  {
    ((b[0] as int * 0x100 + b[1]) * 0x100 + b[2]) * 0x100 + b[3]
  }

  lemma DivModStep(q: int, r: int)
    requires 0 <= r < 0x100
    ensures (q * 0x100 + r) / 0x100 == q
    ensures (q * 0x100 + r) % 0x100 == r
  {
  }

  /** Decoding an encoded field gives the number back. */
  lemma {:induction false} FromBE32OfBE32(n: int)
    requires 0 <= n < U32Limit
    ensures FromBE32(BE32(n)) == n
  {
    var n1 := n / 0x100;
    var n2 := n1 / 0x100;
    assert n / 0x1_0000 == n2;
    assert n / 0x100_0000 == n2 / 0x100;
    assert n2 == (n2 / 0x100) * 0x100 + n2 % 0x100;
    assert n1 == n2 * 0x100 + n1 % 0x100;
    assert n == n1 * 0x100 + n % 0x100;
  }

  /** Encoding a decoded field gives the four bytes back. */
  lemma {:induction false} BE32OfFromBE32(b: Bytes)
    requires |b| == 4
    ensures BE32(FromBE32(b)) == b
  {
    var n2: int := b[0] as int * 0x100 + b[1];
    var n1: int := n2 * 0x100 + b[2];
    var n: int := n1 * 0x100 + b[3];
    DivModStep(n1, b[3]);
    DivModStep(n2, b[2]);
    DivModStep(b[0], b[1]);
    assert n / 0x1_0000 == n2;
    assert n / 0x100_0000 == b[0];
  }

  /** Two numbers with the same encoding are equal. */
  lemma BE32Injective(m: int, n: int)
    requires 0 <= m < U32Limit && 0 <= n < U32Limit
    requires BE32(m) == BE32(n)
    ensures m == n
  {
    FromBE32OfBE32(m);
    FromBE32OfBE32(n);
  }
}
