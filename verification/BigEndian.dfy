/** 32-bit unsigned integers in big-endian byte order. */
module BigEndian {
  import opened Results

  const MAX_U32: nat := 0xFFFF_FFFF

  function Be32(n: nat): (r: Bytes)
    requires n <= MAX_U32
    ensures |r| == 4
  {
    [(n / 256 / 256 / 256) as byte, (n / 256 / 256 % 256) as byte, (n / 256 % 256) as byte, (n % 256) as byte]
  }

  function FromBe32(b: Bytes): (n: nat)
    requires |b| == 4
    ensures n <= MAX_U32
  {
    ((b[0] as nat * 256 + b[1] as nat) * 256 + b[2] as nat) * 256 + b[3] as nat
  }

  /** The most significant byte comes first. */
  lemma Be32Value(n: nat)
    requires n <= MAX_U32
    ensures var b := Be32(n);
            n == 16777216 * b[0] as nat + 65536 * b[1] as nat + 256 * b[2] as nat + b[3] as nat
  {
  }

  lemma Be32RoundTrip(n: nat)
    requires n <= MAX_U32
    ensures FromBe32(Be32(n)) == n
  {
  }

  /** Distinct blocks of four bytes are distinct words. */
  lemma FromBe32RoundTrip(b: Bytes)
    requires |b| == 4
    ensures Be32(FromBe32(b)) == b
  {
    var hi := (b[0] as nat * 256 + b[1] as nat) * 256 + b[2] as nat;
    assert FromBe32(b) == hi * 256 + b[3] as nat;
    assert FromBe32(b) / 256 == hi && FromBe32(b) % 256 == b[3] as nat;
  }
}
