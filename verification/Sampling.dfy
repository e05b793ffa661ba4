/** Rejection threshold of DerivePassword, over 32-bit words with wrap-around. */
module Sampling {
  import opened Charset

  const MAX32: int := 0xFFFF_FFFF
  const WORDS: int := 0x1_0000_0000

  /** `(^uint32(0) - ^uint32(0) % m) + 1` in uint32 arithmetic. */
  function Threshold(m: nat): nat
    requires 0 < m <= MAX32
  {
    (MAX32 - MAX32 % m + 1) % WORDS
  }

  predicate Accepts(m: nat, v: nat)
    requires 0 < m <= MAX32
  {
    v < Threshold(m)
  }

  /** The 32-bit words accepted and mapped to alphabet index `k`. */
  ghost function Preimages(m: nat, k: nat): set<nat>
    requires 0 < m <= MAX32
  {
    set v: nat | v < WORDS && Accepts(m, v) && v % m == k
  }

  lemma ThresholdValue(m: nat)
    requires 0 < m <= MAX32
    ensures MAX32 % m == 0 ==> Threshold(m) == 0
    ensures MAX32 % m != 0 ==> Threshold(m) == (MAX32 / m) * m + 1 && Threshold(m) <= MAX32
  {
    assert MAX32 == (MAX32 / m) * m + MAX32 % m;
  }

  lemma ModUnique(q: int, m: int, r: int)
    requires 0 <= r < m
    ensures (q * m + r) % m == r
  {
    var x := q * m + r;
    assert x == (x / m) * m + x % m;
    assert (q - x / m) * m == x % m - r;
    NoSmallMultiple(q - x / m, m, x % m - r);
  }

  lemma NoSmallMultiple(d: int, m: int, r: int)
    requires d * m == r && -m < r < m
    ensures d == 0
  {
    assert d >= 1 ==> d * m >= m;
    assert d <= -1 ==> d * m <= -m;
  }

  ghost function Residues(n: nat, m: nat, k: nat): set<nat>
    requires 0 < m
  {
    set v: nat | v < n && v % m == k
  }

  /** In `q` full cycles every residue occurs exactly `q` times. */
  lemma {:induction false} FullCycles(q: nat, m: nat, k: nat)
    requires k < m
    ensures |Residues(q * m, m, k)| == q
  {
    if q == 0 {
      assert Residues(0, m, k) == {};
    } else {
      var p := q - 1;
      assert q * m == p * m + m;
      FullCycles(p, m, k);
      ModUnique(p, m, k);
      var hit: nat := p * m + k;
      forall v: nat | v in Residues(q * m, m, k) ensures v in Residues(p * m, m, k) + {hit} {
        if v >= p * m {
          ModUnique(p, m, v - p * m);
        }
      }
      assert Residues(q * m, m, k) == Residues(p * m, m, k) + {hit};
    }
  }

  /** Exact acceptance count: index 0 has one preimage more than every other index. */
  lemma ExactCount(m: nat, k: nat)
    requires k < m <= MAX32 && MAX32 % m != 0
    ensures |Preimages(m, k)| == MAX32 / m + if k == 0 then 1 else 0
  {
    ThresholdValue(m);
    var q := MAX32 / m;
    FullCycles(q, m, k);
    ModUnique(q, m, 0);
    var top: nat := q * m;
    var cycles := Residues(top, m, k);
    if k == 0 {
      assert Preimages(m, k) == cycles + {top};
    } else {
      assert Preimages(m, k) == cycles;
    }
  }

  /** No word at all is accepted exactly when the alphabet size divides 2^32 - 1. */
  lemma NothingAcceptedIff(m: nat)
    requires 0 < m <= MAX32
    ensures (forall v: nat | v < WORDS :: !Accepts(m, v)) <==> MAX32 % m == 0
  {
    ThresholdValue(m);
    if MAX32 % m != 0 {
      assert Accepts(m, 0);
    }
  }

  /** The sampling is uniform over the indices exactly when it accepts nothing. */
  lemma UniformIff(m: nat)
    requires 0 < m <= MAX32
    ensures (forall k: nat, l: nat | k < m && l < m :: |Preimages(m, k)| == |Preimages(m, l)|)
            <==> MAX32 % m == 0
  {
    ThresholdValue(m);
    if MAX32 % m == 0 {
      forall k: nat, l: nat | k < m && l < m ensures |Preimages(m, k)| == |Preimages(m, l)| {
        assert Preimages(m, k) == {} == Preimages(m, l);
      }
    } else {
      ExactCount(m, 0);
      ExactCount(m, 1);
    }
  }

  /** Among all option combinations only lower-case plus symbols, filtered, gives an alphabet that accepts nothing. */
  lemma StuckAlphabet(o: PasswordOpts)
    ensures 0 < |Alphabet(o)| <= 88
    ensures MAX32 % |Alphabet(o)| == 0 <==> o.noAmbiguous && o.symbols && !o.upper && !o.digits
    ensures MAX32 % |Alphabet(o)| == 0 ==> |Alphabet(o)| == 51
  {
    AlphabetSize(o);
  }

  /** The default alphabet is biased: index 0 is accepted from one more word than index 1. */
  lemma DefaultAlphabetIsBiased(o: PasswordOpts)
    requires o.upper && o.digits && o.symbols && !o.noAmbiguous
    ensures |Preimages(|Alphabet(o)|, 0)| == 48806447 && |Preimages(|Alphabet(o)|, 1)| == 48806446
  {
    AlphabetSize(o);
    ExactCount(88, 0);
    ExactCount(88, 1);
  }
}
