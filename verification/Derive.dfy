/**
 * DerivePassword: rejection sampling over a deterministic key stream with a refill path.
 *
 * The HKDF reader is an arbitrary function from (master key, salt, info) to an endless byte stream, of which at most
 * 255 * 32 bytes may be read (section 2.3 of RFC 5869 with SHA-256).
 */
module Derive {
  import opened Results
  import opened BigEndian
  import opened Charset
  import opened Sampling

  type Hkdf = (Bytes, string, string) -> nat -> byte

  datatype DeriveError = EmptyRealm | TooShort | EmptyAlphabet | HkdfExhausted

  const HKDF_LIMIT: nat := 255 * 32
  const SALT := "gophkeeper-passgen-v1"

  function ReadFull(h: Hkdf, key: Bytes, salt: string, info: string, n: nat): Option<Bytes> {
    if n > HKDF_LIMIT then None else Some(seq(n, i requires i >= 0 => h(key, salt, info)(i)))
  }

  /** The number a text of decimal digits stands for. */
  ghost function ValueOf(d: string): int {
    if d == "" then 0 else 10 * ValueOf(d[..|d| - 1]) + (d[|d| - 1] as int - '0' as int)
  }

  lemma DigitValue(i: nat)
    requires i < 10
    ensures '0' <= DIGITS[i] <= '9' && DIGITS[i] as int == i + '0' as int
  {
  }

  /** `%d`: digits without a leading zero, of that value. */
  function Decimal(n: nat): (d: string)
    ensures ValueOf(d) == n && d != "" && (n > 0 ==> d[0] != '0') && (n == 0 ==> d == "0")
    ensures forall k :: 0 <= k < |d| ==> '0' <= d[k] <= '9'
  {
    DigitValue(n % 10);
    if n < 10 then
      assert ValueOf([DIGITS[n]][..0]) == 0;
      [DIGITS[n]]
    else
      assert (Decimal(n / 10) + [DIGITS[n % 10]])[..|Decimal(n / 10)|] == Decimal(n / 10);
      Decimal(n / 10) + [DIGITS[n % 10]]
  }

  function RefillSalt(i: nat): string { "gophkeeper-passgen-v1-refill-" + Decimal(i) }

  /** Big-endian 32-bit word number `i`. */
  function Word(s: Bytes, i: nat): (v: nat)
    requires 4 * i + 3 < |s|
    ensures v < WORDS
  {
    FromBe32(s[4 * i..4 * i + 4])
  }

  /** An alphabet and the two streams one call reads: the first one, and the one every refill produces. */
  datatype Source = Source(alphabet: string, s0: Bytes, s1: Bytes, len: nat) {
    ghost predicate Valid() { 0 < |alphabet| <= 100 && 0 < len && |s0| == 4 * len == |s1| }

    predicate Hit(s: Bytes, i: nat)
      requires 0 < |alphabet| <= 100 && 4 * i + 3 < |s|
    {
      Accepts(|alphabet|, Word(s, i))
    }

    /** Characters of the accepted words among the first `n` words of `s`. */
    function Chars(s: Bytes, n: nat): string
      requires 0 < |alphabet| <= 100 && 4 * n <= |s|
    {
      if n == 0 then [] else
        Chars(s, n - 1) + if Hit(s, n - 1) then [alphabet[Word(s, n - 1) % |alphabet|]] else []
    }

    function First(): string requires Valid() { Chars(s0, len) }
    function Again(): string requires Valid() { Chars(s1, len) }

    /** Enough accepted words exist: in the first stream alone, or by repeating the second. */
    predicate Productive() requires Valid() { |First()| >= len || |Again()| > 0 }

    /** Character number `k` of the endless text First ++ Again ++ Again ++ ... */
    ghost function Endless(k: nat): char
      requires Valid() && (k < |First()| || |Again()| > 0)
    {
      if k < |First()| then First()[k] else Again()[(k - |First()|) % |Again()|]
    }
  }

  /** Loop variables: which stream is current (0 is the first, n > 0 the n-th refill), the word index, the result. */
  datatype Loop = Loop(lap: nat, i: nat, result: string)

  function Current(c: Source, lap: nat): Bytes { if lap == 0 then c.s0 else c.s1 }

  /** One iteration of the sampling loop, including the index increment. */
  function Iterate(c: Source, st: Loop): (next: Loop)
    requires c.Valid() && st.i <= c.len
    ensures next.i <= c.len
  {
    var refill := 4 * st.i + 3 >= |Current(c, st.lap)|;
    var lap := if refill then st.lap + 1 else st.lap;
    var i := if refill then 0 else st.i;
    var s := Current(c, lap);
    Loop(lap, i + 1,
         if c.Hit(s, i) then st.result + [c.alphabet[Word(s, i) % |c.alphabet|]] else st.result)
  }

  function Iterations(c: Source, n: nat): (st: Loop)
    requires c.Valid()
    ensures st.i <= c.len
  {
    if n == 0 then Loop(0, 0, []) else Iterate(c, Iterations(c, n - 1))
  }

  /** Everything collected from the streams that are already used up. */
  ghost function Passed(c: Source, lap: nat): string
    requires c.Valid()
  {
    if lap == 0 then [] else Passed(c, lap - 1) + c.Chars(Current(c, lap - 1), c.len)
  }

  ghost predicate Inv(c: Source, st: Loop)
    requires c.Valid()
  {
    st.i <= c.len && st.result == Passed(c, st.lap) + c.Chars(Current(c, st.lap), st.i)
  }

  /** Looking at word `i` of the current stream keeps the invariant. */
  lemma AdvanceInv(c: Source, st: Loop)
    requires c.Valid() && Inv(c, st) && st.i < c.len
    ensures Inv(c, Iterate(c, st))
  {
    hide Word, Passed, Threshold, Accepts;
    var s := Current(c, st.lap);
    assert c.Chars(s, st.i + 1) ==
           c.Chars(s, st.i) + if c.Hit(s, st.i) then [c.alphabet[Word(s, st.i) % |c.alphabet|]] else [];
  }

  /** A used-up stream is replaced by the next one, which has given nothing yet. */
  lemma RefillInv(c: Source, st: Loop)
    requires c.Valid() && Inv(c, st) && st.i == c.len
    ensures var again := Loop(st.lap + 1, 0, st.result);
            Inv(c, again) && Iterate(c, again) == Iterate(c, st)
  {
    hide Word, Threshold, Accepts;
    assert c.Chars(c.s1, 0) == [];
  }

  lemma IterateInv(c: Source, st: Loop)
    requires c.Valid() && Inv(c, st)
    ensures Inv(c, Iterate(c, st))
  {
    assert st.i <= c.len;
    hide Inv, Iterate;
    if st.i < c.len {
      AdvanceInv(c, st);
    } else {
      RefillInv(c, st);
      AdvanceInv(c, Loop(st.lap + 1, 0, st.result));
    }
  }

  lemma {:induction false} PassedLength(c: Source, lap: nat)
    requires c.Valid() && lap > 0
    ensures |Passed(c, lap)| == |c.First()| + (lap - 1) * |c.Again()|
  {
    if lap > 1 {
      PassedLength(c, lap - 1);
      assert (lap - 1) * |c.Again()| == (lap - 2) * |c.Again()| + |c.Again()|;
    } else {
      assert Passed(c, 0) == [];
    }
  }

  lemma {:induction false} CharsPrefix(c: Source, s: Bytes, n: nat, k: nat)
    requires 0 < |c.alphabet| <= 100 && n <= k && 4 * k <= |s|
    ensures c.Chars(s, n) <= c.Chars(s, k)
  {
    if n < k {
      CharsPrefix(c, s, n, k - 1);
    }
  }

  /** What has been collected so far is always a prefix of the endless text. */
  lemma {:induction false} CollectedMeaning(c: Source, lap: nat, i: nat, k: nat)
    requires c.Valid() && i <= c.len && k < |Passed(c, lap)| + |c.Chars(Current(c, lap), i)|
    ensures k < |c.First()| || |c.Again()| > 0
    ensures (Passed(c, lap) + c.Chars(Current(c, lap), i))[k] == c.Endless(k)
    decreases lap
  {
    hide Word, Threshold, Accepts, Source.Chars;
    CharsPrefix(c, Current(c, lap), i, c.len);
    if k < |Passed(c, lap)| {
      CollectedMeaning(c, lap - 1, c.len, k);
    } else if lap > 0 {
      PassedLength(c, lap);
      var r := k - |Passed(c, lap)|;
      ModUnique(lap - 1, |c.Again()|, r);
    }
  }

  /** Index of the first accepted word at or after `i`, or `len` if there is none. */
  ghost function NextHit(c: Source, s: Bytes, i: nat): (j: nat)
    requires c.Valid() && |s| == 4 * c.len && i <= c.len
    ensures i <= j <= c.len && (j < c.len ==> c.Hit(s, j))
    decreases c.len - i
  {
    if i == c.len || c.Hit(s, i) then i else NextHit(c, s, i + 1)
  }

  /** Iterations left before the next character, assuming the second stream holds an accepted word. */
  ghost function Wait(c: Source, st: Loop): nat
    requires c.Valid() && st.i <= c.len
  {
    var j := NextHit(c, Current(c, st.lap), st.i);
    if j < c.len then j - st.i else c.len - st.i + NextHit(c, c.s1, 0) + 1
  }

  lemma {:induction false} NoHitNoChars(c: Source, s: Bytes, i: nat)
    requires c.Valid() && |s| == 4 * c.len && i <= c.len && NextHit(c, s, i) == c.len
    ensures c.Chars(s, c.len) == c.Chars(s, i)
    decreases c.len - i
  {
    if i < c.len {
      NoHitNoChars(c, s, i + 1);
    }
  }

  /** Every iteration of an unfinished productive loop adds a character or comes closer to the next one. */
  lemma IterateProgress(c: Source, st: Loop)
    requires c.Valid() && c.Productive() && Inv(c, st) && |st.result| < c.len
    ensures var next := Iterate(c, st);
            |next.result| == |st.result| + 1 || (next.result == st.result && Wait(c, next) < Wait(c, st))
  {
    hide Word, Threshold, Accepts, Passed;
    if |c.Again()| == 0 {
      CollectedBound(c, st);
      if NextHit(c, c.s0, st.i) == c.len {
        NoHitNoChars(c, c.s0, st.i);
      }
    } else if NextHit(c, c.s1, 0) == c.len {
      NoHitNoChars(c, c.s1, 0);
    }
  }

  lemma CollectedBound(c: Source, st: Loop)
    requires c.Valid() && Inv(c, st) && |c.Again()| == 0
    ensures |st.result| <= |c.First()|
    ensures |st.result| < |c.First()| ==> st.lap == 0
    ensures st.lap > 0 ==> st.result == c.First()
  {
    CharsPrefix(c, Current(c, st.lap), st.i, c.len);
    if st.lap > 0 {
      PassedLength(c, st.lap);
      assert Passed(c, st.lap) == c.First() by { PassedSame(c, st.lap); }
    }
  }

  lemma {:induction false} PassedSame(c: Source, lap: nat)
    requires c.Valid() && |c.Again()| == 0 && lap > 0
    ensures Passed(c, lap) == c.First()
  {
    if lap > 1 {
      PassedSame(c, lap - 1);
    } else {
      assert Passed(c, 0) == [];
    }
  }

  lemma {:induction false} IterationsInv(c: Source, n: nat)
    requires c.Valid()
    ensures Inv(c, Iterations(c, n))
  {
    hide Word, Threshold, Accepts;
    if n > 0 {
      IterationsInv(c, n - 1);
      IterateInv(c, Iterations(c, n - 1));
    }
  }

  lemma {:induction false} Finishes(c: Source, n: nat) returns (k: nat)
    requires c.Valid() && c.Productive()
    ensures |Iterations(c, k).result| >= c.len
    decreases c.len - |Iterations(c, n).result|, Wait(c, Iterations(c, n))
  {
    var st := Iterations(c, n);
    if |st.result| >= c.len {
      k := n;
    } else {
      IterationsInv(c, n);
      IterateProgress(c, st);
      assert Iterations(c, n + 1) == Iterate(c, st);
      k := Finishes(c, n + 1);
    }
  }

  ghost predicate Terminates(c: Source)
    requires c.Valid()
  {
    exists n: nat :: |Iterations(c, n).result| >= c.len
  }

  /** The sampling loop terminates exactly when the streams hold enough accepted words. */
  lemma TerminatesIff(c: Source)
    requires c.Valid()
    ensures Terminates(c) <==> c.Productive()
  {
    if c.Productive() {
      var n := Finishes(c, 0);
    } else {
      forall n: nat ensures |Iterations(c, n).result| < c.len {
        IterationsInv(c, n);
        CollectedBound(c, Iterations(c, n));
      }
    }
  }

  lemma {:induction false} NoChars(c: Source, s: Bytes, n: nat)
    requires 0 < |c.alphabet| <= 100 && MAX32 % |c.alphabet| == 0 && 4 * n <= |s|
    ensures c.Chars(s, n) == []
  {
    if n > 0 {
      NoChars(c, s, n - 1);
      ThresholdValue(|c.alphabet|);
    }
  }

  datatype DeriveOpts = DeriveOpts(realm: string, length: int, classes: PasswordOpts)

  /** The bytes are the beginning of the HKDF output for that key, salt and info. */
  ghost predicate IsOutput(s: Bytes, h: Hkdf, key: Bytes, salt: string, info: string) {
    forall j :: 0 <= j < |s| ==> s[j] == h(key, salt, info)(j)
  }

  function StreamSource(h: Hkdf, key: Bytes, o: DeriveOpts): (c: Source)
    requires 4 <= o.length && 4 * o.length <= HKDF_LIMIT
    ensures c.Valid() && c.len == o.length && c.alphabet == Alphabet(o.classes)
    ensures IsOutput(c.s0, h, key, "gophkeeper-passgen-v1", o.realm)
    ensures IsOutput(c.s1, h, key, "gophkeeper-passgen-v1-refill-" + Decimal(o.length), o.realm)
  {
    StuckAlphabet(o.classes);
    Source(Alphabet(o.classes),
           ReadFull(h, key, SALT, o.realm, 4 * o.length).value,
           ReadFull(h, key, RefillSalt(o.length), o.realm, 4 * o.length).value,
           o.length)
  }

  /** Lower case plus symbols without ambiguous characters: no key, realm or length ever yields a password. */
  lemma StuckForever(h: Hkdf, key: Bytes, o: DeriveOpts)
    requires 4 <= o.length && 4 * o.length <= HKDF_LIMIT
    requires o.classes.noAmbiguous && o.classes.symbols && !o.classes.upper && !o.classes.digits
    ensures !Terminates(StreamSource(h, key, o))
  {
    var c := StreamSource(h, key, o);
    StuckAlphabet(o.classes);
    NoChars(c, c.s0, c.len);
    NoChars(c, c.s1, c.len);
    TerminatesIff(c);
  }

  predicate Admissible(o: DeriveOpts) { o.realm != "" && 4 <= o.length && 4 * o.length <= HKDF_LIMIT }

  /** The text `r` is the beginning of First ++ Again ++ Again ++ ... */
  ghost predicate Begins(c: Source, r: string)
    requires c.Valid()
  {
    forall k: nat :: k < |r| ==> IsEndless(c, k, r[k])
  }

  ghost predicate IsEndless(c: Source, k: nat, ch: char)
    requires c.Valid()
  {
    (k < |c.First()| || |c.Again()| > 0) && ch == c.Endless(k)
  }

  lemma ResultBegins(c: Source, st: Loop)
    requires c.Valid() && Inv(c, st)
    ensures Begins(c, st.result)
  {
    forall k: nat | k < |st.result| ensures IsEndless(c, k, st.result[k]) {
      CollectedMeaning(c, st.lap, st.i, k);
    }
  }

  // The result in terms of the HKDF output alone.

  /** Word number `i`, most significant byte first. */
  ghost function KeyWord(h: Hkdf, key: Bytes, salt: string, info: string, i: nat): nat {
    var s := h(key, salt, info);
    ((s(4 * i) as nat * 256 + s(4 * i + 1) as nat) * 256 + s(4 * i + 2) as nat) * 256 + s(4 * i + 3) as nat
  }

  /** The words among the first `n` that are below the threshold for `m` characters. */
  ghost function KeptWords(h: Hkdf, key: Bytes, salt: string, info: string, m: nat, n: nat): seq<nat>
    requires m > 0
  {
    if n == 0 then [] else
      var v := KeyWord(h, key, salt, info, n - 1);
      KeptWords(h, key, salt, info, m, n - 1) +
      if v < (0xFFFF_FFFF - 0xFFFF_FFFF % m + 1) % 0x1_0000_0000 then [v] else []
  }

  ghost function FirstWords(h: Hkdf, key: Bytes, o: DeriveOpts): seq<nat>
    requires o.length >= 0 && Alphabet(o.classes) != []
  {
    KeptWords(h, key, "gophkeeper-passgen-v1", o.realm, |Alphabet(o.classes)|, o.length)
  }

  ghost function RefillWords(h: Hkdf, key: Bytes, o: DeriveOpts): seq<nat>
    requires o.length >= 0 && Alphabet(o.classes) != []
  {
    KeptWords(h, key, "gophkeeper-passgen-v1-refill-" + Decimal(o.length), o.realm, |Alphabet(o.classes)|, o.length)
  }

  /** Character `k` is picked by word `k` of `a` ++ `b` ++ `b` ++ ... */
  ghost predicate Spells(alphabet: string, a: seq<nat>, b: seq<nat>, text: string)
    requires alphabet != []
  {
    forall k: nat :: k < |text| ==> SpelledAt(alphabet, a, b, text[k], k)
  }

  ghost predicate SpelledAt(alphabet: string, a: seq<nat>, b: seq<nat>, ch: char, k: nat)
    requires alphabet != []
  {
    && (k < |a| || |b| > 0)
    && ch == alphabet[(if k < |a| then a[k] else b[(k - |a|) % |b|]) % |alphabet|]
  }

  lemma WordOfOutput(s: Bytes, h: Hkdf, key: Bytes, salt: string, info: string, i: nat)
    requires IsOutput(s, h, key, salt, info) && 4 * i + 3 < |s|
    ensures Word(s, i) == KeyWord(h, key, salt, info, i)
  {
  }

  /** The characters are picked by the words, one by one. */
  ghost predicate Picks(alphabet: string, words: seq<nat>, chars: string)
    requires alphabet != []
  {
    |chars| == |words| && forall k :: 0 <= k < |words| ==> chars[k] == alphabet[words[k] % |alphabet|]
  }

  lemma {:induction false} CharsPicked(c: Source, s: Bytes, h: Hkdf, key: Bytes, salt: string, info: string, n: nat)
    requires 0 < |c.alphabet| <= 100 && 4 * n <= |s| && IsOutput(s, h, key, salt, info)
    ensures Picks(c.alphabet, KeptWords(h, key, salt, info, |c.alphabet|, n), c.Chars(s, n))
  {
    hide Word, KeyWord;
    if n > 0 {
      CharsPicked(c, s, h, key, salt, info, n - 1);
      WordOfOutput(s, h, key, salt, info, n - 1);
    }
  }

  lemma SourcePicked(h: Hkdf, key: Bytes, o: DeriveOpts)
    requires 4 <= o.length && 4 * o.length <= HKDF_LIMIT
    ensures var c := StreamSource(h, key, o);
            && Picks(c.alphabet, FirstWords(h, key, o), c.First())
            && Picks(c.alphabet, RefillWords(h, key, o), c.Again())
  {
    var c := StreamSource(h, key, o);
    hide StreamSource, Source.Chars, KeptWords, Alphabet, Decimal, Picks;
    CharsPicked(c, c.s0, h, key, "gophkeeper-passgen-v1", o.realm, o.length);
    CharsPicked(c, c.s1, h, key, "gophkeeper-passgen-v1-refill-" + Decimal(o.length), o.realm, o.length);
  }

  lemma EndlessPicked(alphabet: string, a: seq<nat>, b: seq<nat>, first: string, again: string, k: nat)
    requires alphabet != [] && Picks(alphabet, a, first) && Picks(alphabet, b, again) && (k < |first| || |again| > 0)
    ensures SpelledAt(alphabet, a, b, if k < |first| then first[k] else again[(k - |first|) % |again|], k)
  {
  }

  lemma BeginsSpelled(c: Source, a: seq<nat>, b: seq<nat>, text: string)
    requires c.Valid() && Picks(c.alphabet, a, c.First()) && Picks(c.alphabet, b, c.Again()) && Begins(c, text)
    ensures Spells(c.alphabet, a, b, text)
  {
    hide Source.First, Source.Again, Picks, SpelledAt;
    forall k: nat | k < |text| ensures SpelledAt(c.alphabet, a, b, text[k], k) {
      assert IsEndless(c, k, text[k]);
      EndlessPicked(c.alphabet, a, b, c.First(), c.Again(), k);
    }
  }

  /** Some patience is enough exactly if the first words suffice or there is a refill word to repeat. */
  lemma EndsIff(h: Hkdf, key: Bytes, o: DeriveOpts)
    requires Admissible(o)
    ensures Alphabet(o.classes) != []
    ensures Terminates(StreamSource(h, key, o)) <==>
            |FirstWords(h, key, o)| >= o.length || |RefillWords(h, key, o)| > 0
  {
    SourcePicked(h, key, o);
    TerminatesIff(StreamSource(h, key, o));
    hide StreamSource, Source.First, Source.Again, FirstWords, RefillWords, Alphabet, Terminates;
  }

  /** Both reads succeed and the loop starts with nothing collected. */
  lemma Streams(h: Hkdf, key: Bytes, o: DeriveOpts)
    requires 4 <= o.length && 4 * o.length <= HKDF_LIMIT
    ensures var c := StreamSource(h, key, o);
            && c.alphabet == Alphabet(o.classes)
            && ReadFull(h, key, SALT, o.realm, 4 * o.length) == Some(c.s0)
            && ReadFull(h, key, RefillSalt(o.length), o.realm, 4 * o.length) == Some(c.s1)
            && Inv(c, Loop(0, 0, ""))
  {
  }

  /** An iteration in the loop's own variables: the stream in use, the index looked at and the word found there. */
  lemma IterateAs(c: Source, st: Loop, lap: nat, i: nat, v: nat)
    requires c.Valid() && st.i <= c.len
    requires (lap, i) == if st.i < c.len then (st.lap, st.i) else (st.lap + 1, 0)
    requires v == Word(Current(c, lap), i)
    ensures Iterate(c, st) ==
            Loop(lap, i + 1,
                 if v < Threshold(|c.alphabet|) then st.result + [c.alphabet[v % |c.alphabet|]] else st.result)
  {
  }

  lemma IterateGrows(c: Source, st: Loop)
    requires c.Valid() && st.i <= c.len
    ensures |Iterate(c, st).result| >= |st.result|
  {
    hide Word, Accepts;
  }

  lemma {:induction false} IterationsGrow(c: Source, n: nat, k: nat)
    requires c.Valid() && n <= k
    ensures |Iterations(c, n).result| <= |Iterations(c, k).result|
  {
    hide Iterate, Source.Valid;
    if n < k {
      IterationsGrow(c, n, k - 1);
      IterateGrows(c, Iterations(c, k - 1));
    }
  }

  /**
   * The sampling loop, watched for `patience` iterations; None means that it is still running. Every refill happens at
   * word index `length`, and therefore with the same salt.
   */
  method Sample(h: Hkdf, key: Bytes, o: DeriveOpts, charset: string, patience: nat)
    returns (r: Option<Result<string, DeriveError>>)
    requires Admissible(o) && charset == Alphabet(o.classes)
    ensures r.None? <==> |Iterations(StreamSource(h, key, o), patience).result| < o.length
    ensures r.Some? ==> r.value.Ok? && |r.value.value| == o.length && Begins(StreamSource(h, key, o), r.value.value)
  {
    hide StreamSource, ReadFull, RefillSalt, Alphabet, Word, Threshold, Inv, Iterate, Begins;
    ghost var c := StreamSource(h, key, o);
    ghost var lap := 0;
    Streams(h, key, o);
    var first := ReadFull(h, key, SALT, o.realm, 4 * o.length);
    if first.None? { return Some(Err(HkdfExhausted)); }
    var stream := first.value;
    var result := "";
    var i := 0;
    var n := 0;
    while |result| < o.length && n < patience
      invariant 0 <= i <= o.length && n <= patience && |result| <= o.length
      invariant Iterations(c, n) == Loop(lap, i, result)
      invariant stream == Current(c, lap)
    {
      ghost var before := Loop(lap, i, result);
      if i * 4 + 3 >= |stream| {
        var again := ReadFull(h, key, RefillSalt(i), o.realm, 4 * o.length);
        if again.None? { return Some(Err(HkdfExhausted)); }
        stream, i, lap := again.value, 0, lap + 1;
      }
      var v := Word(stream, i);
      if v < Threshold(|charset|) {
        result := result + [charset[v % |charset|]];
      }
      i, n := i + 1, n + 1;
      IterateAs(c, before, lap, i - 1, v);
      assert Iterations(c, n) == Iterate(c, before);
    }
    IterationsGrow(c, n, patience);
    if |result| < o.length { return None; }
    IterationsInv(c, n);
    ResultBegins(c, Loop(lap, i, result));
    r := Some(Ok(result));
  }

  /**
   * The result is spelled by the accepted words of the first HKDF output and then, over and over, of the refill output.
   * Whether some patience is enough is EndsIff.
   */
  method DerivePassword(h: Hkdf, key: Bytes, o: DeriveOpts, patience: nat)
    returns (r: Option<Result<string, DeriveError>>)
    ensures Alphabet(o.classes) != []
    ensures o.realm == "" ==> r == Some(Err(EmptyRealm))
    ensures o.realm != "" && o.length < 4 ==> r == Some(Err(TooShort))
    ensures o.realm != "" && 4 <= o.length && 4 * o.length > 8160 ==> r == Some(Err(HkdfExhausted))
    ensures o.realm != "" && 4 <= o.length && 4 * o.length <= 8160 ==>
              && (r.None? <==> |Iterations(StreamSource(h, key, o), patience).result| < o.length)
              && (r.Some? ==>
                    && r.value.Ok? && |r.value.value| == o.length
                    && Spells(Alphabet(o.classes), FirstWords(h, key, o), RefillWords(h, key, o), r.value.value))
  {
    StuckAlphabet(o.classes);
    hide StreamSource, FirstWords, RefillWords, Begins, Spells, Picks, Iterations, Alphabet;
    if o.realm == "" { return Some(Err(EmptyRealm)); }
    if o.length < 4 { return Some(Err(TooShort)); }
    var charset := BuildAlphabet(o.classes);
    if |charset| == 0 { return Some(Err(EmptyAlphabet)); }
    if 4 * o.length > HKDF_LIMIT { return Some(Err(HkdfExhausted)); }
    r := Sample(h, key, o, charset, patience);
    if r.Some? {
      SourcePicked(h, key, o);
      BeginsSpelled(StreamSource(h, key, o), FirstWords(h, key, o), RefillWords(h, key, o), r.value.value);
    }
  }
}
