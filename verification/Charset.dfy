/** Character classes and the ambiguity filter of the password generators. */
module Charset {
  const LOWER := "abcdefghijklmnopqrstuvwxyz"
  const UPPER := "ABCDEFGHIJKLMNOPQRSTUVWXYZ"
  const DIGITS := "0123456789"
  const SYMBOLS := "!@#$%^&*()-_=+[]{}|;:,.<>?"

  /** Membership in the excluded characters "l1IO0". */
  predicate Ambiguous(c: char) { c == 'l' || c == '1' || c == 'I' || c == 'O' || c == '0' }

  datatype PasswordOpts = PasswordOpts(length: int, upper: bool, digits: bool, symbols: bool, noAmbiguous: bool)

  /** The characters of `s` that survive the ambiguity filter, in order. */
  function Kept(s: string): string {
    if s == [] then [] else
      var last := s[|s| - 1];
      Kept(s[..|s| - 1]) + if Ambiguous(last) then [] else [last]
  }

  lemma {:induction false} KeptMembers(s: string, c: char)
    ensures c in Kept(s) <==> c in s && !Ambiguous(c)
  {
    if s != [] {
      KeptMembers(s[..|s| - 1], c);
      assert s == s[..|s| - 1] + [s[|s| - 1]];
    }
  }

  /** Concatenated alphabet before filtering. */
  function Raw(o: PasswordOpts): string {
    LOWER + (if o.upper then UPPER else []) + (if o.digits then DIGITS else []) + (if o.symbols then SYMBOLS else [])
  }

  function Filtered(o: PasswordOpts, s: string): string {
    if o.noAmbiguous then Kept(s) else s
  }

  function Alphabet(o: PasswordOpts): string { Filtered(o, Raw(o)) }

  method FilterAmbiguous(s: string) returns (r: string)
    ensures r == Kept(s)
  {
    r := "";
    for i := 0 to |s|
      invariant r == Kept(s[..i])
    {
      assert s[..i + 1][..i] == s[..i];
      if !Ambiguous(s[i]) {
        r := r + [s[i]];
      }
    }
    assert s[..|s|] == s;
  }

  method BuildAlphabet(o: PasswordOpts) returns (charset: string)
    ensures charset == Alphabet(o)
  {
    charset := LOWER;
    if o.upper { charset := charset + UPPER; }
    if o.digits { charset := charset + DIGITS; }
    if o.symbols { charset := charset + SYMBOLS; }
    assert charset == Raw(o);
    if o.noAmbiguous {
      charset := FilterAmbiguous(charset);
    }
  }

  lemma {:induction false} KeptConcat(a: string, b: string)
    ensures Kept(a + b) == Kept(a) + Kept(b)
  {
    if b == [] {
      assert a + b == a;
    } else {
      assert (a + b)[..|a + b| - 1] == a + b[..|b| - 1];
      KeptConcat(a, b[..|b| - 1]);
    }
  }

  lemma {:induction false} KeptAll(s: string)
    requires forall i :: 0 <= i < |s| ==> !Ambiguous(s[i])
    ensures Kept(s) == s
  {
    if s != [] {
      KeptAll(s[..|s| - 1]);
      assert s == s[..|s| - 1] + [s[|s| - 1]];
    }
  }

  /** Filtering a class splits at an ambiguous character. */
  lemma KeptAround(a: string, x: char, b: string)
    requires Ambiguous(x)
    ensures Kept(a + [x] + b) == Kept(a) + Kept(b)
  {
    assert Kept(a + [x]) == Kept(a) by { assert (a + [x])[..|a|] == a; }
    hide Kept;
    KeptConcat(a + [x], b);
  }

  ghost predicate Clean(s: string) { forall i :: 0 <= i < |s| ==> !Ambiguous(s[i]) }

  lemma DropsOne(s: string, a: string, x: char, b: string)
    requires s == a + [x] + b && Ambiguous(x) && Clean(a) && Clean(b)
    ensures Kept(s) == a + b
  {
    KeptAround(a, x, b);
    KeptAll(a);
    KeptAll(b);
  }

  lemma DropsTwo(s: string, a: string, x: char, b: string, y: char, c: string)
    requires s == a + [x] + b + [y] + c && Ambiguous(x) && Ambiguous(y) && Clean(a) && Clean(b) && Clean(c)
    ensures Kept(s) == a + b + c
  {
    KeptAround(a + [x] + b, y, c);
    KeptAround(a, x, b);
    KeptAll(a);
    KeptAll(b);
    KeptAll(c);
  }

  lemma KeptLower()
    ensures Kept(LOWER) == "abcdefghijkmnopqrstuvwxyz"
  {
    hide Kept;
    assert "abcdefghijk" + ['l'] + "mnopqrstuvwxyz" == LOWER;
    DropsOne(LOWER, "abcdefghijk", 'l', "mnopqrstuvwxyz");
    assert "abcdefghijk" + "mnopqrstuvwxyz" == "abcdefghijkmnopqrstuvwxyz";
  }

  lemma KeptUpper()
    ensures Kept(UPPER) == "ABCDEFGHJKLMNPQRSTUVWXYZ"
  {
    hide Kept;
    assert "ABCDEFGH" + ['I'] + "JKLMN" + ['O'] + "PQRSTUVWXYZ" == UPPER;
    DropsTwo(UPPER, "ABCDEFGH", 'I', "JKLMN", 'O', "PQRSTUVWXYZ");
    assert "ABCDEFGH" + "JKLMN" + "PQRSTUVWXYZ" == "ABCDEFGHJKLMNPQRSTUVWXYZ";
  }

  lemma KeptDigits()
    ensures Kept(DIGITS) == "23456789"
  {
    hide Kept;
    DropsTwo(DIGITS, "", '0', "", '1', "23456789");
  }

  lemma ClassSizes()
    ensures |Kept(LOWER)| == 25 && |Kept(UPPER)| == 24 && |Kept(DIGITS)| == 8 && |Kept(SYMBOLS)| == 26
  {
    KeptLower();
    KeptUpper();
    KeptDigits();
    KeptAll(SYMBOLS);
  }

  lemma KeptSum(a: string, b: string, c: string, d: string)
    ensures Kept(a + b + c + d) == Kept(a) + Kept(b) + Kept(c) + Kept(d)
  {
    KeptConcat(a + b + c, d);
    KeptConcat(a + b, c);
    KeptConcat(a, b);
  }

  /** The alphabet, spelled out. */
  lemma AlphabetText(o: PasswordOpts)
    ensures Alphabet(o) ==
            (if o.noAmbiguous then "abcdefghijkmnopqrstuvwxyz" else "abcdefghijklmnopqrstuvwxyz")
            + (if !o.upper then ""
               else if o.noAmbiguous then "ABCDEFGHJKLMNPQRSTUVWXYZ" else "ABCDEFGHIJKLMNOPQRSTUVWXYZ")
            + (if !o.digits then "" else if o.noAmbiguous then "23456789" else "0123456789")
            + (if o.symbols then "!@#$%^&*()-_=+[]{}|;:,.<>?" else "")
  {
    if o.noAmbiguous {
      AlphabetParts(o);
      hide Kept, Alphabet;
      KeptLower();
      KeptUpper();
      KeptDigits();
      KeptAll(SYMBOLS);
    }
  }

  lemma AlphabetParts(o: PasswordOpts)
    requires o.noAmbiguous
    ensures Alphabet(o) ==
            Kept(LOWER) + (if o.upper then Kept(UPPER) else "") + (if o.digits then Kept(DIGITS) else "")
            + (if o.symbols then Kept(SYMBOLS) else "")
  {
    assert Kept([]) == [];
    hide Kept, LOWER, UPPER, DIGITS, SYMBOLS;
    KeptSum(LOWER, if o.upper then UPPER else [], if o.digits then DIGITS else [], if o.symbols then SYMBOLS else []);
  }

  /** Size of the alphabet for each of the sixteen flag combinations. */
  lemma AlphabetSize(o: PasswordOpts)
    ensures |Alphabet(o)| ==
            if o.noAmbiguous then
              25 + (if o.upper then 24 else 0) + (if o.digits then 8 else 0) + (if o.symbols then 26 else 0)
            else 26 + (if o.upper then 26 else 0) + (if o.digits then 10 else 0) + (if o.symbols then 26 else 0)
  {
    var u := if o.upper then UPPER else [];
    var d := if o.digits then DIGITS else [];
    var y := if o.symbols then SYMBOLS else [];
    if o.noAmbiguous {
      KeptSum(LOWER, u, d, y);
      ClassSizes();
      assert Kept([]) == [];
    }
  }
}
