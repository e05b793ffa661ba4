/** GeneratePassword: required characters, random filling, shuffle; and exactly which passwords it can produce. */
module Generate {
  import opened Results
  import opened Charset
  import opened Sequences
  import opened Shuffle

  datatype GenerateError = TooShort | EmptyAlphabet

  /** The enabled classes, each already filtered. */
  ghost function Classes(o: PasswordOpts): seq<string> {
    [Filtered(o, LOWER)]
    + (if o.upper then [Filtered(o, UPPER)] else [])
    + (if o.digits then [Filtered(o, DIGITS)] else [])
    + (if o.symbols then [SYMBOLS] else [])
  }

  ghost predicate Covers(s: string, part: string) { exists i :: 0 <= i < |s| && s[i] in part }

  /** Every character is from the alphabet and every class is represented. */
  ghost predicate Meets(classes: seq<string>, alphabet: string, s: string) {
    && (forall i :: 0 <= i < |s| ==> s[i] in alphabet)
    && (forall k :: 0 <= k < |classes| ==> Covers(s, classes[k]))
  }

  /** The classes are non-empty, pairwise disjoint parts of the alphabet. */
  ghost predicate Parts(classes: seq<string>, alphabet: string) {
    && alphabet != []
    && (forall k :: 0 <= k < |classes| ==> classes[k] != [])
    && (forall k, c :: 0 <= k < |classes| && c in classes[k] ==> c in alphabet)
    && (forall j, k, c :: 0 <= j < k < |classes| && c in classes[j] ==> c !in classes[k])
  }

  function RandChar(rnd: Oracle, k: nat, charset: string): (c: char)
    requires charset != []
    ensures c in charset
  {
    charset[rnd(k) % |charset|]
  }

  /** One draw from each class, in class order. */
  ghost function Required(classes: seq<string>, rnd: Oracle): (r: string)
    requires forall k :: 0 <= k < |classes| ==> classes[k] != []
    ensures |r| == |classes|
  {
    seq(|classes|, k requires 0 <= k < |classes| => RandChar(rnd, k, classes[k]))
  }

  function Noise(alphabet: string, rnd: Oracle, start: nat, n: nat): (r: string)
    requires alphabet != []
    ensures |r| == n
  {
    seq(n, i requires 0 <= i < n => RandChar(rnd, start + i, alphabet))
  }

  /** The slice before shuffling: random characters with the required ones written over its beginning. */
  ghost function Draft(classes: seq<string>, alphabet: string, rnd: Oracle, n: nat): (r: string)
    requires Parts(classes, alphabet) && |classes| <= n
    ensures |r| == n
  {
    Required(classes, rnd) + Noise(alphabet, rnd, |classes|, n)[|classes|..]
  }

  ghost function Generated(classes: seq<string>, alphabet: string, rnd: Oracle, n: nat): string
    requires Parts(classes, alphabet) && |classes| <= n
  {
    Shuffled(Draft(classes, alphabet, rnd, n), Draws(rnd, |classes| + n, n))
  }

  lemma MeetsPermuted(classes: seq<string>, alphabet: string, s: string, t: string)
    requires multiset(s) == multiset(t) && Meets(classes, alphabet, s)
    ensures Meets(classes, alphabet, t)
  {
    forall i | 0 <= i < |t| ensures t[i] in alphabet {
      assert t[i] in multiset(s);
    }
    forall k | 0 <= k < |classes| ensures Covers(t, classes[k]) {
      var i :| 0 <= i < |s| && s[i] in classes[k];
      assert s[i] in multiset(t);
    }
  }

  lemma DraftMeets(classes: seq<string>, alphabet: string, rnd: Oracle, n: nat)
    requires Parts(classes, alphabet) && |classes| <= n
    ensures Meets(classes, alphabet, Draft(classes, alphabet, rnd, n))
  {
    var draft := Draft(classes, alphabet, rnd, n);
    forall k | 0 <= k < |classes| ensures draft[k] in alphabet && Covers(draft, classes[k]) {
      assert draft[k] in classes[k];
    }
    forall i | |classes| <= i < n ensures draft[i] in alphabet {
      assert draft[i] == RandChar(rnd, |classes| + i, alphabet);
    }
  }

  /** Whatever is drawn, the password has the length asked for, stays in the alphabet and covers every class. */
  lemma GeneratedMeets(classes: seq<string>, alphabet: string, rnd: Oracle, n: nat)
    requires Parts(classes, alphabet) && |classes| <= n
    ensures |Generated(classes, alphabet, rnd, n)| == n
    ensures Meets(classes, alphabet, Generated(classes, alphabet, rnd, n))
  {
    hide Draft, Draws, Shuffled, Meets, Parts;
    DraftMeets(classes, alphabet, rnd, n);
    var draft, js := Draft(classes, alphabet, rnd, n), Draws(rnd, |classes| + n, n);
    ShuffledMultiset(draft, js);
    MeetsPermuted(classes, alphabet, draft, Shuffled(draft, js));
  }

  /** `t` starts with one character of each class and stays in the alphabet. */
  ghost predicate LaidOut(classes: seq<string>, alphabet: string, t: string) {
    && |classes| <= |t|
    && (forall k :: 0 <= k < |classes| ==> t[k] in classes[k])
    && (forall i :: 0 <= i < |t| ==> t[i] in alphabet)
  }

  /** A rearrangement of `s` whose first characters come from the classes, in class order. */
  lemma BringForward(classes: seq<string>, alphabet: string, s: string) returns (t: string)
    requires Parts(classes, alphabet) && Meets(classes, alphabet, s) && |classes| <= |s|
    ensures |t| == |s| && multiset(t) == multiset(s) && LaidOut(classes, alphabet, t)
  {
    t := s;
    for k := 0 to |classes|
      invariant |t| == |s| && multiset(t) == multiset(s)
      invariant forall j :: 0 <= j < k ==> t[j] in classes[j]
    {
      MeetsPermuted(classes, alphabet, s, t);
      assert Covers(t, classes[k]);
      var q: nat :| q < |t| && t[q] in classes[k];
      assert q >= k;
      SwapMultiset(t, k, q);
      t := Swap(t, k, q);
    }
    MeetsPermuted(classes, alphabet, s, t);
  }

  /** An index drawn for a given character. */
  ghost function IndexIn(charset: string, c: char): (i: nat)
    requires c in charset
    ensures i < |charset| && charset[i] == c
  {
    var i :| 0 <= i < |charset| && charset[i] == c;
    i
  }

  /** The draws that lay out `t` and then shuffle it by `js`. */
  ghost function Script(classes: seq<string>, alphabet: string, t: string, js: seq<nat>): Oracle
    requires LaidOut(classes, alphabet, t) && |js| == |t|
  {
    var m, n := |classes|, |t|;
    (k: nat) => if k < m then IndexIn(classes[k], t[k])
                else if k < m + n then IndexIn(alphabet, t[k - m])
                else if k < m + n + n then js[k - m - n]
                else 0
  }

  lemma DrawIndex(rnd: Oracle, k: nat, charset: string, c: char)
    requires c in charset && rnd(k) == IndexIn(charset, c)
    ensures RandChar(rnd, k, charset) == c
  {
    SmallMod(rnd(k), |charset|);
  }

  lemma SmallMod(i: nat, n: nat)
    requires i < n
    ensures i % n == i
  {
  }

  lemma ScriptRequired(classes: seq<string>, alphabet: string, t: string, js: seq<nat>)
    requires Parts(classes, alphabet) && LaidOut(classes, alphabet, t) && |js| == |t|
    ensures Required(classes, Script(classes, alphabet, t, js)) == t[..|classes|]
  {
    var rnd := Script(classes, alphabet, t, js);
    forall k | 0 <= k < |classes| ensures Required(classes, rnd)[k] == t[k] {
      DrawIndex(rnd, k, classes[k], t[k]);
    }
  }

  lemma ScriptNoise(classes: seq<string>, alphabet: string, t: string, js: seq<nat>)
    requires Parts(classes, alphabet) && LaidOut(classes, alphabet, t) && |js| == |t|
    ensures Noise(alphabet, Script(classes, alphabet, t, js), |classes|, |t|) == t
  {
    var rnd := Script(classes, alphabet, t, js);
    forall i | 0 <= i < |t| ensures Noise(alphabet, rnd, |classes|, |t|)[i] == t[i] {
      DrawIndex(rnd, |classes| + i, alphabet, t[i]);
    }
  }

  lemma ScriptDraws(classes: seq<string>, alphabet: string, t: string, js: seq<nat>)
    requires LaidOut(classes, alphabet, t) && |js| == |t| && Choices(js)
    ensures Draws(Script(classes, alphabet, t, js), |classes| + |t|, |t|) == js
  {
    var rnd := Script(classes, alphabet, t, js);
    forall i | 0 <= i < |t| ensures Draws(rnd, |classes| + |t|, |t|)[i] == js[i] {
      SmallMod(js[i], i + 1);
    }
  }

  /** Conversely every text of that length that meets the requirements comes out for some draws, which are returned. */
  lemma EveryPasswordReached(classes: seq<string>, alphabet: string, s: string) returns (rnd: Oracle)
    requires Parts(classes, alphabet) && |classes| <= |s| && Meets(classes, alphabet, s)
    ensures Generated(classes, alphabet, rnd, |s|) == s
  {
    hide Parts, Meets, LaidOut, Shuffled, Required, Noise, Draws, Script, Choices;
    var t := BringForward(classes, alphabet, s);
    var js := Onto(t, s);
    rnd := Script(classes, alphabet, t, js);
    ScriptRequired(classes, alphabet, t, js);
    ScriptNoise(classes, alphabet, t, js);
    ScriptDraws(classes, alphabet, t, js);
    assert Draft(classes, alphabet, rnd, |s|) == t;
  }

  // The classes of the source.

  predicate IsLower(c: char) { 'a' <= c <= 'z' }
  predicate IsUpper(c: char) { 'A' <= c <= 'Z' }
  predicate IsDigit(c: char) { '0' <= c <= '9' }

  lemma Kinds(c: char)
    ensures c in LOWER ==> IsLower(c)
    ensures c in UPPER ==> IsUpper(c)
    ensures c in DIGITS ==> IsDigit(c)
    ensures c in SYMBOLS ==> !IsLower(c) && !IsUpper(c) && !IsDigit(c)
  {
    assert forall i :: 0 <= i < |LOWER| ==> IsLower(LOWER[i]);
    assert forall i :: 0 <= i < |UPPER| ==> IsUpper(UPPER[i]);
    assert forall i :: 0 <= i < |DIGITS| ==> IsDigit(DIGITS[i]);
    assert forall i :: 0 <= i < |SYMBOLS| ==> !IsLower(SYMBOLS[i]) && !IsUpper(SYMBOLS[i]) && !IsDigit(SYMBOLS[i]);
  }

  lemma FilteredMember(o: PasswordOpts, s: string, c: char)
    ensures c in Filtered(o, s) <==> c in s && (o.noAmbiguous ==> !Ambiguous(c))
  {
    KeptMembers(s, c);
  }

  lemma AnyPart(o: PasswordOpts, parts: seq<string>, k: nat, c: char)
    requires |parts| == 4 && k < 4 && c in Filtered(o, parts[k])
    ensures c in Filtered(o, parts[0] + parts[1] + parts[2] + parts[3])
  {
    FilteredMember(o, parts[k], c);
    FilteredMember(o, parts[0] + parts[1] + parts[2] + parts[3], c);
  }

  lemma ClassInAlphabet(o: PasswordOpts, k: nat, c: char)
    requires k < |Classes(o)| && c in Classes(o)[k]
    ensures c in Alphabet(o)
  {
    hide Kept;
    var u := if o.upper then UPPER else [];
    var d := if o.digits then DIGITS else [];
    var y := if o.symbols then SYMBOLS else [];
    var parts := [LOWER, u, d, y];
    KeptAll(SYMBOLS);
    var cls := Classes(o)[k];
    if cls == Filtered(o, LOWER) {
      AnyPart(o, parts, 0, c);
    } else if o.upper && cls == Filtered(o, UPPER) {
      AnyPart(o, parts, 1, c);
    } else if o.digits && cls == Filtered(o, DIGITS) {
      AnyPart(o, parts, 2, c);
    } else {
      AnyPart(o, parts, 3, c);
    }
  }

  lemma ClassesDisjoint(o: PasswordOpts, j: nat, k: nat, c: char)
    requires j < k < |Classes(o)| && c in Classes(o)[j]
    ensures c !in Classes(o)[k]
  {
    hide Kept;
    Kinds(c);
    FilteredMember(o, LOWER, c);
    FilteredMember(o, UPPER, c);
    FilteredMember(o, DIGITS, c);
    hide LOWER, UPPER, DIGITS, SYMBOLS;
  }

  lemma OptionParts(o: PasswordOpts)
    ensures Parts(Classes(o), Alphabet(o)) && 1 <= |Classes(o)| <= 4 && Alphabet(o) != []
  {
    AlphabetSize(o);
    ClassSizes();
    forall k, c | 0 <= k < |Classes(o)| && c in Classes(o)[k] ensures c in Alphabet(o) {
      ClassInAlphabet(o, k, c);
    }
    forall j, k, c | 0 <= j < k < |Classes(o)| && c in Classes(o)[j] ensures c !in Classes(o)[k] {
      ClassesDisjoint(o, j, k, c);
    }
  }

  // What the user asks for, in terms of characters.

  predicate IsSymbol(c: char) { c in "!@#$%^&*()-_=+[]{}|;:,.<>?" }

  /** The character is of an enabled class and not an excluded one. */
  ghost predicate Permitted(o: PasswordOpts, c: char) {
    && (IsLower(c) || (o.upper && IsUpper(c)) || (o.digits && IsDigit(c)) || (o.symbols && IsSymbol(c)))
    && (o.noAmbiguous ==> c !in "l1IO0")
  }

  ghost predicate Has(s: string, kind: char -> bool) { exists i :: 0 <= i < |s| && kind(s[i]) }

  /** The length asked for, permitted characters only, and at least one of each enabled class. */
  ghost predicate Wanted(o: PasswordOpts, s: string) {
    && |s| == o.length
    && (forall i :: 0 <= i < |s| ==> Permitted(o, s[i]))
    && Has(s, IsLower)
    && (o.upper ==> Has(s, IsUpper))
    && (o.digits ==> Has(s, IsDigit))
    && (o.symbols ==> Has(s, IsSymbol))
  }

  lemma Ranges()
    ensures |LOWER| == 26 == |UPPER| && |DIGITS| == 10
    ensures forall i :: 0 <= i < 26 ==> LOWER[i] as int == 'a' as int + i && UPPER[i] as int == 'A' as int + i
    ensures forall i :: 0 <= i < 10 ==> DIGITS[i] as int == '0' as int + i
  {
  }

  lemma ClassMembers(c: char)
    ensures c in LOWER <==> IsLower(c)
    ensures c in UPPER <==> IsUpper(c)
    ensures c in DIGITS <==> IsDigit(c)
    ensures c in SYMBOLS <==> IsSymbol(c)
  {
    Kinds(c);
    Ranges();
    hide LOWER, UPPER, DIGITS;
    if IsLower(c) {
      assert LOWER[c as int - 'a' as int] == c;
    }
    if IsUpper(c) {
      assert UPPER[c as int - 'A' as int] == c;
    }
    if IsDigit(c) {
      assert DIGITS[c as int - '0' as int] == c;
    }
  }

  lemma AlphabetMember(o: PasswordOpts, c: char)
    ensures c in Alphabet(o) <==> Permitted(o, c)
  {
    ClassMembers(c);
    hide LOWER, UPPER, DIGITS, SYMBOLS, IsSymbol;
    FilteredMember(o, Raw(o), c);
    hide Filtered;
    assert c in Raw(o) <==>
           c in LOWER || (o.upper && c in UPPER) || (o.digits && c in DIGITS) || (o.symbols && c in SYMBOLS);
    assert Ambiguous(c) <==> c in "l1IO0";
  }

  lemma ClassMember(o: PasswordOpts, s: string, cls: string, i: nat)
    requires i < |s| && s[i] in Alphabet(o) && (cls == LOWER || cls == UPPER || cls == DIGITS || cls == SYMBOLS)
    ensures s[i] in Filtered(o, cls) <==> s[i] in cls
  {
    FilteredMember(o, cls, s[i]);
    FilteredMember(o, Raw(o), s[i]);
  }

  lemma CoversIff(o: PasswordOpts, s: string, cls: string)
    requires forall i :: 0 <= i < |s| ==> s[i] in Alphabet(o)
    requires cls == LOWER || cls == UPPER || cls == DIGITS || cls == SYMBOLS
    ensures Covers(s, Filtered(o, cls)) <==> exists i :: 0 <= i < |s| && s[i] in cls
  {
    hide Alphabet, Filtered, LOWER, UPPER, DIGITS, SYMBOLS;
    forall i | 0 <= i < |s| ensures s[i] in Filtered(o, cls) <==> s[i] in cls { ClassMember(o, s, cls, i); }
  }

  lemma KindsPresent(s: string)
    ensures (exists i :: 0 <= i < |s| && s[i] in LOWER) <==> Has(s, IsLower)
    ensures (exists i :: 0 <= i < |s| && s[i] in UPPER) <==> Has(s, IsUpper)
    ensures (exists i :: 0 <= i < |s| && s[i] in DIGITS) <==> Has(s, IsDigit)
    ensures (exists i :: 0 <= i < |s| && s[i] in SYMBOLS) <==> Has(s, IsSymbol)
  {
    forall c ensures (c in LOWER <==> IsLower(c)) && (c in UPPER <==> IsUpper(c)) && (c in DIGITS <==> IsDigit(c)) {
      ClassMembers(c);
    }
    forall c ensures c in SYMBOLS <==> IsSymbol(c) { ClassMembers(c); }
    hide LOWER, UPPER, DIGITS, SYMBOLS, IsLower, IsUpper, IsDigit, IsSymbol;
  }

  lemma ClassesPresent(o: PasswordOpts, s: string)
    requires forall i :: 0 <= i < |s| ==> s[i] in Alphabet(o)
    ensures Covers(s, Filtered(o, LOWER)) <==> Has(s, IsLower)
    ensures Covers(s, Filtered(o, UPPER)) <==> Has(s, IsUpper)
    ensures Covers(s, Filtered(o, DIGITS)) <==> Has(s, IsDigit)
    ensures Covers(s, Filtered(o, SYMBOLS)) <==> Has(s, IsSymbol)
  {
    hide LOWER, UPPER, DIGITS, SYMBOLS, IsLower, IsUpper, IsDigit, IsSymbol, Covers, Alphabet, Filtered;
    CoversIff(o, s, LOWER);
    CoversIff(o, s, UPPER);
    CoversIff(o, s, DIGITS);
    CoversIff(o, s, SYMBOLS);
    KindsPresent(s);
  }

  /** The requirements on classes and alphabet are those on characters. */
  lemma MeetsIff(o: PasswordOpts, s: string)
    requires |s| == o.length
    ensures Meets(Classes(o), Alphabet(o), s) <==> Wanted(o, s)
  {
    hide Permitted, Alphabet, Covers, Classes, Filtered, Has, LOWER, UPPER, DIGITS, SYMBOLS;
    forall i | 0 <= i < |s| ensures s[i] in Alphabet(o) <==> Permitted(o, s[i]) { AlphabetMember(o, s[i]); }
    if forall i :: 0 <= i < |s| ==> s[i] in Alphabet(o) {
      ClassesPresent(o, s);
      SymbolsKept(o);
      EachClass(o, s);
    }
  }

  lemma SymbolsKept(o: PasswordOpts)
    ensures Filtered(o, SYMBOLS) == SYMBOLS
  {
    KeptAll(SYMBOLS);
  }

  lemma EachClass(o: PasswordOpts, s: string)
    requires Filtered(o, SYMBOLS) == SYMBOLS
    ensures (forall k :: 0 <= k < |Classes(o)| ==> Covers(s, Classes(o)[k])) <==>
            && Covers(s, Filtered(o, LOWER)) && (o.upper ==> Covers(s, Filtered(o, UPPER)))
            && (o.digits ==> Covers(s, Filtered(o, DIGITS))) && (o.symbols ==> Covers(s, Filtered(o, SYMBOLS)))
  {
    hide Filtered, Covers, LOWER, UPPER, DIGITS, SYMBOLS;
    var cs, u, d := Classes(o), if o.upper then 1 else 0, if o.digits then 1 else 0;
    assert cs[0] == Filtered(o, LOWER);
    assert o.upper ==> cs[1] == Filtered(o, UPPER);
    assert o.digits ==> cs[1 + u] == Filtered(o, DIGITS);
    assert o.symbols ==> cs[1 + u + d] == SYMBOLS;
  }

  // The method.

  method FilterChars(o: PasswordOpts, s: string) returns (r: string)
    ensures r == Filtered(o, s)
  {
    if !o.noAmbiguous { return s; }
    r := FilterAmbiguous(s);
  }

  lemma RequiredSnoc(classes: seq<string>, last: string, rnd: Oracle)
    requires last != [] && forall k :: 0 <= k < |classes| ==> classes[k] != []
    ensures Required(classes + [last], rnd) == Required(classes, rnd) + [RandChar(rnd, |classes|, last)]
  {
  }

  /** One guaranteed character, appended to those drawn so far. */
  method Require(charset: string, rnd: Oracle, required: string, ghost classes: seq<string>)
    returns (more: string, ghost extended: seq<string>)
    requires charset != [] && (forall k :: 0 <= k < |classes| ==> classes[k] != [])
    requires required == Required(classes, rnd)
    ensures extended == classes + [charset] && (forall k :: 0 <= k < |extended| ==> extended[k] != [])
    ensures more == Required(extended, rnd)
  {
    RequiredSnoc(classes, charset, rnd);
    extended := classes + [charset];
    more := required + [RandChar(rnd, |required|, charset)];
  }

  method RequiredChars(o: PasswordOpts, rnd: Oracle) returns (required: string)
    requires Parts(Classes(o), Alphabet(o))
    ensures required == Required(Classes(o), rnd)
  {
    ClassSizes();
    assert Filtered(o, LOWER) != [] && Filtered(o, UPPER) != [] && Filtered(o, DIGITS) != [] && SYMBOLS != [];
    hide Kept, Filtered, LOWER, UPPER, DIGITS, SYMBOLS, Parts, Required, Alphabet;
    ghost var classes: seq<string> := [];
    required := "";
    assert required == Required(classes, rnd);
    var c := FilterChars(o, LOWER);
    required, classes := Require(c, rnd, required, classes);
    if o.upper {
      c := FilterChars(o, UPPER);
      required, classes := Require(c, rnd, required, classes);
    }
    if o.digits {
      c := FilterChars(o, DIGITS);
      required, classes := Require(c, rnd, required, classes);
    }
    if o.symbols {
      required, classes := Require(SYMBOLS, rnd, required, classes);
    }
    assert classes == Classes(o);
  }

  method FillRandom(rnd: Oracle, start: nat, charset: string, n: nat) returns (result: array<char>)
    requires charset != []
    ensures fresh(result) && result[..] == Noise(charset, rnd, start, n)
  {
    result := new char[n];
    for i := 0 to n
      invariant forall k :: 0 <= k < i ==> result[k] == RandChar(rnd, start + k, charset)
    {
      result[i] := RandChar(rnd, start + i, charset);
    }
  }

  method CopyPrefix(result: array<char>, required: string)
    requires |required| <= result.Length
    modifies result
    ensures result[..] == required + old(result[..])[|required|..]
  {
    ghost var was := result[..];
    for i := 0 to |required|
      invariant forall k :: 0 <= k < i ==> result[k] == required[k]
      invariant forall k :: i <= k < result.Length ==> result[k] == was[k]
    {
      result[i] := required[i];
    }
  }

  method GeneratePassword(o: PasswordOpts, rnd: Oracle) returns (r: Result<string, GenerateError>)
    ensures r == Err(TooShort) <==> o.length < 4
    ensures r.Ok? <==> o.length >= 4
    ensures r.Ok? ==> Wanted(o, r.value)
    ensures r.Ok? ==> Parts(Classes(o), Alphabet(o)) && |Classes(o)| <= o.length
    ensures r.Ok? ==> r.value == Generated(Classes(o), Alphabet(o), rnd, o.length)
  {
    hide Classes, Alphabet, Parts, Meets, Wanted, Required, Noise, Shuffled, Draws;
    if o.length < 4 { return Err(TooShort); }
    var charset := BuildAlphabet(o);
    OptionParts(o);
    if |charset| == 0 { return Err(EmptyAlphabet); }
    var required := RequiredChars(o, rnd);
    var result := FillRandom(rnd, |required|, charset, o.length);
    CopyPrefix(result, required);
    ShuffleInPlace(result, rnd, |required| + o.length);
    GeneratedMeets(Classes(o), Alphabet(o), rnd, o.length);
    MeetsIff(o, result[..]);
    r := Ok(result[..]);
  }

  /** The generator produces exactly the texts of the right length over the alphabet that cover every enabled class. */
  lemma ReachesExactly(o: PasswordOpts, s: string) returns (rnd: Oracle)
    requires o.length >= 4
    ensures Parts(Classes(o), Alphabet(o)) && |Classes(o)| <= o.length
    ensures Wanted(o, s) ==> Generated(Classes(o), Alphabet(o), rnd, o.length) == s
    ensures forall any: Oracle :: Generated(Classes(o), Alphabet(o), any, o.length) == s ==> Wanted(o, s)
  {
    OptionParts(o);
    if |s| == o.length {
      MeetsIff(o, s);
    }
    assert Wanted(o, s) ==> |s| == o.length;
    hide Classes, Alphabet, Parts, Meets, Wanted;
    rnd := (k: nat) => 0;
    if Wanted(o, s) {
      rnd := EveryPasswordReached(Classes(o), Alphabet(o), s);
    }
    forall any: Oracle | Generated(Classes(o), Alphabet(o), any, o.length) == s ensures Wanted(o, s) {
      GeneratedMeets(Classes(o), Alphabet(o), any, o.length);
    }
  }
}
