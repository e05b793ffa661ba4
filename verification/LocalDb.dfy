/**
 * AEAD framing and the .gkdb container: a printer and a cursor-driven parser of big-endian, length-prefixed sections.
 */
module LocalDb {
  import opened Results
  import opened BigEndian

  const NONCE_SIZE: nat := 24
  const KEY_SIZE: nat := 32
  /** Poly1305 tag. */
  const OVERHEAD: nat := 16
  /** The most that one call of os.File.Read returns. */
  const READ_CAP: nat := 0x4000_0000
  const MAGIC: Bytes := [0x47, 0x4B, 0x44, 0x42]
  const VERSION: Bytes := [0, 1]
  /** "gkdb-key-check" */
  const SENTINEL: Bytes := [0x67, 0x6B, 0x64, 0x62, 0x2D, 0x6B, 0x65, 0x79, 0x2D, 0x63, 0x68, 0x65, 0x63, 0x6B]

  /**
   * The libraries the container is built on: the AEAD primitive, the key derivation (composite key, then stretched),
   * and the two JSON codecs, over arbitrary parameter and data types.
   */
  datatype Env<!P, !D> = Env(
    seal: (Bytes, Bytes, Bytes) -> Bytes,
    open: (Bytes, Bytes, Bytes) -> Option<Bytes>,
    derive: (Bytes, Option<Bytes>, P) -> Bytes,
    printParams: P -> Bytes,
    parseParams: Bytes -> Option<P>,
    marshal: D -> Option<Bytes>,
    unmarshal: Bytes -> Option<D>)

  /** Opening undoes sealing, parsing undoes printing, derived keys have 32 bytes and printed parameters are short. */
  ghost predicate Sound<P(!new), D(!new)>(env: Env<P, D>) {
    && (forall k, n, p :: env.open(k, n, env.seal(k, n, p)) == Some(p))
    && (forall k, n, p :: |env.seal(k, n, p)| == |p| + OVERHEAD)
    && (forall pw, kf, p :: |env.derive(pw, kf, p)| == KEY_SIZE)
    && (forall p :: env.parseParams(env.printParams(p)) == Some(p) && |env.printParams(p)| <= READ_CAP)
    && (forall d :: env.marshal(d).Some? ==> env.unmarshal(env.marshal(d).value) == Some(d))
    && env.unmarshal(SENTINEL) == None
  }

  datatype AeadError = BadKey | DecryptFailed

  function Encrypt<P, D>(env: Env<P, D>, key: Bytes, nonce: Bytes, plain: Bytes): Result<Bytes, AeadError>
    requires |nonce| == NONCE_SIZE
  {
    if |key| != KEY_SIZE then Err(BadKey) else Ok(nonce + env.seal(key, nonce, plain))
  }

  function Decrypt<P, D>(env: Env<P, D>, key: Bytes, data: Bytes): Result<Bytes, AeadError> {
    if |key| != KEY_SIZE then Err(BadKey)
    else if |data| < NONCE_SIZE then Err(DecryptFailed)
    else match env.open(key, data[..NONCE_SIZE], data[NONCE_SIZE..])
      case None => Err(DecryptFailed)
      case Some(plain) => Ok(plain)
  }

  lemma DecryptEncrypt<P(!new), D(!new)>(env: Env<P, D>, key: Bytes, nonce: Bytes, plain: Bytes)
    requires Sound(env) && |nonce| == NONCE_SIZE && |key| == KEY_SIZE
    ensures Decrypt(env, key, Encrypt(env, key, nonce, plain).value) == Ok(plain)
  {
    var sealed := env.seal(key, nonce, plain);
    assert (nonce + sealed)[..NONCE_SIZE] == nonce && (nonce + sealed)[NONCE_SIZE..] == sealed;
  }

  // Reading: the cursor is what is left of the file.

  datatype Read = Eof | Got(buf: Bytes, rest: Bytes)

  function Zeros(n: nat): (z: Bytes)
    ensures |z| == n && forall i :: 0 <= i < n ==> z[i] == 0
  {
    seq(n, _ => 0)
  }

  /** The first `n` bytes followed by zeros up to the full length. */
  function ZeroFilled(x: Bytes, n: nat): Bytes
    requires n <= |x|
  {
    x[..n] + Zeros(|x| - n)
  }

  function Min(a: nat, b: nat): nat { if a <= b then a else b }

  /**
   * os.File.Read into a zeroed buffer of `n` bytes: it may come up short, at the end of the file or at the cap, and
   * only an empty remainder is an error.
   */
  function ReadSome(rest: Bytes, n: nat): Read {
    if n == 0 then Got([], rest)
    else if rest == [] then Eof
    else
      var got := Min(Min(n, |rest|), READ_CAP);
      Got(rest[..got] + Zeros(n - got), rest[got..])
  }

  /** binary.Read of a fixed-size value: fails unless all bytes are there. */
  function ReadExact(rest: Bytes, n: nat): Read {
    if |rest| < n then Eof else Got(rest[..n], rest[n..])
  }

  /** A length and that many bytes. */
  function ReadSection(rest: Bytes): Read {
    match ReadExact(rest, 4)
    case Eof => Eof
    case Got(len, tail) => ReadSome(tail, FromBe32(len))
  }

  function Section(x: Bytes): (s: Bytes)
    requires |x| <= MAX_U32
    ensures |s| == 4 + |x|
  {
    Be32(|x|) + x
  }

  lemma ReadWhole(x: Bytes, tail: Bytes)
    requires |x| <= READ_CAP
    ensures ReadSection(Section(x) + tail) == Got(x, tail)
  {
    var rest := Section(x) + tail;
    Be32RoundTrip(|x|);
    assert rest[..4] == Be32(|x|) && rest[4..] == x + tail;
    assert (x + tail)[..|x|] == x && (x + tail)[|x|..] == tail;
  }

  /**
   * A section cut after `n` of its bytes: what is missing or past the cap reads as zero, but only if some byte is
   * left.
   */
  lemma ReadCut(x: Bytes, n: nat)
    requires |x| <= MAX_U32 && n <= |Section(x)| && x != []
    ensures n <= 4 ==> ReadSection(Section(x)[..n]) == Eof
    ensures n > 4 ==> ReadSection(Section(x)[..n]) ==
                      var got := Min(n - 4, READ_CAP);
                      Got(ZeroFilled(x, got), x[got..n - 4])
  {
    var rest := Section(x)[..n];
    if n >= 4 {
      Be32RoundTrip(|x|);
      assert rest[..4] == Be32(|x|) && rest[4..] == x[..n - 4];
    }
  }

  // Saving.

  datatype DbError =
    | NotFound | WrongPassword | InvalidVault | TooLarge | EncryptFailed | MarshalFailed | IoFailed | UnmarshalFailed

  function Image(kdf: Bytes, check: Bytes, body: Bytes): Bytes
    requires |kdf| <= MAX_U32 && |check| <= MAX_U32 && |body| <= MAX_U32
  {
    MAGIC + VERSION + Section(kdf) + Section(check) + Section(body)
  }

  /** What Save draws at random: the KDF parameters (salt) and one nonce per ciphertext. */
  datatype Randomness<P> = Randomness(params: P, bodyNonce: Bytes, checkNonce: Bytes) {
    predicate Valid() { |bodyNonce| == NONCE_SIZE == |checkNonce| }
  }

  /** The three sections of the file. */
  datatype Parts = Parts(kdf: Bytes, check: Bytes, body: Bytes) {
    predicate Fits() { |kdf| <= MAX_U32 && |check| <= MAX_U32 && |body| <= MAX_U32 }
  }

  function Sealed<P, D>(env: Env<P, D>, plain: Bytes, key: Bytes, rnd: Randomness<P>): Parts
    requires rnd.Valid() && |key| == KEY_SIZE
  {
    Parts(env.printParams(rnd.params), Encrypt(env, key, rnd.checkNonce, SENTINEL).value,
          Encrypt(env, key, rnd.bodyNonce, plain).value)
  }

  /**
   * What Save sets out to write: the whole image, or only the header when a section is too long for its length field.
   */
  ghost function Target(p: Parts): Bytes {
    if p.Fits() then Image(p.kdf, p.check, p.body) else MAGIC + VERSION
  }

  lemma TargetText(p: Parts)
    ensures Target(p) == [0x47, 0x4B, 0x44, 0x42, 0, 1] +
                         if p.Fits() then
                           (Be32(|p.kdf|) + p.kdf) + (Be32(|p.check|) + p.check) + (Be32(|p.body|) + p.body)
                         else []
  {
    assert MAGIC + VERSION == [0x47, 0x4B, 0x44, 0x42, 0, 1];
  }

  /** The bytes of `image` from offset `at` on begin with `x`. */
  ghost predicate HoldsAt(image: Bytes, at: nat, x: Bytes) { at + |x| <= |image| && image[at..at + |x|] == x }

  lemma SectionAt(before: Bytes, x: Bytes, after: Bytes)
    requires |x| <= MAX_U32
    ensures HoldsAt(before + Section(x) + after, |before|, Be32(|x|))
    ensures HoldsAt(before + Section(x) + after, |before| + 4, x)
  {
  }

  /** Where the three sections of an image are. */
  lemma ImageAt(p: Parts)
    requires p.Fits()
    ensures var image := Image(p.kdf, p.check, p.body);
            && HoldsAt(image, 6, Be32(|p.kdf|)) && HoldsAt(image, 10, p.kdf)
            && HoldsAt(image, 10 + |p.kdf|, Be32(|p.check|)) && HoldsAt(image, 14 + |p.kdf|, p.check)
            && HoldsAt(image, 14 + |p.kdf| + |p.check|, Be32(|p.body|))
            && HoldsAt(image, 18 + |p.kdf| + |p.check|, p.body)
  {
    hide Section, Be32, HoldsAt;
    var head, kdf, check, body := MAGIC + VERSION, Section(p.kdf), Section(p.check), Section(p.body);
    assert Image(p.kdf, p.check, p.body) == head + kdf + (check + body) == head + kdf + check + body + [];
    hide Image;
    SectionAt(head, p.kdf, check + body);
    SectionAt(head + kdf, p.check, body);
    SectionAt(head + kdf + check, p.body, []);
  }

  lemma TargetAt(p: Parts)
    ensures var image := Target(p);
            && HoldsAt(image, 0, MAGIC) && HoldsAt(image, 4, VERSION)
            && |image| == (if p.Fits() then 18 + |p.kdf| + |p.check| + |p.body| else 6)
    ensures p.Fits() ==>
              var image := Target(p);
              && HoldsAt(image, 6, Be32(|p.kdf|)) && HoldsAt(image, 10, p.kdf)
              && HoldsAt(image, 10 + |p.kdf|, Be32(|p.check|)) && HoldsAt(image, 14 + |p.kdf|, p.check)
              && HoldsAt(image, 14 + |p.kdf| + |p.check|, Be32(|p.body|))
              && HoldsAt(image, 18 + |p.kdf| + |p.check|, p.body)
  {
    if p.Fits() {
      ImageAt(p);
    }
  }

  // Loading.

  function Opened<P, D>(env: Env<P, D>, key: Bytes, rest: Bytes): Result<D, DbError> {
    match ReadSection(rest)
    case Eof => Err(InvalidVault)
    case Got(body, _) =>
      match Decrypt(env, key, body)
      case Err(_) => Err(WrongPassword)
      case Ok(plain) =>
        match env.unmarshal(plain)
        case None => Err(UnmarshalFailed)
        case Some(d) => Ok(d)
  }

  function Checked<P, D>(env: Env<P, D>, key: Bytes, rest: Bytes): Result<D, DbError> {
    match ReadSection(rest)
    case Eof => Err(InvalidVault)
    case Got(check, tail) =>
      if Decrypt(env, key, check).Err? then Err(WrongPassword) else Opened(env, key, tail)
  }

  function Keyed<P, D>(env: Env<P, D>, rest: Bytes, pw: Bytes, kf: Option<Bytes>): Result<D, DbError> {
    match ReadSection(rest)
    case Eof => Err(InvalidVault)
    case Got(kdf, tail) =>
      match env.parseParams(kdf)
      case None => Err(InvalidVault)
      case Some(p) => Checked(env, env.derive(pw, kf, p), tail)
  }

  function Loaded<P, D>(env: Env<P, D>, file: Bytes, pw: Bytes, kf: Option<Bytes>): Result<D, DbError> {
    match ReadSome(file, 4)
    case Eof => Err(InvalidVault)
    case Got(magic, rest) =>
      if magic != MAGIC then Err(InvalidVault) else
      match ReadExact(rest, 2)
      case Eof => Err(InvalidVault)
      case Got(_, tail) => Keyed(env, tail, pw, kf)
  }

  class LocalDB<P, D> {
    var file: Option<Bytes>

    constructor ()
      ensures file == None
    {
      file := None;
    }

    /** f.Write on a device with space for `room` bytes in all: what fits is written even when the call fails. */
    method Write(x: Bytes, room: nat, ghost image: Bytes, ghost at: nat) returns (ok: bool)
      requires at <= room && HoldsAt(image, at, x) && file == Some(image[..at])
      modifies this
      ensures at + |x| <= |image| && (ok <==> at + |x| <= room)
      ensures file == Some(image[..if ok then at + |x| else room])
    {
      var out := file.value + x;
      assert out == image[..at + |x|];
      ok := |out| <= room;
      if ok {
        file := Some(out);
      } else {
        file := Some(out[..room]);
        assert out[..room] == image[..room];
      }
    }

    /** O_TRUNC empties the file before the first byte is written. */
    method Save(env: Env<P, D>, data: D, pw: Bytes, kf: Option<Bytes>, rnd: Randomness<P>, canOpen: bool, room: nat)
      returns (err: Option<DbError>)
      requires rnd.Valid()
      modifies this
      ensures var key, body := env.derive(pw, kf, rnd.params), env.marshal(data);
              if body.None? then err == Some(MarshalFailed) && file == old(file)
              else if |key| != KEY_SIZE then err == Some(EncryptFailed) && file == old(file)
              else if !canOpen then err == Some(IoFailed) && file == old(file)
              else
                // "gkdb-key-check" and the body, each behind its own nonce
                var text := [0x67, 0x6B, 0x64, 0x62, 0x2D, 0x6B, 0x65, 0x79, 0x2D, 0x63, 0x68, 0x65, 0x63, 0x6B];
                var kdf := env.printParams(rnd.params);
                var check := rnd.checkNonce + env.seal(key, rnd.checkNonce, text);
                var encBody := rnd.bodyNonce + env.seal(key, rnd.bodyNonce, body.value);
                var fits := |kdf| <= 0xFFFF_FFFF && |check| <= 0xFFFF_FFFF && |encBody| <= 0xFFFF_FFFF;
                // "GKDB", version 1, three sections
                var image := [0x47, 0x4B, 0x44, 0x42, 0, 1] +
                             if fits then
                               (Be32(|kdf|) + kdf) + (Be32(|check|) + check) + (Be32(|encBody|) + encBody)
                             else [];
                && file == Some(image[..Min(room, |image|)])
                && err == if room < |image| then Some(IoFailed) else if fits then None else Some(TooLarge)
    {
      var key := env.derive(pw, kf, rnd.params);
      var body := env.marshal(data);
      if body.None? { return Some(MarshalFailed); }
      var encBody := Encrypt(env, key, rnd.bodyNonce, body.value);
      if encBody.Err? { return Some(EncryptFailed); }
      var kdf := env.printParams(rnd.params);
      var check := Encrypt(env, key, rnd.checkNonce, SENTINEL);
      if check.Err? { return Some(EncryptFailed); }
      if !canOpen { return Some(IoFailed); }
      file := Some([]);
      err := WriteParts(kdf, check.value, encBody.value, room);
      assert MAGIC + VERSION == [0x47, 0x4B, 0x44, 0x42, 0, 1];
      TargetText(Parts(kdf, check.value, encBody.value));
    }

    method WriteParts(kdf: Bytes, check: Bytes, body: Bytes, room: nat) returns (err: Option<DbError>)
      requires file == Some([])
      modifies this
      ensures var p := Parts(kdf, check, body);
              var image := Target(p);
              && file == Some(image[..Min(room, |image|)])
              && err == if room < |image| then Some(IoFailed) else if p.Fits() then None else Some(TooLarge)
    {
      ghost var p := Parts(kdf, check, body);
      ghost var image := Target(p);
      TargetAt(p);
      hide Target, Be32, HoldsAt;
      assert image[..0] == [];
      var ok := Write(MAGIC, room, image, 0);
      if !ok { return Some(IoFailed); }
      ok := Write(VERSION, room, image, 4);
      if !ok { return Some(IoFailed); }
      if |kdf| > MAX_U32 || |check| > MAX_U32 || |body| > MAX_U32 { return Some(TooLarge); }
      ok := Write(Be32(|kdf|), room, image, 6);
      if !ok { return Some(IoFailed); }
      ok := Write(kdf, room, image, 10);
      if !ok { return Some(IoFailed); }
      ok := Write(Be32(|check|), room, image, 10 + |kdf|);
      if !ok { return Some(IoFailed); }
      ok := Write(check, room, image, 14 + |kdf|);
      if !ok { return Some(IoFailed); }
      ok := Write(Be32(|body|), room, image, 14 + |kdf| + |check|);
      if !ok { return Some(IoFailed); }
      ok := Write(body, room, image, 18 + |kdf| + |check|);
      if !ok { return Some(IoFailed); }
      err := None;
    }

    method Load(env: Env<P, D>, pw: Bytes, kf: Option<Bytes>) returns (r: Result<D, DbError>)
      ensures r == if file.None? then Err(NotFound) else Loaded(env, file.value, pw, kf)
    {
      if file.None? { return Err(NotFound); }
      var f := ReadSome(file.value, 4);
      if f.Eof? || f.buf != MAGIC { return Err(InvalidVault); }
      f := ReadExact(f.rest, 2);
      if f.Eof? { return Err(InvalidVault); }
      f := ReadExact(f.rest, 4);
      if f.Eof? { return Err(InvalidVault); }
      f := ReadSome(f.rest, FromBe32(f.buf));
      if f.Eof? { return Err(InvalidVault); }
      var params := env.parseParams(f.buf);
      if params.None? { return Err(InvalidVault); }
      var key := env.derive(pw, kf, params.value);
      f := ReadExact(f.rest, 4);
      if f.Eof? { return Err(InvalidVault); }
      f := ReadSome(f.rest, FromBe32(f.buf));
      if f.Eof? { return Err(InvalidVault); }
      if Decrypt(env, key, f.buf).Err? { return Err(WrongPassword); }
      f := ReadExact(f.rest, 4);
      if f.Eof? { return Err(InvalidVault); }
      f := ReadSome(f.rest, FromBe32(f.buf));
      if f.Eof? { return Err(InvalidVault); }
      var body := Decrypt(env, key, f.buf);
      if body.Err? { return Err(WrongPassword); }
      var data := env.unmarshal(body.value);
      if data.None? { return Err(UnmarshalFailed); }
      r := Ok(data.value);
    }
  }

  // Theorems.

  lemma HeaderRead<P, D>(env: Env<P, D>, version: Bytes, tail: Bytes, pw: Bytes, kf: Option<Bytes>)
    requires |version| == 2
    ensures Loaded(env, MAGIC + version + tail, pw, kf) == Keyed(env, tail, pw, kf)
  {
    var file := MAGIC + version + tail;
    assert file[..4] == MAGIC && file[4..] == version + tail;
    assert (version + tail)[2..] == tail;
  }

  /** The version field is ignored: whatever it holds, the result is the same, for every file. */
  lemma VersionIgnored<P, D>(env: Env<P, D>, file: Bytes, version: Bytes, pw: Bytes, kf: Option<Bytes>)
    requires |file| >= 6 && |version| == 2
    ensures Loaded(env, file[..4] + version + file[6..], pw, kf) == Loaded(env, file, pw, kf)
  {
    var other := file[..4] + version + file[6..];
    assert other[..4] == file[..4] && other[4..][2..] == file[6..] == file[4..][2..];
  }

  // Loading any file whose sections are complete.

  /** The key opens the text, a nonce followed by a ciphertext. */
  function Plain<P, D>(env: Env<P, D>, key: Bytes, x: Bytes): Option<Bytes> {
    if |key| == 32 && |x| >= 24 then env.open(key, x[..24], x[24..]) else None
  }

  lemma DecryptIsPlain<P, D>(env: Env<P, D>, key: Bytes, x: Bytes)
    ensures Decrypt(env, key, x).Ok? <==> Plain(env, key, x).Some?
    ensures Decrypt(env, key, x).Ok? ==> Decrypt(env, key, x).value == Plain(env, key, x).value
  {
  }

  /**
   * Load on a file made of any four bytes, any version, three length-prefixed sections and anything behind them: each
   * error in its place, and otherwise the data that the body holds.
   */
  lemma LoadedText<P, D>(env: Env<P, D>, magic: Bytes, version: Bytes, kdf: Bytes, check: Bytes, body: Bytes,
                         rest: Bytes, pw: Bytes, kf: Option<Bytes>)
    requires |magic| == 4 && |version| == 2
    requires |kdf| <= 1073741824 && |check| <= 1073741824 && |body| <= 1073741824
    ensures var file := magic + version +
                        ((Be32(|kdf|) + kdf) + ((Be32(|check|) + check) + ((Be32(|body|) + body) + rest)));
            Loaded(env, file, pw, kf) ==
            if magic != [0x47, 0x4B, 0x44, 0x42] || env.parseParams(kdf).None? then Err(InvalidVault)
            else
              var key := env.derive(pw, kf, env.parseParams(kdf).value);
              if Plain(env, key, check).None? || Plain(env, key, body).None? then Err(WrongPassword)
              else
                match env.unmarshal(Plain(env, key, body).value)
                case None => Err(UnmarshalFailed)
                case Some(d) => Ok(d)
  {
    var last := Section(body) + rest;
    var afterKdf := Section(check) + last;
    var file := magic + version + (Section(kdf) + afterKdf);
    ReadWhole(body, rest);
    ReadWhole(kdf, afterKdf);
    if magic == MAGIC {
      HeaderRead(env, version, Section(kdf) + afterKdf, pw, kf);
      hide Section, Loaded, Decrypt, Plain;
      if env.parseParams(kdf).Some? {
        var key := env.derive(pw, kf, env.parseParams(kdf).value);
        KeyedOver(env, kdf, afterKdf, pw, kf);
        CheckedOver(env, key, check, last);
        DecryptIsPlain(env, key, check);
        DecryptIsPlain(env, key, body);
      }
    } else {
      assert file[..4] == magic;
    }
  }

  /** A saved file: what Save wrote for `data` under this password, keyfile and randomness. */
  ghost predicate SavedAs<P(!new), D(!new)>(env: Env<P, D>, data: D, pw: Bytes, kf: Option<Bytes>, rnd: Randomness<P>,
                                            p: Parts) {
    && Sound(env) && rnd.Valid() && env.marshal(data).Some? && p.Fits()
    && p == Sealed(env, env.marshal(data).value, env.derive(pw, kf, rnd.params), rnd)
  }

  /** Its bytes: the header, the parameters, and the sentinel and the data, each behind its own nonce. */
  lemma SavedText<P(!new), D(!new)>(env: Env<P, D>, data: D, pw: Bytes, kf: Option<Bytes>, rnd: Randomness<P>, p: Parts)
    requires SavedAs(env, data, pw, kf, rnd, p)
    ensures var key := env.derive(pw, kf, rnd.params);
            var text := [0x67, 0x6B, 0x64, 0x62, 0x2D, 0x6B, 0x65, 0x79, 0x2D, 0x63, 0x68, 0x65, 0x63, 0x6B];
            && p.kdf == env.printParams(rnd.params)
            && p.check == rnd.checkNonce + env.seal(key, rnd.checkNonce, text)
            && p.body == rnd.bodyNonce + env.seal(key, rnd.bodyNonce, env.marshal(data).value)
    ensures Image(p.kdf, p.check, p.body) ==
            [0x47, 0x4B, 0x44, 0x42, 0, 1] +
            ((Be32(|p.kdf|) + p.kdf) + (Be32(|p.check|) + p.check) + (Be32(|p.body|) + p.body))
  {
    TargetText(p);
    hide Image, Section, Be32;
  }

  lemma PartsOpen<P(!new), D(!new)>(env: Env<P, D>, data: D, pw: Bytes, kf: Option<Bytes>, rnd: Randomness<P>, p: Parts)
    requires SavedAs(env, data, pw, kf, rnd, p)
    ensures env.parseParams(p.kdf) == Some(rnd.params) && |p.kdf| <= READ_CAP
    ensures NONCE_SIZE <= |p.check| <= READ_CAP && NONCE_SIZE <= |p.body|
    ensures Decrypt(env, env.derive(pw, kf, rnd.params), p.check) == Ok(SENTINEL)
    ensures Decrypt(env, env.derive(pw, kf, rnd.params), p.body) == Ok(env.marshal(data).value)
    ensures env.unmarshal(env.marshal(data).value) == Some(data)
  {
    var key := env.derive(pw, kf, rnd.params);
    DecryptEncrypt(env, key, rnd.checkNonce, SENTINEL);
    DecryptEncrypt(env, key, rnd.bodyNonce, env.marshal(data).value);
  }

  /** A whole section of parameters is passed over. */
  lemma KeyedOver<P, D>(env: Env<P, D>, kdf: Bytes, rest: Bytes, pw: Bytes, kf: Option<Bytes>)
    requires |kdf| <= READ_CAP && env.parseParams(kdf).Some?
    ensures Keyed(env, Section(kdf) + rest, pw, kf) ==
            Checked(env, env.derive(pw, kf, env.parseParams(kdf).value), rest)
  {
    hide Checked, ReadSection, Section;
    ReadWhole(kdf, rest);
  }

  /** A whole key check is passed over if the key opens it. */
  lemma CheckedOver<P, D>(env: Env<P, D>, key: Bytes, check: Bytes, rest: Bytes)
    requires |check| <= READ_CAP
    ensures Checked(env, key, Section(check) + rest) ==
            if Decrypt(env, key, check).Ok? then Opened(env, key, rest) else Err(WrongPassword)
  {
    hide Opened, Decrypt, ReadSection, Section;
    ReadWhole(check, rest);
  }

  /** Cutting a concatenation cuts its first part or its second. */
  lemma CutConcat(a: Bytes, b: Bytes, n: nat)
    requires n <= |a| + |b|
    ensures (a + b)[..n] == if n < |a| then a[..n] else a + b[..n - |a|]
  {
  }

  /** With the right password everything up to the body of a saved file is read and found good. */
  lemma LoadedIsOpened<P(!new), D(!new)>(env: Env<P, D>, data: D, pw: Bytes, kf: Option<Bytes>, rnd: Randomness<P>,
                                         p: Parts)
    requires SavedAs(env, data, pw, kf, rnd, p)
    ensures Loaded(env, Image(p.kdf, p.check, p.body), pw, kf) ==
            Opened(env, env.derive(pw, kf, rnd.params), Section(p.body))
  {
    PartsOpen(env, data, pw, kf, rnd, p);
    var afterKdf := Section(p.check) + Section(p.body);
    assert Image(p.kdf, p.check, p.body) == MAGIC + VERSION + (Section(p.kdf) + afterKdf);
    hide Image, Section, Loaded, Keyed, Checked, Opened, Decrypt, SavedAs;
    HeaderRead(env, VERSION, Section(p.kdf) + afterKdf, pw, kf);
    KeyedOver(env, p.kdf, afterKdf, pw, kf);
    CheckedOver(env, env.derive(pw, kf, rnd.params), p.check, Section(p.body));
  }

  /**
   * Load after Save with the same password and keyfile returns the saved data, as long as one read takes the whole
   * body.
   */
  lemma RoundTrip<P(!new), D(!new)>(env: Env<P, D>, data: D, pw: Bytes, kf: Option<Bytes>, rnd: Randomness<P>, p: Parts)
    requires SavedAs(env, data, pw, kf, rnd, p) && |p.body| <= 1073741824
    ensures Loaded(env, Image(p.kdf, p.check, p.body), pw, kf) == Ok(data)
  {
    PartsOpen(env, data, pw, kf, rnd, p);
    assert Section(p.body) + [] == Section(p.body);
    hide Image, Section, Loaded, ReadSection, Decrypt, SavedAs;
    LoadedIsOpened(env, data, pw, kf, rnd, p);
    ReadWhole(p.body, []);
  }

  /** A key that does not open the key check is reported as a wrong password, whatever the body is. */
  lemma WrongKey<P(!new), D(!new)>(env: Env<P, D>, data: D, pw: Bytes, kf: Option<Bytes>, rnd: Randomness<P>, p: Parts,
                                  pw2: Bytes, kf2: Option<Bytes>)
    requires SavedAs(env, data, pw, kf, rnd, p)
    requires Decrypt(env, env.derive(pw2, kf2, rnd.params), p.check).Err?
    ensures Loaded(env, Image(p.kdf, p.check, p.body), pw2, kf2) == Err(WrongPassword)
  {
    PartsOpen(env, data, pw, kf, rnd, p);
    var afterKdf := Section(p.check) + Section(p.body);
    assert Image(p.kdf, p.check, p.body) == MAGIC + VERSION + (Section(p.kdf) + afterKdf);
    hide Image, Section, Loaded, Keyed, Checked, ReadSection, Decrypt;
    HeaderRead(env, VERSION, Section(p.kdf) + afterKdf, pw2, kf2);
    KeyedOver(env, p.kdf, afterKdf, pw2, kf2);
    CheckedOver(env, env.derive(pw2, kf2, rnd.params), p.check, Section(p.body));
  }

  /** No zero-filled truncation of the encrypted body opens unless it is one of the two ciphertexts of this file. */
  ghost predicate Unforged<P(!new), D(!new)>(env: Env<P, D>, key: Bytes, p: Parts) {
    forall n :: 0 <= n <= |p.body| && Decrypt(env, key, ZeroFilled(p.body, n)).Ok? ==>
      ZeroFilled(p.body, n) == p.check || ZeroFilled(p.body, n) == p.body
  }

  ghost function BodyStart(p: Parts): nat { 6 + 4 + |p.kdf| + 4 + |p.check| + 4 }

  lemma ZeroFillSame(x: Bytes, n: nat)
    requires n <= |x|
    ensures ZeroFilled(x, n) == x <==> ZeroFrom(x, n)
  {
    var y := ZeroFilled(x, n);
    if y == x {
      forall i | n <= i < |x| ensures x[i] == 0 { assert y[i] == 0; }
    }
  }

  /** Cut in the body section, or not at all: what is past the cut or past the cap has to be zero. */
  lemma CutBody<P(!new), D(!new)>(env: Env<P, D>, data: D, pw: Bytes, kf: Option<Bytes>, rnd: Randomness<P>,
                                  p: Parts, n: nat)
    requires SavedAs(env, data, pw, kf, rnd, p) && Unforged(env, env.derive(pw, kf, rnd.params), p)
    requires n <= |Section(p.body)|
    ensures var r := Opened(env, env.derive(pw, kf, rnd.params), Section(p.body)[..n]);
            && (r.Ok? ==> r.value == data)
            && (r.Ok? <==> n > 4 && ZeroFrom(p.body, Min(n - 4, READ_CAP)))
  {
    PartsOpen(env, data, pw, kf, rnd, p);
    hide ReadSection, Decrypt, Section, Sealed, ZeroFilled, ZeroFrom;
    ReadCut(p.body, n);
    if n > 4 {
      ZeroFillSame(p.body, Min(n - 4, READ_CAP));
    }
  }

  /** Cut before the body section: always an error. */
  lemma CutCheck<P(!new), D(!new)>(env: Env<P, D>, key: Bytes, check: Bytes, n: nat)
    requires 0 < |check| <= READ_CAP && n < |Section(check)|
    ensures Checked(env, key, Section(check)[..n]).Err?
  {
    ReadCut(check, n);
  }

  lemma CutKdf<P(!new), D(!new)>(env: Env<P, D>, kdf: Bytes, n: nat, pw: Bytes, kf: Option<Bytes>)
    requires |kdf| <= READ_CAP && n < |Section(kdf)|
    ensures Keyed(env, Section(kdf)[..n], pw, kf) == Err(InvalidVault)
  {
    if kdf == [] {
      assert |Section(kdf)[..n]| < 4;
    } else {
      ReadCut(kdf, n);
    }
  }

  lemma CutHeader<P, D>(env: Env<P, D>, file: Bytes, pw: Bytes, kf: Option<Bytes>)
    requires |file| < 6
    ensures Loaded(env, file, pw, kf) == Err(InvalidVault)
  {
    if 0 < |file| < 4 {
      assert (file[..|file|] + Zeros(4 - |file|))[3] == 0;
    }
  }

  /** What an oversized save leaves behind, cut or not, is not a vault. */
  lemma HeaderOnly<P, D>(env: Env<P, D>, n: nat, pw: Bytes, kf: Option<Bytes>)
    requires n <= 6
    ensures Loaded(env, (MAGIC + VERSION)[..n], pw, kf) == Err(InvalidVault)
  {
    if n < 6 {
      CutHeader(env, (MAGIC + VERSION)[..n], pw, kf);
    } else {
      assert (MAGIC + VERSION)[..n] == MAGIC + VERSION + [];
      HeaderRead(env, VERSION, [], pw, kf);
    }
  }

  /** A cut in the parameters is an error; a cut behind them is a cut of the rest. */
  lemma KeyedCut<P(!new), D(!new)>(env: Env<P, D>, kdf: Bytes, rest: Bytes, n: nat, pw: Bytes, kf: Option<Bytes>)
    requires |kdf| <= READ_CAP && env.parseParams(kdf).Some? && n <= 4 + |kdf| + |rest|
    ensures Keyed(env, (Section(kdf) + rest)[..n], pw, kf) ==
            if n < 4 + |kdf| then Err(InvalidVault)
            else Checked(env, env.derive(pw, kf, env.parseParams(kdf).value), rest[..n - 4 - |kdf|])
  {
    hide Section, Keyed, Checked;
    CutConcat(Section(kdf), rest, n);
    if n < 4 + |kdf| {
      CutKdf(env, kdf, n, pw, kf);
    } else {
      KeyedOver(env, kdf, rest[..n - 4 - |kdf|], pw, kf);
    }
  }

  /** A cut in the key check is an error; a cut behind a good one is a cut of the rest. */
  lemma CheckedCut<P(!new), D(!new)>(env: Env<P, D>, key: Bytes, check: Bytes, rest: Bytes, n: nat)
    requires 0 < |check| <= READ_CAP && Decrypt(env, key, check).Ok? && n <= 4 + |check| + |rest|
    ensures var r := Checked(env, key, (Section(check) + rest)[..n]);
            if n < 4 + |check| then r.Err? else r == Opened(env, key, rest[..n - 4 - |check|])
  {
    hide Section, Checked, Opened, Decrypt;
    CutConcat(Section(check), rest, n);
    if n < 4 + |check| {
      CutCheck(env, key, check, n);
    } else {
      CheckedOver(env, key, check, rest[..n - 4 - |check|]);
    }
  }

  /** Loading what follows the magic and the version, cut after `n` bytes. */
  lemma CutAfterHeader<P(!new), D(!new)>(env: Env<P, D>, data: D, pw: Bytes, kf: Option<Bytes>, rnd: Randomness<P>,
                                         p: Parts, n: nat)
    requires SavedAs(env, data, pw, kf, rnd, p) && Unforged(env, env.derive(pw, kf, rnd.params), p)
    requires n <= |Sections(p)|
    ensures var r := Keyed(env, Sections(p)[..n], pw, kf);
            var skip := 12 + |p.kdf| + |p.check|;
            && (r.Ok? ==> r.value == data)
            && (r.Ok? <==> n > skip && ZeroFrom(p.body, Min(n - skip, READ_CAP)))
  {
    PartsOpen(env, data, pw, kf, rnd, p);
    hide Section, Keyed, Checked, Opened, Decrypt, SavedAs, Unforged, ZeroFrom;
    var check, body, m := Section(p.check), Section(p.body), n - 4 - |p.kdf|;
    KeyedCut(env, p.kdf, check + body, n, pw, kf);
    if m >= 0 {
      CheckedCut(env, env.derive(pw, kf, rnd.params), p.check, body, m);
      if m >= |check| {
        CutBody(env, data, pw, kf, rnd, p, m - |check|);
      }
    }
  }

  /** What follows the header of an image. */
  ghost function Sections(p: Parts): Bytes
    requires p.Fits()
  {
    Section(p.kdf) + (Section(p.check) + Section(p.body))
  }

  lemma ImageShape(p: Parts)
    requires p.Fits()
    ensures var file := Image(p.kdf, p.check, p.body);
            && file == MAGIC + VERSION + Sections(p)
            && |file| == 6 + |Sections(p)| == BodyStart(p) + |p.body| && file[BodyStart(p)..] == p.body
  {
  }

  lemma ImageSize(p: Parts)
    requires p.Fits()
    ensures |Image(p.kdf, p.check, p.body)| == 6 + |Sections(p)| == BodyStart(p) + |p.body|
  {
    ImageShape(p);
  }

  /** A cut after the header is a cut of what follows the header. */
  lemma CutFile<P, D>(env: Env<P, D>, p: Parts, n: nat, pw: Bytes, kf: Option<Bytes>)
    requires p.Fits() && 6 <= n <= |Image(p.kdf, p.check, p.body)|
    ensures |Sections(p)| >= n - 6
    ensures Loaded(env, Image(p.kdf, p.check, p.body)[..n], pw, kf) == Keyed(env, Sections(p)[..n - 6], pw, kf)
  {
    ImageShape(p);
    hide Image, Sections, Loaded, Keyed;
    assert Image(p.kdf, p.check, p.body)[..n] == MAGIC + VERSION + Sections(p)[..n - 6];
    HeaderRead(env, VERSION, Sections(p)[..n - 6], pw, kf);
  }

  /** The zeros of the file past a cut in the body are those of the body. */
  lemma BodyZeros(p: Parts, n: nat)
    requires p.Fits() && n > BodyStart(p)
    ensures ZeroFrom(Image(p.kdf, p.check, p.body), Min(n, BodyStart(p) + READ_CAP)) <==>
            ZeroFrom(p.body, Min(n - BodyStart(p), READ_CAP))
  {
    ImageShape(p);
    hide Image, ZeroFrom;
    SameZeros(Image(p.kdf, p.check, p.body), p.body, BodyStart(p), Min(n, BodyStart(p) + READ_CAP));
  }

  /**
   * Truncation: loading any prefix of a saved file, the whole file included, with the right password gives an error
   * or the saved data, never other data; it gives the data exactly when a byte of the encrypted body is left and
   * every byte that was cut off, or that lies past the first READ_CAP bytes of the body, is zero.
   */
  lemma Truncation<P(!new), D(!new)>(env: Env<P, D>, data: D, pw: Bytes, kf: Option<Bytes>, rnd: Randomness<P>,
                                     p: Parts, n: nat)
    requires SavedAs(env, data, pw, kf, rnd, p) && Unforged(env, env.derive(pw, kf, rnd.params), p)
    requires n <= |Image(p.kdf, p.check, p.body)|
    ensures var file := Image(p.kdf, p.check, p.body);
            var r := Loaded(env, file[..n], pw, kf);
            && (r.Ok? ==> r.value == data)
            && (r.Ok? <==> n > BodyStart(p) && ZeroFrom(file, Min(n, BodyStart(p) + READ_CAP)))
  {
    ImageSize(p);
    hide Image, Sections, Keyed, Loaded, SavedAs, Unforged, ZeroFrom, Parts.Fits;
    if n < 6 {
      CutHeader(env, Image(p.kdf, p.check, p.body)[..n], pw, kf);
    } else {
      LongPrefix(env, data, pw, kf, rnd, p, n);
    }
  }

  lemma LongPrefix<P(!new), D(!new)>(env: Env<P, D>, data: D, pw: Bytes, kf: Option<Bytes>, rnd: Randomness<P>,
                                     p: Parts, n: nat)
    requires SavedAs(env, data, pw, kf, rnd, p) && Unforged(env, env.derive(pw, kf, rnd.params), p)
    requires 6 <= n <= |Image(p.kdf, p.check, p.body)|
    ensures var file := Image(p.kdf, p.check, p.body);
            var r := Loaded(env, file[..n], pw, kf);
            && (r.Ok? ==> r.value == data)
            && (r.Ok? <==> n > BodyStart(p) && ZeroFrom(file, Min(n, BodyStart(p) + READ_CAP)))
  {
    ImageSize(p);
    hide Image, Sections, Keyed, Loaded, SavedAs, Unforged, ZeroFrom;
    CutFile(env, p, n, pw, kf);
    CutAfterHeader(env, data, pw, kf, rnd, p, n - 6);
    if n > BodyStart(p) {
      BodyZeros(p, n);
    }
  }

  /** Load after Save returns the saved data exactly when no byte of the encrypted body past the cap is non-zero. */
  lemma RoundTripIff<P(!new), D(!new)>(env: Env<P, D>, data: D, pw: Bytes, kf: Option<Bytes>, rnd: Randomness<P>,
                                       p: Parts)
    requires SavedAs(env, data, pw, kf, rnd, p) && Unforged(env, env.derive(pw, kf, rnd.params), p)
    ensures Loaded(env, Image(p.kdf, p.check, p.body), pw, kf) == Ok(data) <==> ZeroFrom(p.body, READ_CAP)
  {
    ImageShape(p);
    PartsOpen(env, data, pw, kf, rnd, p);
    hide Image, Loaded, SavedAs, Unforged, ZeroFrom;
    var file := Image(p.kdf, p.check, p.body);
    Truncation(env, data, pw, kf, rnd, p, |file|);
    assert file[..|file|] == file;
    BodyZeros(p, |file|);
    ZeroPastEnd(p.body, READ_CAP);
  }

  // A vault one byte longer than the cap, over a transparent cipher whose tag is sixteen ones.

  const TAG: Bytes := [1, 1, 1, 1, 1, 1, 1, 1, 1, 1, 1, 1, 1, 1, 1, 1]

  function TagOpen(c: Bytes): (r: Option<Bytes>)
    ensures forall p :: c == p + TAG ==> r == Some(p)
  {
    if |c| >= OVERHEAD && c[|c| - OVERHEAD..] == TAG then Some(c[..|c| - OVERHEAD]) else None
  }

  /** Data are marshalled with a leading zero, which the sentinel does not have. */
  function TagUnmarshal(b: Bytes): (r: Option<Bytes>)
    ensures forall d :: b == [0] + d ==> r == Some(d)
  {
    if b != [] && b[0] == 0 then Some(b[1..]) else None
  }

  function TagEnv(): Env<(), Bytes> {
    Env((k, n, p) => p + TAG, (k, n, c) => TagOpen(c), (pw, kf, p) => Zeros(KEY_SIZE),
        p => [], b => Some(()), d => Some([0] + d), b => TagUnmarshal(b))
  }

  lemma TagSound()
    ensures Sound(TagEnv())
  {
    assert SENTINEL[0] != 0;
    forall p ensures TagEnv().parseParams(TagEnv().printParams(p)) == Some(p) { assert p == (); }
  }

  /** A body longer than the cap whose zero-filled beginning does not open is reported as a wrong password. */
  lemma OpenedLarge<P, D>(env: Env<P, D>, key: Bytes, body: Bytes)
    requires READ_CAP < |body| <= MAX_U32 && Decrypt(env, key, ZeroFilled(body, READ_CAP)).Err?
    ensures Opened(env, key, Section(body)) == Err(WrongPassword)
  {
    assert Section(body)[..|Section(body)|] == Section(body);
    hide Section, ReadSection, Decrypt;
    ReadCut(body, |Section(body)|);
  }

  lemma TagLost(body: Bytes)
    requires |body| > READ_CAP
    ensures Decrypt(TagEnv(), Zeros(KEY_SIZE), ZeroFilled(body, READ_CAP)) == Err(DecryptFailed)
  {
    var cut := ZeroFilled(body, READ_CAP)[NONCE_SIZE..];
    assert cut[|cut| - 1] == 0 && TAG[OVERHEAD - 1] == 1;
    assert cut[|cut| - OVERHEAD..][OVERHEAD - 1] == cut[|cut| - 1];
  }

  lemma TagSaved(data: Bytes, rnd: Randomness<()>, p: Parts)
    requires |data| < 2 * READ_CAP && rnd.Valid() && p == Sealed(TagEnv(), [0] + data, Zeros(KEY_SIZE), rnd)
    ensures |p.body| == NONCE_SIZE + 1 + |data| + OVERHEAD && SavedAs(TagEnv(), data, [], None, rnd, p)
  {
    TagSound();
    hide Sound, TagOpen, TagUnmarshal;
    assert p.body == rnd.bodyNonce + ([0] + data + TAG);
    assert p.check == rnd.checkNonce + (SENTINEL + TAG);
    assert p.kdf == [];
  }

  /** The data are saved without an error, and the right password is then refused: the tag lies past the cap. */
  lemma LargeVaultLost(data: Bytes) returns (rnd: Randomness<()>, p: Parts)
    requires READ_CAP <= |data| < 2 * READ_CAP
    ensures SavedAs(TagEnv(), data, [], None, rnd, p)
    ensures Loaded(TagEnv(), Image(p.kdf, p.check, p.body), [], None) == Err(WrongPassword)
  {
    var key := Zeros(KEY_SIZE);
    assert TagEnv().derive([], None, ()) == key;
    rnd := Randomness((), Zeros(NONCE_SIZE), Zeros(NONCE_SIZE));
    p := Sealed(TagEnv(), [0] + data, key, rnd);
    TagSaved(data, rnd, p);
    hide Image, Loaded, Opened, Decrypt, ZeroFilled, Sound, SavedAs, Sealed, TagEnv, Section;
    LoadedIsOpened(TagEnv(), data, [], None, rnd, p);
    TagLost(p.body);
    OpenedLarge(TagEnv(), key, p.body);
  }

  ghost predicate ZeroFrom(x: Bytes, n: nat) { forall i :: n <= i < |x| ==> x[i] == 0 }

  lemma ZeroPastEnd(x: Bytes, n: nat)
    ensures n >= |x| ==> ZeroFrom(x, n) && ZeroFrom(x, |x|)
  {
  }

  lemma SameZeros(file: Bytes, body: Bytes, start: nat, n: nat)
    requires start + |body| == |file| && file[start..] == body && start <= n
    ensures ZeroFrom(file, n) <==> ZeroFrom(body, n - start)
  {
    forall i | start <= i < |file| ensures file[i] == body[i - start] {
      assert file[start..][i - start] == file[i];
    }
    if ZeroFrom(file, n) {
      forall i | n - start <= i < |body| ensures body[i] == 0 { assert file[i + start] == body[i]; }
    }
  }
}
