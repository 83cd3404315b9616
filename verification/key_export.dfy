/**
  The binary layout of a decoded megolm key export and the decryption
  pipeline of `decryptMegolmKeyFile`:

    version (1 byte, = 1) | salt (16) | iv (16) | iterations (4, big-endian)
      | ciphertext (n - 69) | hmac (32)

  The HMAC covers everything before it. Key derivation, HMAC verification,
  AES-CTR decryption and UTF-8 decoding are uninterpreted primitives; what
  is modelled is which of them is called, with which slices, in which order.
 */
module KeyExport {
  import opened Results
  import opened Armor

  /** The failures `decryptMegolmKeyFile` reports, in the order it checks them. */
  datatype DecryptError =
    | ArmorFailed(cause: ArmorError)  // from unpacking the armour
    | TooShort                        // "Invalid file: too short"
    | UnsupportedVersion              // "Unsupported version"
    | DeriveFailed                    // key derivation threw
    | VerifyFailed                    // "subtleCrypto.verify failed"
    | HmacMismatch                    // "hmac mismatch"
    | DecryptFailed                   // "subtleCrypto.decrypt failed"
    | NotAFunction                    // a method called on a value that lacks it

  const VersionByte: byte := 1
  const SaltSize: nat := 16
  const IvSize: nat := 16
  const HmacSize: nat := 32

  /** 1 + 16 + 16 + 4 + 32: the smallest well-formed body, with no ciphertext. */
  const HeaderAndTagSize: nat := 69

  const Two32: int := 0x1_0000_0000
  const Two31: int := 0x8000_0000

  /** ECMAScript ToInt32 on an integer: reduce modulo 2^32 into the signed range. */
  function ToInt32(x: int): (r: int)
    ensures -Two31 <= r < Two31
    ensures (r - x) % Two32 == 0
  {
    var u := x % Two32;
    if u >= Two31 then u - Two32 else u
  }

  predicate IsInt32(i: int) {
    -Two31 <= i < Two31
  }

  /** Four bytes read as an unsigned big-endian number. */
  function BigEndian(b: seq<byte>): (r: nat)
    requires |b| == 4
    ensures r < Two32
  {
    (b[0] as int) * 0x100_0000 + (b[1] as int) * 0x1_0000 + (b[2] as int) * 0x100 + b[3]
  }

  /** `body[33] << 24 | body[34] << 16 | body[35] << 8 | body[36]`: the shifted
      bytes occupy disjoint bits, so the bitwise or is their sum, and the
      32-bit operators make the result a signed 32-bit integer. */
  function Iterations(b: seq<byte>): (r: int)
    requires |b| == 4
    ensures IsInt32(r)
    ensures r < 0 <==> b[0] >= 0x80
  {
    ToInt32(BigEndian(b))
  }

  /** The writer's side: a signed 32-bit count as four big-endian bytes. */
  function EncodeInt32(i: int): (b: seq<byte>)
    requires IsInt32(i)
    ensures |b| == 4
  {
    var u := i % Two32;
    var v1 := u / 0x100;
    var v2 := v1 / 0x100;
    [v2 / 0x100, v2 % 0x100, v1 % 0x100, u % 0x100]
  }

  /** Division by 256 undoes `q * 256 + r` for a remainder below 256. */
  lemma {:induction false} DivMod8(q: int, r: int)
    requires 0 <= r < 0x100
    ensures (q * 0x100 + r) / 0x100 == q && (q * 0x100 + r) % 0x100 == r
  {
  }

  lemma {:induction false} BigEndianOfEncode(i: int)
    requires IsInt32(i)
    ensures BigEndian(EncodeInt32(i)) == i % Two32
  {
    var u := i % Two32;
    var v1 := u / 0x100;
    var v2 := v1 / 0x100;
    assert u == v1 * 0x100 + u % 0x100;
    assert v1 == v2 * 0x100 + v1 % 0x100;
    assert v2 == (v2 / 0x100) * 0x100 + v2 % 0x100;
  }

  /** Reading back what the writer encoded gives the count. */
  lemma {:induction false} IterationsOfEncode(i: int)
    requires IsInt32(i)
    ensures Iterations(EncodeInt32(i)) == i
  {
    BigEndianOfEncode(i);
  }

  /** Encoding what was read gives the bytes back. */
  lemma {:induction false} EncodeOfIterations(b: seq<byte>)
    requires |b| == 4
    ensures EncodeInt32(Iterations(b)) == b
  {
    var u := BigEndian(b);
    var b0, b1, b2, b3 := b[0] as int, b[1] as int, b[2] as int, b[3] as int;
    assert Iterations(b) % Two32 == u;
    DivMod8(b0 * 0x1_0000 + b1 * 0x100 + b2, b3);
    DivMod8(b0 * 0x100 + b1, b2);
    DivMod8(b0, b1);
  }

  /** The fields `decryptMegolmKeyFile` slices out of a body. */
  datatype Layout = Layout(
    salt: seq<byte>,
    iv: seq<byte>,
    iterations: int,
    ciphertext: seq<byte>,
    hmac: seq<byte>,
    toVerify: seq<byte>)

  /** The length and version gates, then the slicing. The gates come in the
      source's order: an empty body is too short, then a first byte other
      than 1 is an unsupported version, then fewer than 69 bytes is too
      short again. */
  function ParseBody(body: seq<byte>): (r: Result<Layout, DecryptError>)
    ensures r.Err? <==> |body| < HeaderAndTagSize || body[0] != VersionByte
    ensures r.Err? ==> r.error == (if |body| >= 1 && body[0] != VersionByte then UnsupportedVersion else TooShort)
    ensures r.Ok? ==>
      var l := r.value;
      && |l.salt| == SaltSize && |l.iv| == IvSize && |l.hmac| == HmacSize
      && |l.ciphertext| == |body| - HeaderAndTagSize
      && l.toVerify + l.hmac == body
      && [body[0]] + l.salt + l.iv + body[33..37] + l.ciphertext == l.toVerify
      && l.iterations == Iterations(body[33..37])
  {
    if |body| < 1 then
      Err(TooShort)
    else if body[0] != VersionByte then
      Err(UnsupportedVersion)
    else if |body| - HeaderAndTagSize < 0 then
      Err(TooShort)
    else
      var n := |body|;
      var l := Layout(
        body[1..17], body[17..33], Iterations(body[33..37]),
        body[37..n - 32], body[n - 32..], body[..n - 32]);
      assert l.toVerify + l.hmac == body;
      assert [body[0]] + l.salt + l.iv + body[33..37] + l.ciphertext == l.toVerify;
      Ok(l)
  }

  /** The writer's side: the body the exporter produces from its fields. */
  function Assemble(salt: seq<byte>, iv: seq<byte>, iterations: int, ciphertext: seq<byte>, hmac: seq<byte>): (body: seq<byte>)
    requires |salt| == SaltSize && |iv| == IvSize && IsInt32(iterations) && |hmac| == HmacSize
    ensures |body| == HeaderAndTagSize + |ciphertext|
  {
    [VersionByte] + salt + iv + EncodeInt32(iterations) + ciphertext + hmac
  }

  /** An assembled body parses back into the fields it was made of, with the
      HMAC covering everything before it. */
  lemma {:induction false} ParseAssemble(salt: seq<byte>, iv: seq<byte>, iterations: int, ciphertext: seq<byte>, hmac: seq<byte>)
    requires |salt| == SaltSize && |iv| == IvSize && IsInt32(iterations) && |hmac| == HmacSize
    ensures var body := Assemble(salt, iv, iterations, ciphertext, hmac);
      ParseBody(body) == Ok(Layout(salt, iv, iterations, ciphertext, hmac, body[..|body| - HmacSize]))
  {
    var body := Assemble(salt, iv, iterations, ciphertext, hmac);
    var n := |body|;
    var e := EncodeInt32(iterations);
    assert body[1..17] == salt;
    assert body[17..33] == iv;
    assert body[33..37] == e;
    assert body[37..n - 32] == ciphertext;
    assert body[n - 32..] == hmac;
    IterationsOfEncode(iterations);
  }

  /** Conversely, every body that parses is the assembly of its fields. */
  lemma {:induction false} AssembleParse(body: seq<byte>)
    requires ParseBody(body).Ok?
    ensures var l := ParseBody(body).value;
      Assemble(l.salt, l.iv, l.iterations, l.ciphertext, l.hmac) == body
  {
    var l := ParseBody(body).value;
    EncodeOfIterations(body[33..37]);
    assert Assemble(l.salt, l.iv, l.iterations, l.ciphertext, l.hmac)
        == [body[0]] + l.salt + l.iv + body[33..37] + l.ciphertext + l.hmac;
  }

  /** The two keys `deriveKeys` produces from the password. */
  datatype Keys = Keys(aesKey: seq<byte>, hmacKey: seq<byte>)

  /** The cryptographic primitives, uninterpreted; `None` stands for a thrown
      error. `verify(key, signature, data)` is HMAC-SHA-256 verification,
      `decrypt(key, counter, data)` AES-CTR decryption, and `utf8Decode` is
      `TextDecoder.decode`. */
  datatype Crypto = Crypto(
    deriveKeys: (seq<byte>, int, string) -> Option<Keys>,
    verify: (seq<byte>, seq<byte>, seq<byte>) -> Option<bool>,
    decrypt: (seq<byte>, seq<byte>, seq<byte>) -> Option<seq<byte>>,
    utf8Decode: seq<byte> -> string)

  /** A call to a primitive, with its arguments. */
  datatype Call =
    | Derive(salt: seq<byte>, iterations: int, password: string)
    | Verify(key: seq<byte>, signature: seq<byte>, data: seq<byte>)
    | Decrypt(key: seq<byte>, counter: seq<byte>, data: seq<byte>)

  /** The outcome of a decryption and the primitive calls made on the way. */
  datatype Run = Run(result: Result<string, DecryptError>, calls: seq<Call>)

  /** `decryptMegolmKeyFile` from the decoded body on: gates, key derivation,
      HMAC verification, and only after a successful verification AES-CTR
      decryption and UTF-8 decoding.

      The calls it makes, in terms of the body: none when a gate fails; keys
      derived from the salt and the iteration count; the HMAC key checking
      the stored tag against every byte before it; and the AES key
      decrypting the ciphertext with the iv as counter only once that check
      has passed, so that every decryption comes straight after a
      verification that succeeded. A run succeeds exactly when all three
      primitives do, and then returns the decoded plaintext; each outcome
      fixes the trace: derivation alone when it fails, derivation and
      verification when verification fails or rejects the tag, and all
      three calls otherwise. */
  function DecryptBody(body: seq<byte>, password: string, c: Crypto): (run: Run)
    ensures ParseBody(body).Err? ==> run == Run(Err(ParseBody(body).error), [])
    ensures var n := |body|;
      && |run.calls| <= 3
      && (run.calls != [] ==>
            && n >= HeaderAndTagSize && body[0] == VersionByte
            && run.calls[0] == Derive(body[1..17], Iterations(body[33..37]), password))
      && (|run.calls| >= 2 ==>
            && c.deriveKeys(body[1..17], Iterations(body[33..37]), password).Some?
            && var keys := c.deriveKeys(body[1..17], Iterations(body[33..37]), password).value;
               run.calls[1] == Verify(keys.hmacKey, body[n - 32..], body[..n - 32]))
      && (|run.calls| == 3 ==>
            && var keys := c.deriveKeys(body[1..17], Iterations(body[33..37]), password).value;
               && c.verify(keys.hmacKey, body[n - 32..], body[..n - 32]) == Some(true)
               && run.calls[2] == Decrypt(keys.aesKey, body[17..33], body[37..n - 32]))
    ensures forall i :: 0 <= i < |run.calls| && run.calls[i].Decrypt? ==>
      && 0 < i && run.calls[i - 1].Verify?
      && c.verify(run.calls[i - 1].key, run.calls[i - 1].signature, run.calls[i - 1].data) == Some(true)
    ensures ParseBody(body).Ok? ==>
      var l := ParseBody(body).value;
      var keys := c.deriveKeys(l.salt, l.iterations, password);
      && (run.result == Err(DeriveFailed) <==> keys.None?)
      && (run.result == Err(VerifyFailed) <==> keys.Some? && c.verify(keys.value.hmacKey, l.hmac, l.toVerify).None?)
      && (run.result == Err(HmacMismatch) <==> keys.Some? && c.verify(keys.value.hmacKey, l.hmac, l.toVerify) == Some(false))
      && (run.result == Err(DecryptFailed) <==>
            && keys.Some? && c.verify(keys.value.hmacKey, l.hmac, l.toVerify) == Some(true)
            && c.decrypt(keys.value.aesKey, l.iv, l.ciphertext).None?)
      && (run.result.Ok? <==>
            && keys.Some? && c.verify(keys.value.hmacKey, l.hmac, l.toVerify) == Some(true)
            && c.decrypt(keys.value.aesKey, l.iv, l.ciphertext).Some?)
      && (run.result.Ok? ==>
            run.result.value == c.utf8Decode(c.decrypt(keys.value.aesKey, l.iv, l.ciphertext).value))
    ensures ParseBody(body).Ok? ==>
      var l := ParseBody(body).value;
      var derive := Derive(l.salt, l.iterations, password);
      var keys := c.deriveKeys(l.salt, l.iterations, password);
      && (run.result == Err(DeriveFailed) ==> run.calls == [derive])
      && (keys.Some? && (run.result == Err(VerifyFailed) || run.result == Err(HmacMismatch)) ==>
            run.calls == [derive, Verify(keys.value.hmacKey, l.hmac, l.toVerify)])
      && (keys.Some? && (run.result == Err(DecryptFailed) || run.result.Ok?) ==>
            run.calls == [derive, Verify(keys.value.hmacKey, l.hmac, l.toVerify), Decrypt(keys.value.aesKey, l.iv, l.ciphertext)])
  {
    match ParseBody(body)
    case Err(e) => Run(Err(e), [])
    case Ok(l) =>
      var derive := Derive(l.salt, l.iterations, password);
      match c.deriveKeys(l.salt, l.iterations, password)
      case None => Run(Err(DeriveFailed), [derive])
      case Some(keys) =>
        var verify := Verify(keys.hmacKey, l.hmac, l.toVerify);
        match c.verify(keys.hmacKey, l.hmac, l.toVerify)
        case None => Run(Err(VerifyFailed), [derive, verify])
        case Some(false) => Run(Err(HmacMismatch), [derive, verify])
        case Some(true) =>
          var decrypt := Decrypt(keys.aesKey, l.iv, l.ciphertext);
          match c.decrypt(keys.aesKey, l.iv, l.ciphertext)
          case None => Run(Err(DecryptFailed), [derive, verify, decrypt])
          case Some(plain) => Run(Ok(c.utf8Decode(plain)), [derive, verify, decrypt])
  }

  /** `decryptMegolmKeyFile` on bytes, as the file it is based on has it:
      unpack the armour, then decrypt the body. */
  function DecryptKeyFile(data: string, password: string, codec: Codec, c: Crypto): (run: Run)
    ensures Unpack(data, codec).Err? ==> run == Run(Err(ArmorFailed(Unpack(data, codec).error)), [])
    ensures Unpack(data, codec).Ok? ==> run == DecryptBody(Unpack(data, codec).value, password, c)
  {
    match Unpack(data, codec)
    case Err(e) => Run(Err(ArmorFailed(e)), [])
    case Ok(body) => DecryptBody(body, password, c)
  }

  // ---------------------------------------------------------------------
  // The function as written in this repository, where the body is a string.

  /** The JavaScript values the version check compares. */
  datatype JsValue = JsNumber(n: int) | JsText(s: string)

  /** `===`: values of different types are never strictly equal. */
  predicate StrictEquals(a: JsValue, b: JsValue) {
    match (a, b)
    case (JsNumber(x), JsNumber(y)) => x == y
    case (JsText(x), JsText(y)) => x == y
    case _ => false
  }

  /** The gates of `decryptMegolmKeyFile` as written, on the string
      `unpackMegolmKeyFile` hands back: `body[0]` is a one-character string,
      which is never strictly equal to the number 1, and past the gates
      `body.subarray` is not a function of strings. Every non-empty body is
      therefore an unsupported version. */
  function CheckStringBody(body: string): (e: DecryptError)
    ensures e == (if |body| < 1 then TooShort else UnsupportedVersion)
  {
    if |body| < 1 then
      TooShort
    else if !StrictEquals(JsText([body[0]]), JsNumber(VersionByte)) then
      UnsupportedVersion
    else if |body| - HeaderAndTagSize < 0 then
      TooShort
    else
      NotAFunction
  }

  /** `decryptMegolmKeyFile` as written: no file ever decrypts, and no
      primitive is ever called. */
  function DecryptAsWritten(data: string, password: string, codec: Codec, c: Crypto): (run: Run)
    ensures run.result.Err? && run.calls == []
    ensures UnpackAsWritten(data, codec).Err? ==> run.result == Err(ArmorFailed(UnpackAsWritten(data, codec).error))
    ensures var u := UnpackAsWritten(data, codec);
      u.Ok? ==> run.result == Err(if |u.value| < 1 then TooShort else UnsupportedVersion)
  {
    match UnpackAsWritten(data, codec)
    case Err(e) => Run(Err(ArmorFailed(e)), [])
    case Ok(body) => Run(Err(CheckStringBody(body)), [])
  }

  /** The discrepancy on a well-formed export: the byte model gets past the
      gates and derives keys from the body's salt and count, while the
      string model reports an unsupported version. The string half holds
      for any string of the body's length, and so in particular for
      `toString('ascii')` of that body, which has one character per byte. */
  lemma {:induction false} VersionCheckDiffers(password: string, c: Crypto, salt: seq<byte>, iv: seq<byte>,
                                               iterations: int, ciphertext: seq<byte>, hmac: seq<byte>, text: string)
    requires |salt| == SaltSize && |iv| == IvSize && IsInt32(iterations) && |hmac| == HmacSize
    requires |text| == HeaderAndTagSize + |ciphertext|
    ensures var calls := DecryptBody(Assemble(salt, iv, iterations, ciphertext, hmac), password, c).calls;
      calls != [] && calls[0] == Derive(salt, iterations, password)
    ensures CheckStringBody(text) == UnsupportedVersion
  {
    var body := Assemble(salt, iv, iterations, ciphertext, hmac);
    ParseAssemble(salt, iv, iterations, ciphertext, hmac);
    DecryptBodyDerives(body, password, c);
  }

  /** A body that passes the gates has its keys derived from its salt and count. */
  lemma {:induction false} DecryptBodyDerives(body: seq<byte>, password: string, c: Crypto)
    requires ParseBody(body).Ok?
    ensures var l := ParseBody(body).value; var calls := DecryptBody(body, password, c).calls;
      calls != [] && calls[0] == Derive(l.salt, l.iterations, password)
  {
  }
}
