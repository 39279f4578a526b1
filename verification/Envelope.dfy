/** AES-GCM ciphers and the textual ciphertext format `vault:v{version}:{base64}`.

    The AEAD primitive is a parameter: a pair of functions of key, nonce, text and additional
    data. `IsAead` states what is used of GCM (section 7 of NIST SP 800-38D): opening undoes
    sealing, and sealing adds a 16-byte tag. */
module Envelope {
  import opened Wire
  import opened Text

  const NONCE_SIZE: nat := 12
  const OVERHEAD: nat := 16
  const PREFIX: string := "vault"

  datatype CipherError =
    | InvalidKeySize | InvalidCiphertext | DecryptionFailed | InvalidNonceSize | CiphertextTooShort | BadBase64

  datatype Outcome<+T> = Good(value: T) | Bad(error: CipherError)

  datatype Aead = Aead(
    seal: (bytes, bytes, bytes, bytes) -> bytes,
    open: (bytes, bytes, bytes, bytes) -> Option<bytes>)

  ghost predicate IsAead(a: Aead) {
    forall key: bytes, nonce: bytes, plain: bytes, aad: bytes {:trigger a.seal(key, nonce, plain, aad)} ::
      && |a.seal(key, nonce, plain, aad)| == |plain| + OVERHEAD
      && a.open(key, nonce, a.seal(key, nonce, plain, aad), aad) == Some(plain)
  }

  /** The assumption can be met: appending and removing a constant tag does. */
  lemma AeadExists() returns (a: Aead)
    ensures IsAead(a)
  {
    var tag: bytes := seq(OVERHEAD, _ => 0);
    a := Aead((key: bytes, nonce: bytes, plain: bytes, aad: bytes) => plain + tag,
              (key: bytes, nonce: bytes, text: bytes, aad: bytes) =>
                if |text| >= OVERHEAD then Some(text[..|text| - OVERHEAD]) else None);
    forall key: bytes, nonce: bytes, plain: bytes, aad: bytes
      ensures a.open(key, nonce, a.seal(key, nonce, plain, aad), aad) == Some(plain)
    {
      assert (plain + tag)[..|plain|] == plain;
    }
  }

  /** A cipher keeps its own copy of the key. */
  datatype Cipher = Cipher(key: bytes, version: int)

  function NewCipher(key: bytes, version: int): Outcome<Cipher> {
    if |key| != 16 && |key| != 24 && |key| != 32 then Bad(InvalidKeySize) else Good(Cipher(key, version))
  }

  function EncryptWithNonce(a: Aead, c: Cipher, plain: bytes, aad: bytes, nonce: bytes): Outcome<string> {
    if |nonce| != NONCE_SIZE then Bad(InvalidNonceSize)
    else
      var ciphertext := nonce + a.seal(c.key, nonce, plain, aad);
      Good(PREFIX + ":v" + FormatInt(c.version) + ":" + Base64Encode(ciphertext))
  }

  /** The version and the base64 payload of a ciphertext. */
  function ParseCiphertext(text: string): Outcome<(int, string)> {
    var parts := Split(text, ':');
    if |parts| != 3 then Bad(InvalidCiphertext)
    else if parts[0] != PREFIX then Bad(InvalidCiphertext)
    else if |parts[1]| < 2 || parts[1][0] != 'v' then Bad(InvalidCiphertext)
    else match Atoi(parts[1][1..])
      case None => Bad(InvalidCiphertext)
      case Some(version) => Good((version, parts[2]))
  }

  /** Base64 of nonce, ciphertext and tag; at least one byte of ciphertext is required. */
  function DecryptRaw(a: Aead, c: Cipher, encoded: string, aad: bytes): Outcome<bytes> {
    match Base64Decode(encoded)
    case None => Bad(BadBase64)
    case Some(decoded) =>
      if |decoded| < NONCE_SIZE + OVERHEAD + 1 then Bad(CiphertextTooShort)
      else match a.open(c.key, decoded[..NONCE_SIZE], decoded[NONCE_SIZE..], aad)
        case None => Bad(DecryptionFailed)
        case Some(plain) => Good(plain)
  }

  function Decrypt(a: Aead, c: Cipher, text: string, aad: bytes): Outcome<(bytes, int)> {
    match ParseCiphertext(text)
    case Bad(e) => Bad(e)
    case Good((version, data)) =>
      match DecryptRaw(a, c, data, aad)
      case Bad(e) => Bad(e)
      case Good(plain) => Good((plain, version))
  }

  // ---------------------------------------------------------------- results

  /** `text` is `vault:v{n}:{data}` with a decimal int64 and no further colon. */
  ghost predicate IsText(text: string, n: string, version: int, data: string) {
    text == "vault:v" + n + ":" + data && ':' !in n && ':' !in data && Atoi(n) == Some(version)
  }

  /** Exactly those texts parse. */
  lemma ParseExactly(text: string, version: int, data: string)
    ensures ParseCiphertext(text) == Good((version, data)) <==> exists n: string :: IsText(text, n, version, data)
    ensures ParseCiphertext(text).Bad? ==> ParseCiphertext(text) == Bad(InvalidCiphertext)
  {
    var parts := Split(text, ':');
    if ParseCiphertext(text) == Good((version, data)) {
      JoinSplit(text, ':');
      var n := parts[1][1..];
      assert parts[1] == "v" + n;
      assert parts == ["vault", "v" + n, data];
      assert parts[1..] == ["v" + n, data] && parts[1..][1..] == [data];
      assert Join(parts[1..], ':') == "v" + n + ":" + data;
      assert text == "vault" + ":" + ("v" + n + ":" + data) == "vault:v" + n + ":" + data;
      assert parts[1] in parts && parts[2] in parts;
      assert ':' !in n;
      assert IsText(text, n, version, data);
    }
    forall n: string | IsText(text, n, version, data) ensures ParseCiphertext(text) == Good((version, data)) {
      Formatted(n, version, data);
    }
  }

  lemma Formatted(n: string, version: int, data: string)
    requires ':' !in n && ':' !in data && Atoi(n) == Some(version)
    ensures Split("vault:v" + n + ":" + data, ':') == ["vault", "v" + n, data]
    ensures ParseCiphertext("vault:v" + n + ":" + data) == Good((version, data))
  {
    hide Split;
    SplitThree("vault", "v" + n, data, ':');
    assert "vault:v" + n + ":" + data == "vault" + [':'] + ("v" + n) + [':'] + data;
    assert ("v" + n)[1..] == n;
    assert Atoi([]) == None;
  }

  /** The payload of `data`: a 12-byte nonce, then sealed text with its 16-byte tag and at least
      one byte more, which opens under the cipher's key. */
  ghost predicate Opens(a: Aead, c: Cipher, data: string, aad: bytes, plain: bytes) {
    && Base64Decode(data).Some?
    && var raw := Base64Decode(data).value;
      |raw| >= 29 && a.open(c.key, raw[..12], raw[12..], aad) == Some(plain)
  }

  ghost predicate IsCiphertext(a: Aead, c: Cipher, text: string, aad: bytes, plain: bytes, version: int, n: string, data: string) {
    IsText(text, n, version, data) && Opens(a, c, data, aad, plain)
  }

  /** Exactly the texts of that form whose payload opens are decrypted. */
  lemma DecryptExactly(a: Aead, c: Cipher, text: string, aad: bytes, plain: bytes, version: int)
    ensures Decrypt(a, c, text, aad) == Good((plain, version)) <==>
      exists n: string, data: string :: IsCiphertext(a, c, text, aad, plain, version, n, data)
  {
    hide ParseCiphertext, IsText, Base64Decode;
    if ParseCiphertext(text).Good? {
      var (v, data) := ParseCiphertext(text).value;
      ParseExactly(text, v, data);
      if Decrypt(a, c, text, aad) == Good((plain, version)) {
        var n: string :| IsText(text, n, version, data);
        assert IsCiphertext(a, c, text, aad, plain, version, n, data);
      }
    }
    forall n: string, data: string | IsCiphertext(a, c, text, aad, plain, version, n, data)
      ensures Decrypt(a, c, text, aad) == Good((plain, version))
    {
      ParseExactly(text, version, data);
    }
  }

  /** Why a text of the right form is not decrypted, and a nonce not accepted. */
  lemma CipherErrors(a: Aead, c: Cipher, text: string, aad: bytes, plain: bytes, nonce: bytes, version: int, data: string)
    requires ParseCiphertext(text) == Good((version, data))
    ensures Base64Decode(data).None? ==> Decrypt(a, c, text, aad) == Bad(BadBase64)
    ensures Base64Decode(data).Some? ==>
      var raw := Base64Decode(data).value;
      && (|raw| < 29 ==> Decrypt(a, c, text, aad) == Bad(CiphertextTooShort))
      && (|raw| >= 29 && a.open(c.key, raw[..12], raw[12..], aad).None? ==> Decrypt(a, c, text, aad) == Bad(DecryptionFailed))
    ensures |nonce| != 12 ==> EncryptWithNonce(a, c, plain, aad, nonce) == Bad(InvalidNonceSize)
  {
    hide ParseCiphertext, Base64Decode;
  }

  /** What is encrypted under any int64 version parses back to that version and its payload,
      and decrypts to the plaintext exactly when the plaintext is not empty. */
  lemma EnvelopeRoundTrip(a: Aead, c: Cipher, plain: bytes, aad: bytes, nonce: bytes)
    requires IsAead(a) && -TWO_63 <= c.version < TWO_63 && |nonce| == NONCE_SIZE
    ensures var text := EncryptWithNonce(a, c, plain, aad, nonce);
      && text.Good?
      && text.value == "vault:v" + FormatInt(c.version) + ":" + Base64Encode(nonce + a.seal(c.key, nonce, plain, aad))
      && |Split(text.value, ':')| == 3
      && ParseCiphertext(text.value)
         == Good((c.version, Base64Encode(nonce + a.seal(c.key, nonce, plain, aad))))
      && Decrypt(a, c, text.value, aad)
         == (if plain == [] then Bad(CiphertextTooShort) else Good((plain, c.version)))
  {
    var payload := nonce + a.seal(c.key, nonce, plain, aad);
    Base64RoundTrip(payload);
    AtoiFormat(c.version);
    hide Split, Base64Encode, Base64Decode, FormatInt, Atoi;
    var n := FormatInt(c.version);
    assert ':' !in n by {
      assert forall ch | ch in n :: IsDigit(ch) || ch == '-';
    }
    assert PREFIX + ":v" == "vault:v";
    Formatted(n, c.version, Base64Encode(payload));
    assert payload[..NONCE_SIZE] == nonce && payload[NONCE_SIZE..] == a.seal(c.key, nonce, plain, aad);
  }
}
