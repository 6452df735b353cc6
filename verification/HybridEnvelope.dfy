/** The envelope of libs/rsa.py: an AES-EAX payload whose key travels under RSA-OAEP.
    AES-EAX and UTF-8 are abstract and known only by the contracts stated here. */
module HybridEnvelope {
  import opened Bytes
  import opened Oaep
  import opened Wrappers

  const PREFIX: Bytes := [72, 89, 66, 82, 73, 68, 58]  // "HYBRID:"

  /** An authenticated cipher: Seal(key, nonce, plaintext) gives (ciphertext, tag). */
  datatype Aead = Aead(seal: (Bytes, Bytes, Bytes) -> (Bytes, Bytes),
                       unseal: (Bytes, Bytes, Bytes, Bytes) -> Option<Bytes>)
  {
    /** Tags have 16 octets, and opening accepts exactly what sealing produces. */
    ghost predicate Valid() {
      && (forall key, nonce, text :: |seal(key, nonce, text).1| == 16)
      && (forall key, nonce, text, ciphertext, tag ::
            unseal(key, nonce, ciphertext, tag) == Some(text) <==> seal(key, nonce, text) == (ciphertext, tag))
    }
  }

  datatype Codec = Codec(encode: string -> Option<Bytes>, decode: Bytes -> Option<string>) {
    ghost predicate Valid() {
      forall text, octets :: decode(octets) == Some(text) <==> encode(text) == Some(octets)
    }
  }

  datatype EnvelopeError = NotEncodable | Rsa(error: Oaep.Error) | BadAesParameter | MacMismatch | NotDecodable

  type Outcome<T> = Result<T, EnvelopeError>

  function SizeInBytes(n: nat): int {
    (BitLength(n) - 1) / 8 + 1
  }

  function Encrypt(aead: Aead, codec: Codec, c: Cipher, text: string,
                   aesKey: Bytes, nonce: Bytes, seed: Bytes): Outcome<Bytes>
    requires c.key.n > 0 && |seed| == c.hLen
  {
    match codec.encode(text)
    case None => Err(NotEncodable)
    case Some(plain) =>
      var (ciphertext, tag) := aead.seal(aesKey, nonce, plain);
      match Oaep.Encrypt(c, seed, aesKey)
      case Err(e) => Err(Rsa(e))
      case Ok(encAesKey) => Ok(PREFIX + (encAesKey + nonce + tag + ciphertext))
  }

  function DecodeText(codec: Codec, octets: Bytes): Outcome<string> {
    match codec.decode(octets)
    case None => Err(NotDecodable)
    case Some(text) => Ok(text)
  }

  /** The fields of a body, cut at the code's clamping slice bounds. */
  datatype Fields = Fields(encAesKey: Bytes, nonce: Bytes, tag: Bytes, ciphertext: Bytes)

  function Cut(body: Bytes, size: nat): Fields {
    Fields(Take(body, size), Slice(body, size, size + 16), Slice(body, size + 16, size + 32), Drop(body, size + 32))
  }

  predicate AesParameters(key: Bytes, nonce: Bytes) {
    |key| in {16, 24, 32} && |nonce| > 0
  }

  function DecryptToken(aead: Aead, codec: Codec, c: Cipher, encrypted: Bytes): Outcome<string>
    requires c.key.n > 0
  {
    if PREFIX <= encrypted then
      BitLengthBounds(c.key.n);
      var f := Cut(encrypted[|PREFIX|..], SizeInBytes(c.key.n));
      match DecryptSpec(c, f.encAesKey)
      case Err(e) => Err(Rsa(e))
      case Ok(aesKey) =>
        if !AesParameters(aesKey, f.nonce) then Err(BadAesParameter)
        else match aead.unseal(aesKey, f.nonce, f.ciphertext, f.tag)
          case None => Err(MacMismatch)
          case Some(plain) => DecodeText(codec, plain)
    else match DecryptSpec(c, encrypted)
      case Err(e) => Err(Rsa(e))
      case Ok(plain) => DecodeText(codec, plain)
  }

  /** The key's own size and the cipher's k are the same number. */
  lemma SizeInBytesIsModulusBytes(n: nat)
    requires n > 0
    ensures SizeInBytes(n) == ModulusBytes(n) >= 1
  {
    BitLengthBounds(n);
  }

  /** The slice bounds fall exactly on the field boundaries. */
  lemma CutConcatenation(encAesKey: Bytes, nonce: Bytes, tag: Bytes, ciphertext: Bytes)
    requires |nonce| == 16 && |tag| == 16
    ensures Cut(encAesKey + nonce + tag + ciphertext, |encAesKey|) == Fields(encAesKey, nonce, tag, ciphertext)
  {
    var k, body := |encAesKey|, encAesKey + nonce + tag + ciphertext;
    assert Take(body, k + 16) == encAesKey + nonce;
    assert Take(body, k + 32) == encAesKey + nonce + tag;
  }

  lemma FourParts(body: Bytes, i: nat, j: nat, k: nat)
    requires i <= j <= k <= |body|
    ensures body == body[..i] + body[i..j] + body[j..k] + body[k..]
  {
  }

  lemma ConcatenationOfCut(body: Bytes, size: nat)
    requires |Cut(body, size).tag| == 16
    ensures var f := Cut(body, size);
            |f.encAesKey| == size && |f.nonce| == 16 && body == f.encAesKey + f.nonce + f.tag + f.ciphertext
  {
    assert |body| >= size + 32;
    FourParts(body, size, size + 16, size + 32);
    var f := Cut(body, size);
    assert f.nonce == body[size..size + 16];
    assert f.tag == body[size + 16..size + 32];
  }

  /** The octets of an envelope: "HYBRID:", the encrypted AES key, nonce, tag, ciphertext. */
  lemma EnvelopeLayout(aead: Aead, codec: Codec, c: Cipher, text: string, aesKey: Bytes, nonce: Bytes, seed: Bytes)
    requires aead.Valid() && c.key.n > 0 && |seed| == c.hLen && |nonce| == 16
    requires Encrypt(aead, codec, c, text, aesKey, nonce, seed).Ok?
    ensures
      var r, at := Encrypt(aead, codec, c, text, aesKey, nonce, seed).value, |"HYBRID:"| + ModulusBytes(c.key.n);
      && |r| >= at + 32
      && (forall i :: 0 <= i < |"HYBRID:"| ==> r[i] == "HYBRID:"[i] as int)
      && Oaep.Encrypt(c, seed, aesKey) == Ok(r[|"HYBRID:"|..at])
      && r[at..at + 16] == nonce
      && codec.encode(text).Some?
      && aead.seal(aesKey, nonce, codec.encode(text).value) == (r[at + 32..], r[at + 16..at + 32])
  {
    EncryptSucceeds(c, seed, aesKey);
    var encAesKey, at := Oaep.Encrypt(c, seed, aesKey).value, |PREFIX| + ModulusBytes(c.key.n);
    var plain := codec.encode(text).value;
    var (ciphertext, tag) := aead.seal(aesKey, nonce, plain);
    assert |aead.seal(aesKey, nonce, plain).1| == 16;
    var r := PREFIX + (encAesKey + nonce + tag + ciphertext);
    assert |"HYBRID:"| == 7 == |PREFIX|;
    assert r[7..at] == encAesKey && r[at..at + 16] == nonce;
    assert r[at + 16..at + 32] == tag && r[at + 32..] == ciphertext;
  }

  /** An envelope opens to its text exactly when its AES key has one of the three lengths. */
  lemma AesKeyLengths(aead: Aead, codec: Codec, c: Cipher, text: string, aesKey: Bytes, nonce: Bytes, seed: Bytes)
    requires aead.Valid() && codec.Valid() && RsaKey(c.key) && c.key.n > 0
    requires c.hLen == SHA1_LENGTH == |seed| && |nonce| == 16
    requires Encrypt(aead, codec, c, text, aesKey, nonce, seed).Ok?
    ensures DecryptToken(aead, codec, c, Encrypt(aead, codec, c, text, aesKey, nonce, seed).value) ==
            if |aesKey| == 16 || |aesKey| == 24 || |aesKey| == 32 then Ok(text) else Err(BadAesParameter)
  {
    EncryptSucceeds(c, seed, aesKey);
    var r := Encrypt(aead, codec, c, text, aesKey, nonce, seed).value;
    var encAesKey := Oaep.Encrypt(c, seed, aesKey).value;
    var plain := codec.encode(text).value;
    var (ciphertext, tag) := aead.seal(aesKey, nonce, plain);
    SizeInBytesIsModulusBytes(c.key.n);
    assert |aead.seal(aesKey, nonce, plain).1| == 16;
    CutConcatenation(encAesKey, nonce, tag, ciphertext);
    assert r[|PREFIX|..] == encAesKey + nonce + tag + ciphertext;
    RoundTrip(c, seed, aesKey);
    assert codec.decode(plain) == Some(text);
  }

  /** An envelope is produced exactly for encodable text under a modulus of 58 octets or more
      (room for a 16-octet AES key), and opening it gives the text back. */
  lemma EnvelopeRoundTrip(aead: Aead, codec: Codec, c: Cipher, text: string,
                          aesKey: Bytes, nonce: Bytes, seed: Bytes)
    requires aead.Valid() && codec.Valid() && RsaKey(c.key) && c.key.n > 0
    requires c.hLen == SHA1_LENGTH == |seed| && |aesKey| == 16 == |nonce|
    ensures var r := Encrypt(aead, codec, c, text, aesKey, nonce, seed);
            && (r.Ok? <==> codec.encode(text).Some? && ModulusBytes(c.key.n) >= 58)
            && (r.Ok? ==> DecryptToken(aead, codec, c, r.value) == Ok(text))
  {
    EncryptSucceeds(c, seed, aesKey);
    if Encrypt(aead, codec, c, text, aesKey, nonce, seed).Ok? {
      AesKeyLengths(aead, codec, c, text, aesKey, nonce, seed);
    }
  }

  /** Nothing else opens: an accepted envelope is the envelope of the text it opens to, under
      the AES key, nonce and seed it carries, exactly when its RSA part is a residue of the
      modulus. */
  lemma AcceptedEnvelope(aead: Aead, codec: Codec, c: Cipher, body: Bytes)
    requires aead.Valid() && codec.Valid() && RsaKey(c.key) && c.key.n > 0
    requires DecryptToken(aead, codec, c, PREFIX + body).Ok?
    ensures var text := DecryptToken(aead, codec, c, PREFIX + body).value;
            var f := Cut(body, ModulusBytes(c.key.n));
            var aesKey := DecryptSpec(c, f.encAesKey);
            && aesKey.Ok?
            && ModulusBytes(c.key.n) >= c.hLen + 2
            && (Encrypt(aead, codec, c, text, aesKey.value, f.nonce, RecoveredSeed(c, f.encAesKey)) == Ok(PREFIX + body)
                <==> OctetsToInt(f.encAesKey) < c.key.n)
  {
    var k := ModulusBytes(c.key.n);
    SizeInBytesIsModulusBytes(c.key.n);
    assert (PREFIX + body)[|PREFIX|..] == body;
    var text, f := DecryptToken(aead, codec, c, PREFIX + body).value, Cut(body, k);
    AcceptedKeyLength(c, f.encAesKey);
    var aesKey := DecryptSpec(c, f.encAesKey).value;
    var plain := aead.unseal(aesKey, f.nonce, f.ciphertext, f.tag).value;
    assert aead.seal(aesKey, f.nonce, plain) == (f.ciphertext, f.tag);
    assert codec.encode(text) == Some(plain);
    ConcatenationOfCut(body, k);
    AcceptedIsEncryption(c, f.encAesKey);
    ReencryptsExactly(c, f.encAesKey);
    var again := Oaep.Encrypt(c, RecoveredSeed(c, f.encAesKey), aesKey).value;
    var rebuilt := again + f.nonce + f.tag + f.ciphertext;
    if PREFIX + rebuilt == PREFIX + body {
      assert (PREFIX + rebuilt)[|PREFIX|..] == rebuilt;
      assert again == rebuilt[..k];
      assert f.encAesKey == body[..k];
    }
  }

  /** A ciphertext from before the envelope still opens unless it happens to begin with the
      prefix; then it is cut short and rejected. */
  lemma LegacyToken(aead: Aead, codec: Codec, c: Cipher, text: string, plain: Bytes, seed: Bytes)
    requires codec.Valid() && RsaKey(c.key) && c.key.n > 0 && |seed| == c.hLen
    requires codec.encode(text) == Some(plain) && Oaep.Encrypt(c, seed, plain).Ok?
    ensures var legacy := Oaep.Encrypt(c, seed, plain).value;
            DecryptToken(aead, codec, c, legacy) ==
              if PREFIX <= legacy then Err(Rsa(WrongLength)) else Ok(text)
  {
    EncryptSucceeds(c, seed, plain);
    SizeInBytesIsModulusBytes(c.key.n);
    RoundTrip(c, seed, plain);
    assert codec.decode(plain) == Some(text);
  }

  /** What follows the prefix must hold the RSA part, or its length is wrong, and at least an octet of
      the nonce, or AES cannot be set up. */
  lemma ShortEnvelopes(aead: Aead, codec: Codec, c: Cipher, body: Bytes)
    requires c.key.n > 0
    ensures var k, r := ModulusBytes(c.key.n), DecryptToken(aead, codec, c, PREFIX + body);
            && (|body| < k ==> r == Err(Rsa(WrongLength)))
            && (r == Err(BadAesParameter) <==>
                  && |body| >= k && DecryptSpec(c, body[..k]).Ok?
                  && (|body| == k || |DecryptSpec(c, body[..k]).value| !in {16, 24, 32}))
  {
    SizeInBytesIsModulusBytes(c.key.n);
    assert (PREFIX + body)[|PREFIX|..] == body;
  }
}
