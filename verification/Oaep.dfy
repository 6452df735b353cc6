/** RSAES-OAEP as PKCS1OAepCipher writes it (section 7.1 of RFC 8017). The hash and the
    mask generation function are abstract; everything between them is concrete. */
module Oaep {
  import opened Bits
  import opened Bytes
  import opened NumberTheory
  import opened Wrappers

  /** A mask generation function: the only thing known of it is the mask's length. */
  type MaskFunction = f: (Bytes, nat) -> Bytes | forall s, n :: |f(s, n)| == n
    witness (s: Bytes, n: nat) => Zeros(n)

  /** The label hash is always SHA-1, whatever hash the cipher was given. */
  const SHA1_LENGTH: nat := 20

  type LabelHash = h: Bytes | |h| == SHA1_LENGTH witness Zeros(20)

  /** p and q are the prime factors of n; the cipher itself never reads them. */
  datatype Key = Key(n: nat, e: nat, d: nat, p: nat, q: nat)

  datatype Cipher = Cipher(key: Key, hLen: nat, mgf: MaskFunction, lHash: LabelHash)

  datatype Error = TooLong | WrongLength | XorLengthMismatch | IncorrectDecryption

  ghost predicate RsaKey(key: Key) {
    && Prime(key.p) && Prime(key.q) && key.p != key.q
    && key.n == key.p * key.q && InverseExponents(key.p, key.q, key.e, key.d)
  }

  // --- Encryption -----------------------------------------------------------

  /** The masked block that is exponentiated, for padding string length psLen. */
  function EncodeBlock(c: Cipher, seed: Bytes, db: Bytes): Bytes
    requires |seed| == c.hLen
  {
    var maskedDb := XorBytes(db, c.mgf(seed, |db|));
    [0] + XorBytes(seed, c.mgf(maskedDb, c.hLen)) + maskedDb
  }

  function DataBlock(c: Cipher, psLen: nat, message: Bytes): Bytes {
    c.lHash + Zeros(psLen) + [1] + message
  }

  function Encrypt(c: Cipher, seed: Bytes, message: Bytes): Result<Bytes, Error>
    requires c.key.n > 0 && |seed| == c.hLen
  {
    var k := ModulusBytes(c.key.n);
    var psLen := k - |message| - 2 * c.hLen - 2;
    if psLen < 0 then Err(TooLong)
    else
      var db := DataBlock(c, psLen, message);
      if |db| != k - c.hLen - 1 then Err(XorLengthMismatch)
      else Ok(IntToOctets(PowMod(OctetsToInt(EncodeBlock(c, seed, db)), c.key.e, c.key.n), k))
  }

  // --- Decryption -----------------------------------------------------------

  /** What a block must look like after the label hash: zeros, a one, the message. */
  function StripPadding(s: Bytes): Option<Bytes> {
    if s == [] then None
    else if s[0] == 1 then Some(s[1..])
    else if s[0] == 0 then StripPadding(s[1..])
    else None
  }

  function Unmask(c: Cipher, em: Bytes): (seedAndDb: (Bytes, Bytes))
    requires |em| >= c.hLen + 2
    ensures |seedAndDb.0| == c.hLen && |seedAndDb.1| == |em| - c.hLen - 1
  {
    var maskedDb := em[c.hLen + 1..];
    var seed := XorBytes(em[1..c.hLen + 1], c.mgf(maskedDb, c.hLen));
    (seed, XorBytes(maskedDb, c.mgf(seed, |maskedDb|)))
  }

  /** Section 7.1.2, step 3g of RFC 8017, stated on the block instead of computed. */
  function Unpad(c: Cipher, y: Byte, db: Bytes): Result<Bytes, Error> {
    if |Take(db, c.hLen)| != SHA1_LENGTH then Err(XorLengthMismatch)
    else if y != 0 || Take(db, c.hLen) != c.lHash then Err(IncorrectDecryption)
    else match StripPadding(Drop(db, c.hLen))
      case None => Err(IncorrectDecryption)
      case Some(message) => Ok(message)
  }

  function DecodedBlock(c: Cipher, ciphertext: Bytes): (em: Bytes)
    requires c.key.n > 0
    ensures |em| == ModulusBytes(c.key.n)
  {
    IntToOctets(PowMod(OctetsToInt(ciphertext), c.key.d, c.key.n), ModulusBytes(c.key.n))
  }

  function DecryptSpec(c: Cipher, ciphertext: Bytes): Result<Bytes, Error>
    requires c.key.n > 0
  {
    var k := ModulusBytes(c.key.n);
    if |ciphertext| != k || k < c.hLen + 2 then Err(WrongLength)
    else
      var em := DecodedBlock(c, ciphertext);
      Unpad(c, em[0], Unmask(c, em).1)
  }

  /** The index of the first b in s, or -1. */
  function Find(s: Bytes, b: Byte): (i: int)
    ensures i == -1 ==> b !in s
    ensures i != -1 ==> 0 <= i < |s| && s[i] == b && b !in s[..i]
  {
    if s == [] then -1
    else if s[0] == b then 0
    else
      var i := Find(s[1..], b);
      assert s == [s[0]] + s[1..];
      if i == -1 then -1 else
        assert s[..i + 1] == [s[0]] + s[1..][..i];
        i + 1
  }

  lemma {:induction false} StripPaddingIsFind(s: Bytes)
    ensures var i := Find(s, 1);
            StripPadding(s) ==
              if i != -1 && (forall j :: 0 <= j < i ==> s[j] == 0) then Some(s[i + 1..]) else None
  {
    if s != [] && s[0] != 1 {
      var t, i := s[1..], Find(s, 1);
      StripPaddingIsFind(t);
      if i != -1 {
        assert s[i + 1..] == t[i..];
        assert (forall j :: 0 <= j < i ==> s[j] == 0) <==>
          s[0] == 0 && forall j :: 0 <= j < i - 1 ==> t[j] == 0 by {
          if s[0] == 0 && forall j :: 0 <= j < i - 1 ==> t[j] == 0 {
            forall j | 0 <= j < i ensures s[j] == 0 {
              if j > 0 { assert t[j - 1] == 0; }
            }
          }
          if forall j :: 0 <= j < i ==> s[j] == 0 {
            forall j | 0 <= j < i - 1 ensures t[j] == 0 { assert s[j + 1] == 0; }
          }
        }
      }
    }
  }

  /** The code's check of a block: one accumulator collects every deviation by bitwise or,
      and the separator is searched for before the padding is looked at. */
  method CheckBlock(c: Cipher, y: Byte, db: Bytes) returns (r: Result<Bytes, Error>)
    ensures r == Unpad(c, y, db)
  {
    var rest := Drop(db, c.hLen);
    var onePos := c.hLen + Find(rest, 1);
    var lHash1 := Take(db, c.hLen);
    if |lHash1| != |c.lHash| {
      return Err(XorLengthMismatch);
    }
    var missing := if onePos < c.hLen then 1 else 0;
    OrZero(y, missing);
    var invalid := BitOr(y, missing);
    var hashCompare := XorBytes(lHash1, c.lHash);
    for i := 0 to |hashCompare|
      invariant invalid == 0 <==> y == 0 && missing == 0 && lHash1[..i] == c.lHash[..i]
    {
      OrZero(invalid, hashCompare[i]);
      XorZero(lHash1[i], c.lHash[i]);
      assert lHash1[..i + 1] == lHash1[..i] + [lHash1[i]];
      assert c.lHash[..i + 1] == c.lHash[..i] + [c.lHash[i]];
      invalid := BitOr(invalid, hashCompare[i]);
    }
    assert lHash1[..|lHash1|] == lHash1 && c.lHash[..|c.lHash|] == c.lHash;
    ghost var headerOk := y == 0 && missing == 0 && lHash1 == c.lHash;
    var padding := if onePos < c.hLen then [] else db[c.hLen..onePos];
    for i := 0 to |padding|
      invariant invalid == 0 <==> headerOk && forall j :: 0 <= j < i ==> padding[j] == 0
    {
      OrZero(invalid, padding[i]);
      invalid := BitOr(invalid, padding[i]);
    }
    StripPaddingIsFind(rest);
    assert missing == 0 ==> padding == rest[..onePos - c.hLen];
    if invalid != 0 {
      return Err(IncorrectDecryption);
    }
    assert db[onePos + 1..] == rest[onePos - c.hLen + 1..];
    return Ok(db[onePos + 1..]);
  }

  method Decrypt(c: Cipher, ciphertext: Bytes) returns (r: Result<Bytes, Error>)
    requires c.key.n > 0
    ensures r == DecryptSpec(c, ciphertext)
  {
    var k := ModulusBytes(c.key.n);
    if |ciphertext| != k || k < c.hLen + 2 {
      return Err(WrongLength);
    }
    var em := DecodedBlock(c, ciphertext);
    var maskedSeed, maskedDb := em[1..c.hLen + 1], em[c.hLen + 1..];
    var seed := XorBytes(maskedSeed, c.mgf(maskedDb, c.hLen));
    var db := XorBytes(maskedDb, c.mgf(seed, k - c.hLen - 1));
    r := CheckBlock(c, em[0], db);
  }

  // --- Round trip -----------------------------------------------------------

  lemma {:induction false} StripPaddingBuilds(psLen: nat, message: Bytes)
    ensures StripPadding(Zeros(psLen) + [1] + message) == Some(message)
  {
    var s := Zeros(psLen) + [1] + message;
    if psLen == 0 {
      assert s[1..] == message;
    } else {
      StripPaddingBuilds(psLen - 1, message);
      assert s[1..] == Zeros(psLen - 1) + [1] + message;
    }
  }

  lemma {:induction false} StripPaddingParses(s: Bytes)
    requires StripPadding(s).Some?
    ensures var m := StripPadding(s).value;
            |s| >= |m| + 1 && s == Zeros(|s| - |m| - 1) + [1] + m
  {
    if s[0] != 1 {
      StripPaddingParses(s[1..]);
      var m := StripPadding(s).value;
      assert s == [0] + s[1..];
      assert Zeros(|s| - |m| - 1) == [0] + Zeros(|s| - |m| - 2);
    }
  }

  lemma UnmaskEncode(c: Cipher, seed: Bytes, db: Bytes)
    requires |seed| == c.hLen && |db| >= 1
    ensures |EncodeBlock(c, seed, db)| == c.hLen + 1 + |db|
    ensures Unmask(c, EncodeBlock(c, seed, db)) == (seed, db)
  {
    var em := EncodeBlock(c, seed, db);
    var maskedDb := XorBytes(db, c.mgf(seed, |db|));
    assert em[c.hLen + 1..] == maskedDb;
    assert em[1..c.hLen + 1] == XorBytes(seed, c.mgf(maskedDb, c.hLen));
    XorBytesInvolution(seed, c.mgf(maskedDb, c.hLen));
    XorBytesInvolution(db, c.mgf(seed, |db|));
  }

  lemma EncodeUnmask(c: Cipher, em: Bytes)
    requires |em| >= c.hLen + 2 && em[0] == 0
    ensures var (seed, db) := Unmask(c, em); EncodeBlock(c, seed, db) == em
  {
    var maskedDb := em[c.hLen + 1..];
    var (seed, db) := Unmask(c, em);
    XorBytesInvolution(em[1..c.hLen + 1], c.mgf(maskedDb, c.hLen));
    XorBytesInvolution(maskedDb, c.mgf(seed, |maskedDb|));
    assert em == [0] + em[1..c.hLen + 1] + maskedDb;
  }

  /** Encryption succeeds exactly on a 20-octet hash and messages of at most k - 42 octets,
      and its ciphertext is a k-octet residue of the modulus. */
  lemma EncryptSucceeds(c: Cipher, seed: Bytes, message: Bytes)
    requires c.key.n > 0 && |seed| == c.hLen
    ensures var k, r := ModulusBytes(c.key.n), Encrypt(c, seed, message);
            && (r.Ok? <==> c.hLen == SHA1_LENGTH && |message| + 2 * SHA1_LENGTH + 2 <= k)
            && (r.Ok? ==> |r.value| == k && OctetsToInt(r.value) < c.key.n)
            && (r == Err(TooLong) <==> |message| + 2 * c.hLen + 2 > k)
  {
    ModulusBytesBounds(c.key.n);
    var k := ModulusBytes(c.key.n);
    var psLen := k - |message| - 2 * c.hLen - 2;
    if psLen >= 0 {
      var db := DataBlock(c, psLen, message);
      if |db| == k - c.hLen - 1 {
        IntRoundTrip(PowMod(OctetsToInt(EncodeBlock(c, seed, db)), c.key.e, c.key.n), k);
      }
    }
  }

  /** A leading zero octet keeps the block below the modulus. */
  lemma LeadingZeroFits(n: nat, em: Bytes)
    requires n > 0 && |em| == ModulusBytes(n) > 0 && em[0] == 0
    ensures OctetsToInt(em) < n
  {
    ModulusBytesBounds(n);
    var tail := em[1..];
    OctetsToIntBound(tail);
    assert OctetsToInt(em) == OctetsToInt(tail) by {
      OctetsToIntOne(0);
      OctetsToIntConcat([0], tail);
      assert em == [0] + tail;
      assert 0 * Pow(256, |tail|) == 0;
    }
  }

  lemma KeyInverse(key: Key, x: nat)
    requires RsaKey(key) && x < key.n
    ensures PowMod(PowMod(x, key.e, key.n), key.d, key.n) == x
    ensures PowMod(PowMod(x, key.d, key.n), key.e, key.n) == x
  {
    RsaInverse(key.p, key.q, key.e, key.d, x);
    InverseExponentsSymmetric(key.p, key.q, key.e, key.d);
    RsaInverse(key.p, key.q, key.d, key.e, x);
  }

  lemma DecodeExponentiated(c: Cipher, em: Bytes)
    requires RsaKey(c.key) && c.key.n > 0 && |em| == ModulusBytes(c.key.n) > 0 && em[0] == 0
    ensures DecodedBlock(c, IntToOctets(PowMod(OctetsToInt(em), c.key.e, c.key.n), |em|)) == em
  {
    ModulusBytesBounds(c.key.n);
    LeadingZeroFits(c.key.n, em);
    var x := OctetsToInt(em);
    KeyInverse(c.key, x);
    IntRoundTrip(PowMod(x, c.key.e, c.key.n), |em|);
    OctetsRoundTrip(em);
  }

  lemma UnpadDataBlock(c: Cipher, psLen: nat, message: Bytes)
    requires c.hLen == SHA1_LENGTH
    ensures Unpad(c, 0, DataBlock(c, psLen, message)) == Ok(message)
  {
    var db := DataBlock(c, psLen, message);
    assert Take(db, c.hLen) == c.lHash;
    assert Drop(db, c.hLen) == Zeros(psLen) + [1] + message;
    StripPaddingBuilds(psLen, message);
  }

  /** Whatever the seed, a message within the length bound is encrypted, and decryption
      returns it. */
  lemma RoundTrip(c: Cipher, seed: Bytes, message: Bytes)
    requires RsaKey(c.key) && c.key.n > 0 && |seed| == c.hLen == SHA1_LENGTH
    requires |message| + 2 * c.hLen + 2 <= ModulusBytes(c.key.n)
    ensures Encrypt(c, seed, message).Ok?
    ensures DecryptSpec(c, Encrypt(c, seed, message).value) == Ok(message)
  {
    EncryptSucceeds(c, seed, message);
    var psLen := ModulusBytes(c.key.n) - |message| - 2 * c.hLen - 2;
    var db := DataBlock(c, psLen, message);
    UnmaskEncode(c, seed, db);
    DecodeExponentiated(c, EncodeBlock(c, seed, db));
    UnpadDataBlock(c, psLen, message);
  }

  // --- Soundness ------------------------------------------------------------

  /** The length guard admits k >= hLen + 2, but acceptance needs the standard's bound. */
  lemma AcceptedKeyLength(c: Cipher, ciphertext: Bytes)
    requires c.key.n > 0 && DecryptSpec(c, ciphertext).Ok?
    ensures c.hLen == SHA1_LENGTH
    ensures ModulusBytes(c.key.n) >= 2 * c.hLen + 2 + |DecryptSpec(c, ciphertext).value|
  {
    var db := Unmask(c, DecodedBlock(c, ciphertext)).1;
    StripPaddingParses(Drop(db, c.hLen));
  }

  function RecoveredSeed(c: Cipher, ciphertext: Bytes): (seed: Bytes)
    requires c.key.n > 0 && ModulusBytes(c.key.n) >= c.hLen + 2
    ensures |seed| == c.hLen
  {
    Unmask(c, DecodedBlock(c, ciphertext)).0
  }

  lemma SameResidue(x: int, y: int, n: nat)
    requires n > 0 && Congruent(x, y, n)
    ensures x % n == y % n
  {
    CongruentMod(y, n);
    DividesSum(n, x - y, y % n - y);
    assert (x - y) - (y % n - y) == x - y % n;
    ResidueUnique(x, y % n, n);
  }

  /** The exponentiations undo each other on the residue of the ciphertext. */
  lemma ReexponentiateDecoded(c: Cipher, ciphertext: Bytes)
    requires RsaKey(c.key) && c.key.n > 0
    ensures PowMod(OctetsToInt(DecodedBlock(c, ciphertext)), c.key.e, c.key.n) ==
            OctetsToInt(ciphertext) % c.key.n
  {
    var n, d, x := c.key.n, c.key.d, OctetsToInt(ciphertext);
    ModulusBytesBounds(n);
    IntRoundTrip(PowMod(x, d, n), ModulusBytes(n));
    CongruentMod(x, n);
    CongruentPow(x % n, x, d, n);
    SameResidue(Pow(x % n, d), Pow(x, d), n);
    KeyInverse(c.key, x % n);
  }

  lemma AcceptedBlock(c: Cipher, y: Byte, db: Bytes)
    requires Unpad(c, y, db).Ok?
    ensures var m := Unpad(c, y, db).value;
            && y == 0 && c.hLen == SHA1_LENGTH && |db| >= |m| + c.hLen + 1
            && db == DataBlock(c, |db| - |m| - c.hLen - 1, m)
  {
    StripPaddingParses(Drop(db, c.hLen));
    assert db == Take(db, c.hLen) + Drop(db, c.hLen);
  }

  /** Every accepted ciphertext is, reduced modulo n, an encryption of what was returned. */
  lemma AcceptedIsEncryption(c: Cipher, ciphertext: Bytes)
    requires RsaKey(c.key) && c.key.n > 0 && DecryptSpec(c, ciphertext).Ok?
    ensures Encrypt(c, RecoveredSeed(c, ciphertext), DecryptSpec(c, ciphertext).value) ==
            Ok(IntToOctets(OctetsToInt(ciphertext) % c.key.n, |ciphertext|))
  {
    var em := DecodedBlock(c, ciphertext);
    AcceptedBlock(c, em[0], Unmask(c, em).1);
    EncodeUnmask(c, em);
    ReexponentiateDecoded(c, ciphertext);
  }

  /** Re-encrypting gives the ciphertext itself exactly when it was a residue: the code does
      not reject representatives at or above the modulus, it reduces them. */
  lemma ReencryptsExactly(c: Cipher, ciphertext: Bytes)
    requires RsaKey(c.key) && c.key.n > 0 && DecryptSpec(c, ciphertext).Ok?
    ensures Encrypt(c, RecoveredSeed(c, ciphertext), DecryptSpec(c, ciphertext).value) == Ok(ciphertext)
            <==> OctetsToInt(ciphertext) < c.key.n
  {
    AcceptedIsEncryption(c, ciphertext);
    var n, k, x := c.key.n, |ciphertext|, OctetsToInt(ciphertext);
    ModulusBytesBounds(n);
    OctetsRoundTrip(ciphertext);
    IntRoundTrip(x % n, k);
    if x < n {
      CongruentReflexive(x, n);
      ResidueUnique(x, x, n);
    }
  }

  /** Such representatives exist: with every accepted ciphertext the next one up is accepted too,
      for the same message, if it still fits into k octets. */
  lemma NextRepresentativeIsAccepted(c: Cipher, ciphertext: Bytes)
    requires RsaKey(c.key) && c.key.n > 0 && DecryptSpec(c, ciphertext).Ok?
    requires OctetsToInt(ciphertext) + c.key.n < Pow(256, |ciphertext|)
    ensures var next := IntToOctets(OctetsToInt(ciphertext) + c.key.n, |ciphertext|);
            && next != ciphertext && OctetsToInt(next) >= c.key.n
            && DecryptSpec(c, next) == DecryptSpec(c, ciphertext)
  {
    var n, x := c.key.n, OctetsToInt(ciphertext);
    var next := IntToOctets(x + n, |ciphertext|);
    IntRoundTrip(x + n, |ciphertext|);
    assert (x + n) - x == n * 1;
    CongruentPow(x + n, x, c.key.d, n);
    SameResidue(Pow(x + n, c.key.d), Pow(x, c.key.d), n);
    assert DecodedBlock(c, next) == DecodedBlock(c, ciphertext);
  }

  // --- What the two operations are ------------------------------------------

  /** The block of section 7.1.1, step 2 of RFC 8017: a zero octet, the masked seed, and the masked
      data block, each masked with what is generated from the other. */
  ghost predicate Encodes(c: Cipher, em: Bytes, seed: Bytes, message: Bytes) {
    && |em| == ModulusBytes(c.key.n) && |em| >= 2 * SHA1_LENGTH + 2 + |message|
    && |seed| == c.hLen == SHA1_LENGTH
    && em[0] == 0
    && XorBytes(em[1..SHA1_LENGTH + 1], c.mgf(em[SHA1_LENGTH + 1..], SHA1_LENGTH)) == seed
    && XorBytes(em[SHA1_LENGTH + 1..], c.mgf(seed, |em| - SHA1_LENGTH - 1)) ==
         c.lHash + Zeros(|em| - 2 * SHA1_LENGTH - 2 - |message|) + [1] + message
  }

  lemma EncodesIsEncodeBlock(c: Cipher, em: Bytes, seed: Bytes, message: Bytes)
    requires Encodes(c, em, seed, message)
    ensures em == EncodeBlock(c, seed, DataBlock(c, |em| - 2 * SHA1_LENGTH - 2 - |message|, message))
  {
    EncodeUnmask(c, em);
  }

  lemma EncodeBlockEncodes(c: Cipher, seed: Bytes, message: Bytes)
    requires |seed| == c.hLen == SHA1_LENGTH && ModulusBytes(c.key.n) >= 2 * SHA1_LENGTH + 2 + |message|
    ensures var psLen := ModulusBytes(c.key.n) - |message| - 2 * SHA1_LENGTH - 2;
            Encodes(c, EncodeBlock(c, seed, DataBlock(c, psLen, message)), seed, message)
  {
    var db := DataBlock(c, ModulusBytes(c.key.n) - |message| - 2 * SHA1_LENGTH - 2, message);
    UnmaskEncode(c, seed, db);
  }

  /** A ciphertext is the public power of the encoded block, modulo n. */
  lemma CiphertextIsPower(c: Cipher, seed: Bytes, message: Bytes) returns (em: Bytes)
    requires c.key.n > 0 && |seed| == c.hLen && Encrypt(c, seed, message).Ok?
    ensures Encodes(c, em, seed, message)
    ensures var ciphertext := Encrypt(c, seed, message).value;
            && |ciphertext| == ModulusBytes(c.key.n)
            && IsPower(OctetsToInt(ciphertext), OctetsToInt(em), c.key.e, c.key.n)
  {
    EncryptSucceeds(c, seed, message);
    EncodeBlockEncodes(c, seed, message);
    var k, n := ModulusBytes(c.key.n), c.key.n;
    em := EncodeBlock(c, seed, DataBlock(c, k - |message| - 2 * c.hLen - 2, message));
    PowModIsPower(OctetsToInt(em), c.key.e, n);
    ModulusBytesBounds(n);
    IntRoundTrip(PowMod(OctetsToInt(em), c.key.e, n), k);
  }

  ghost predicate DecodesTo(c: Cipher, ciphertext: Bytes, em: Bytes, seed: Bytes, message: Bytes)
    requires c.key.n > 0
  {
    Encodes(c, em, seed, message) && IsPower(OctetsToInt(em), OctetsToInt(ciphertext), c.key.d, c.key.n)
  }

  lemma DecodedBlockIsPower(c: Cipher, ciphertext: Bytes, em: Bytes)
    requires c.key.n > 0 && |em| == ModulusBytes(c.key.n)
    ensures em == DecodedBlock(c, ciphertext) <==>
            IsPower(OctetsToInt(em), OctetsToInt(ciphertext), c.key.d, c.key.n)
  {
    var x, d, n := OctetsToInt(ciphertext), c.key.d, c.key.n;
    PowModIsPower(x, d, n);
    ModulusBytesBounds(n);
    IntRoundTrip(PowMod(x, d, n), ModulusBytes(n));
    OctetsRoundTrip(em);
  }

  lemma DecodedMeans(c: Cipher, ciphertext: Bytes, message: Bytes) returns (em: Bytes, seed: Bytes)
    requires c.key.n > 0 && DecryptSpec(c, ciphertext) == Ok(message)
    ensures DecodesTo(c, ciphertext, em, seed, message)
  {
    em := DecodedBlock(c, ciphertext);
    var db := Unmask(c, em).1;
    seed := Unmask(c, em).0;
    AcceptedKeyLength(c, ciphertext);
    AcceptedBlock(c, em[0], db);
    EncodeUnmask(c, em);
    EncodeBlockEncodes(c, seed, message);
    DecodedBlockIsPower(c, ciphertext, em);
  }

  lemma MeansDecoded(c: Cipher, ciphertext: Bytes, em: Bytes, seed: Bytes, message: Bytes)
    requires c.key.n > 0 && |ciphertext| == ModulusBytes(c.key.n)
    requires DecodesTo(c, ciphertext, em, seed, message)
    ensures DecryptSpec(c, ciphertext) == Ok(message)
  {
    DecodedBlockIsPower(c, ciphertext, em);
    EncodesIsEncodeBlock(c, em, seed, message);
    var psLen := |em| - 2 * SHA1_LENGTH - 2 - |message|;
    UnmaskEncode(c, seed, DataBlock(c, psLen, message));
    UnpadDataBlock(c, psLen, message);
  }

  /** Decryption returns a message exactly when the private power of the ciphertext, modulo n,
      encodes it, under whatever seed. */
  lemma DecryptsExactly(c: Cipher, ciphertext: Bytes, message: Bytes)
    requires c.key.n > 0
    ensures DecryptSpec(c, ciphertext) == Ok(message) <==>
            && |ciphertext| == ModulusBytes(c.key.n)
            && exists em: Bytes, seed: Bytes :: DecodesTo(c, ciphertext, em, seed, message)
  {
    if DecryptSpec(c, ciphertext) == Ok(message) {
      var em, seed := DecodedMeans(c, ciphertext, message);
    }
    forall em: Bytes, seed: Bytes | |ciphertext| == ModulusBytes(c.key.n) && DecodesTo(c, ciphertext, em, seed, message)
      ensures DecryptSpec(c, ciphertext) == Ok(message)
    {
      MeansDecoded(c, ciphertext, em, seed, message);
    }
  }

  /** The errors: a wrong length first, then label hashes of two lengths to compare, then everything
      else alike. */
  lemma DecryptErrors(c: Cipher, ciphertext: Bytes)
    requires c.key.n > 0
    ensures var k, r := ModulusBytes(c.key.n), DecryptSpec(c, ciphertext);
            var compared := if k - c.hLen - 1 < c.hLen then k - c.hLen - 1 else c.hLen;
            && (r == Err(WrongLength) <==> |ciphertext| != k || k < c.hLen + 2)
            && (r == Err(XorLengthMismatch) <==> |ciphertext| == k >= c.hLen + 2 && compared != SHA1_LENGTH)
            && r != Err(TooLong)
  {
  }
}
