/**
 * The machine-bound encryption envelope of internal/crypto/encryption.go.
 *
 * An envelope is base64(salt(16) ++ nonce(12) ++ sealed), where sealed is the
 * AES-256-GCM ciphertext followed by its 16-byte tag.  PBKDF2, AES-GCM and the
 * machine identity are foreign: the cryptographic primitives are given as a
 * `Primitives` value and `Lawful` states what the envelope logic relies on.
 * The machine identity is an `Option` (None: the host name could not be read).
 */
module Encryption {
  import opened Wrappers
  import opened Base64

  const SaltSize := 16
  const NonceSize := 12   // gcm.NonceSize() for AES-GCM
  const TagSize := 16
  const KeySize := 32
  /** salt + nonce + tag: the shortest envelope Decrypt accepts. */
  const MinEnvelope := SaltSize + 12 + 16

  /** pbkdf2.Key(machineID, salt, 100000, 32, sha256.New), GCM Seal and GCM Open
      (None is Open's authentication failure). */
  datatype Primitives = Primitives(
    deriveKey: (Bytes, Bytes) -> Bytes,
    seal: (Bytes, Bytes, Bytes) -> Bytes,
    open: (Bytes, Bytes, Bytes) -> Option<Bytes>)

  /** What the envelope relies on: PBKDF2 yields 32-byte keys; for a 32-byte key
      and a 12-byte nonce, Seal appends a 16-byte tag and Open undoes Seal.
      Determinism of the key derivation is that of a function. */
  ghost predicate Lawful(p: Primitives)
  {
    && (forall id, salt :: |p.deriveKey(id, salt)| == KeySize)
    && (forall k, n, pt | |k| == KeySize && |n| == NonceSize ::
          |p.seal(k, n, pt)| == |pt| + TagSize && p.open(k, n, p.seal(k, n, pt)) == Some(pt))
  }

  /** The key lengths aes.NewCipher accepts: AES-128, AES-192 and AES-256. */
  predicate AesKeyLength(n: int)
  {
    n == 16 || n == 24 || n == 32
  }

  datatype CryptoError =
    | IdentityUnavailable   // "failed to get machine ID"
    | EntropyUnavailable    // "failed to generate salt" / "failed to generate nonce"
    | CipherSetupFailed     // "failed to create cipher" (a key that is not 16, 24 or 32 bytes)
    | Base64Invalid         // "failed to decode base64"
    | InvalidCiphertext     // ErrInvalidCiphertext
    | DecryptionFailed      // ErrDecryptionFailed

  /** Go's (string, error) pair. */
  datatype Returned = Returned(text: Bytes, err: Option<CryptoError>)

  /** The binary envelope before base64. */
  function Frame(salt: Bytes, nonce: Bytes, sealed: Bytes): (f: Bytes)
    requires |salt| == SaltSize && |nonce| == NonceSize
    ensures |f| == SaltSize + NonceSize + |sealed|
    ensures f[..SaltSize] == salt
    ensures f[SaltSize..SaltSize + NonceSize] == nonce
    ensures f[SaltSize + NonceSize..] == sealed
  {
    salt + nonce + sealed
  }

  /** The envelope Encrypt produces from a given salt and nonce. */
  function Envelope(p: Primitives, machineId: Bytes, salt: Bytes, nonce: Bytes, plaintext: Bytes): Bytes
    requires |salt| == SaltSize && |nonce| == NonceSize
  {
    Encode(Frame(salt, nonce, p.seal(p.deriveKey(machineId, salt), nonce, plaintext)))
  }

  /** crypto/rand.Reader: `pool` is what the source can still deliver. */
  class RandomSource {
    var pool: Bytes

    constructor(pool: Bytes)
      ensures this.pool == pool
    {
      this.pool := pool;
    }

    /** io.ReadFull: fills `buf` completely, or fails when the source runs dry. */
    method ReadFull(buf: array<Byte>) returns (ok: bool)
      modifies this, buf
      ensures ok == (buf.Length <= |old(pool)|)
      ensures ok ==> buf[..] == old(pool)[..buf.Length] && pool == old(pool)[buf.Length..]
      ensures !ok ==> pool == []
    {
      ok := buf.Length <= |pool|;
      if ok {
        forall i | 0 <= i < buf.Length {
          buf[i] := pool[i];
        }
        pool := pool[buf.Length..];
      } else {
        pool := [];
      }
    }
  }

  lemma DerivedKeyLength(p: Primitives, id: Bytes, salt: Bytes)
    requires Lawful(p)
    ensures |p.deriveKey(id, salt)| == KeySize
  {
  }

  /** Encrypt: empty input stays empty; otherwise draw a salt, derive the key,
      draw a nonce, seal, and base64-encode salt ++ nonce ++ sealed. */
  method Encrypt(p: Primitives, machineId: Option<Bytes>, rand: RandomSource, plaintext: Bytes)
    returns (r: Returned)
    modifies rand
    ensures r.err.Some? ==> r.text == []
    ensures plaintext == [] ==> r == Returned([], None) && rand.pool == old(rand.pool)
    ensures plaintext != [] && machineId.None? ==>
      r == Returned([], Some(IdentityUnavailable)) && rand.pool == old(rand.pool)
    ensures plaintext != [] && machineId.Some? && |old(rand.pool)| < SaltSize ==>
      r.err == Some(EntropyUnavailable)
    // with the salt drawn, a lawful key always sets up the cipher, so the only
    // failure left is the nonce read
    ensures Lawful(p) && plaintext != [] && machineId.Some? && |old(rand.pool)| < SaltSize + NonceSize ==>
      r == Returned([], Some(EntropyUnavailable))
    ensures r.err.None? && plaintext != [] ==>
      && machineId.Some?
      && |old(rand.pool)| >= SaltSize + NonceSize
      && r.text == Envelope(p, machineId.value, old(rand.pool)[..SaltSize],
                            old(rand.pool)[SaltSize..SaltSize + NonceSize], plaintext)
      && rand.pool == old(rand.pool)[SaltSize + NonceSize..]
    ensures Lawful(p) && plaintext != [] && machineId.Some? ==>
      (r.err.None? <==> |old(rand.pool)| >= SaltSize + NonceSize)
  {
    if plaintext == [] {
      return Returned([], None);
    }
    if machineId.None? {
      return Returned([], Some(IdentityUnavailable));
    }
    ghost var pool0 := rand.pool;
    var salt := new Byte[SaltSize];
    var ok := rand.ReadFull(salt);
    if !ok {
      return Returned([], Some(EntropyUnavailable));
    }
    var key := p.deriveKey(machineId.value, salt[..]);
    if Lawful(p) {
      DerivedKeyLength(p, machineId.value, salt[..]);
    }
    if !AesKeyLength(|key|) {
      return Returned([], Some(CipherSetupFailed));
    }
    var nonce := new Byte[NonceSize];
    ok := rand.ReadFull(nonce);
    if !ok {
      return Returned([], Some(EntropyUnavailable));
    }
    assert nonce[..] == pool0[SaltSize..SaltSize + NonceSize];
    var ciphertext := p.seal(key, nonce[..], plaintext);
    var result: Bytes := [];
    result := result + salt[..];
    result := result + nonce[..];
    result := result + ciphertext;
    assert result == Frame(salt[..], nonce[..], ciphertext);
    r := Returned(Encode(result), None);
  }

  /** Decrypt: empty input stays empty; otherwise base64-decode, check the
      length, re-derive the key from the stored salt and open the rest. */
  function Decrypt(p: Primitives, machineId: Option<Bytes>, ciphertextBase64: Bytes): (r: Returned)
    // an error never comes with partial output
    ensures r.err.Some? ==> r.text == []
    ensures ciphertextBase64 == [] ==> r == Returned([], None)
    ensures r.err == Some(Base64Invalid) <==> ciphertextBase64 != [] && Decode(ciphertextBase64).None?
    // the only source of InvalidCiphertext is the first length check: the second is unreachable
    ensures r.err == Some(InvalidCiphertext) <==>
      ciphertextBase64 != [] && Decode(ciphertextBase64).Some? && |Decode(ciphertextBase64).value| < MinEnvelope
    // past the format checks, a missing machine identity is the next error
    ensures ciphertextBase64 != [] && machineId.None? && Decode(ciphertextBase64).Some? &&
            |Decode(ciphertextBase64).value| >= MinEnvelope ==>
      r == Returned([], Some(IdentityUnavailable))
    // a lawful key always sets up the cipher
    ensures Lawful(p) ==> r.err != Some(CipherSetupFailed)
    // under a lawful key every failure of Open is reported as ErrDecryptionFailed
    ensures Lawful(p) && ciphertextBase64 != [] && machineId.Some? && Decode(ciphertextBase64).Some? ==>
      var data := Decode(ciphertextBase64).value;
      |data| >= MinEnvelope &&
      p.open(p.deriveKey(machineId.value, data[..SaltSize]), data[SaltSize..SaltSize + NonceSize],
             data[SaltSize + NonceSize..]).None? ==>
      r == Returned([], Some(DecryptionFailed))
    // under a lawful key an authenticated Open gives its plaintext and no error
    ensures Lawful(p) && ciphertextBase64 != [] && machineId.Some? && Decode(ciphertextBase64).Some? ==>
      var data := Decode(ciphertextBase64).value;
      |data| >= MinEnvelope &&
      p.open(p.deriveKey(machineId.value, data[..SaltSize]), data[SaltSize..SaltSize + NonceSize],
             data[SaltSize + NonceSize..]).Some? ==>
      r == Returned(p.open(p.deriveKey(machineId.value, data[..SaltSize]), data[SaltSize..SaltSize + NonceSize],
                           data[SaltSize + NonceSize..]).value, None)
    // success on a non-empty input means Open authenticated exactly the returned text
    ensures r.err.None? && ciphertextBase64 != [] ==>
      && machineId.Some? && Decode(ciphertextBase64).Some?
      && var data := Decode(ciphertextBase64).value;
      && |data| >= MinEnvelope
      && p.open(p.deriveKey(machineId.value, data[..SaltSize]),
                data[SaltSize..SaltSize + NonceSize], data[SaltSize + NonceSize..]) == Some(r.text)
  {
    if ciphertextBase64 == [] then Returned([], None)
    else match Decode(ciphertextBase64)
      case None => Returned([], Some(Base64Invalid))
      case Some(data) =>
        if |data| < SaltSize + 12 + 16 then Returned([], Some(InvalidCiphertext))
        else match machineId
          case None => Returned([], Some(IdentityUnavailable))
          case Some(id) =>
            var key := p.deriveKey(id, data[..SaltSize]);
            if !AesKeyLength(|key|) then Returned([], Some(CipherSetupFailed))
            else if |data| < SaltSize + NonceSize then Returned([], Some(InvalidCiphertext))
            else
              match p.open(key, data[SaltSize..SaltSize + NonceSize], data[SaltSize + NonceSize..])
              case None => Returned([], Some(DecryptionFailed))
              case Some(plaintext) => Returned(plaintext, None)
  }

  /** The heuristic: a non-empty value that decodes to at least 44 bytes. */
  function IsEncrypted(value: Bytes): (r: bool)
    ensures value == [] ==> !r
    ensures Decode(value).None? ==> !r
    ensures r <==> Decode(value).Some? && |Decode(value).value| >= MinEnvelope
  {
    if value == [] then false
    else match Decode(value)
      case None => false
      case Some(data) => |data| >= SaltSize + 12 + 16
  }

  /** Round trip: on the machine that encrypted it, the envelope decrypts back
      to the non-empty plaintext. */
  lemma DecryptEnvelope(p: Primitives, id: Bytes, salt: Bytes, nonce: Bytes, plaintext: Bytes)
    requires Lawful(p)
    requires |salt| == SaltSize && |nonce| == NonceSize
    ensures Decrypt(p, Some(id), Envelope(p, id, salt, nonce, plaintext)) == Returned(plaintext, None)
  {
    var key := p.deriveKey(id, salt);
    var sealed := p.seal(key, nonce, plaintext);
    var frame := Frame(salt, nonce, sealed);
    DecodeEncode(frame);
    EncodeInjective(frame, []);
  }

  /** Every envelope passes the IsEncrypted heuristic. */
  lemma EnvelopeIsEncrypted(p: Primitives, id: Bytes, salt: Bytes, nonce: Bytes, plaintext: Bytes)
    requires Lawful(p)
    requires |salt| == SaltSize && |nonce| == NonceSize
    ensures IsEncrypted(Envelope(p, id, salt, nonce, plaintext))
  {
    var key := p.deriveKey(id, salt);
    var frame := Frame(salt, nonce, p.seal(key, nonce, plaintext));
    DecodeEncode(frame);
    EncodeInjective(frame, []);
  }

  /** Two encryptions that drew different salts give different envelopes. */
  lemma DistinctSaltsDistinctEnvelopes(p: Primitives, id: Bytes, salt1: Bytes, salt2: Bytes,
                                       nonce1: Bytes, nonce2: Bytes, plaintext: Bytes)
    requires |salt1| == SaltSize && |nonce1| == NonceSize
    requires |salt2| == SaltSize && |nonce2| == NonceSize
    requires salt1 != salt2
    ensures Envelope(p, id, salt1, nonce1, plaintext) != Envelope(p, id, salt2, nonce2, plaintext)
  {
    var f1 := Frame(salt1, nonce1, p.seal(p.deriveKey(id, salt1), nonce1, plaintext));
    var f2 := Frame(salt2, nonce2, p.seal(p.deriveKey(id, salt2), nonce2, plaintext));
    assert f1[..SaltSize] != f2[..SaltSize];
    EncodeInjective(f1, f2);
  }

  /** IsEncrypted holds exactly for the non-empty inputs that Decrypt gets
      past its format checks. */
  lemma IsEncryptedPassesFormatChecks(p: Primitives, machineId: Option<Bytes>, value: Bytes)
    ensures IsEncrypted(value) <==>
      value != [] && Decrypt(p, machineId, value).err != Some(Base64Invalid)
                  && Decrypt(p, machineId, value).err != Some(InvalidCiphertext)
  {
  }
}
