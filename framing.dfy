/**
 * At-rest framing of a chunk blob (index.js:256-281): IV (16 bytes), then the
 * authentication tag (16 bytes), then the ciphertext. AES-256-GCM itself and the
 * PBKDF2 key derivation are parameters: `seal` encrypts under the derived key and
 * a given IV, `open` decrypts and fails on a tag mismatch.
 */
module Framing {
  import opened Wrappers
  import opened Bytes

  const IV_LENGTH: nat := 16
  const TAG_LENGTH: nat := 16
  const HEADER_LENGTH: nat := IV_LENGTH + TAG_LENGTH

  datatype Sealed = Sealed(ciphertext: Bytes, tag: Bytes)

  datatype Frame = Frame(iv: Bytes, tag: Bytes, ciphertext: Bytes)

  /** `encryptChunk`: `Buffer.concat([iv, authTag, encrypted])`. */
  function EncryptChunk(data: Bytes, iv: Bytes, seal: (Bytes, Bytes) -> Sealed): (blob: Bytes)
    ensures |blob| >= |iv| && blob[..|iv|] == iv
  {
    var s := seal(iv, data);
    iv + s.tag + s.ciphertext
  }

  function Min(a: nat, b: nat): nat
  {
    if a <= b then a else b
  }

  /** `slice(0, 16)`, `slice(16, 32)`, `slice(32)`; a short buffer gives short (possibly empty) parts. */
  function SplitFrame(blob: Bytes): (f: Frame)
    ensures f.iv + f.tag + f.ciphertext == blob
    ensures |blob| >= HEADER_LENGTH ==> |f.iv| == IV_LENGTH && |f.tag| == TAG_LENGTH
    ensures |blob| < HEADER_LENGTH ==> f.ciphertext == []
  {
    var a := Min(IV_LENGTH, |blob|);
    var b := Min(HEADER_LENGTH, |blob|);
    assert blob[..a] + blob[a..b] + blob[b..] == blob;
    Frame(blob[..a], blob[a..b], blob[b..])
  }

  /** `decryptChunk`; `None` is the exception a failed tag check raises. */
  function DecryptChunk(blob: Bytes, open: (Bytes, Bytes, Bytes) -> Option<Bytes>): (plain: Option<Bytes>)
    ensures |blob| >= HEADER_LENGTH ==>
      plain == open(blob[..IV_LENGTH], blob[IV_LENGTH..HEADER_LENGTH], blob[HEADER_LENGTH..])
  {
    var f := SplitFrame(blob);
    open(f.iv, f.tag, f.ciphertext)
  }

  /** Splitting undoes the concatenation whenever IV and tag have their fixed lengths. */
  lemma SplitFrameInvertsConcat(iv: Bytes, tag: Bytes, ciphertext: Bytes)
    requires |iv| == IV_LENGTH && |tag| == TAG_LENGTH
    ensures SplitFrame(iv + tag + ciphertext) == Frame(iv, tag, ciphertext)
  {
    var blob := iv + tag + ciphertext;
    assert blob[..IV_LENGTH] == iv;
    assert blob[IV_LENGTH..HEADER_LENGTH] == tag;
    assert blob[HEADER_LENGTH..] == ciphertext;
  }

  /** A GCM ciphertext as long as its plaintext gives a blob exactly 32 bytes longer than the chunk. */
  lemma EncryptedLength(data: Bytes, iv: Bytes, seal: (Bytes, Bytes) -> Sealed)
    requires |iv| == IV_LENGTH && |seal(iv, data).tag| == TAG_LENGTH && |seal(iv, data).ciphertext| == |data|
    ensures |EncryptChunk(data, iv, seal)| == HEADER_LENGTH + |data|
  {
  }

  /**
   * Round trip: when the cipher opens what it sealed under this IV, decrypting
   * the stored blob gives back the chunk as uploaded.
   */
  lemma DecryptInvertsEncrypt(data: Bytes, iv: Bytes, seal: (Bytes, Bytes) -> Sealed, open: (Bytes, Bytes, Bytes) -> Option<Bytes>)
    requires |iv| == IV_LENGTH && |seal(iv, data).tag| == TAG_LENGTH
    requires open(iv, seal(iv, data).tag, seal(iv, data).ciphertext) == Some(data)
    ensures DecryptChunk(EncryptChunk(data, iv, seal), open) == Some(data)
  {
    var s := seal(iv, data);
    SplitFrameInvertsConcat(iv, s.tag, s.ciphertext);
  }
}
