/**
  `encryptFile` and `decryptFile` of main.go with the file I/O taken out:
  the files that `os.ReadFile` can see are a map from path to contents, and
  the one `os.WriteFile` each call ends with is returned as a `Write`.
  AES in CBC mode (FIPS 197, NIST SP 800-38A section 6.2) is library code
  and stays abstract; the IV that `rand.Read` would produce is a parameter.
*/
module FileCrypto {
  import opened Common
  import Pkcs7

  /** `aes.BlockSize`. */
  const BlockSize: nat := 16

  /** `SuffixEncrypted`, the marker appended to an encrypted file's name. */
  const SuffixEncrypted: string := "-encrypted"

  /** What `os.ReadFile` can read: path to full contents. */
  type Files = map<string, Bytes>

  /** The single `os.WriteFile(path, content, 0644)` a successful call performs. */
  datatype Write = Write(path: string, content: Bytes)

  /**
    The errors the two operations return. `SlicePanic` stands for the Go
    runtime panic of `inputPath[:len(inputPath)-len(SuffixEncrypted)]` on a
    path shorter than the suffix, which ends the whole process.
  */
  datatype Error =
    | ReadFailed(path: string)
    | KeySizeError(size: nat)
    | UnexpectedEOF
    | SlicePanic

  /**
    `CryptBlocks` of the CBC encrypter and decrypter built from
    `aes.NewCipher(key)` and an IV, as opaque functions of (key, iv, src).
  */
  datatype Cbc = Cbc(encrypt: (Bytes, Bytes, Bytes) -> Bytes, decrypt: (Bytes, Bytes, Bytes) -> Bytes)

  /** The key lengths `aes.NewCipher` accepts (AES-128, AES-192, AES-256). */
  predicate ValidKeySize(n: nat) {
    n == 16 || n == 24 || n == 32
  }

  /**
    What the model assumes of the library: on whole blocks, with a valid key
    and a one-block IV, both directions fill exactly `len(src)` bytes and
    decryption undoes encryption under the same key and IV.
  */
  ghost predicate Sound(c: Cbc) {
    && (forall key: Bytes, iv: Bytes, src: Bytes {:trigger c.encrypt(key, iv, src)} ::
          ValidKeySize(|key|) && |iv| == BlockSize && |src| % BlockSize == 0 ==>
            |c.encrypt(key, iv, src)| == |src| && c.decrypt(key, iv, c.encrypt(key, iv, src)) == src)
    && (forall key: Bytes, iv: Bytes, src: Bytes {:trigger c.decrypt(key, iv, src)} ::
          ValidKeySize(|key|) && |iv| == BlockSize && |src| % BlockSize == 0 ==>
            |c.decrypt(key, iv, src)| == |src|)
  }

  /** Where encryption writes: `inputPath + SuffixEncrypted`. */
  function EncryptedPath(inputPath: string): (out: string)
    ensures |out| == |inputPath| + |SuffixEncrypted|
    ensures out[..|inputPath|] == inputPath && out[|inputPath|..] == SuffixEncrypted
  {
    inputPath + SuffixEncrypted
  }

  /** Where decryption writes: the path with its last `len(SuffixEncrypted)` characters cut off. */
  function DecryptedPath(inputPath: string): (out: string)
    requires |inputPath| >= |SuffixEncrypted|
    ensures |out| + |SuffixEncrypted| == |inputPath|
    ensures out == inputPath[..|out|]
  {
    inputPath[..|inputPath| - |SuffixEncrypted|]
  }

  /** The envelope `append(iv, ciphertext...)`. */
  function Seal(iv: Bytes, ciphertext: Bytes): (data: Bytes)
    ensures |data| == |iv| + |ciphertext|
    ensures data[..|iv|] == iv && data[|iv|..] == ciphertext
  {
    iv + ciphertext
  }

  /** Decryption's split at offset `aes.BlockSize` into IV and ciphertext. */
  function Split(data: Bytes): (parts: (Bytes, Bytes))
    requires |data| >= BlockSize
    ensures |parts.0| == BlockSize && parts.0 + parts.1 == data
  {
    (data[..BlockSize], data[BlockSize..])
  }

  /**
    `encryptFile(inputPath, key)`: read, check the key, pad to whole blocks,
    CBC-encrypt under a fresh IV and write `iv ++ ciphertext` beside the
    input under the suffixed name.
  */
  function EncryptFile(c: Cbc, files: Files, inputPath: string, key: Bytes, iv: Bytes): (r: Result<Write, Error>)
    requires |iv| == BlockSize
    ensures inputPath !in files ==> r == Err(ReadFailed(inputPath))
    ensures inputPath in files && !ValidKeySize(|key|) ==> r == Err(KeySizeError(|key|))
    ensures r.Ok? <==> inputPath in files && ValidKeySize(|key|)
    ensures r.Ok? ==> r.value.path == EncryptedPath(inputPath)
    ensures r.Ok? ==> |r.value.content| >= BlockSize && r.value.content[..BlockSize] == iv
  {
    if inputPath !in files then Err(ReadFailed(inputPath))
    else
      var plaintext := files[inputPath];
      if !ValidKeySize(|key|) then Err(KeySizeError(|key|))
      else
        var padded := Pkcs7.Pad(plaintext, BlockSize);
        var ciphertext := c.encrypt(key, iv, padded);
        Ok(Write(EncryptedPath(inputPath), Seal(iv, ciphertext)))
  }

  /**
    `decryptFile(inputPath, key)`: read; reject fewer than 16 bytes; split
    off the IV; check the key; reject a ciphertext that is not whole blocks;
    CBC-decrypt; unpad; write to the path with the suffix cut off.
  */
  function DecryptFile(c: Cbc, files: Files, inputPath: string, key: Bytes): (r: Result<Write, Error>)
    ensures inputPath !in files ==> r == Err(ReadFailed(inputPath))
    ensures inputPath in files && |files[inputPath]| < BlockSize ==> r == Err(UnexpectedEOF)
    ensures inputPath in files && |files[inputPath]| >= BlockSize && !ValidKeySize(|key|) ==>
              r == Err(KeySizeError(|key|))
    ensures (&& inputPath in files && |files[inputPath]| >= BlockSize && ValidKeySize(|key|)
             && (|files[inputPath]| - BlockSize) % BlockSize != 0) ==> r == Err(UnexpectedEOF)
    ensures (&& inputPath in files && |files[inputPath]| >= BlockSize && ValidKeySize(|key|)
             && (|files[inputPath]| - BlockSize) % BlockSize == 0
             && var data := files[inputPath];
                Pkcs7.Unpad(c.decrypt(key, data[..BlockSize], data[BlockSize..])).Err?) ==> r == Err(UnexpectedEOF)
    ensures (&& inputPath in files && |files[inputPath]| >= BlockSize && ValidKeySize(|key|)
             && (|files[inputPath]| - BlockSize) % BlockSize == 0
             && (var data := files[inputPath];
                 Pkcs7.Unpad(c.decrypt(key, data[..BlockSize], data[BlockSize..])).Ok?)
             && |inputPath| < |SuffixEncrypted|) ==> r == Err(SlicePanic)
    ensures (&& inputPath in files && |files[inputPath]| >= BlockSize && ValidKeySize(|key|)
             && (|files[inputPath]| - BlockSize) % BlockSize == 0
             && (var data := files[inputPath];
                 Pkcs7.Unpad(c.decrypt(key, data[..BlockSize], data[BlockSize..])).Ok?)
             && |inputPath| >= |SuffixEncrypted|) ==> r.Ok?
    ensures r.Ok? ==>
              && inputPath in files
              && |files[inputPath]| >= BlockSize && (|files[inputPath]| - BlockSize) % BlockSize == 0
              && ValidKeySize(|key|)
              && |inputPath| >= |SuffixEncrypted| && r.value.path == DecryptedPath(inputPath)
              && var data := files[inputPath];
                 Pkcs7.Unpad(c.decrypt(key, data[..BlockSize], data[BlockSize..])) == Ok(r.value.content)
  {
    if inputPath !in files then Err(ReadFailed(inputPath))
    else
      var data := files[inputPath];
      if |data| < BlockSize then Err(UnexpectedEOF)
      else
        var (iv, ciphertext) := Split(data);
        if !ValidKeySize(|key|) then Err(KeySizeError(|key|))
        else if |ciphertext| % BlockSize != 0 then Err(UnexpectedEOF)
        else
          var plaintext := c.decrypt(key, iv, ciphertext);
          match Pkcs7.Unpad(plaintext)
          case Err(_) => Err(UnexpectedEOF)
          case Ok(unpadded) =>
            if |inputPath| < |SuffixEncrypted| then Err(SlicePanic)
            else Ok(Write(DecryptedPath(inputPath), unpadded))
  }

  /** Cutting the suffix off a suffixed name gives the name back. */
  lemma DecryptedPathOfEncrypted(p: string)
    ensures DecryptedPath(EncryptedPath(p)) == p
  {
  }

  /**
    Conversely, re-appending the suffix restores a path exactly when the path
    really ended in the suffix: decryption does not check that it does.
  */
  lemma EncryptedPathOfDecrypted(q: string)
    requires |q| >= |SuffixEncrypted|
    ensures EncryptedPath(DecryptedPath(q)) == q <==> q[|q| - |SuffixEncrypted|..] == SuffixEncrypted
  {
    var p := DecryptedPath(q);
    assert q == p + q[|p|..];
  }

  /** Decryption's split recovers exactly the IV and ciphertext encryption joined. */
  lemma SplitSeal(iv: Bytes, ciphertext: Bytes)
    requires |iv| == BlockSize
    ensures Split(Seal(iv, ciphertext)) == (iv, ciphertext)
  {
    var data := Seal(iv, ciphertext);
    assert data[..BlockSize] == iv;
    assert data[BlockSize..] == ciphertext;
  }

  /**
    The envelope encryption writes: the IV, then a ciphertext as long as the
    padded plaintext, so the whole is block-aligned and at least two blocks.
  */
  lemma EnvelopeLayout(c: Cbc, files: Files, inputPath: string, key: Bytes, iv: Bytes)
    requires Sound(c) && |iv| == BlockSize
    requires EncryptFile(c, files, inputPath, key, iv).Ok?
    ensures var out := EncryptFile(c, files, inputPath, key, iv).value.content;
            var padded := Pkcs7.Pad(files[inputPath], BlockSize);
            && |out| == BlockSize + |padded|
            && |out| % BlockSize == 0
            && |out| >= 2 * BlockSize
            && Split(out) == (iv, c.encrypt(key, iv, padded))
  {
    var padded := Pkcs7.Pad(files[inputPath], BlockSize);
    SplitSeal(iv, c.encrypt(key, iv, padded));
  }

  /**
    The whole-file round trip: after encryption has written its envelope,
    decrypting that file restores the original contents at the original path.
  */
  lemma DecryptInvertsEncrypt(c: Cbc, files: Files, inputPath: string, key: Bytes, iv: Bytes)
    requires Sound(c) && |iv| == BlockSize
    requires EncryptFile(c, files, inputPath, key, iv).Ok?
    ensures var w := EncryptFile(c, files, inputPath, key, iv).value;
            DecryptFile(c, files[w.path := w.content], w.path, key) == Ok(Write(inputPath, files[inputPath]))
  {
    var w := EncryptFile(c, files, inputPath, key, iv).value;
    var plaintext := files[inputPath];
    var padded := Pkcs7.Pad(plaintext, BlockSize);
    EnvelopeLayout(c, files, inputPath, key, iv);
    Pkcs7.UnpadPad(plaintext, BlockSize);
    DecryptedPathOfEncrypted(inputPath);
    assert c.decrypt(key, iv, c.encrypt(key, iv, padded)) == padded;
  }

  /**
    Two encryptions of one file under different IVs write different
    envelopes, and each decrypts back to the same plaintext.
  */
  lemma DistinctIvsDistinctEnvelopes(c: Cbc, files: Files, inputPath: string, key: Bytes, iv1: Bytes, iv2: Bytes)
    requires Sound(c) && |iv1| == BlockSize && |iv2| == BlockSize && iv1 != iv2
    requires EncryptFile(c, files, inputPath, key, iv1).Ok?
    ensures var w1 := EncryptFile(c, files, inputPath, key, iv1).value;
            var w2 := EncryptFile(c, files, inputPath, key, iv2).value;
            && w1.path == w2.path
            && w1.content != w2.content
            && DecryptFile(c, files[w1.path := w1.content], w1.path, key).Ok?
            && DecryptFile(c, files[w1.path := w1.content], w1.path, key) ==
               DecryptFile(c, files[w2.path := w2.content], w2.path, key)
  {
    DecryptInvertsEncrypt(c, files, inputPath, key, iv1);
    DecryptInvertsEncrypt(c, files, inputPath, key, iv2);
  }

  /**
    A successful decryption read at least two blocks (an IV and one
    ciphertext block) and writes no more bytes than the ciphertext holds.
  */
  lemma DecryptedSize(c: Cbc, files: Files, inputPath: string, key: Bytes)
    requires Sound(c)
    requires DecryptFile(c, files, inputPath, key).Ok?
    ensures |files[inputPath]| >= 2 * BlockSize
    ensures |DecryptFile(c, files, inputPath, key).value.content| <= |files[inputPath]| - BlockSize
  {
    var data := files[inputPath];
    var (iv, ciphertext) := Split(data);
    assert |c.decrypt(key, iv, ciphertext)| == |ciphertext|;
  }
}
