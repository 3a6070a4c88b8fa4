# safedotenv in Dafny

safedotenv is a command-line tool. It finds every `.env` file under a
directory and encrypts each one into a sibling `.env-encrypted` file with
AES-CBC. In the other mode it finds every `.env-encrypted` file and decrypts
it back. This project models the core of `main.go` and proves properties of
that model:

- `Pkcs7` models `pkcs7Pad` and `pkcs7Unpad`. It also states the RFC 5652
  section 6.3 padding test, so the lax unpadding check can be compared
  against it.
- `FileCrypto` models `encryptFile` and `decryptFile` as functions from the
  readable files to either an error or the single file write.
  - Every check happens in the same order as in the source: the read, the
    16-byte minimum, the key size, block alignment, unpadding, and the
    suffix cut.
  - AES-CBC is a pair of opaque functions. The lemmas about them assume
    only `Sound`: decryption undoes encryption on whole blocks, with a valid
    key and a one-block IV.
  - The `-encrypted` suffix convention is modelled by `EncryptedPath` and
    `DecryptedPath`.
- `PathScanner` models `getDotenvPaths` as an imperative method with the
  source's explicit stack. It is proved against `WalkFrom`, a recursive
  reference walk over an abstract directory tree. `Marker` names the file
  the scan compares entries against: `.env` in encrypt mode and
  `.env-encrypted` in decrypt mode.
- `Pipeline` connects the two halves. Every file a scan finds has its
  output written beside it, in the same reachable directory, under the other
  mode's name. In decrypt mode the found path is always long enough for the
  suffix cut. In encrypt mode, a later decrypt-mode scan from the same root
  collects the file that was written, in any tree that still reaches that
  directory and lists the file.
- `Common` holds the byte type and the `Result` type.

## Model

| member | source | states |
|---|---|---|
| Pkcs7.Pad | main.go:21-25 | The output is the input followed by 1 to blockSize bytes. Its length is a multiple of the block size, aligned input gains a full block, and every pad byte equals the pad length, truncated to a byte as Go's `byte(padLen)` does. |
| Pkcs7.Unpad | main.go:27-37 | Fails exactly when the input is empty or its last byte exceeds the length. Otherwise the result is the prefix that is shorter by the last byte's value. |
| Pkcs7.UnpadPad | main.go:21-37 | Unpadding a padded input gives the input back, for any block size below 256. |
| Pkcs7.PadIsStrict | main.go:21-25 | Every padded output passes the RFC 5652 padding test. |
| Pkcs7.UnpadAgreesOnStrict | main.go:27-37 | On input that passes the RFC 5652 test, the lax check strips exactly the standard's padding. |
| Pkcs7.UnpadZeroKeepsAll | main.go:32-36 | A last byte of 0 is accepted and removes nothing. |
| Pkcs7.UnpadAcceptsNonStandard | main.go:32-36 | The check accepts inputs the standard rejects: a zero pad byte, and pad bytes that disagree with the last one. |
| FileCrypto.EncryptFile | main.go:39-63 | A missing file gives a read error, and a bad key size gives a key-size error. The call succeeds exactly when the file is readable and the key is 16, 24 or 32 bytes. It then writes to the suffixed path, and the content starts with the IV. |
| FileCrypto.DecryptFile | main.go:65-97 | Each error case holds in source order: a missing file, fewer than 16 bytes, a bad key size, misaligned ciphertext, a failed unpad (`UnexpectedEOF`), and a path too short for the suffix cut (`SlicePanic`). The call succeeds exactly when every check passes. The target is then the cut path, and the content is the unpadding of the decrypted ciphertext. |
| Pkcs7.PadLen | main.go:22 | The pad length is between 1 and the block size and makes the length a multiple of the block size. |
| Pkcs7.ToByte | main.go:23 | Go's `byte(n)` keeps a value below 256 unchanged. |
| FileCrypto.Seal | main.go:61 | The envelope is the IV followed by the ciphertext, and it is exactly as long as both together. |
| FileCrypto.Split | main.go:74-75 | Splitting at offset 16 gives a 16-byte IV and the rest, which together make up the input. |
| FileCrypto.EncryptedPath | main.go:62 | The path followed by `-encrypted`. |
| FileCrypto.DecryptedPath | main.go:95 | The path with its last ten elements removed, and a prefix of it. Go removes ten bytes, and the two agree on ASCII paths. |
| FileCrypto.DecryptedPathOfEncrypted | main.go:95 | Cutting the suffix off a suffixed path gives the path back. |
| FileCrypto.EncryptedPathOfDecrypted | main.go:95 | Re-appending the suffix restores a path if and only if the path ended in `-encrypted`. |
| FileCrypto.SplitSeal | main.go:74-75 | Splitting an envelope at 16 bytes recovers the IV and the ciphertext that were joined. |
| FileCrypto.EnvelopeLayout | main.go:50-62 | The written envelope is the IV plus a ciphertext as long as the padded plaintext. It is block-aligned, at least two blocks long, and splits into the IV and the encryption of the padded plaintext. |
| FileCrypto.DecryptInvertsEncrypt | main.go:39-97 | Decrypting the file that encryption wrote, under the same key, restores the original contents at the original path. |
| FileCrypto.DistinctIvsDistinctEnvelopes | main.go:50-61 | Two encryptions of one file under different IVs write different envelopes to the same path, and both decrypt to the same result. |
| FileCrypto.DecryptedSize | main.go:70-93 | A successful decryption read at least 32 bytes and writes no more than the ciphertext length. |
| PathScanner.Join | main.go:177 | The child path is the directory, a `/`, and the entry name, and is one character longer than both together. |
| PathScanner.SubdirsAreSubdirectories | main.go:175-177 | The scan pushes every subdirectory entry of the directory it reads, and nothing else. |
| PathScanner.MarkerFilesAreMarkers | main.go:178-181 | The scan collects a path from a directory exactly when the directory lists a non-directory entry named as the marker, and each such path is `dir/marker`. |
| PathScanner.GetDotenvPaths | main.go:157-187 | The scan succeeds exactly when the reference walk reads every directory it reaches. A failure names an unreadable directory. On success the result holds the walk's marker files, each as often, as a multiset. |
| PathScanner.ScanEntries | main.go:174-183 | Reading one directory pushes its subdirectories in listing order and appends its marker files in listing order. |
| PathScanner.EntriesAccounted | main.go:164-183 | Popping and reading one directory preserves the scan's invariant. The pushed subdirectories plus the collected files yield exactly what the walk of the directory's entries yields. |
| PathScanner.ChainWithin | main.go:174-177 | Everything found below a reachable directory is found from the root. A fully readable walk reads every reachable directory. |
| PathScanner.MarkerFileFound | main.go:178-181 | Completeness: a marker file in any reachable directory is found. |
| PathScanner.FoundIsMarkerFile | main.go:177-181 | Soundness: every found path is `dir/marker` for a reachable directory that lists a non-directory entry named as the marker. |
| PathScanner.UnreadableReachable | main.go:168-171 | A walk that fails has a reachable directory that cannot be read. |
| Pipeline.MarkersDifferBySuffix | main.go:178-181 | The decrypt-mode marker is the encrypt-mode marker plus `-encrypted`. |
| Pipeline.DecryptTargetsWriteBeside | main.go:116-119 | Every file a decrypt-mode scan finds is long enough for the suffix cut, so decryption never panics on it. Decryption writes the `.env` in the same reachable directory. |
| Pipeline.EncryptTargetsWriteBeside | main.go:116-119 | Every file an encrypt-mode scan finds is encrypted into `dir/.env-encrypted` in the same reachable directory. A later decrypt-mode scan from the same root collects that path in any tree that still reaches the directory and lists the file. |

## Left out

- AES and CBC themselves are library code. They are two opaque functions, and the lemmas assume only the round-trip and length properties in `Sound`.
- `getPassphrase` and PBKDF2 key derivation are not modelled: they are terminal I/O and library code, and the key is a parameter.
- `rand.Read` is not modelled. The IV is a parameter, and a failure of the random source is not modelled.
- `os.ReadFile` is a map lookup. Only a missing file is a read error, so other read failures are not distinguished.
- The failure of `os.WriteFile` is not modelled. A successful call returns the one write it would perform.
- `processDotenvFiles` is not modelled: its goroutines, wait group and error channel are concurrency. Each file's operation is modelled on its own.
- `main`, argument parsing and logging are not modelled, because they are I/O.
- FileCrypto.DecryptedPath: paths are sequences of characters, while Go's `len` and slicing at main.go:95 count UTF-8 bytes. On a non-ASCII path the model cuts ten characters where Go cuts ten bytes. Every path a decrypt-mode scan yields ends in the ASCII suffix, and there the two agree (`Pipeline.DecryptTargetsWriteBeside`).
- FileCrypto.DecryptFile: the same character-versus-byte difference moves the `SlicePanic` bound. A non-ASCII path of fewer than ten characters but at least ten bytes gives `SlicePanic` in the model, while Go cuts it without panicking.
- FileCrypto.DecryptFile: the Go runtime panic of the path slice on a path shorter than ten bytes is modelled as the error `SlicePanic`, though in Go it ends the process. Unpadding failures and short files are both `UnexpectedEOF`, as in the source.
- PathScanner.GetDotenvPaths: `log.Fatal` after a failed `os.ReadDir` is modelled as an error result that names the directory. The error's text is not modelled.
- PathScanner.GetDotenvPaths: the order of the result is not specified, only its contents as a multiset. The stack order makes the order depend on the listing.
- `os.ReadDir` returns entries sorted by name. The model accepts any listing order, which is a more general statement.
- Go slices share backing arrays, and the model works on values, so aliasing is not modelled:
  - In `decryptFile`, `iv` and `ciphertext` alias the bytes `os.ReadFile` returned.
  - `pkcs7Unpad`'s result aliases its own argument, the `plaintext` buffer that `decryptFile` allocates.
- `pkcs7Unpad` is modelled as written, not as section 6.3 of RFC 5652 describes PKCS#7 unpadding. The RFC's check requires every pad byte to equal the pad length. The code only bounds the last byte and never compares the pad bytes. `UnpadAcceptsNonStandard` and `UnpadZeroKeepsAll` state what that lets through.
- Pkcs7.UnpadPad and Pkcs7.PadIsStrict are stated for block sizes below 256. The source only pads with `aes.BlockSize`, which is 16.
