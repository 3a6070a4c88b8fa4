/**
  How `main` chains the scan to the per-file operations: the paths that
  `getDotenvPaths` collects are the ones `encryptFile` or `decryptFile` is
  then applied to, each writing a sibling file under the other mode's name.
*/
module Pipeline {
  import opened PathScanner
  import opened FileCrypto

  /** The decrypt-mode marker is the encrypt-mode marker with the suffix appended. */
  lemma MarkersDifferBySuffix()
    ensures Marker(false) == Marker(true) + SuffixEncrypted
  {
  }

  /**
    Every path a decrypt-mode scan finds is long enough for the suffix cut
    (so decryption cannot panic on it), and decryption writes the `.env`
    beside it, in the same reachable directory.
  */
  lemma DecryptTargetsWriteBeside(fs: Tree, root: string, p: string) returns (names: seq<string>)
    requires p in WalkFrom(fs, root, Marker(false)).found
    ensures IsChain(fs, root, names) && Follow(root, names) in fs
    ensures |p| >= |SuffixEncrypted|
    ensures DecryptedPath(p) == Join(Follow(root, names), Marker(true))
  {
    names := FoundIsMarkerFile(fs, root, Marker(false), p);
    var d := Follow(root, names);
    MarkersDifferBySuffix();
    assert p == Join(d, Marker(true)) + SuffixEncrypted;
    DecryptedPathOfEncrypted(Join(d, Marker(true)));
  }

  /**
    Every path an encrypt-mode scan finds is encrypted into
    `dir/.env-encrypted` in the same reachable directory. A later
    decrypt-mode scan from the same root collects that file, in any tree
    where the directory is still reached the same way and lists it.
  */
  lemma EncryptTargetsWriteBeside(fs: Tree, root: string, p: string) returns (names: seq<string>)
    requires p in WalkFrom(fs, root, Marker(true)).found
    ensures IsChain(fs, root, names) && Follow(root, names) in fs
    ensures EncryptedPath(p) == Join(Follow(root, names), Marker(false))
    ensures forall later: Tree |
              && IsChain(later, root, names) && Follow(root, names) in later
              && Entry(Marker(false), false) in later[Follow(root, names)] ::
              EncryptedPath(p) in WalkFrom(later, root, Marker(false)).found
  {
    names := FoundIsMarkerFile(fs, root, Marker(true), p);
    assert EncryptedPath(p) == Join(Follow(root, names), Marker(false));
    forall later: Tree |
      && IsChain(later, root, names) && Follow(root, names) in later
      && Entry(Marker(false), false) in later[Follow(root, names)]
      ensures EncryptedPath(p) in WalkFrom(later, root, Marker(false)).found
    {
      MarkerFileFound(later, root, names, Marker(false));
    }
  }
}
