/**
  PKCS#7 padding (RFC 5652 section 6.3) as main.go writes it: `pkcs7Pad`
  appends the pad, `pkcs7Unpad` removes it after a lax check that bounds only the last byte.
*/
module Pkcs7 {
  import opened Common

  /** The one error `pkcs7Unpad` reports, Go's `io.ErrUnexpectedEOF`. */
  datatype UnpadError = UnexpectedEOF

  /** Go's conversion `byte(n)`: only the low eight bits survive. */
  function ToByte(n: nat): (b: byte)
    ensures n < 256 ==> b as int == n
  {
    (n % 256) as byte
  }

  /** `blockSize - len(data)%blockSize`: how many bytes `pkcs7Pad` appends. */
  function PadLen(len: nat, blockSize: nat): (n: nat)
    requires blockSize > 0
    ensures 1 <= n <= blockSize
    ensures (len + n) % blockSize == 0
  {
    AlignUp(len, blockSize);
    blockSize - len % blockSize
  }

  lemma AlignUp(len: nat, blockSize: nat)
    requires blockSize > 0
    ensures (len + (blockSize - len % blockSize)) % blockSize == 0
  {
    var q := len / blockSize;
    assert len + (blockSize - len % blockSize) == (q + 1) * blockSize;
    MultipleMod(q + 1, blockSize);
  }

  lemma MultipleMod(k: nat, m: nat)
    requires m > 0
    ensures (k * m) % m == 0
  {
    var q, r := (k * m) / m, (k * m) % m;
    assert (k - q) * m == r;
    if k - q >= 1 {
      assert false;
    } else if k - q <= -1 {
      assert false;
    }
  }

  /**
    `pkcs7Pad(data, blockSize)`: the input followed by `padLen` copies of
    `byte(padLen)`, where `padLen` is 1..blockSize and makes the length a
    multiple of the block size.
  */
  function Pad(data: Bytes, blockSize: nat): (r: Bytes)
    requires blockSize > 0
    ensures |r| % blockSize == 0
    ensures |data| < |r| <= |data| + blockSize
    ensures |data| % blockSize == 0 ==> |r| == |data| + blockSize
    ensures r[..|data|] == data
    ensures forall i | |data| <= i < |r| :: r[i] == ToByte(|r| - |data|)
    ensures blockSize < 256 ==> forall i | |data| <= i < |r| :: r[i] as int == |r| - |data|
  {
    var n := PadLen(|data|, blockSize);
    data + seq(n, _ => ToByte(n))
  }

  /**
    `pkcs7Unpad(data)`: fails on empty input or when the last byte exceeds
    the length; otherwise drops as many trailing bytes as the last byte says.
    The pad bytes themselves are never compared, and a last byte of 0 is
    accepted.
  */
  function Unpad(data: Bytes): (r: Result<Bytes, UnpadError>)
    ensures r.Err? <==> |data| == 0 || data[|data| - 1] as int > |data|
    ensures r.Ok? ==> |r.value| == |data| - data[|data| - 1] as int
    ensures r.Ok? ==> r.value == data[..|r.value|]
  {
    var length := |data|;
    if length == 0 then Err(UnexpectedEOF)
    else
      var padLen := data[length - 1] as int;
      if padLen > length then Err(UnexpectedEOF)
      else Ok(data[..length - padLen])
  }

  /**
    The textbook acceptance test of RFC 5652 section 6.3: a whole number of
    blocks ending in `n` bytes of value `n`, with 1 <= n <= blockSize.
  */
  predicate StrictlyPadded(data: Bytes, blockSize: nat)
    requires blockSize > 0
  {
    && |data| > 0
    && |data| % blockSize == 0
    && var n := data[|data| - 1] as int;
    && 1 <= n <= blockSize
    && n <= |data|
    && forall i | |data| - n <= i < |data| :: data[i] as int == n
  }

  /** Unpadding what was padded gives the original bytes back, with no error. */
  lemma UnpadPad(data: Bytes, blockSize: nat)
    requires 0 < blockSize < 256
    ensures Unpad(Pad(data, blockSize)) == Ok(data)
  {
    var r := Pad(data, blockSize);
    assert r[|r| - 1] as int == |r| - |data|;
  }

  /** Every padded output passes the textbook test too. */
  lemma PadIsStrict(data: Bytes, blockSize: nat)
    requires 0 < blockSize < 256
    ensures StrictlyPadded(Pad(data, blockSize), blockSize)
  {
    var r := Pad(data, blockSize);
    assert r[|r| - 1] as int == |r| - |data|;
  }

  /** On textbook-valid input the lax check agrees with the standard one. */
  lemma UnpadAgreesOnStrict(data: Bytes, blockSize: nat)
    requires blockSize > 0
    requires StrictlyPadded(data, blockSize)
    ensures Unpad(data) == Ok(data[..|data| - data[|data| - 1] as int])
  {
  }

  /** A last byte of 0 passes the check and removes nothing. */
  lemma UnpadZeroKeepsAll(data: Bytes)
    requires |data| > 0 && data[|data| - 1] == 0
    ensures Unpad(data) == Ok(data)
  {
    assert data[..|data|] == data;
  }

  /**
    The check is strictly laxer than the standard: it accepts inputs the
    standard rejects, with a zero pad byte or pad bytes that disagree.
  */
  lemma UnpadAcceptsNonStandard()
    ensures Unpad([0]) == Ok([0]) && !StrictlyPadded([0], 16)
    ensures Unpad([7, 2]) == Ok([]) && !StrictlyPadded([7, 2], 2)
  {
    assert [0 as byte][..1] == [0];
    var odd: Bytes := [7, 2];
    assert odd[0] as int != 2;
  }
}
