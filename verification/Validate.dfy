/** The kernel signature check: SHA-256 of the loadable segments read through ext2 in
    4096-byte pieces, compared with signature^e mod n. */
module Validate {
  import opened Arithmetic
  import opened Bytes
  import opened Limbs
  import opened Uint2048Spec
  import Uint2048
  import Sha256
  import Ext2Lite
  import Machine

  const PT_LOAD: int := 1
  const TMP_BUF_SIZE: nat := 4096
  const N_UINT2048: nat := 64
  /** A 1024-bit number in limbs. */
  const KEY_LIMBS: nat := 32

  datatype ProgramHeader = ProgramHeader(pType: int, offset: nat, filesz: nat) {
    predicate Valid() { offset + filesz <= 0x1_0000_0000 }
  }

  predicate ValidHeaders(headers: seq<ProgramHeader>) {
    forall h :: h in headers ==> h.Valid()
  }

  /** The file bytes of all loadable segments, in header order. */
  function Loaded(disk: Ext2Lite.Disk, inode: Ext2Lite.Inode, headers: seq<ProgramHeader>): seq<byte>
    requires inode.Valid() && ValidHeaders(headers)
  {
    if headers == [] then []
    else
      var h := headers[|headers| - 1];
      assert h in headers;
      Loaded(disk, inode, headers[..|headers| - 1]) +
      (if h.pType == PT_LOAD then Ext2Lite.FileBytes(disk, inode, h.offset, h.filesz) else [])
  }

  /** However the segments fall into 4096-byte reads, the result is the one-shot digest
      of their concatenation. */
  method CalcElfHash(reader: Ext2Lite.Reader, inode: Ext2Lite.Inode, headers: seq<ProgramHeader>)
    returns (hash: seq<byte>)
    requires reader.Valid() && inode.Valid() && ValidHeaders(headers)
    modifies reader.tmpReadBuf, reader.tmpBlockBuf
    ensures hash == Sha256.Digest(Loaded(reader.disk, inode, headers))
  {
    hide Sha256.Digest, Sha256.Holds, Ext2Lite.FileBytes;
    ghost var disk := reader.disk;
    var tmpBuf := new byte[TMP_BUF_SIZE];
    var shactx := new Sha256.Ctx();
    for i := 0 to |headers|
      invariant shactx.Valid() && fresh(shactx) && fresh(shactx.state) && fresh(shactx.buf)
      invariant shactx.msg == Loaded(disk, inode, headers[..i])
    {
      assert headers[..i + 1][..i] == headers[..i];
      var ph := headers[i];
      if ph.pType != PT_LOAD {
        continue;
      }
      assert ph.Valid();
      var from: nat := ph.offset;
      var rem: nat := ph.filesz;
      ghost var base := shactx.msg;
      FileBytesEmpty(disk, inode, from);
      while rem != 0
        invariant from + rem == ph.offset + ph.filesz && rem <= ph.filesz
        invariant shactx.Valid() && fresh(shactx) && fresh(shactx.state) && fresh(shactx.buf)
        invariant shactx.msg == base + Ext2Lite.FileBytes(disk, inode, ph.offset, ph.filesz - rem)
      {
        var willRead := Machine.Min(TMP_BUF_SIZE, rem);
        var _ := reader.ReadInode(inode, tmpBuf, from, willRead);
        Ext2Lite.FileBytesSplit(disk, inode, ph.offset, ph.filesz - rem, willRead);
        from := from + willRead;
        assert tmpBuf[..willRead] == Ext2Lite.FileBytes(disk, inode, from - willRead, willRead);
        shactx.Update(tmpBuf[..willRead]);
        rem := rem - willRead;
      }
    }
    assert headers[..|headers|] == headers;
    hash := shactx.Hash();
  }

  lemma FileBytesEmpty(disk: Ext2Lite.Disk, inode: Ext2Lite.Inode, from: nat)
    requires inode.Valid() && from <= 0x1_0000_0000
    ensures Ext2Lite.FileBytes(disk, inode, from, 0) == []
  {
  }

  /** A 128-byte string is a number of half a register's width. */
  lemma KeyWidth(s: seq<schar>)
    requires |s| == 4 * KEY_LIMBS
    ensures LeValue(BytesOf(s)) < P(KEY_LIMBS)
  {
    hide P, LeValue, Power256;
    LeBound(BytesOf(s));
    Uint2048.Power256IsP(KEY_LIMBS);
  }

  lemma HashRead(hash: seq<byte>)
    requires |hash| == 32
    ensures Uint2048.BeRead(BytesOf(Chars(hash))) == BeValue(hash)
  {
    hide BeValue, Uint2048.BeRead;
    CharsRoundTrip(hash);
    Uint2048.BeReadRightIff(hash);
  }

  /** The verification primitive of RFC 8017 (RSAVP1, section 5.2.2) on the signature
      section: the ELF is accepted exactly when signature^e mod n is the digest of its
      loadable bytes, read as a big-endian number. That primitive rejects signatures of n or
      more; the program does not, and the equivalence holds for them too. */
  method ValidateElf(reader: Ext2Lite.Reader, inode: Ext2Lite.Inode, headers: seq<ProgramHeader>,
                     signature: seq<schar>, keyE: seq<schar>, keyN: seq<schar>)
    returns (ok: bool)
    requires reader.Valid() && inode.Valid() && ValidHeaders(headers)
    requires |signature| == 128 && |keyE| <= 256 && |keyN| == 128
    requires LeValue(BytesOf(keyN)) > 1
    modifies reader.tmpReadBuf, reader.tmpBlockBuf
    ensures ok <==>
            Exp(LeValue(BytesOf(signature)), LeValue(BytesOf(keyE))) % LeValue(BytesOf(keyN))
            == BeValue(Sha256.Digest(Loaded(reader.disk, inode, headers)))
  {
    hide P, Val, LeValue, BeValue, Uint2048.BeRead, Sha256.Digest, Exp, PowLoop, BytesOf, Loaded;
    var sig := new word[N_UINT2048];
    var _ := Uint2048.InitBytes(sig, signature);
    var hash := CalcElfHash(reader, inode, headers);
    var ihash := new word[N_UINT2048];
    var _, _ := Uint2048.InitBytesBe(ihash, Chars(hash));
    HashRead(hash);
    var publicE := new word[N_UINT2048];
    var _ := Uint2048.InitBytes(publicE, keyE);
    var publicN := new word[N_UINT2048];
    var _ := Uint2048.InitBytes(publicN, keyN);
    var signedIhash := new word[N_UINT2048];
    Uint2048.Pow(sig, publicE, publicN, signedIhash);
    KeyWidth(signature);
    KeyWidth(keyN);
    PowCorrect(LeValue(BytesOf(signature)), LeValue(BytesOf(keyE)), LeValue(BytesOf(keyN)), KEY_LIMBS, N_UINT2048);
    ok := Uint2048.Equal(signedIhash, ihash);
  }
}
