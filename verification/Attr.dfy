/**
 File attributes and file handles as they appear in replies: fattr3,
 post_op_attr, nfs_fh3 and post_op_fh3 of RFC 1813.
 */
module Attr {
  import opened Options
  import opened Xdr

  /** Largest NFSv3 file handle, in bytes. */
  const NFS3_FHSIZE: int := 64

  type HandleBytes = h: seq<Byte> | |h| <= 64 witness []

  /** Largest offset in a file, and the cookie of a directory entry before the next is known. */
  const NFS_OFFSET_MAX: U64 := 0x7fff_ffff_ffff_ffff

  datatype Time = Time(sec: Word, nsec: Word)

  datatype SetTime = DontChange | ServerTime | ClientTime(time: Time)

  datatype Fattr3 = Fattr3(
    ftype: Word, mode: Word, nlink: Word, uid: Word, gid: Word,
    size: U64, used: U64, rdevMajor: Word, rdevMinor: Word, fsid: U64, fileid: U64,
    atimeSec: Word, atimeNsec: Word, mtimeSec: Word, mtimeNsec: Word, ctimeSec: Word, ctimeNsec: Word)

  function Fattr3Words(a: Fattr3): (r: seq<Word>)
    ensures |r| == 21
  {
    [a.ftype, a.mode, a.nlink, a.uid, a.gid] + Hyper(a.size) + Hyper(a.used) +
    [a.rdevMajor, a.rdevMinor] + Hyper(a.fsid) + Hyper(a.fileid) +
    [a.atimeSec, a.atimeNsec, a.mtimeSec, a.mtimeNsec, a.ctimeSec, a.ctimeNsec]
  }

  function TakeFattr3(s: seq<Word>): Parsed<Fattr3> {
    if |s| < 21 then Bad
    else Good(Fattr3(s[0], s[1], s[2], s[3], s[4],
                     FromHyper(s[5], s[6]), FromHyper(s[7], s[8]), s[9], s[10],
                     FromHyper(s[11], s[12]), FromHyper(s[13], s[14]),
                     s[15], s[16], s[17], s[18], s[19], s[20]), s[21..])
  }

  lemma TakeFattr3Words(a: Fattr3, rest: seq<Word>)
    ensures TakeFattr3(Fattr3Words(a) + rest) == Good(a, rest)
  {
    var s := Fattr3Words(a) + rest;
    HyperRoundTrip(a.size);
    HyperRoundTrip(a.used);
    HyperRoundTrip(a.fsid);
    HyperRoundTrip(a.fileid);
    assert s[21..] == rest;
  }

  /** post_op_attr: a flag, then the attributes when they are there. */
  function PostOpAttrWords(a: Option<Fattr3>): (r: seq<Word>)
    ensures |r| == if a.Some? then 22 else 1
  {
    match a
    case None => [0]
    case Some(v) => [1] + Fattr3Words(v)
  }

  function TakePostOpAttr(s: seq<Word>): Parsed<Option<Fattr3>> {
    if |s| < 1 || s[0] > 1 then Bad
    else if s[0] == 0 then Good(None, s[1..])
    else match TakeFattr3(s[1..])
         case Bad => Bad
         case Good(v, rest) => Good(Some(v), rest)
  }

  lemma TakePostOpAttrWords(a: Option<Fattr3>, rest: seq<Word>)
    ensures TakePostOpAttr(PostOpAttrWords(a) + rest) == Good(a, rest)
  {
    hide Fattr3Words, TakeFattr3;
    var s := PostOpAttrWords(a) + rest;
    match a
    case None =>
      assert s[1..] == rest;
    case Some(v) =>
      assert s[1..] == Fattr3Words(v) + rest;
      TakeFattr3Words(v, rest);
  }

  /** post_op_fh3: a flag, then the handle as variable-length opaque data. */
  function PostOpFhWords(h: Option<HandleBytes>): (r: seq<Word>)
    ensures |r| == if h.Some? then 2 + QuadLen(|h.value|) else 1
  {
    match h
    case None => [0]
    case Some(b) => [1] + Opaque(b)
  }

  function TakePostOpFh(s: seq<Word>): Parsed<Option<HandleBytes>> {
    if |s| < 1 || s[0] > 1 then Bad
    else if s[0] == 0 then Good(None, s[1..])
    else match TakeOpaque(s[1..])
         case Bad => Bad
         case Good(b, rest) => if |b| <= NFS3_FHSIZE then Good(Some(b), rest) else Bad
  }

  lemma TakePostOpFhWords(h: Option<HandleBytes>, rest: seq<Word>)
    ensures TakePostOpFh(PostOpFhWords(h) + rest) == Good(h, rest)
  {
    hide Opaque, TakeOpaque;
    var s := PostOpFhWords(h) + rest;
    match h
    case None =>
      assert s[1..] == rest;
    case Some(b) =>
      assert s[1..] == Opaque(b) + rest;
      TakeOpaqueOpaque(b, rest);
  }
}
