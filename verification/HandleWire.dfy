/**
 File handles as bytes: how a handle names an export and a file in it, and how the
 server reads a handle that a client sends back.
 */
module HandleWire {
  import opened Options
  import opened Xdr
  import opened LittleEndian
  import opened Attr

  const FSID_DEV: Byte := 0
  const FSID_NUM: Byte := 1
  const FILEID_ROOT: Byte := 0
  const FILEID_INVALID: Byte := 0xff

  type DentryId = nat
  type ExportId = nat
  type MountId = nat

  /** dev_t: 12 bits of major and 20 bits of minor number. */
  datatype Dev = Dev(major: nat, minor: nat)

  datatype Export = Export(root: DentryId, mnt: MountId, dev: Dev, rootIno: U64, fsid: Word, sync: bool)

  /** What exportfs_encode_fh makes of a file: a type and some words. */
  datatype Fid = Fid(ftype: Byte, bytes: seq<Byte>)

  /** Status of a request. `Errno` stands for whatever nfserrno makes of a failed kernel call. */
  datatype Status =
    | Ok | Perm | NoEnt | Acces | Exist | NotDir | Inval | Stale | BadHandle | NotSync | OpNotSupp | ServerFault | Io
    | Errno(code: nat)

  /** What exportfs_decode_fh says of an identifier that no file has: nothing, -EINVAL or -ESTALE. */
  datatype Miss = NoDentry | InvalidArgument | StaleFile

  function MissStatus(m: Miss): Status {
    if m.StaleFile? then Stale else BadHandle
  }

  /** The exports, for every dentry the device it is on and the file identifier of its inode, and the answer for
      identifiers that no file has. */
  datatype World =
    World(exports: map<ExportId, Export>, device: map<DentryId, Dev>, fids: map<DentryId, Fid>, miss: Miss)

  predicate GoodFid(f: Fid) {
    f.ftype != FILEID_ROOT && f.ftype != FILEID_INVALID && |f.bytes| % 4 == 0
  }

  /** File identifiers are words and do not use the reserved types. */
  ghost predicate FidsGood(w: World) {
    forall d :: d in w.fids ==> GoodFid(w.fids[d])
  }

  /** File identifiers tell the files of one device apart. */
  ghost predicate FidsDistinct(w: World)
    requires w.device.Keys == w.fids.Keys
  {
    forall c, d :: c in w.fids && d in w.fids && w.device[c] == w.device[d] && w.fids[c] == w.fids[d] ==> c == d
  }

  predicate GoodDev(d: Dev) {
    d.major < 0x1000 && d.minor < 0x10_0000
  }

  ghost predicate ExportsGood(w: World)
    requires w.device.Keys == w.fids.Keys
  {
    forall x :: x in w.exports ==>
      GoodDev(w.exports[x].dev) && w.exports[x].root in w.fids && w.device[w.exports[x].root] == w.exports[x].dev
  }

  predicate SameInode(e: Export, g: Export) {
    e.dev == g.dev && e.rootIno == g.rootIno
  }

  /** An inode number belongs to one directory of a device. */
  ghost predicate RootsDistinct(w: World) {
    forall x, y :: x in w.exports && y in w.exports && SameInode(w.exports[x], w.exports[y]) ==>
      w.exports[x].root == w.exports[y].root
  }

  ghost predicate WellFormed(w: World) {
    w.device.Keys == w.fids.Keys && FidsGood(w) && FidsDistinct(w) && ExportsGood(w) && RootsDistinct(w)
  }

  function KeyLen(t: Byte): nat {
    if t == FSID_DEV then 8 else if t == FSID_NUM then 4 else 0
  }

  /** Bitwise or. */
  function Or(a: nat, b: nat): (r: nat)
    ensures r <= a + b
  {
    if a == 0 && b == 0 then 0
    else (if a % 2 == 1 || b % 2 == 1 then 1 else 0) + 2 * Or(a / 2, b / 2)
  }

  /** (MAJOR(dev) << 16) | MINOR(dev): the top four bits of the minor number fall onto the major number. */
  function DevWord(d: Dev): Word
    requires GoodDev(d)
  {
    Or(d.major, d.minor / 0x1_0000) * 0x1_0000 + d.minor % 0x1_0000
  }

  /** mk_fsid: the fragment of the handle that names the export. */
  function MkFsid(t: Byte, e: Export): (r: seq<Byte>)
    requires KeyLen(t) != 0 && GoodDev(e.dev)
    ensures |r| == KeyLen(t)
  {
    if t == FSID_DEV then UnQuad(DevWord(e.dev)) + LE(e.rootIno % TWO32, 4) else LE(e.fsid, 4)
  }

  /** How a handle names file `d` of an export; the root of the export needs no identifier. */
  function FidOf(w: World, e: Export, d: DentryId): Fid
    requires d != e.root ==> d in w.fids
  {
    if d == e.root then Fid(FILEID_ROOT, []) else w.fids[d]
  }

  /** The handle of `d` in export `x`. */
  function HandleOf(w: World, t: Byte, x: ExportId, d: DentryId): seq<Byte>
    requires KeyLen(t) != 0 && x in w.exports && GoodDev(w.exports[x].dev) && (d != w.exports[x].root ==> d in w.fids)
  {
    var e := w.exports[x];
    [1, 0, t, FidOf(w, e, d).ftype] + MkFsid(t, e) + FidOf(w, e, d).bytes
  }

  // ----- reading a handle -----

  datatype Resolved = Failed(status: Status) | Found(x: ExportId, d: DentryId)

  /** What a lookup came to: its status, and the export and file if it worked. */
  function Outcome(status: Status, x: Option<ExportId>, d: Option<DentryId>): Resolved {
    if status == Ok && x.Some? && d.Some? then Found(x.value, d.value) else Failed(status)
  }

  /** What the export cache knows: fsid type and key to export. */
  type Cache = map<(Byte, seq<Byte>), ExportId>

  /** exportfs_decode_fh: the file on `dev` with this identifier. */
  ghost function DecodeFid(w: World, dev: Dev, f: Fid): (r: Option<DentryId>)
    ensures r.Some? ==> r.value in w.fids && r.value in w.device && w.device[r.value] == dev && w.fids[r.value] == f
    ensures r.None? ==> forall d :: d in w.fids && d in w.device && w.device[d] == dev ==> w.fids[d] != f
  {
    if d :| d in w.fids && d in w.device && w.device[d] == dev && w.fids[d] == f then Some(d) else None
  }

  lemma DecodeFidUnique(w: World, dev: Dev, d: DentryId)
    requires w.device.Keys == w.fids.Keys && FidsDistinct(w) && d in w.fids && w.device[d] == dev
    ensures DecodeFid(w, dev, w.fids[d]) == Some(d)
  {
  }

  /** A handle taken apart: the key of its export and the identifier of its file. */
  datatype Parts = Parts(key: (Byte, seq<Byte>), fid: Fid)

  /** The layout of a handle, or None if the bytes do not have it. Bytes after the last whole word do not matter. */
  function ParseHandle(bs: seq<Byte>): Option<Parts> {
    var words := |bs| / 4;
    if words < 1 || bs[1] != 0 || KeyLen(bs[2]) == 0 || words * 4 < 4 + KeyLen(bs[2]) then None
    else
      var n := 4 + KeyLen(bs[2]);
      Some(Parts((bs[2], bs[4..n]), Fid(bs[3], bs[n..4 * words])))
  }

  /** What the parts of a handle mean when every kernel call works. */
  ghost function Locate(w: World, cache: Cache, p: Parts): Resolved {
    if p.key !in cache || cache[p.key] !in w.exports then Failed(Stale)
    else
      var x := cache[p.key];
      if p.fid.ftype == FILEID_ROOT then Found(x, w.exports[x].root)
      else
        match DecodeFid(w, w.exports[x].dev, p.fid)
        case None => Failed(MissStatus(w.miss))
        case Some(d) => Found(x, d)
  }

  /** nfsd_set_fh_dentry when every kernel call it makes works: which export and file the bytes of a handle mean. */
  ghost function Resolve(w: World, cache: Cache, bs: seq<Byte>): Resolved {
    match ParseHandle(bs)
    case None => Failed(BadHandle)
    case Some(p) => Locate(w, cache, p)
  }

  /** How a kernel call under nfsd_set_fh_dentry may fail although the handle is all right. */
  datatype Fault = NoFault | CacheFault(code: nat) | UserFault(code: nat) | DecodeFault(code: nat)

  /** The call that would fail is made. */
  predicate Hits(fault: Fault, cache: Cache, bs: seq<Byte>) {
    match ParseHandle(bs)
    case None => false
    case Some(p) =>
      match fault
      case NoFault => false
      case CacheFault(_) => true
      case UserFault(_) => p.key in cache
      case DecodeFault(_) => p.key in cache && p.fid.ftype != FILEID_ROOT
  }

  /** nfsd_set_fh_dentry with kernel calls that may fail. */
  ghost function Reach(fault: Fault, w: World, cache: Cache, bs: seq<Byte>): Resolved {
    if Hits(fault, cache, bs) then Failed(Errno(fault.code)) else Resolve(w, cache, bs)
  }

  /** The bytes have a version, no authentication, a known way to name the export and room for its key. */
  predicate LaidOut(bs: seq<Byte>) {
    |bs| >= 4 && bs[1] == 0 && ((bs[2] == 0 && |bs| >= 12) || (bs[2] == 1 && |bs| >= 8))
  }

  /** The words of the key, and those after it, of bytes that are laid out. */
  function KeyOf(bs: seq<Byte>): (Byte, seq<Byte>)
    requires LaidOut(bs)
  {
    (bs[2], if bs[2] == 0 then bs[4..12] else bs[4..8])
  }

  function FidIn(bs: seq<Byte>): Fid
    requires LaidOut(bs)
  {
    Fid(bs[3], bs[if bs[2] == 0 then 12 else 8..|bs| / 4 * 4])
  }

  /** No file of the export's device has this identifier. */
  ghost predicate NoSuchFile(w: World, dev: Dev, f: Fid) {
    forall d :: d in w.fids && d in w.device && w.device[d] == dev ==> w.fids[d] != f
  }

  /** Exactly how a handle fails: it is bad if its bytes are not laid out or the kernel finds nothing, stale if its
      export is not known or the kernel says that its file is gone. */
  lemma FailsExactly(w: World, cache: Cache, bs: seq<Byte>)
    requires forall k :: k in cache ==> cache[k] in w.exports
    ensures !LaidOut(bs) ==> Resolve(w, cache, bs) == Failed(BadHandle)
    ensures LaidOut(bs) && KeyOf(bs) !in cache ==> Resolve(w, cache, bs) == Failed(Stale)
    ensures LaidOut(bs) && KeyOf(bs) in cache ==>
      var x := cache[KeyOf(bs)];
      if bs[3] == 0 then Resolve(w, cache, bs) == Found(x, w.exports[x].root)
      else if NoSuchFile(w, w.exports[x].dev, FidIn(bs)) then
        Resolve(w, cache, bs) == match w.miss case StaleFile => Failed(Stale) case _ => Failed(BadHandle)
      else
        && Resolve(w, cache, bs).Found? && Resolve(w, cache, bs).x == x
        && var d := Resolve(w, cache, bs).d;
           d in w.fids && d in w.device && w.device[d] == w.exports[x].dev && w.fids[d] == FidIn(bs)
  {
  }

  /** The cache knows export `x` under its own key. */
  ghost predicate Known(w: World, cache: Cache, t: Byte, x: ExportId)
    requires KeyLen(t) != 0 && x in w.exports && GoodDev(w.exports[x].dev)
  {
    var key := (t, MkFsid(t, w.exports[x]));
    key in cache && cache[key] == x
  }

  lemma FidNotRoot(w: World, d: DentryId)
    requires FidsGood(w) && d in w.fids
    ensures GoodFid(w.fids[d])
  {
  }

  lemma ParseComposed(w: World, t: Byte, x: ExportId, d: DentryId)
    requires KeyLen(t) != 0 && x in w.exports && GoodDev(w.exports[x].dev) && d in w.fids && FidsGood(w)
    ensures ParseHandle(HandleOf(w, t, x, d)) == Some(Parts((t, MkFsid(t, w.exports[x])), FidOf(w, w.exports[x], d)))
  {
    hide MkFsid;
    var e := w.exports[x];
    var f, fsid, bs := FidOf(w, e, d), MkFsid(t, e), HandleOf(w, t, x, d);
    var n := 4 + KeyLen(t);
    assert |f.bytes| % 4 == 0;
    assert 4 * (|bs| / 4) == |bs|;
    assert bs[4..n] == fsid;
    assert bs[n..4 * (|bs| / 4)] == f.bytes;
  }

  /** The handle of a file that has been removed since is refused, by the kernel's answer as stale or as bad. */
  lemma GoneHandle(w: World, v: World, cache: Cache, t: Byte, x: ExportId, d: DentryId)
    requires WellFormed(w) && KeyLen(t) != 0 && x in w.exports && d in w.fids && w.device[d] == w.exports[x].dev
    requires Known(w, cache, t, x) && d != w.exports[x].root
    requires v == w.(fids := w.fids - {d}, device := w.device - {d}, miss := v.miss)
    ensures Resolve(v, cache, HandleOf(w, t, x, d)) ==
      match v.miss case StaleFile => Failed(Stale) case _ => Failed(BadHandle)
  {
    hide RootsDistinct, MkFsid, HandleOf;
    ParseComposed(w, t, x, d);
    FidNotRoot(w, d);
  }

  lemma {:induction false} OrZero(m: nat)
    ensures Or(m, 0) == m
  {
    if m == 0 {
    } else {
      OrZero(m / 2);
    }
  }

  lemma FragmentBytes(e: Export)
    requires GoodDev(e.dev) && e.dev.minor < 0x1_0000
    ensures MkFsid(FSID_DEV, e)[..4] ==
      [e.dev.major / 0x100, e.dev.major % 0x100, e.dev.minor / 0x100, e.dev.minor % 0x100]
    ensures MkFsid(FSID_DEV, e)[4..] == LE(e.rootIno % TWO32, 4)
  {
    hide LE, UnQuad, Or;
    OrZero(e.dev.major);
    var m, n := e.dev.major, e.dev.minor;
    UnQuadQuad(m / 0x100, m % 0x100, n / 0x100, n % 0x100);
    assert DevWord(e.dev) == Quad(m / 0x100, m % 0x100, n / 0x100, n % 0x100);
  }

  lemma FourLE(n: nat)
    requires n < TWO32
    ensures LE(n, 4) == [n % 0x100, n / 0x100 % 0x100, n / 0x1_0000 % 0x100, n / 0x100_0000]
  {
    var m := n / 0x100;
    assert LE(n, 4) == [n % 0x100] + ([m % 0x100] + LE(m / 0x100, 2));
    assert LE(m / 0x100, 2) == [m / 0x100 % 0x100] + [m / 0x1_0000 % 0x100];
  }

  /** The bytes of a handle that says the device: type, device in network order, and the root's inode number in the
      server's own order. */
  lemma HandleLayout(w: World, x: ExportId, d: DentryId)
    requires WellFormed(w) && x in w.exports && d in w.fids && w.exports[x].dev.minor < 0x1_0000
    ensures var bs, e := HandleOf(w, FSID_DEV, x, d), w.exports[x];
      var ino := e.rootIno % 0x1_0000_0000;
      && |bs| >= 12 && bs[0] == 1 && bs[1] == 0 && bs[2] == 0
      && bs[4] == e.dev.major / 0x100 && bs[5] == e.dev.major % 0x100
      && bs[6] == e.dev.minor / 0x100 && bs[7] == e.dev.minor % 0x100
      && bs[8] == ino % 0x100 && bs[9] == ino / 0x100 % 0x100
      && bs[10] == ino / 0x1_0000 % 0x100 && bs[11] == ino / 0x100_0000
      && (if d == e.root then bs[3] == 0 && |bs| == 12
          else bs[3] == w.fids[d].ftype != 0 && bs[12..] == w.fids[d].bytes)
  {
    hide RootsDistinct, FidsDistinct, LE;
    var e := w.exports[x];
    OrZero(e.dev.major);
    FourLE(e.rootIno % TWO32);
    FidNotRoot(w, d);
    FragmentBytes(e);
    hide UnQuad, DevWord, MkFsid;
  }

  /** A handle that says the export's number instead has that in the server's order. */
  lemma NumberLayout(e: Export)
    requires GoodDev(e.dev)
    ensures MkFsid(FSID_NUM, e) ==
      [e.fsid % 0x100, e.fsid / 0x100 % 0x100, e.fsid / 0x1_0000 % 0x100, e.fsid / 0x100_0000]
  {
    FourLE(e.fsid);
  }

  /** A handle the server made names the same export and file when it comes back. */
  lemma HandleRoundTrip(w: World, cache: Cache, t: Byte, x: ExportId, d: DentryId)
    requires WellFormed(w) && KeyLen(t) != 0 && x in w.exports && d in w.fids && w.device[d] == w.exports[x].dev
    requires Known(w, cache, t, x)
    ensures Resolve(w, cache, HandleOf(w, t, x, d)) == Found(x, d)
  {
    hide RootsDistinct, FidsGood, MkFsid, FidsDistinct, DecodeFid;
    ParseComposed(w, t, x, d);
    if d != w.exports[x].root {
      DecodeFidUnique(w, w.exports[x].dev, d);
      FidNotRoot(w, d);
    }
  }

  // ----- two handles with the same bytes -----

  /** Bit `k` of a number. */
  predicate Bit(n: nat, k: nat) {
    if k == 0 then n % 2 == 1 else Bit(n / 2, k - 1)
  }

  lemma {:induction false} ZeroBits(k: nat)
    ensures !Bit(0, k)
  {
    if k == 0 {
    } else {
      ZeroBits(k - 1);
    }
  }

  /** A bit of the result is set exactly if it is set in either number. */
  lemma {:induction false} OrBits(a: nat, b: nat, k: nat)
    ensures Bit(Or(a, b), k) <==> Bit(a, k) || Bit(b, k)
    decreases k
  {
    if a == 0 && b == 0 {
      ZeroBits(k);
    } else if k == 0 {
    } else {
      OrBits(a / 2, b / 2, k - 1);
      assert Or(a, b) / 2 == Or(a / 2, b / 2);
    }
  }

  lemma UnQuadInjective(v: Word, u: Word)
    requires UnQuad(v) == UnQuad(u)
    ensures v == u
  {
    QuadUnQuad(v);
    QuadUnQuad(u);
  }

  /** What the fragment keeps of device and root: the low 16 bits of the minor number, the major number with the other
      four bits of the minor number or-ed in, and the low 32 bits of the inode number. */
  predicate SameFragment(e: Export, g: Export) {
    && e.dev.minor % 0x1_0000 == g.dev.minor % 0x1_0000
    && Or(e.dev.major, e.dev.minor / 0x1_0000) == Or(g.dev.major, g.dev.minor / 0x1_0000)
    && e.rootIno % TWO32 == g.rootIno % TWO32
  }

  lemma FragmentsEqual(e: Export, g: Export)
    requires GoodDev(e.dev) && GoodDev(g.dev)
    ensures MkFsid(FSID_DEV, e) == MkFsid(FSID_DEV, g) <==> SameFragment(e, g)
  {
    hide LE, FromLE, UnQuad, Pow256, Or;
    var k, l := MkFsid(FSID_DEV, e), MkFsid(FSID_DEV, g);
    var i, j := e.rootIno % TWO32, g.rootIno % TWO32;
    Pow256Values();
    LERoundTrip(i, 4);
    LERoundTrip(j, 4);
    if k == l {
      assert k[..4] == UnQuad(DevWord(e.dev)) && l[..4] == UnQuad(DevWord(g.dev));
      assert k[4..] == LE(i, 4) && l[4..] == LE(j, 4);
      UnQuadInjective(DevWord(e.dev), DevWord(g.dev));
    }
  }

  /** Two handles have the same bytes exactly if they name their exports and their files the same way. */
  lemma EqualParts(w: World, x: ExportId, d: DentryId, y: ExportId, c: DentryId)
    requires x in w.exports && y in w.exports && d in w.fids && c in w.fids
    requires GoodDev(w.exports[x].dev) && GoodDev(w.exports[y].dev)
    ensures HandleOf(w, FSID_DEV, x, d) == HandleOf(w, FSID_DEV, y, c) <==>
      && SameFragment(w.exports[x], w.exports[y])
      && FidOf(w, w.exports[x], d) == FidOf(w, w.exports[y], c)
  {
    FragmentsEqual(w.exports[x], w.exports[y]);
    hide MkFsid, FidOf, SameFragment;
    var bs, cs := HandleOf(w, FSID_DEV, x, d), HandleOf(w, FSID_DEV, y, c);
    assert bs[4..12] == MkFsid(FSID_DEV, w.exports[x]) && cs[4..12] == MkFsid(FSID_DEV, w.exports[y]);
    assert bs[12..] == FidOf(w, w.exports[x], d).bytes && cs[12..] == FidOf(w, w.exports[y], c).bytes;
  }

  lemma SameExport(e: Export, g: Export)
    requires GoodDev(e.dev) && GoodDev(g.dev) && e.dev.minor < 0x1_0000 && g.dev.minor < 0x1_0000
    requires e.rootIno < TWO32 && g.rootIno < TWO32 && SameFragment(e, g)
    ensures e.dev == g.dev && e.rootIno == g.rootIno
  {
    OrZero(e.dev.major);
    OrZero(g.dev.major);
  }

  lemma SameFile(w: World, x: ExportId, d: DentryId, y: ExportId, c: DentryId)
    requires WellFormed(w) && x in w.exports && y in w.exports
    requires d in w.fids && w.device[d] == w.exports[x].dev && c in w.fids && w.device[c] == w.exports[y].dev
    requires w.exports[x].dev == w.exports[y].dev && w.exports[x].rootIno == w.exports[y].rootIno
    requires FidOf(w, w.exports[x], d) == FidOf(w, w.exports[y], c)
    ensures w.exports[x].root == w.exports[y].root && d == c
  {
    assert GoodFid(w.fids[d]) && GoodFid(w.fids[c]);
  }

  /** Handles that say the export's device, minor numbers below 65536 and inode numbers below 2^32: equal bytes mean
      the same device, the same export root and the same file. */
  lemma EqualHandlesSameFile(w: World, x: ExportId, d: DentryId, y: ExportId, c: DentryId)
    requires WellFormed(w) && x in w.exports && y in w.exports
    requires d in w.fids && w.device[d] == w.exports[x].dev && c in w.fids && w.device[c] == w.exports[y].dev
    requires w.exports[x].dev.minor < 0x1_0000 && w.exports[y].dev.minor < 0x1_0000
    requires w.exports[x].rootIno < TWO32 && w.exports[y].rootIno < TWO32
    requires HandleOf(w, FSID_DEV, x, d) == HandleOf(w, FSID_DEV, y, c)
    ensures w.exports[x].dev == w.exports[y].dev && w.exports[x].root == w.exports[y].root && d == c
  {
    hide HandleOf, MkFsid, FidOf, SameFragment;
    EqualParts(w, x, d, y, c);
    SameExport(w.exports[x], w.exports[y]);
    SameFile(w, x, d, y, c);
  }

  /** Two exports, each with nothing but its root. */
  function TwoExports(dev0: Dev, ino0: U64, dev1: Dev, ino1: U64): World {
    World(map[0 := Export(0, 0, dev0, ino0, 0, true), 1 := Export(1, 1, dev1, ino1, 0, true)],
          map[0 := dev0, 1 := dev1],
          map[0 := Fid(1, [0, 0, 0, 0]), 1 := Fid(1, [0, 0, 0, 1])],
          StaleFile)
  }

  lemma TwoExportsGood(dev0: Dev, ino0: U64, dev1: Dev, ino1: U64)
    requires GoodDev(dev0) && GoodDev(dev1) && (dev0 != dev1 || ino0 != ino1)
    ensures WellFormed(TwoExports(dev0, ino0, dev1, ino1))
  {
    var w := TwoExports(dev0, ino0, dev1, ino1);
    assert w.fids[0].bytes[3] != w.fids[1].bytes[3];
  }

  /** Their roots have the same handle exactly if the fragments are the same. */
  lemma RootsCollide(dev0: Dev, ino0: U64, dev1: Dev, ino1: U64)
    requires GoodDev(dev0) && GoodDev(dev1)
    ensures var w := TwoExports(dev0, ino0, dev1, ino1);
      HandleOf(w, FSID_DEV, 0, 0) == HandleOf(w, FSID_DEV, 1, 1) <==> SameFragment(w.exports[0], w.exports[1])
  {
    hide HandleOf, SameFragment;
    EqualParts(TwoExports(dev0, ino0, dev1, ino1), 0, 0, 1, 1);
  }

  /** Without the bound on minor numbers the roots of exports on two devices can have the same handle. */
  lemma DevicesCollide()
    ensures var w := TwoExports(Dev(1, 0), 2, Dev(0, 0x1_0000), 2);
      && WellFormed(w) && w.exports[0].dev != w.exports[1].dev
      && HandleOf(w, FSID_DEV, 0, 0) == HandleOf(w, FSID_DEV, 1, 1)
  {
    hide HandleOf, WellFormed;
    TwoExportsGood(Dev(1, 0), 2, Dev(0, 0x1_0000), 2);
    RootsCollide(Dev(1, 0), 2, Dev(0, 0x1_0000), 2);
  }

  /** Without the bound on inode numbers so can two export roots on one device. */
  lemma InodesCollide()
    ensures var w := TwoExports(Dev(1, 0), 2, Dev(1, 0), 2 + TWO32);
      && WellFormed(w) && w.exports[0].root != w.exports[1].root
      && HandleOf(w, FSID_DEV, 0, 0) == HandleOf(w, FSID_DEV, 1, 1)
  {
    hide HandleOf, WellFormed;
    TwoExportsGood(Dev(1, 0), 2, Dev(1, 0), 2 + TWO32);
    RootsCollide(Dev(1, 0), 2, Dev(1, 0), 2 + TWO32);
  }
}
