/**
 File handles in memory and the references they hold. The kernel's reference counts are multisets of
 the references taken and not given back; a handle holds one reference to its dentry, one to its export
 and, while it may write, one to the export's mount.
 */
module Handles {
  import opened Options
  import opened Xdr
  import opened Attr
  import opened HandleWire

  datatype Refs = Refs(dentries: multiset<DentryId>, exports: multiset<ExportId>, writers: multiset<MountId>)

  function Add(a: Refs, b: Refs): Refs {
    Refs(a.dentries + b.dentries, a.exports + b.exports, a.writers + b.writers)
  }

  const NONE: Refs := Refs(multiset{}, multiset{}, multiset{})

  function WriteRef(m: MountId): Refs {
    Refs(multiset{}, multiset{}, multiset{m})
  }

  lemma AddAC(a: Refs, b: Refs, c: Refs)
    ensures Add(Add(a, b), c) == Add(Add(a, c), b)
    ensures Add(Add(a, b), c) == Add(a, Add(b, c))
  {
    assert a.dentries + b.dentries + c.dentries == a.dentries + c.dentries + b.dentries ==
      a.dentries + (b.dentries + c.dentries);
    assert a.exports + b.exports + c.exports == a.exports + c.exports + b.exports ==
      a.exports + (b.exports + c.exports);
    assert a.writers + b.writers + c.writers == a.writers + c.writers + b.writers ==
      a.writers + (b.writers + c.writers);
  }

  /** Dentry, write access and export of a handle in the order in which fh_put gives them back. */
  lemma PutOrder(b: Refs, x: Refs, d: Refs, w: Refs)
    ensures Add(b, Add(Add(x, d), w)) == Add(Add(Add(b, x), w), d)
  {
    hide Add;
    AddAC(b, Add(x, d), w);
    AddAC(b, x, d);
    AddAC(Add(b, x), d, w);
  }

  lemma AddNone(a: Refs)
    ensures Add(a, NONE) == a
  {
    assert a.dentries + multiset{} == a.dentries;
    assert a.exports + multiset{} == a.exports;
    assert a.writers + multiset{} == a.writers;
  }

  function DentryRef(d: DentryId): Refs {
    Refs(multiset{d}, multiset{}, multiset{})
  }

  function ExportRef(x: ExportId): Refs {
    Refs(multiset{}, multiset{x}, multiset{})
  }

  /** The mount a handle may write to. */
  ghost function Writing(w: World, exp: Option<ExportId>, wantWrite: bool): multiset<MountId>
    requires wantWrite ==> exp.Some? && exp.value in w.exports
  {
    if wantWrite then multiset{w.exports[exp.value].mnt} else multiset{}
  }

  /** What a handle with these fields holds. */
  ghost function HeldBy(w: World, dentry: Option<DentryId>, exp: Option<ExportId>, wantWrite: bool): Refs
    requires wantWrite ==> exp.Some? && exp.value in w.exports
  {
    Refs(if dentry.Some? then multiset{dentry.value} else multiset{},
         if exp.Some? then multiset{exp.value} else multiset{},
         Writing(w, exp, wantWrite))
  }

  lemma HeldNoWrite(w: World, d: DentryId, x: ExportId)
    ensures HeldBy(w, Some(d), Some(x), false) == Add(ExportRef(x), DentryRef(d))
  {
    assert multiset{} + multiset{d} == multiset{d};
    assert multiset{x} + multiset{} == multiset{x};
    AddNone(NONE);
  }

  lemma HeldWriting(w: World, d: DentryId, x: ExportId)
    requires x in w.exports
    ensures HeldBy(w, Some(d), Some(x), true) == Add(HeldBy(w, Some(d), Some(x), false), WriteRef(w.exports[x].mnt))
  {
    assert multiset{d} + multiset{} == multiset{d};
    assert multiset{x} + multiset{} == multiset{x};
    assert multiset{} + multiset{w.exports[x].mnt} == multiset{w.exports[x].mnt};
  }

  /** How making an inode turns out: it fails, or works, or works but leaves the dentry without. */
  datatype Making = Refused | Made | Unfilled

  /** The part of the kernel below the server. */
  class Kernel {
    const world: World
    const cache: Cache
    const parent: map<DentryId, DentryId>
    /** The dentry of each name in a directory, with or without an inode. */
    const child: map<(DentryId, seq<Byte>), DentryId>
    /** Inode numbers, and the dentries something is mounted on. */
    const ino: map<DentryId, U64>
    const mountpoints: set<DentryId>

    var dentries: multiset<DentryId>
    var exports: multiset<ExportId>
    var writers: multiset<MountId>
    /** Dentries that have an inode. */
    var positive: set<DentryId>

    ghost predicate Valid() {
      && WellFormed(world)
      && (forall k :: k in cache ==> cache[k] in world.exports)
      && ParentsGood()
      && ChildrenGood()
    }

    ghost predicate ChildrenGood() {
      forall q {:trigger child[q]} :: q in child && q.0 in world.fids ==>
        && child[q] in world.fids
        && q.0 in world.device && child[q] in world.device && world.device[child[q]] == world.device[q.0]
    }

    ghost predicate ParentsGood() {
      forall d {:trigger parent[d]} :: d in world.fids ==>
        && d in parent && parent[d] in world.fids
        && d in world.device && parent[d] in world.device && world.device[parent[d]] == world.device[d]
    }

    function Held(): Refs
      reads this
    {
      Refs(dentries, exports, writers)
    }

    method Dget(d: DentryId)
      modifies `dentries
      ensures Held() == Add(old(Held()), DentryRef(d))
    {
      dentries := dentries + multiset{d};
    }

    method Dput(d: DentryId, ghost b: Refs)
      requires Held() == Add(b, DentryRef(d))
      modifies `dentries
      ensures Held() == b
    {
      dentries := dentries - multiset{d};
    }

    method ExpGet(x: ExportId)
      modifies `exports
      ensures Held() == Add(old(Held()), ExportRef(x))
    {
      exports := exports + multiset{x};
    }

    method ExpPut(x: ExportId, ghost b: Refs)
      requires Held() == Add(b, ExportRef(x))
      modifies `exports
      ensures Held() == b
    {
      exports := exports - multiset{x};
    }

    /** lookup_one_len: the dentry of a name, with or without an inode, and a reference to it; or an error. */
    method Lookup(dir: DentryId, name: seq<Byte>, fails: bool) returns (r: Option<DentryId>)
      requires Valid() && dir in world.fids
      modifies `dentries
      ensures r == if !fails && (dir, name) in child then Some(child[(dir, name)]) else None
      ensures r.Some? ==> r.value in world.fids && world.device[r.value] == world.device[dir]
      ensures Held() == if r.Some? then Add(old(Held()), DentryRef(r.value)) else old(Held())
    {
      hide RootsDistinct, FidsDistinct, FidsGood, ExportsGood, ParentsGood, Add;
      r := None;
      if !fails && (dir, name) in child {
        var d := child[(dir, name)];
        Dget(d);
        r := Some(d);
      }
    }

    /** dget_parent. */
    method DgetParent(d: DentryId) returns (p: DentryId)
      requires Valid() && d in world.fids
      modifies `dentries
      ensures d in parent && p == parent[d] && p in world.fids && world.device[p] == world.device[d]
      ensures Held() == Add(old(Held()), DentryRef(p))
    {
      hide RootsDistinct, FidsDistinct, FidsGood, ExportsGood, Add;
      p := parent[d];
      Dget(p);
    }

    /** vfs_create and vfs_mkdir. */
    method MakeInode(d: DentryId, making: Making) returns (err: bool)
      modifies `positive
      ensures err == making.Refused?
      ensures positive == if making.Made? then old(positive) + {d} else old(positive)
    {
      err := making.Refused?;
      if making.Made? {
        positive := positive + {d};
      }
    }

    /** vfs_unlink and vfs_rmdir: on success the dentry has no inode any more. */
    method RemoveInode(d: DentryId, fails: bool)
      modifies `positive
      ensures positive == if fails then old(positive) else old(positive) - {d}
    {
      if !fails {
        positive := positive - {d};
      }
    }

    /** mnt_want_write, when it works. */
    method MntWant(m: MountId)
      modifies `writers
      ensures Held() == Add(old(Held()), WriteRef(m))
    {
      writers := writers + multiset{m};
    }

    /** mnt_drop_write. */
    method MntDrop(m: MountId, ghost b: Refs)
      requires Held() == Add(b, WriteRef(m))
      modifies `writers
      ensures Held() == b
    {
      writers := writers - multiset{m};
    }

    /** exportfs_decode_fh, when it works: takes a reference on the dentry it finds. */
    method DecodeFh(x: ExportId, f: Fid) returns (r: Option<DentryId>)
      requires Valid() && x in world.exports
      modifies `dentries
      ensures r == DecodeFid(world, world.exports[x].dev, f)
      ensures Held() == if r.Some? then Add(old(Held()), DentryRef(r.value)) else old(Held())
    {
      hide RootsDistinct, ExportsGood, FidsGood, FidsDistinct, ParentsGood, DecodeFid;
      var dev := world.exports[x].dev;
      if d :| d in world.fids && world.device[d] == dev && world.fids[d] == f {
        DecodeFidUnique(world, dev, d);
        Dget(d);
        r := Some(d);
      } else {
        r := None;
      }
    }

    /** exportfs_encode_fh: the identifier if it fits `room` words; otherwise FILEID_INVALID and the words it would
        need. */
    function EncodeFh(d: DentryId, room: nat): (Byte, seq<Byte>, nat)
      requires d in world.fids
    {
      var f := world.fids[d];
      if |f.bytes| / 4 <= room then (f.ftype, f.bytes, |f.bytes| / 4) else (FILEID_INVALID, [], |f.bytes| / 4)
    }
  }

  /** Bytes of a provisional handle with the identifier of a file added. */
  lemma AppendedHandle(w: World, base: seq<Byte>, size: nat, x: ExportId, d: DentryId)
    requires x in w.exports && GoodDev(w.exports[x].dev) && d in w.fids && d != w.exports[x].root
    requires |base| == 128 && KeyLen(base[2]) != 0 && size == 4 + KeyLen(base[2])
    requires base[..size] == [1, 0, base[2], FILEID_ROOT] + MkFsid(base[2], w.exports[x])
    requires size + |w.fids[d].bytes| <= 128
    ensures var f := w.fids[d];
            (base[..size] + f.bytes + base[size + |f.bytes|..])[3 := f.ftype][..size + |f.bytes|] ==
              HandleOf(w, base[2], x, d)
  {
    hide MkFsid;
  }

  /** A provisional handle names the root of its export. */
  lemma RootHandle(w: World, base: seq<Byte>, size: nat, x: ExportId)
    requires x in w.exports && GoodDev(w.exports[x].dev)
    requires |base| == 128 && KeyLen(base[2]) != 0 && size == 4 + KeyLen(base[2])
    requires base[..size] == [1, 0, base[2], FILEID_ROOT] + MkFsid(base[2], w.exports[x])
    ensures base[3 := FILEID_ROOT] == base && base[..size] == HandleOf(w, base[2], x, w.exports[x].root)
  {
    hide MkFsid;
    assert base[..size][3] == base[3];
  }

  /** struct svc_fh. */
  class SvcFh {
    /** fh_handle: 128 bytes of fh_base and fh_size. */
    var base: seq<Byte>
    var size: nat
    var maxsize: nat
    var dentry: Option<DentryId>
    var exp: Option<ExportId>
    var wantWrite: bool

    /** The handle's references are to a file of its exp. */
    ghost predicate Good(k: Kernel)
      reads this
    {
      && |base| == 128 && maxsize <= NFS3_FHSIZE
      && dentry.Some? == exp.Some?
      && (wantWrite ==> exp.Some?)
      && (exp.Some? ==>
            && exp.value in k.world.exports && dentry.value in k.world.fids && dentry.value in k.world.device
            && k.world.device[dentry.value] == k.world.exports[exp.value].dev)
    }

    ghost function Held(k: Kernel): Refs
      requires Good(k)
      reads this
    {
      HeldBy(k.world, dentry, exp, wantWrite)
    }

    /** The bytes that go over the wire. */
    function Wire(): seq<Byte>
      requires size <= |base|
      reads `base, `size
    {
      base[..size]
    }

    /** fh_init. */
    constructor Init(maxsize: nat)
      requires maxsize <= NFS3_FHSIZE
      ensures base == seq(128, i => 0) && size == 0 && this.maxsize == maxsize
      ensures dentry == None && exp == None && !wantWrite
    {
      base, size, this.maxsize := seq(128, i => 0), 0, maxsize;
      dentry, exp, wantWrite := None, None, false;
    }

    /** decode_file_handle, with a handle that the structure has room for. */
    constructor Decode(bs: seq<Byte>)
      requires |bs| <= 128
      ensures |base| == 128 && size == |bs| && base[..size] == bs && maxsize == NFS3_FHSIZE
      ensures forall i :: size <= i < 128 ==> base[i] == 0
      ensures dentry == None && exp == None && !wantWrite
    {
      base, size, maxsize := bs + seq(128 - |bs|, i => 0), |bs|, NFS3_FHSIZE;
      dentry, exp, wantWrite := None, None, false;
    }

    /** fh_want_write. A second success takes write access once more than the one flag accounts for. */
    method WantWrite(k: Kernel, fails: bool, ghost b: Refs) returns (err: bool)
      requires Good(k) && exp.Some? && k.Held() == Add(b, Held(k))
      modifies k`writers, `wantWrite
      ensures err == fails && Good(k) && wantWrite == (old(wantWrite) || !err)
      ensures !old(wantWrite) || err ==> k.Held() == Add(b, Held(k))
      ensures old(wantWrite) && !err ==> k.Held() == Add(Add(b, Held(k)), WriteRef(k.world.exports[exp.value].mnt))
    {
      hide HeldBy, Add;
      err := fails;
      if !err {
        var m := k.world.exports[exp.value].mnt;
        HeldWriting(k.world, dentry.value, exp.value);
        AddAC(b, Held(k), WriteRef(m));
        k.MntWant(m);
        wantWrite := true;
      }
    }

    /** fh_drop_write. */
    method DropWrite(k: Kernel, ghost b: Refs)
      requires Good(k) && k.Held() == Add(b, Held(k))
      modifies k`writers, `wantWrite
      ensures Good(k) && k.Held() == Add(b, Held(k)) && !wantWrite
    {
      hide HeldBy, Add;
      if wantWrite {
        var m := k.world.exports[exp.value].mnt;
        HeldWriting(k.world, dentry.value, exp.value);
        wantWrite := false;
        AddAC(b, Held(k), WriteRef(m));
        k.MntDrop(m, Add(b, Held(k)));
      }
    }

    /** fh_put: gives back everything the handle holds; a second call changes nothing. */
    method Put(k: Kernel, ghost b: Refs)
      requires Good(k) && k.Held() == Add(b, Held(k))
      modifies k`dentries, k`exports, k`writers, `dentry, `exp, `wantWrite
      ensures Good(k) && dentry == None && exp == None && !wantWrite
      ensures k.Held() == b
    {
      hide HeldBy, Add;
      var d, x := dentry, exp;
      if d.Some? {
        Unhold(k, b);
      } else {
        EmptyHolds(k);
        AddNone(b);
      }
    }

    /** fh_put of a handle that holds something. */
    method Unhold(k: Kernel, ghost b: Refs)
      requires Good(k) && exp.Some? && k.Held() == Add(b, Held(k))
      modifies k`dentries, k`exports, k`writers, `dentry, `exp, `wantWrite
      ensures Good(k) && dentry == None && exp == None && !wantWrite
      ensures k.Held() == b
    {
      hide HeldBy, Add;
      var d, x, m := dentry.value, exp.value, k.world.exports[exp.value].mnt;
      ghost var w := if wantWrite then WriteRef(m) else NONE;
      HeldNoWrite(k.world, d, x);
      HeldWriting(k.world, d, x);
      AddNone(HeldBy(k.world, Some(d), Some(x), false));
      PutOrder(b, ExportRef(x), DentryRef(d), w);
      dentry := None;
      k.Dput(d, Add(Add(b, ExportRef(x)), w));
      if wantWrite {
        wantWrite := false;
        k.MntDrop(m, Add(b, ExportRef(x)));
      }
      AddNone(Add(b, ExportRef(x)));
      exp := None;
      k.ExpPut(x, b);
    }

    ghost predicate Empty() reads this { dentry == None && exp == None && !wantWrite }

    lemma EmptyHolds(k: Kernel)
      requires Good(k) && Empty()
      ensures Held(k) == NONE
    {
    }

    /** The handle is sound and `k` holds just what it holds beyond `b`. */
    ghost predicate Balanced(k: Kernel, b: Refs)
      reads this, k
    {
      Good(k) && k.Held() == Add(b, Held(k))
    }

    /** The checks nfsd_set_fh_dentry makes before it looks anything up. */
    method Parse() returns (p: Option<Parts>)
      requires |base| == 128 && size <= 128
      ensures p == ParseHandle(Wire())
    {
      var left := size / 4 - 1;
      if left < 0 {
        return None;
      }
      if base[1] != 0 {
        return None;
      }
      var len := KeyLen(base[2]) / 4;
      if len == 0 {
        return None;
      }
      left := left - len;
      if left < 0 {
        return None;
      }
      var n := 4 + 4 * len;
      assert Wire()[4..n] == base[4..n];
      assert Wire()[n..4 * (size / 4)] == base[n..n + 4 * left];
      p := Some(Parts((base[2], base[4..n]), Fid(base[3], base[n..n + 4 * left])));
    }

    /** nfsd_set_fh_dentry: find the export and the file the handle names and take a reference to each. */
    method SetDentry(k: Kernel, fault: Fault, ghost b: Refs) returns (status: Status)
      requires k.Valid() && Balanced(k, b) && Empty() && size <= 128
      modifies k`dentries, k`exports, `dentry, `exp
      ensures Balanced(k, b) && !wantWrite
      ensures status == Ok <==> exp.Some?
      ensures Outcome(status, exp, dentry) == Reach(fault, k.world, k.cache, Wire())
    {
      hide WellFormed, DecodeFid, Add, ParseHandle, HeldBy, Kernel.ParentsGood, Kernel.ChildrenGood;
      AddNone(b);
      EmptyHolds(k);
      var p := Parse();
      if p.None? {
        return BadHandle;
      }
      var key, fid := p.value.key, p.value.fid;
      if fault.CacheFault? {
        return Errno(fault.code);
      }
      if key !in k.cache {
        return Stale;
      }
      var x := k.cache[key];
      k.ExpGet(x);
      if fault.UserFault? {
        k.ExpPut(x, b);
        return Errno(fault.code);
      }
      var d: Option<DentryId>;
      status, d := FindFile(k, x, fid, fault);
      if d.None? {
        k.ExpPut(x, b);
        return;
      }
      dentry, exp := d, Some(x);
      AddAC(b, ExportRef(x), DentryRef(d.value));
      HeldNoWrite(k.world, d.value, x);
    }

    /** The file of export `x` with identifier `fid`. */
    method FindFile(k: Kernel, x: ExportId, fid: Fid, fault: Fault) returns (status: Status, d: Option<DentryId>)
      requires k.Valid() && x in k.world.exports
      modifies k`dentries
      ensures status == Ok <==> d.Some?
      ensures d.Some? ==> d.value in k.world.fids && d.value in k.world.device
      ensures d.Some? ==> k.world.device[d.value] == k.world.exports[x].dev
      ensures k.Held() == if d.Some? then Add(old(k.Held()), DentryRef(d.value)) else old(k.Held())
      ensures Outcome(status, Some(x), d) ==
          if fid.ftype == FILEID_ROOT then Found(x, k.world.exports[x].root)
          else if fault.DecodeFault? then Failed(Errno(fault.code))
          else match DecodeFid(k.world, k.world.exports[x].dev, fid)
               case None => Failed(MissStatus(k.world.miss))
               case Some(f) => Found(x, f)
    {
      hide RootsDistinct, FidsGood, FidsDistinct, Add;
      if fid.ftype == FILEID_ROOT {
        d := Some(k.world.exports[x].root);
        k.Dget(d.value);
        status := Ok;
      } else if fault.DecodeFault? {
        status, d := Errno(fault.code), None;
      } else {
        d := k.DecodeFh(x, fid);
        status := if d.Some? then Ok else MissStatus(k.world.miss);
      }
    }

    /** fh_verify. */
    method Verify(k: Kernel, fault: Fault, ghost b: Refs) returns (status: Status)
      requires k.Valid() && Balanced(k, b) && size <= 128
      modifies k`dentries, k`exports, `dentry, `exp
      ensures Balanced(k, b)
      ensures status == Ok <==> exp.Some?
      ensures size <= |base| &&
        if old(exp).Some? then status == Ok && exp == old(exp) && dentry == old(dentry)
        else Outcome(status, exp, dentry) == Reach(fault, k.world, k.cache, Wire())
    {
      hide Add, Reach, WellFormed;
      status := Ok;
      if dentry.None? {
        status := SetDentry(k, fault, b);
      }
    }

    /** The handle so far: it names the export, and no file of it yet (or its root). */
    ghost predicate Provisional(k: Kernel)
      reads this
    {
      && |base| == 128 && KeyLen(base[2]) != 0
      && exp.Some? && exp.value in k.world.exports && GoodDev(k.world.exports[exp.value].dev)
      && size == 4 + KeyLen(base[2]) <= maxsize
      && base[..size] == [1, 0, base[2], FILEID_ROOT] + MkFsid(base[2], k.world.exports[exp.value])
    }

    /** The handle names the file it holds. */
    ghost predicate Complete(k: Kernel)
      reads this
    {
      && |base| == 128 && KeyLen(base[2]) != 0
      && exp.Some? && exp.value in k.world.exports && GoodDev(k.world.exports[exp.value].dev)
      && dentry.Some? && dentry.value in k.world.fids
      && size <= maxsize <= 128
      && base[..size] == HandleOf(k.world, base[2], exp.value, dentry.value)
    }

    /** The identifier of the file fits into what the handle's size limit leaves. */
    ghost predicate FidFits(k: Kernel, x: ExportId, d: DentryId)
      requires x in k.world.exports && d in k.world.fids && |base| == 128
      reads this
    {
      d == k.world.exports[x].root || |k.world.fids[d].bytes| <= maxsize - 4 - KeyLen(base[2])
    }

    /** _fh_update. If the identifier does not fit, the handle is left with FILEID_INVALID. */
    method AppendFid(k: Kernel)
      requires k.Valid() && Good(k) && Provisional(k)
      modifies `base, `size
      ensures Good(k) && base[2] == old(base[2]) && Held(k) == old(Held(k))
      ensures FidFits(k, exp.value, dentry.value) ==> Complete(k) && base[3] != FILEID_INVALID
      ensures !FidFits(k, exp.value, dentry.value) ==> base[3] == FILEID_INVALID
    {
      hide RootsDistinct, FidsDistinct, FidsGood, ExportsGood, MkFsid, HandleOf, HeldBy;
      var d, x := dentry.value, exp.value;
      if d != k.world.exports[x].root {
        FidNotRoot(k.world, d);
        var room := (maxsize - size) / 4;
        var (ftype, bytes, words) := k.EncodeFh(d, room);
        if ftype != FILEID_INVALID {
          AppendedHandle(k.world, base, size, x, d);
        }
        base := base[..size] + bytes + base[size + |bytes|..];
        base := base[3 := ftype];
        size := size + words * 4;
      } else {
        RootHandle(k.world, base, size, x);
        base := base[3 := FILEID_ROOT];
      }
    }

    /** fh_compose. A file without an inode gets a provisional handle. What the handle held before, which should be
        nothing, is not given back. */
    method Compose(k: Kernel, x: ExportId, d: DentryId, ghost b: Refs) returns (status: Status)
      requires k.Valid() && Balanced(k, b) && !wantWrite
      requires x in k.world.exports && d in k.world.fids && k.world.device[d] == k.world.exports[x].dev
      requires KeyLen(base[2]) != 0 && base[3] == FILEID_ROOT && 4 + KeyLen(base[2]) <= maxsize
      modifies k`dentries, k`exports, k`writers, this
      ensures Balanced(k, Add(b, old(Held(k)))) && !wantWrite
      ensures old(Empty()) ==> Balanced(k, b)
      ensures |old(base)| == |base| == 128 && base[2] == old(base[2]) && maxsize == old(maxsize)
      ensures status == if d in k.positive && !FidFits(k, x, d) then OpNotSupp else Ok
      ensures status == Ok ==> exp == Some(x) && dentry == Some(d)
      ensures status == Ok && d in k.positive ==> Complete(k)
      ensures status == Ok && d !in k.positive ==> Provisional(k)
      ensures status != Ok ==> Empty()
    {
      hide WellFormed, Add, Held, Provisional, Complete;
      ghost var h := k.Held();
      if Empty() {
        EmptyHolds(k);
        AddNone(b);
      }
      base := base[0 := 1];
      Take(k, x, d);
      Start(k);
      if d in k.positive {
        AppendFid(k);
      }
      if base[3] == FILEID_INVALID {
        Put(k, h);
        EmptyHolds(k);
        AddNone(h);
        return OpNotSupp;
      }
      status := Ok;
    }

    /** The part of fh_compose that takes the references. */
    method Take(k: Kernel, x: ExportId, d: DentryId)
      requires k.Valid() && Good(k) && !wantWrite
      requires x in k.world.exports && d in k.world.fids && k.world.device[d] == k.world.exports[x].dev
      modifies k`dentries, k`exports, `dentry, `exp
      ensures Good(k) && exp == Some(x) && dentry == Some(d) && k.Held() == Add(old(k.Held()), Held(k))
    {
      hide RootsDistinct, FidsDistinct, FidsGood, ExportsGood, Add;
      ghost var h := k.Held();
      k.Dget(d);
      dentry := Some(d);
      k.ExpGet(x);
      exp := Some(x);
      AddAC(h, DentryRef(d), ExportRef(x));
      HeldNoWrite(k.world, d, x);
      AddAC(h, ExportRef(x), DentryRef(d));
    }

    /** The part of fh_compose that names the export. */
    method Start(k: Kernel)
      requires k.Valid() && Good(k) && exp.Some? && base[0] == 1 && base[3] == FILEID_ROOT
      requires KeyLen(base[2]) != 0 && 4 + KeyLen(base[2]) <= maxsize
      modifies `base, `size
      ensures Good(k) && Provisional(k) && base[2] == old(base[2]) && Held(k) == old(Held(k))
      ensures base[3] == FILEID_ROOT
    {
      hide RootsDistinct, FidsDistinct, FidsGood, MkFsid;
      var t := base[2];
      size := KeyLen(t) + 4;
      base := base[1 := 0];
      var fsid := MkFsid(t, k.world.exports[exp.value]);
      base := base[..4] + fsid + base[4 + |fsid|..];
      assert base[..size] == base[..4] + fsid;
      assert base[..4] == [1, 0, t, FILEID_ROOT];
    }

    /** fh_update: turn a provisional handle into the file's own once there is an inode. */
    method Update(k: Kernel) returns (status: Status)
      requires k.Valid() && Good(k) && (dentry.Some? ==> Provisional(k) || Complete(k))
      modifies `base, `size
      ensures Good(k) && (dentry.Some? ==> |base| == |old(base)| && base[2] == old(base[2]))
      ensures dentry.None? || dentry.value !in k.positive ==>
        status == ServerFault && base == old(base) && size == old(size)
      ensures status == Ok ==> dentry.Some? && dentry.value in k.positive && Complete(k)
      ensures dentry.Some? && dentry.value in k.positive ==>
        status == if FidFits(k, exp.value, dentry.value) then Ok else OpNotSupp
    {
      hide RootsDistinct, FidsDistinct, MkFsid;
      if dentry.None? {
        return ServerFault;
      }
      if dentry.value !in k.positive {
        return ServerFault;
      }
      if base[3] != FILEID_ROOT {
        if Provisional(k) {
          RootByte(k);
        }
        return Ok;
      }
      RootIsProvisional(k);
      AppendFid(k);
      if base[3] == FILEID_INVALID {
        return OpNotSupp;
      }
      status := Ok;
    }

    lemma RootByte(k: Kernel)
      requires Provisional(k)
      ensures base[3] == FILEID_ROOT
    {
      assert base[..size][3] == base[3];
    }

    lemma RootIsProvisional(k: Kernel)
      requires k.Valid() && Good(k) && (Provisional(k) || Complete(k)) && base[3] == FILEID_ROOT
      ensures Provisional(k)
    {
      if Complete(k) {
        var d := dentry.value;
        assert base[..size][3] == base[3];
        FidNotRoot(k.world, d);
      }
    }
  }
}
