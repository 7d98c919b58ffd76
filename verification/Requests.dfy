/**
 The procedures and the references they take. Whatever fails, and wherever, every reference taken while a
 request is served has been given back once its handles are released; and no handle goes to a client that
 does not name an object with an inode.
 */
module Requests {
  import opened Options
  import opened Xdr
  import opened Attr
  import opened HandleWire
  import opened Handles

  /** How opening a file turns out: it has no operations, open fails, a later check fails, or it works. */
  datatype Opening = NoOperations | OpenFails | CheckFails | Opens

  /** How the kernel calls made while one request is served turn out. The booleans `lookup`, `want` and `unlink` say
      that the call fails; `pastEnd` is for an empty name, which is looked at past its end. */
  datatype Calls = Calls(verify: Fault, lookup: bool, pastEnd: bool, want: bool, directory: bool, making: Making,
                         regular: bool, sameTimes: bool, hasAttrs: bool, attrs: Status, commit: Status, unlink: bool,
                         opening: Opening, transfer: Status, missed: set<nat>)

  /** isdotent, for a name that is not empty. */
  predicate IsDotEnt(name: seq<Byte>) {
    0 < |name| < 3 && name[0] == 0x2e && (|name| == 1 || name[1] == 0x2e)
  }

  /** Those are the names "." and "..". */
  lemma DotNames(name: seq<Byte>)
    ensures IsDotEnt(name) <==> name == ['.' as int] || name == ['.' as int, '.' as int]
  {
  }

  /** What `name` means in directory `dir`. */
  ghost function Meaning(k: Kernel, dir: DentryId, name: seq<Byte>): Option<DentryId> {
    if name == ['.' as int] then Some(dir)
    else if name == ['.' as int, '.' as int] then if dir in k.parent then Some(k.parent[dir]) else None
    else if (dir, name) in k.child then Some(k.child[(dir, name)])
    else None
  }

  /** The same for LOOKUP, where the root of an export is its own parent. */
  ghost function LookupMeaning(k: Kernel, x: ExportId, dir: DentryId, name: seq<Byte>): Option<DentryId> {
    if name == ['.' as int, '.' as int] && x in k.world.exports && dir == k.world.exports[x].root then Some(dir)
    else Meaning(k, dir, name)
  }

  /** `d` is what `name` means in directory `dir`. */
  ghost predicate Named(k: Kernel, dir: DentryId, name: seq<Byte>, d: DentryId) {
    Meaning(k, dir, name) == Some(d)
  }

  ghost predicate LooksUp(k: Kernel, x: ExportId, dir: DentryId, name: seq<Byte>, d: DentryId) {
    LookupMeaning(k, x, dir, name) == Some(d)
  }

  /** The handle of `d` in export `x` has at most 64 bytes. */
  predicate Fits(w: World, x: ExportId, d: DentryId) {
    x in w.exports && d in w.fids && (d == w.exports[x].root || 12 + |w.fids[d].bytes| <= 64)
  }

  /** What LOOKUP says of a name that was found to mean `d`, or could not be looked up. */
  ghost function LookupStatus(w: World, positive: set<DentryId>, x: ExportId, d: Option<DentryId>): Status {
    if d.None? then Io
    else if d.value !in positive then NoEnt
    else if Fits(w, x, d.value) then Ok
    else OpNotSupp
  }

  /** The handle holds what its bytes name. */
  ghost predicate Verified(k: Kernel, fh: SvcFh)
    reads fh`exp, fh`dentry, fh`base, fh`size
  {
    && fh.exp.Some? && fh.dentry.Some? && fh.size <= |fh.base|
    && Resolve(k.world, k.cache, fh.Wire()) == Found(fh.exp.value, fh.dentry.value)
  }

  /** The response handle is in the directory's export and `name` in the directory means its dentry. */
  ghost predicate Child(k: Kernel, fh: SvcFh, name: seq<Byte>, res: SvcFh)
    reads fh`exp, fh`dentry, res`exp, res`dentry
  {
    && fh.exp.Some? && fh.dentry.Some? && res.exp == fh.exp && res.dentry.Some?
    && Named(k, fh.dentry.value, name, res.dentry.value)
  }

  /** Two handles, and `k` holds just what they hold beyond `b`. */
  ghost predicate Pair(k: Kernel, f: SvcFh, g: SvcFh, b: Refs)
    reads k, f, g
  {
    && f.Good(k) && g.Good(k)
    && k.Held() == Add(Add(b, f.Held(k)), g.Held(k))
  }

  /** As fh_init leaves it: ready for fh_compose. */
  ghost predicate Blank(f: SvcFh)
    reads f
  {
    f.Empty() && |f.base| == 128 && KeyLen(f.base[2]) == 8 && f.base[3] == FILEID_ROOT && f.maxsize == NFS3_FHSIZE
  }

  /** What a reply may carry: the handle of an object that exists. */
  ghost predicate Sendable(k: Kernel, f: SvcFh)
    reads k`positive, f
  {
    f.Complete(k) && f.dentry.value in k.positive
  }

  lemma PairFirst(k: Kernel, f: SvcFh, g: SvcFh, b: Refs)
    requires f.Good(k) && g.Good(k)
    ensures Pair(k, f, g, b) <==> f.Balanced(k, Add(b, g.Held(k)))
    ensures Pair(k, f, g, b) <==> g.Balanced(k, Add(b, f.Held(k)))
  {
    hide Add, HeldBy;
    AddAC(b, f.Held(k), g.Held(k));
  }

  /** What LOOKUP finds: dot names need no lookup, which may fail. An empty name before two dots is taken for "..". */
  ghost function Sought(k: Kernel, x: ExportId, dir: DentryId, name: seq<Byte>, c: Calls): Option<DentryId> {
    if name == [] && c.pastEnd then LookupMeaning(k, x, dir, ['.' as int, '.' as int])
    else if c.lookup && !IsDotEnt(name) then None
    else LookupMeaning(k, x, dir, name)
  }

  /** nfsd_lookup_dentry: the dentry of a name, with a reference to it and one to the export. */
  method LookupDentry(k: Kernel, fh: SvcFh, name: seq<Byte>, c: Calls) returns (d: Option<DentryId>)
    requires k.Valid() && fh.Good(k) && fh.exp.Some?
    modifies k`dentries, k`exports
    ensures d.Some? ==> d.value in k.world.fids && k.world.device[d.value] == k.world.exports[fh.exp.value].dev
    ensures d == Sought(k, fh.exp.value, fh.dentry.value, name, c)
    ensures k.Held() ==
      if d.Some? then Add(Add(old(k.Held()), ExportRef(fh.exp.value)), DentryRef(d.value)) else old(k.Held())
  {
    hide WellFormed, Add;
    var dparent, x := fh.dentry.value, fh.exp.value;
    k.ExpGet(x);
    var dot := if name == [] then c.pastEnd else IsDotEnt(name);
    if dot {
      if |name| == 1 {
        k.Dget(dparent);
        d := Some(dparent);
      } else if dparent != k.world.exports[x].root {
        var p := k.DgetParent(dparent);
        d := Some(p);
      } else {
        k.Dget(dparent);
        d := Some(dparent);
      }
    } else {
      d := k.Lookup(dparent, name, c.lookup);
      if d.None? {
        k.ExpPut(x, old(k.Held()));
      }
    }
  }

  /** What the client's handle leads to. */
  ghost function Reached(k: Kernel, c: Calls, fh: SvcFh): Resolved
    requires fh.size <= |fh.base|
    reads fh`base, fh`size
  {
    Reach(c.verify, k.world, k.cache, fh.Wire())
  }

  /** LOOKUP of a name in what the handle leads to. */
  ghost function Lookups(k: Kernel, c: Calls, positive: set<DentryId>, dir: Resolved, name: seq<Byte>): Status {
    match dir
    case Failed(status) => status
    case Found(x, d) => LookupStatus(k.world, positive, x, Sought(k, x, d, name, c))
  }

  lemma ReachedVerified(k: Kernel, fh: SvcFh, fault: Fault)
    requires fh.size <= |fh.base|
    ensures fh.exp.Some? && fh.dentry.Some? ==>
      Reach(fault, k.world, k.cache, fh.Wire()) == Found(fh.exp.value, fh.dentry.value) ==> Verified(k, fh)
  {
    hide Resolve, Hits;
  }

  /** The response handle is in the directory's export, and LOOKUP takes a proper name to its dentry. */
  ghost predicate LookedUp(k: Kernel, fh: SvcFh, name: seq<Byte>, res: SvcFh)
    reads fh`exp, fh`dentry, res`exp, res`dentry
  {
    && fh.exp.Some? && fh.dentry.Some? && res.exp == fh.exp && res.dentry.Some?
    && (name != [] ==> LooksUp(k, fh.exp.value, fh.dentry.value, name, res.dentry.value))
  }

  lemma ShiftIn(a: Refs, h: Refs, x: Refs, d: Refs)
    ensures Add(Add(Add(a, h), x), d) == Add(Add(a, Add(x, d)), h)
  {
    hide Add;
    AddAC(Add(a, h), x, d);
    AddAC(a, h, Add(x, d));
  }

  /** nfsd_lookup once the directory is known. */
  method LookupVerified(k: Kernel, fh: SvcFh, res: SvcFh, name: seq<Byte>, c: Calls, ghost b: Refs)
    returns (status: Status)
    requires k.Valid() && fh != res && fh.exp.Some? && Pair(k, fh, res, b) && Blank(res)
    modifies k`dentries, k`exports, k`writers, res
    ensures Pair(k, fh, res, b)
    ensures status == Ok ==> Sendable(k, res) && res.base[2] == FSID_DEV
    ensures status == Ok ==> LookedUp(k, fh, name, res)
    ensures status == LookupStatus(k.world, k.positive, fh.exp.value, Sought(k, fh.exp.value, fh.dentry.value, name, c))
  {
    hide WellFormed, Add, HeldBy, HandleOf, Resolve, LookupMeaning;
    var x := fh.exp.value;
    ghost var a := Add(b, fh.Held(k));
    var d := LookupDentry(k, fh, name, c);
    if d.None? {
      return Io;
    }
    ShiftIn(a, res.Held(k), ExportRef(x), DentryRef(d.value));
    status := res.Compose(k, x, d.value, Add(a, Add(ExportRef(x), DentryRef(d.value))));
    if status == Ok && d.value !in k.positive {
      status := NoEnt;
    }
    ShiftIn(a, res.Held(k), ExportRef(x), DentryRef(d.value));
    k.Dput(d.value, Add(Add(a, res.Held(k)), ExportRef(x)));
    k.ExpPut(x, Add(a, res.Held(k)));
  }

  /** nfsd_lookup: on success the response handle is the one of what the name means. */
  method Lookup(k: Kernel, fh: SvcFh, res: SvcFh, name: seq<Byte>, c: Calls, ghost b: Refs) returns (status: Status)
    requires k.Valid() && fh != res && Pair(k, fh, res, b) && Blank(res) && fh.size <= 128 && fh.exp.None?
    modifies k`dentries, k`exports, k`writers, fh`dentry, fh`exp, res
    ensures Pair(k, fh, res, b)
    ensures status == Ok ==> Sendable(k, res) && res.base[2] == FSID_DEV
    ensures status == Ok ==> LookedUp(k, fh, name, res) && Verified(k, fh)
    ensures status == Lookups(k, c, k.positive, Reached(k, c, fh), name)
  {
    hide WellFormed, Add, HeldBy, Reach, Resolve, HandleOf, LookedUp, LookupStatus;
    PairFirst(k, fh, res, b);
    status := fh.Verify(k, c.verify, Add(b, res.Held(k)));
    PairFirst(k, fh, res, b);
    ReachedVerified(k, fh, c.verify);
    if status == Ok {
      status := LookupVerified(k, fh, res, name, c, b);
    }
  }

  /** A call that needs write access to what the handle leads to, and then has this status. */
  ghost function Written(c: Calls, obj: Resolved, status: Status): Status {
    match obj
    case Failed(s) => s
    case Found(_, _) => if c.want then Io else status
  }

  /** nfsd_setattr as far as references go: it takes write access only when it is the first to look the handle up. */
  method Setattr(k: Kernel, fh: SvcFh, c: Calls, ghost b: Refs) returns (status: Status)
    requires k.Valid() && fh.Balanced(k, b) && fh.size <= 128
    modifies k`dentries, k`exports, k`writers, fh`dentry, fh`exp, fh`wantWrite
    ensures fh.Balanced(k, b)
    ensures old(fh.exp).Some? ==>
      status == c.attrs && fh.dentry == old(fh.dentry) && fh.exp == old(fh.exp) && fh.wantWrite == old(fh.wantWrite)
    ensures old(fh.exp).None? ==> status == Written(c, Reached(k, c, fh), c.attrs)
    ensures status == Ok && old(fh.exp).None? ==> Verified(k, fh) && fh.wantWrite
  {
    hide WellFormed, Add, HeldBy, Resolve, Reach;
    var first := fh.dentry.None?;
    status := fh.Verify(k, c.verify, b);
    ReachedVerified(k, fh, c.verify);
    if status != Ok {
      return;
    }
    if first {
      var err := fh.WantWrite(k, c.want, b);
      if err {
        return Io;
      }
    }
    status := c.attrs;
  }

  /** nfsd_create_setattr: nfsd_setattr, or only a commit. */
  method CreateSetattr(k: Kernel, fh: SvcFh, c: Calls, ghost b: Refs) returns (status: Status)
    requires k.Valid() && fh.Balanced(k, b) && fh.size <= 128 && fh.exp.Some?
    modifies k`dentries, k`exports, k`writers, fh`dentry, fh`exp, fh`wantWrite
    ensures fh.Balanced(k, b) && status == c.attrs
    ensures fh.dentry == old(fh.dentry) && fh.exp == old(fh.exp) && fh.wantWrite == old(fh.wantWrite)
  {
    hide WellFormed, Add, HeldBy;
    if c.hasAttrs {
      status := Setattr(k, fh, c, b);
    } else {
      status := c.attrs;
    }
  }

  /** fh_verify of a handle that has not been verified yet. */
  method VerifyFresh(k: Kernel, fh: SvcFh, c: Calls, ghost b: Refs) returns (status: Status)
    requires k.Valid() && fh.Balanced(k, b) && fh.size <= 128 && fh.exp.None?
    modifies k`dentries, k`exports, fh`dentry, fh`exp
    ensures fh.Balanced(k, b) && |fh.base| == 128
    ensures Outcome(status, fh.exp, fh.dentry) == Reached(k, c, fh)
    ensures status == Ok ==> fh.exp.Some? && Verified(k, fh)
  {
    hide WellFormed, Add, HeldBy, Resolve, Reach;
    status := fh.Verify(k, c.verify, b);
    ReachedVerified(k, fh, c.verify);
  }

  /** The checks on the name and the directory of something new. */
  ghost function Checked(c: Calls, dir: Resolved, name: seq<Byte>): Status {
    if name == [] then Perm
    else if IsDotEnt(name) then Exist
    else match dir
         case Failed(status) => status
         case Found(_, _) => if c.directory then Ok else NotDir
  }

  /** What nfsd_create and do_nfsd_create check first: the name, the handle, and that it is a directory. */
  method CheckDir(k: Kernel, fh: SvcFh, name: seq<Byte>, c: Calls, ghost b: Refs) returns (status: Status)
    requires k.Valid() && fh.Balanced(k, b) && fh.size <= 128 && fh.exp.None?
    modifies k`dentries, k`exports, fh`dentry, fh`exp
    ensures fh.Balanced(k, b) && |fh.base| == 128
    ensures status == Checked(c, Reached(k, c, fh), name)
    ensures status == Ok ==> fh.exp.Some? && Reached(k, c, fh) == Found(fh.exp.value, fh.dentry.value)
    ensures status == Ok ==> Verified(k, fh) && name != [] && !IsDotEnt(name)
  {
    hide WellFormed, Add, HeldBy, Verified, Reach;
    if name == [] {
      return Perm;
    }
    if IsDotEnt(name) {
      return Exist;
    }
    status := VerifyFresh(k, fh, c, b);
    if status != Ok {
      return;
    }
    if !c.directory {
      return NotDir;
    }
  }

  /** The dentry of a new name, if it can be looked up. */
  ghost function NameDentry(k: Kernel, c: Calls, dir: DentryId, name: seq<Byte>): Option<DentryId> {
    if c.lookup then None else Meaning(k, dir, name)
  }

  /** The common start of nfsd_create and do_nfsd_create. */
  ghost function Begun(k: Kernel, c: Calls, positive: set<DentryId>, dir: Resolved, name: seq<Byte>): Status {
    if Checked(c, dir, name) != Ok then Checked(c, dir, name)
    else if c.want || dir.Failed? || NameDentry(k, c, dir.d, name).None? then Io
    else
      var d := NameDentry(k, c, dir.d, name).value;
      if d in positive && !Fits(k.world, dir.x, d) then OpNotSupp else Ok
  }

  ghost function ChildRef(child: Option<DentryId>): Refs {
    if child.Some? then DentryRef(child.value) else NONE
  }

  /** The response handle stands for `d`: completely if it has an inode, provisionally otherwise. */
  ghost predicate Composed(k: Kernel, res: SvcFh, d: DentryId)
    reads k`positive, res
  {
    && res.dentry == Some(d) && res.exp.Some? && |res.base| == 128 && res.base[2] == FSID_DEV
    && res.maxsize == NFS3_FHSIZE
    && (res.Complete(k) || res.Provisional(k))
    && (d in k.positive ==> res.Complete(k))
  }

  /** lookup_one_len and fh_compose for the name of a new file. */
  method ComposeChild(k: Kernel, fh: SvcFh, res: SvcFh, name: seq<Byte>, c: Calls, ghost a: Refs)
    returns (status: Status, child: Option<DentryId>)
    requires k.Valid() && fh != res && fh.Good(k) && fh.exp.Some? && Blank(res) && res.Balanced(k, a)
    requires !IsDotEnt(name)
    modifies k`dentries, k`exports, k`writers, res
    ensures res.Good(k) && k.Held() == Add(Add(a, res.Held(k)), ChildRef(child))
    ensures child == NameDentry(k, c, fh.dentry.value, name)
    ensures status ==
      if child.None? then Io
      else if child.value in k.positive && !Fits(k.world, fh.exp.value, child.value) then OpNotSupp
      else Ok
    ensures status == Ok ==> Composed(k, res, child.value) && Child(k, fh, name, res)
  {
    hide WellFormed, Add, HeldBy, HandleOf;
    child := k.Lookup(fh.dentry.value, name, c.lookup);
    if child.None? {
      AddNone(Add(a, res.Held(k)));
      return Io, None;
    }
    AddAC(a, res.Held(k), DentryRef(child.value));
    status := res.Compose(k, fh.exp.value, child.value, Add(a, DentryRef(child.value)));
    AddAC(a, res.Held(k), DentryRef(child.value));
  }

  /** A name's dentry under a verified directory, with write access to its mount: the common start of nfsd_create and
      do_nfsd_create. On success `res` is composed for it. */
  method BeginCreate(k: Kernel, fh: SvcFh, res: SvcFh, name: seq<Byte>, c: Calls, ghost b: Refs)
    returns (status: Status, child: Option<DentryId>)
    requires k.Valid() && fh != res && Pair(k, fh, res, b) && Blank(res) && fh.size <= 128 && fh.exp.None?
    modifies k`dentries, k`exports, k`writers, fh`dentry, fh`exp, fh`wantWrite, res
    ensures fh.Good(k) && res.Good(k)
    ensures k.Held() == Add(Add(Add(b, fh.Held(k)), res.Held(k)), ChildRef(child))
    ensures status == Begun(k, c, k.positive, Reached(k, c, fh), name)
    ensures status == Ok ==> child.Some? && Verified(k, fh) && Composed(k, res, child.value) && Child(k, fh, name, res)
    ensures status == Ok ==> Reached(k, c, fh) == Found(fh.exp.value, fh.dentry.value)
    ensures status == Ok ==> child == NameDentry(k, c, fh.dentry.value, name) && fh.wantWrite
  {
    hide WellFormed, Add, HeldBy, Verified, HandleOf, Child, Reach, Checked, Meaning, Fits;
    child := None;
    PairFirst(k, fh, res, b);
    status := CheckDir(k, fh, name, c, Add(b, res.Held(k)));
    AddAC(b, fh.Held(k), res.Held(k));
    AddNone(Add(Add(b, fh.Held(k)), res.Held(k)));
    if status != Ok {
      return;
    }
    var err := fh.WantWrite(k, c.want, Add(b, res.Held(k)));
    AddAC(b, fh.Held(k), res.Held(k));
    AddNone(Add(Add(b, fh.Held(k)), res.Held(k)));
    if err {
      return Io, None;
    }
    status, child := ComposeChild(k, fh, res, name, c, Add(b, fh.Held(k)));
  }

  /** The status once attributes are set, the directory is committed (whose failure counts first in nfsd_create) and the
      handle is completed. */
  ghost function Finished(w: World, positive: set<DentryId>, c: Calls, x: ExportId, d: DentryId, first: bool): Status {
    if first && c.commit != Ok then c.commit
    else if c.attrs != Ok then c.attrs
    else if c.commit != Ok then c.commit
    else if d !in positive then ServerFault
    else if Fits(w, x, d) then Ok
    else OpNotSupp
  }

  /** The common end of nfsd_create and do_nfsd_create: attributes, commits, fh_update. */
  method FinishCreate(k: Kernel, res: SvcFh, c: Calls, commitFirst: bool, ghost b: Refs) returns (status: Status)
    requires k.Valid() && res.Balanced(k, b) && res.exp.Some? && res.maxsize == NFS3_FHSIZE
    requires (res.Complete(k) || res.Provisional(k)) && res.base[2] == FSID_DEV
    modifies k`dentries, k`exports, k`writers, res`dentry, res`exp, res`wantWrite, res`base, res`size
    ensures res.Balanced(k, b) && res.dentry == old(res.dentry) && res.exp == old(res.exp)
    ensures status == Finished(k.world, k.positive, c, res.exp.value, res.dentry.value, commitFirst)
    ensures status == Ok ==> Sendable(k, res) && res.base[2] == FSID_DEV
  {
    hide WellFormed, Add, HeldBy, HandleOf;
    status := CreateSetattr(k, res, c, b);
    if (commitFirst || status == Ok) && c.commit != Ok {
      status := c.commit;
    }
    if status == Ok {
      status := res.Update(k);
    }
  }

  /** The dentries with an inode after one was made for `d`. */
  ghost function After(c: Calls, positive: set<DentryId>, d: DentryId): set<DentryId> {
    if c.making.Made? then positive + {d} else positive
  }

  /** What becomes of a name that nfsd_create is to make something new of, and of the inodes. */
  ghost function New(w: World, positive: set<DentryId>, c: Calls, x: ExportId, d: DentryId): (Status, set<DentryId>) {
    if d in positive then (Exist, positive)
    else if c.making.Refused? then (Io, positive)
    else (Finished(w, After(c, positive, d), c, x, d, true), After(c, positive, d))
  }

  /** MKDIR of a name in what the handle leads to. */
  ghost function Mkdirs(k: Kernel, c: Calls, positive: set<DentryId>, dir: Resolved, name: seq<Byte>)
    : (Status, set<DentryId>)
  {
    if Begun(k, c, positive, dir, name) != Ok || dir.Failed? || NameDentry(k, c, dir.d, name).None?
    then (Begun(k, c, positive, dir, name), positive)
    else New(k.world, positive, c, dir.x, NameDentry(k, c, dir.d, name).value)
  }

  /** The start of nfsd_create when the response handle has a dentry already. */
  method BeginVerified(k: Kernel, fh: SvcFh, res: SvcFh, name: seq<Byte>, c: Calls, ghost b: Refs)
    returns (status: Status, child: Option<DentryId>)
    requires k.Valid() && fh != res && Pair(k, fh, res, b) && fh.size <= 128 && fh.exp.None? && res.dentry.Some?
    modifies k`dentries, k`exports, fh`dentry, fh`exp
    ensures fh.Good(k) && res.Good(k)
    ensures k.Held() == Add(Add(Add(b, fh.Held(k)), res.Held(k)), ChildRef(child))
    ensures status == Checked(c, Reached(k, c, fh), name)
    ensures status == Ok ==> Verified(k, fh) && child == res.dentry
  {
    hide WellFormed, Add, HeldBy, Verified, Reach, Checked;
    child := None;
    PairFirst(k, fh, res, b);
    status := CheckDir(k, fh, name, c, Add(b, res.Held(k)));
    AddAC(b, fh.Held(k), res.Held(k));
    AddNone(Add(Add(b, fh.Held(k)), res.Held(k)));
    if status == Ok {
      k.Dget(res.dentry.value);
      child := res.dentry;
    }
  }

  /** The rest of nfsd_create: there must be no inode yet, and then there is one. */
  method MakeNew(k: Kernel, res: SvcFh, d: DentryId, c: Calls, ghost a: Refs) returns (status: Status)
    requires k.Valid() && res.Good(k) && Composed(k, res, d) && k.Held() == Add(Add(a, res.Held(k)), DentryRef(d))
    modifies k, res`dentry, res`exp, res`wantWrite, res`base, res`size
    ensures res.Good(k) && res.dentry == old(res.dentry) && res.exp == old(res.exp)
    ensures k.Held() == Add(Add(a, res.Held(k)), DentryRef(d))
    ensures (status, k.positive) == New(k.world, old(k.positive), c, res.exp.value, d)
    ensures status == Ok ==> Sendable(k, res) && res.base[2] == FSID_DEV
    ensures status == Ok ==> d !in old(k.positive) && k.positive == old(k.positive) + {d} && res.dentry == Some(d)
  {
    hide WellFormed, Add, HeldBy, HandleOf, Fits;
    if d in k.positive {
      return Exist;
    }
    var err := k.MakeInode(d, c.making);
    if err {
      return Io;
    }
    AddAC(a, res.Held(k), DentryRef(d));
    status := FinishCreate(k, res, c, true, Add(a, DentryRef(d)));
    AddAC(a, res.Held(k), DentryRef(d));
  }

  method DropChild(k: Kernel, child: Option<DentryId>, ghost b: Refs)
    requires k.Held() == Add(b, ChildRef(child))
    modifies k`dentries
    ensures k.Held() == b
  {
    hide Add;
    if child.Some? {
      k.Dput(child.value, b);
    } else {
      AddNone(b);
    }
  }

  /** nfsd_create. On success the response handle's dentry, and no other, has got an inode; as MKDIR calls it, with a
      blank response handle, that dentry is the name's. */
  method Create(k: Kernel, fh: SvcFh, res: SvcFh, name: seq<Byte>, c: Calls, ghost b: Refs) returns (status: Status)
    requires k.Valid() && fh != res && Pair(k, fh, res, b) && fh.size <= 128 && fh.exp.None?
    requires if res.dentry.None? then Blank(res) else Composed(k, res, res.dentry.value)
    modifies k, fh`dentry, fh`exp, fh`wantWrite, res
    ensures Pair(k, fh, res, b)
    ensures status == Ok ==> Sendable(k, res) && res.base[2] == FSID_DEV
    ensures status == Ok ==> Verified(k, fh) && res.dentry.value !in old(k.positive)
    ensures status == Ok ==> k.positive == old(k.positive) + {res.dentry.value}
    ensures status == Ok && old(res.dentry).None? ==> Child(k, fh, name, res) && fh.wantWrite
    ensures status == Ok && old(res.dentry).Some? ==> res.dentry == old(res.dentry)
    ensures old(res.dentry).None? ==>
      (status, k.positive) == Mkdirs(k, c, old(k.positive), Reached(k, c, fh), name)
    ensures old(res.dentry).Some? ==>
      (status, k.positive) ==
        if Checked(c, Reached(k, c, fh), name) != Ok then (Checked(c, Reached(k, c, fh), name), old(k.positive))
        else New(k.world, old(k.positive), c, old(res.exp).value, old(res.dentry).value)
  {
    hide WellFormed, Add, HeldBy, HandleOf, Verified, Named, Composed, Reach, Checked, Begun, New, NameDentry,
      Sendable;
    var child: Option<DentryId>;
    if res.dentry.None? {
      status, child := BeginCreate(k, fh, res, name, c, b);
    } else {
      status, child := BeginVerified(k, fh, res, name, c, b);
    }
    if status == Ok {
      status := MakeNew(k, res, child.value, c, Add(b, fh.Held(k)));
    }
    DropChild(k, child, Add(Add(b, fh.Held(k)), res.Held(k)));
  }

  datatype CreateMode = Unchecked | Guarded | Exclusive

  /** What becomes of a name that do_nfsd_create is to create a file for, and of the inodes. */
  ghost function Reused(w: World, positive: set<DentryId>, c: Calls, mode: CreateMode, x: ExportId, d: DentryId)
    : (Status, set<DentryId>)
  {
    if d in positive then
      match mode
      case Guarded => (Exist, positive)
      case Exclusive => (if c.sameTimes then Ok else Exist, positive)
      case Unchecked => (if c.regular then Finished(w, positive, c, x, d, false) else Ok, positive)
    else if c.making.Refused? then (Io, positive)
    else (Finished(w, After(c, positive, d), c, x, d, false), After(c, positive, d))
  }

  /** CREATE of a name in what the handle leads to. */
  ghost function Creates(k: Kernel, c: Calls, positive: set<DentryId>, dir: Resolved, name: seq<Byte>, mode: CreateMode)
    : (Status, set<DentryId>)
  {
    if Begun(k, c, positive, dir, name) != Ok || dir.Failed? || NameDentry(k, c, dir.d, name).None?
    then (Begun(k, c, positive, dir, name), positive)
    else Reused(k.world, positive, c, mode, dir.x, NameDentry(k, c, dir.d, name).value)
  }

  /** The end of do_nfsd_create: dput and fh_drop_write. */
  method EndCreate(k: Kernel, fh: SvcFh, res: SvcFh, child: Option<DentryId>, ghost b: Refs)
    requires fh != res && fh.Good(k) && res.Good(k)
    requires k.Held() == Add(Add(Add(b, fh.Held(k)), res.Held(k)), ChildRef(child))
    modifies k`dentries, k`writers, fh`wantWrite
    ensures Pair(k, fh, res, b) && !fh.wantWrite
  {
    hide Add, HeldBy;
    DropChild(k, child, Add(Add(b, fh.Held(k)), res.Held(k)));
    PairFirst(k, fh, res, b);
    fh.DropWrite(k, Add(b, res.Held(k)));
    PairFirst(k, fh, res, b);
  }

  /** fh_drop_write on the directory while the response handle and the child are held. */
  method DropWriteHere(k: Kernel, fh: SvcFh, res: SvcFh, ghost d: DentryId, ghost b: Refs)
    requires fh != res && fh.Good(k) && res.Good(k)
    requires k.Held() == Add(Add(Add(b, fh.Held(k)), res.Held(k)), DentryRef(d))
    modifies k`writers, fh`wantWrite
    ensures fh.Good(k) && res.Good(k) && !fh.wantWrite
    ensures k.Held() == Add(Add(Add(b, fh.Held(k)), res.Held(k)), DentryRef(d))
  {
    hide Add, HeldBy;
    ghost var r := Add(res.Held(k), DentryRef(d));
    AddAC(Add(b, fh.Held(k)), res.Held(k), DentryRef(d));
    AddAC(b, fh.Held(k), r);
    fh.DropWrite(k, Add(b, r));
    AddAC(b, fh.Held(k), r);
    AddAC(Add(b, fh.Held(k)), res.Held(k), DentryRef(d));
  }

  /** The middle of do_nfsd_create: an existing file is reused or refused according to the mode. */
  method CreateOrReuse(k: Kernel, fh: SvcFh, res: SvcFh, d: DentryId, mode: CreateMode, c: Calls, ghost b: Refs)
    returns (status: Status)
    requires k.Valid() && fh != res && fh.Good(k) && res.Good(k) && Composed(k, res, d)
    requires k.Held() == Add(Add(Add(b, fh.Held(k)), res.Held(k)), DentryRef(d))
    modifies k, fh`wantWrite, res`dentry, res`exp, res`wantWrite, res`base, res`size
    ensures fh.Good(k) && res.Good(k) && res.dentry == old(res.dentry) && res.exp == old(res.exp)
    ensures k.Held() == Add(Add(Add(b, fh.Held(k)), res.Held(k)), DentryRef(d))
    ensures (status, k.positive) == Reused(k.world, old(k.positive), c, mode, res.exp.value, d)
    ensures status == Ok ==> Sendable(k, res) && res.base[2] == FSID_DEV
    ensures status == Ok ==> k.positive == old(k.positive) + {d} && (mode.Guarded? ==> d !in old(k.positive))
  {
    hide WellFormed, Add, HeldBy, HandleOf, Fits;
    if d in k.positive && !mode.Unchecked? {
      status := if mode.Exclusive? && c.sameTimes then Ok else Exist;
      DropWriteHere(k, fh, res, d, b);
      return;
    }
    if d in k.positive && !c.regular {
      return Ok;
    }
    if d !in k.positive {
      var err := k.MakeInode(d, c.making);
      if err {
        DropWriteHere(k, fh, res, d, b);
        return Io;
      }
    }
    ghost var a := Add(b, fh.Held(k));
    AddAC(a, res.Held(k), DentryRef(d));
    status := FinishCreate(k, res, c, false, Add(a, DentryRef(d)));
    AddAC(a, res.Held(k), DentryRef(d));
  }

  /** do_nfsd_create, as CREATE calls it: a guarded request succeeds only for a name that had no inode. */
  method DoCreate(k: Kernel, fh: SvcFh, res: SvcFh, name: seq<Byte>, mode: CreateMode, c: Calls, ghost b: Refs)
    returns (status: Status)
    requires k.Valid() && fh != res && Pair(k, fh, res, b) && Blank(res) && fh.size <= 128 && fh.exp.None?
    modifies k, fh`dentry, fh`exp, fh`wantWrite, res
    ensures Pair(k, fh, res, b) && !fh.wantWrite
    ensures (status, k.positive) == Creates(k, c, old(k.positive), Reached(k, c, fh), name, mode)
    ensures status == Ok ==> Sendable(k, res) && res.base[2] == FSID_DEV
    ensures status == Ok ==> Verified(k, fh) && Child(k, fh, name, res)
    ensures status == Ok ==> k.positive == old(k.positive) + {res.dentry.value}
    ensures status == Ok && mode.Guarded? ==> res.dentry.value !in old(k.positive)
  {
    hide WellFormed, Add, HeldBy, HandleOf, Verified, Named, Reach, Begun, Reused, NameDentry;
    var child: Option<DentryId>;
    status, child := BeginCreate(k, fh, res, name, c, b);
    if status == Ok {
      status := CreateOrReuse(k, fh, res, child.value, mode, c, b);
    }
    EndCreate(k, fh, res, child, b);
  }

  /** What becomes of a name in directory `dir` that is to be removed, and of the inodes. */
  ghost function Removed(k: Kernel, c: Calls, positive: set<DentryId>, dir: DentryId, name: seq<Byte>)
    : (Status, set<DentryId>)
  {
    match NameDentry(k, c, dir, name)
    case None => (Io, positive)
    case Some(d) =>
      if d !in positive then (NoEnt, positive)
      else if c.unlink then (Io, positive)
      else (c.commit, positive - {d})
  }

  /** REMOVE and RMDIR of a name in what the handle leads to. */
  ghost function Unlinks(k: Kernel, c: Calls, positive: set<DentryId>, dir: Resolved, name: seq<Byte>)
    : (Status, set<DentryId>)
  {
    if name == [] || IsDotEnt(name) then (Acces, positive)
    else match dir
         case Failed(status) => (status, positive)
         case Found(_, d) => if c.want then (Io, positive) else Removed(k, c, positive, d, name)
  }

  /** nfsd_unlink once the directory may be written. */
  method UnlinkChild(k: Kernel, fh: SvcFh, name: seq<Byte>, c: Calls, ghost b: Refs) returns (status: Status)
    requires k.Valid() && fh.Balanced(k, b) && fh.exp.Some? && !IsDotEnt(name)
    modifies k
    ensures fh.Balanced(k, b)
    ensures (status, k.positive) == Removed(k, c, old(k.positive), fh.dentry.value, name)
  {
    hide WellFormed, Add, HeldBy;
    var child := k.Lookup(fh.dentry.value, name, c.lookup);
    if child.None? {
      return Io;
    }
    if child.value !in k.positive {
      k.Dput(child.value, Add(b, fh.Held(k)));
      return NoEnt;
    }
    k.RemoveInode(child.value, c.unlink);
    status := if c.unlink then Io else c.commit;
    k.Dput(child.value, Add(b, fh.Held(k)));
  }

  /** nfsd_unlink: it succeeds only for a name with an inode, and then that name's dentry, and nothing else, has lost
      it. */
  method Unlink(k: Kernel, fh: SvcFh, name: seq<Byte>, c: Calls, ghost b: Refs) returns (status: Status)
    requires k.Valid() && fh.Balanced(k, b) && fh.size <= 128 && fh.exp.None?
    modifies k, fh`dentry, fh`exp, fh`wantWrite
    ensures fh.Balanced(k, b) && |fh.base| == 128
    ensures status == Ok ==> Verified(k, fh) && fh.wantWrite
    ensures (status, k.positive) == Unlinks(k, c, old(k.positive), Reached(k, c, fh), name)
  {
    hide WellFormed, Add, HeldBy, Verified, Reach, Removed;
    if name == [] || IsDotEnt(name) {
      return Acces;
    }
    status := VerifyFresh(k, fh, c, b);
    if status != Ok {
      return;
    }
    var err := fh.WantWrite(k, c.want, b);
    if err {
      return Io;
    }
    status := UnlinkChild(k, fh, name, c, b);
  }

  /** The status of opening what a handle leads to, and then of what is done with the file. */
  ghost function Used(c: Calls, obj: Resolved, status: Status): Status {
    match obj
    case Failed(s) => s
    case Found(_, _) =>
      match c.opening
      case NoOperations => Perm
      case Opens => status
      case _ => Io
  }

  /** nfsd_open; the open file holds a reference to its dentry. */
  method Open(k: Kernel, fh: SvcFh, c: Calls, ghost b: Refs) returns (status: Status, file: Option<DentryId>)
    requires k.Valid() && fh.Balanced(k, b) && fh.size <= 128
    modifies k`dentries, k`exports, fh`dentry, fh`exp
    ensures fh.Good(k) && k.Held() == Add(Add(b, fh.Held(k)), ChildRef(file))
    ensures status == Ok <==> file.Some?
    ensures status == Ok ==> fh.exp.Some? && file == fh.dentry
    ensures old(fh.exp).Some? ==> fh.exp == old(fh.exp) && fh.dentry == old(fh.dentry)
    ensures status == Used(c, if old(fh.exp).Some? then Found(0, 0) else Reached(k, c, fh), Ok)
    ensures status == Ok && old(fh.exp).None? ==> Reached(k, c, fh).Found?
  {
    hide WellFormed, Add, HeldBy, Resolve, Reach;
    file := None;
    status := fh.Verify(k, c.verify, b);
    AddNone(Add(b, fh.Held(k)));
    if status != Ok {
      return;
    }
    if c.opening.NoOperations? {
      return Perm, None;
    }
    if c.opening.OpenFails? {
      return Io, None;
    }
    k.Dget(fh.dentry.value);
    if c.opening.CheckFails? {
      k.Dput(fh.dentry.value, Add(b, fh.Held(k)));
      return Io, None;
    }
    file := fh.dentry;
  }

  /** nfsd_read and nfsd_write: open, transfer, close. */
  method Transfer(k: Kernel, fh: SvcFh, c: Calls, ghost b: Refs) returns (status: Status)
    requires k.Valid() && fh.Balanced(k, b) && fh.size <= 128 && fh.exp.None?
    modifies k`dentries, k`exports, fh`dentry, fh`exp
    ensures fh.Balanced(k, b) && |fh.base| == 128
    ensures status == Used(c, Reached(k, c, fh), c.transfer)
  {
    hide WellFormed, Add, HeldBy, Reach;
    var file: Option<DentryId>;
    status, file := Open(k, fh, c, b);
    if status == Ok {
      status := c.transfer;
    }
    DropChild(k, file, Add(b, fh.Held(k)));
  }

  /** `bs` is the handle of file `d` in export `x`, which is on the same device. */
  ghost predicate Names(w: World, bs: seq<Byte>, x: ExportId, d: DentryId) {
    && x in w.exports && GoodDev(w.exports[x].dev)
    && d in w.fids && d in w.device && w.device[d] == w.exports[x].dev
    && |bs| <= NFS3_FHSIZE && bs == HandleOf(w, FSID_DEV, x, d)
  }

  /** A handle from a reply, sent as opaque data and sent back, is taken for the same object again. */
  lemma SentHandleComesBack(w: World, cache: Cache, x: ExportId, d: DentryId, bs: seq<Byte>, rest: seq<Word>)
    requires WellFormed(w) && Names(w, bs, x, d) && Known(w, cache, FSID_DEV, x)
    ensures |bs| < TWO32 && TakeOpaque(Opaque(bs) + rest) == Good(bs, rest)
    ensures Resolve(w, cache, bs) == Found(x, d)
  {
    hide Resolve, HandleOf, Opaque, TakeOpaque;
    TakeOpaqueOpaque(bs, rest);
    HandleRoundTrip(w, cache, FSID_DEV, x, d);
  }

  lemma SendableNames(k: Kernel, f: SvcFh)
    requires f.Good(k) && Sendable(k, f) && f.base[2] == FSID_DEV
    ensures Names(k.world, f.Wire(), f.exp.value, f.dentry.value)
  {
  }

  /** The inode of `d` has this number. */
  predicate Numbered(k: Kernel, d: DentryId, ino: U64) {
    d in k.ino && k.ino[d] == ino
  }

  /** The object whose handle comes with a directory entry, if one does: what the name means, unless that is the file
      system's root as its own parent, something is mounted on it, it has no inode or another inode number, or its
      handle would be too long. */
  ghost function EntryObject(k: Kernel, positive: set<DentryId>, x: ExportId, dir: DentryId, name: seq<Byte>, ino: U64,
                             fails: bool): Option<DentryId> {
    var d := if fails && !IsDotEnt(name) then None else Meaning(k, dir, name);
    if d.None? || (name == ['.' as int, '.' as int] && d.value == dir) then None
    else if d.value in k.mountpoints || d.value !in positive then None
    else if d.value !in k.ino || k.ino[d.value] != ino || !Fits(k.world, x, d.value) then None
    else d
  }

  /** fh_compose, encode_fh and fh_put on the scratch handle. */
  method SendEntry(k: Kernel, scratch: SvcFh, x: ExportId, d: DentryId, ghost b: Refs) returns (sent: Option<seq<Byte>>)
    requires k.Valid() && Blank(scratch) && scratch.Good(k) && k.Held() == b && d in k.positive
    requires x in k.world.exports && d in k.world.fids && k.world.device[d] == k.world.exports[x].dev
    modifies k`dentries, k`exports, k`writers, scratch
    ensures k.Held() == b
    ensures sent.Some? <==> Fits(k.world, x, d)
    ensures sent.Some? ==> Names(k.world, sent.value, x, d)
  {
    hide WellFormed, Add, HeldBy, HandleOf, Names;
    scratch.EmptyHolds(k);
    AddNone(b);
    sent := None;
    var status := scratch.Compose(k, x, d, b);
    if status == Ok {
      SendableNames(k, scratch);
      sent := Some(scratch.Wire());
    }
    scratch.Put(k, b);
  }

  /** encode_entryplus_baggage with compose_entry_fh: the handle of a directory entry, if it is to be sent. It names
      what the entry's name means. */
  method EntryHandle(k: Kernel, fh: SvcFh, name: seq<Byte>, ino: U64, fails: bool)
    returns (sent: Option<seq<Byte>>, ghost d: DentryId)
    requires k.Valid() && fh.Good(k) && fh.exp.Some?
    modifies k`dentries, k`exports, k`writers
    ensures k.Held() == old(k.Held())
    ensures sent.Some? ==> Names(k.world, sent.value, fh.exp.value, d) && d in k.positive
    ensures sent.Some? ==> Named(k, fh.dentry.value, name, d) && d !in k.mountpoints
    ensures sent.Some? ==> d in k.ino && k.ino[d] == ino
    ensures EntryObject(k, k.positive, fh.exp.value, fh.dentry.value, name, ino, fails) ==
      if sent.Some? then Some(d) else None
  {
    hide WellFormed, Add, HeldBy, HandleOf, Names, Fits;
    ghost var b := k.Held();
    var scratch := new SvcFh.Init(NFS3_FHSIZE);
    sent := None;
    var dparent := fh.dentry.value;
    d := dparent;
    var child: Option<DentryId>;
    var wanted := true;
    if IsDotEnt(name) {
      if |name| == 2 {
        var p := k.DgetParent(dparent);
        child := Some(p);
        wanted := p != dparent;
      } else {
        k.Dget(dparent);
        child := Some(dparent);
      }
    } else {
      child := k.Lookup(dparent, name, fails);
    }
    if child.None? {
      return;
    }
    var dchild := child.value;
    d := dchild;
    if wanted && dchild !in k.mountpoints && dchild in k.positive && Numbered(k, dchild, ino) {
      sent := SendEntry(k, scratch, fh.exp.value, dchild, Add(b, DentryRef(dchild)));
    }
    k.Dput(dchild, b);
  }

  // ----- the procedures, each with its release step -----

  datatype Request =
    | Getattr | SetattrReq | LookupReq(name: seq<Byte>) | Access | Read | Write
    | CreateReq(name: seq<Byte>, mode: CreateMode) | Mkdir(name: seq<Byte>)
    | Remove(name: seq<Byte>) | Rmdir(name: seq<Byte>)
    | Readdir | Readdirplus(ents: seq<(seq<Byte>, U64)>) | Fsstat | Fsinfo

  /** The name that the `i`th handle in the reply to `r` is for. */
  function NameAt(r: Request, i: nat): seq<Byte> {
    match r
    case LookupReq(name) => name
    case CreateReq(name, _) => name
    case Mkdir(name) => name
    case Readdirplus(ents) => if i < |ents| then ents[i].0 else []
    case _ => []
  }

  /** `d` is what `name` in directory `dir` of export `x` means to request `r`. An empty name in LOOKUP is looked at
      past its end; it may mean anything. */
  ghost predicate Meant(k: Kernel, r: Request, x: ExportId, dir: DentryId, name: seq<Byte>, d: DentryId) {
    if !r.LookupReq? then Named(k, dir, name, d) else name != [] ==> LooksUp(k, x, dir, name, d)
  }

  /** `bs` is the handle of `d`, which has an inode and is what `name` means. */
  ghost predicate Answer(k: Kernel, r: Request, x: ExportId, dir: DentryId, name: seq<Byte>, d: DentryId, bs: seq<Byte>)
    reads k`positive
  {
    Names(k.world, bs, x, d) && d in k.positive && Meant(k, r, x, dir, name, d)
  }

  /** `bs` answers request `r`, made with handle `handle`, for `name`. */
  ghost predicate Answers(k: Kernel, handle: seq<Byte>, r: Request, name: seq<Byte>, bs: seq<Byte>)
    reads k`positive
  {
    exists x, dir, d :: Resolve(k.world, k.cache, handle) == Found(x, dir) && Answer(k, r, x, dir, name, d, bs)
  }

  /** The same, and only the root of the export is answered with a handle of the root's type, which provisional handles
      have. */
  ghost predicate Genuine(k: Kernel, handle: seq<Byte>, r: Request, name: seq<Byte>, bs: seq<Byte>)
    reads k`positive
  {
    exists x, dir, d ::
      && Resolve(k.world, k.cache, handle) == Found(x, dir) && Answer(k, r, x, dir, name, d, bs)
      && |bs| > 3 && (bs[3] == FILEID_ROOT <==> d == k.world.exports[x].root)
  }

  /** Byte 3 tells the handle of an export's root from all others. */
  lemma RootType(w: World, bs: seq<Byte>, x: ExportId, d: DentryId)
    requires WellFormed(w) && Names(w, bs, x, d)
    ensures |bs| > 3 && (bs[3] == FILEID_ROOT <==> d == w.exports[x].root)
  {
    hide MkFsid, RootsDistinct, FidsDistinct, ExportsGood;
    FidNotRoot(w, d);
  }

  /** What a name means is one dentry. */
  lemma OneMeaning(k: Kernel, r: Request, x: ExportId, dir: DentryId, name: seq<Byte>, d: DentryId, c: DentryId)
    requires Meant(k, r, x, dir, name, d) && Meant(k, r, x, dir, name, c)
    ensures name != [] || !r.LookupReq? ==> d == c
  {
  }

  /** An answer has the type of an export's root only if the name means that root. */
  lemma AnswerIsGenuine(k: Kernel, handle: seq<Byte>, r: Request, name: seq<Byte>, bs: seq<Byte>)
    requires k.Valid() && Answers(k, handle, r, name, bs)
    ensures Genuine(k, handle, r, name, bs)
  {
    hide Resolve, Names, Meant, WellFormed;
    var x, dir, d :| Resolve(k.world, k.cache, handle) == Found(x, dir) && Answer(k, r, x, dir, name, d, bs);
    RootType(k.world, bs, x, d);
  }

  /** A provisional handle, which has that type, is no answer for a name that means anything but the root: if one were
      sent, the reply would not be an answer. */
  lemma ProvisionalIsNoAnswer(k: Kernel, handle: seq<Byte>, r: Request, x: ExportId, dir: DentryId, name: seq<Byte>,
                              f: SvcFh, d: DentryId)
    requires k.Valid() && f.Provisional(k) && Resolve(k.world, k.cache, handle) == Found(x, dir)
    requires Meant(k, r, x, dir, name, d) && d != k.world.exports[x].root && (name != [] || !r.LookupReq?)
    requires x in k.world.exports
    ensures !Answers(k, handle, r, name, f.Wire())
  {
    hide Resolve, Names, Meant, WellFormed;
    f.RootByte(k);
    if Answers(k, handle, r, name, f.Wire()) {
      var y, e, c :| Resolve(k.world, k.cache, handle) == Found(y, e) && Answer(k, r, y, e, name, c, f.Wire());
      OneMeaning(k, r, x, dir, name, d, c);
      RootType(k.world, f.Wire(), x, c);
    }
  }

  lemma AnsweredTwo(k: Kernel, fh: SvcFh, res: SvcFh, r: Request, name: seq<Byte>)
    requires Verified(k, fh) && res.Good(k) && Sendable(k, res) && res.base[2] == FSID_DEV
    requires if r.LookupReq? then LookedUp(k, fh, name, res) else Child(k, fh, name, res)
    ensures Answers(k, fh.Wire(), r, name, res.Wire())
  {
    hide Resolve, Names, Named, LooksUp;
    SendableNames(k, res);
    assert Answer(k, r, fh.exp.value, fh.dentry.value, name, res.dentry.value, res.Wire());
  }

  /** The status of a request and the dentries that have an inode after it, with the kernel calls turning out as `c`
      says: what each procedure does to the tree of names. */
  ghost function Performed(k: Kernel, c: Calls, positive: set<DentryId>, obj: Resolved, r: Request)
    : (Status, set<DentryId>)
  {
    match r
    case LookupReq(name) => (Lookups(k, c, positive, obj, name), positive)
    case CreateReq(name, mode) => Creates(k, c, positive, obj, name, mode)
    case Mkdir(name) => Mkdirs(k, c, positive, obj, name)
    case Remove(name) => Unlinks(k, c, positive, obj, name)
    case Rmdir(name) => Unlinks(k, c, positive, obj, name)
    case SetattrReq => (Written(c, obj, c.attrs), positive)
    case Access => (Ok, positive)
    case Read => (Used(c, obj, c.transfer), positive)
    case Write => (Used(c, obj, c.transfer), positive)
    case Readdir => (Used(c, obj, c.transfer), positive)
    case Readdirplus(_) => (Used(c, obj, Ok), positive)
    case _ => (if obj.Failed? then obj.status else Ok, positive)
  }

  /** LOOKUP, CREATE and MKDIR without the release step. */
  method ServeName(k: Kernel, fh: SvcFh, res: SvcFh, r: Request, c: Calls, ghost b: Refs) returns (status: Status)
    requires k.Valid() && (r.LookupReq? || r.CreateReq? || r.Mkdir?)
    requires fh != res && Pair(k, fh, res, b) && Blank(res) && fh.size <= 128 && fh.exp.None?
    modifies k, fh`dentry, fh`exp, fh`wantWrite, res
    ensures Pair(k, fh, res, b)
    ensures |fh.base| == |res.base| == 128 && (status == Ok ==> res.size <= 128)
    ensures (status, k.positive) == Performed(k, c, old(k.positive), Reached(k, c, fh), r)
    ensures status == Ok ==> Answers(k, fh.Wire(), r, NameAt(r, 0), res.Wire())
  {
    hide WellFormed, Add, HeldBy, HandleOf, Resolve, LookedUp, Child, Answers, Reach, Lookups, Creates, Mkdirs;
    match r {
      case LookupReq(name) => status := Lookup(k, fh, res, name, c, b);
      case CreateReq(name, mode) => status := DoCreate(k, fh, res, name, mode, c, b);
      case Mkdir(name) => status := Create(k, fh, res, name, c, b);
    }
    if status == Ok {
      AnsweredTwo(k, fh, res, r, NameAt(r, 0));
    }
  }

  /** LOOKUP, CREATE and MKDIR, with nfs3svc_release_fhandle2. */
  method ServeTwo(k: Kernel, handle: seq<Byte>, r: Request, c: Calls)
    returns (status: Status, sent: Option<seq<Byte>>)
    requires k.Valid() && |handle| <= 128 && (r.LookupReq? || r.CreateReq? || r.Mkdir?)
    modifies k
    ensures k.Held() == old(k.Held())
    ensures (status, k.positive) ==
      Performed(k, c, old(k.positive), Reach(c.verify, k.world, k.cache, handle), r)
    ensures status == Ok <==> sent.Some?
    ensures sent.Some? ==> Answers(k, handle, r, NameAt(r, 0), sent.value)
  {
    hide WellFormed, Add, HeldBy, HandleOf, Resolve, Answers, Reach, Performed;
    ghost var b := k.Held();
    var dirfh := new SvcFh.Decode(handle);
    var fh := new SvcFh.Init(NFS3_FHSIZE);
    dirfh.EmptyHolds(k);
    fh.EmptyHolds(k);
    AddNone(b);
    status := ServeName(k, dirfh, fh, r, c, b);
    sent := if status == Ok then Some(fh.Wire()) else None;
    PairFirst(k, dirfh, fh, b);
    dirfh.Put(k, Add(b, fh.Held(k)));
    fh.Put(k, b);
  }

  /** Entry `i` of a READDIRPLUS reply comes with a handle. */
  ghost predicate HasHandle(k: Kernel, c: Calls, positive: set<DentryId>, x: ExportId, dir: DentryId, r: Request,
                            i: nat)
    requires r.Readdirplus? && i < |r.ents|
  {
    EntryObject(k, positive, x, dir, r.ents[i].0, r.ents[i].1, i in c.missed).Some?
  }

  /** Each entry of a READDIRPLUS reply gets its own handle or none. */
  method EntryHandles(k: Kernel, fh: SvcFh, r: Request, c: Calls) returns (sent: seq<Option<seq<Byte>>>)
    requires k.Valid() && fh.Good(k) && Verified(k, fh) && r.Readdirplus?
    modifies k`dentries, k`exports, k`writers
    ensures k.Held() == old(k.Held())
    ensures |sent| == |r.ents|
    ensures forall i :: 0 <= i < |sent| ==>
      (sent[i].Some? <==> HasHandle(k, c, k.positive, fh.exp.value, fh.dentry.value, r, i))
    ensures forall i :: 0 <= i < |sent| && sent[i].Some? ==> Answers(k, fh.Wire(), r, NameAt(r, i), sent[i].value)
  {
    hide Resolve, Names, Named, LooksUp, EntryObject;
    sent := [];
    for n := 0 to |r.ents|
      invariant k.Held() == old(k.Held()) && |sent| == n
      invariant forall i :: 0 <= i < |sent| ==>
        (sent[i].Some? <==> HasHandle(k, c, k.positive, fh.exp.value, fh.dentry.value, r, i))
      invariant forall i :: 0 <= i < |sent| && sent[i].Some? ==> Answers(k, fh.Wire(), r, NameAt(r, i), sent[i].value)
    {
      var one, d := EntryHandle(k, fh, r.ents[n].0, r.ents[n].1, n in c.missed);
      assert one.Some? ==> Answer(k, r, fh.exp.value, fh.dentry.value, NameAt(r, n), d, one.value);
      sent := sent + [one];
    }
  }

  /** READDIRPLUS: verify, open, compose a handle per entry, close. */
  method ListPlus(k: Kernel, fh: SvcFh, r: Request, c: Calls, ghost b: Refs)
    returns (status: Status, sent: seq<Option<seq<Byte>>>)
    requires k.Valid() && fh.Balanced(k, b) && fh.size <= 128 && fh.exp.None? && r.Readdirplus?
    modifies k`dentries, k`exports, k`writers, fh`dentry, fh`exp
    ensures fh.Balanced(k, b) && |fh.base| == 128
    ensures status == Used(c, Reached(k, c, fh), Ok)
    ensures status == Ok ==> |sent| == |r.ents| && Reached(k, c, fh).Found?
    ensures status == Ok ==> forall i :: 0 <= i < |sent| ==>
      (sent[i].Some? <==> HasHandle(k, c, k.positive, Reached(k, c, fh).x, Reached(k, c, fh).d, r, i))
    ensures forall i :: 0 <= i < |sent| && sent[i].Some? ==> Answers(k, fh.Wire(), r, NameAt(r, i), sent[i].value)
  {
    hide WellFormed, Add, HeldBy, HandleOf, Resolve, Answers, Reach, HasHandle;
    sent := [];
    status := VerifyFresh(k, fh, c, b);
    if status != Ok {
      return;
    }
    var file: Option<DentryId>;
    status, file := Open(k, fh, c, b);
    if status == Ok {
      sent := EntryHandles(k, fh, r, c);
    }
    DropChild(k, file, Add(b, fh.Held(k)));
  }

  /** The handles in the reply to a READDIRPLUS are those that are due. */
  ghost predicate Listed(k: Kernel, c: Calls, obj: Resolved, r: Request, sent: seq<Option<seq<Byte>>>)
    reads k`positive
  {
    r.Readdirplus? && Used(c, obj, Ok) == Ok && obj.Found? ==>
      |sent| == |r.ents| &&
      forall i :: 0 <= i < |sent| ==> (sent[i].Some? <==> HasHandle(k, c, k.positive, obj.x, obj.d, r, i))
  }

  /** The procedures with one handle, which nfs3svc_release_fhandle or the procedure itself puts. */
  method ServeOne(k: Kernel, handle: seq<Byte>, r: Request, c: Calls)
    returns (status: Status, sent: seq<Option<seq<Byte>>>)
    requires k.Valid() && |handle| <= 128 && !r.LookupReq? && !r.CreateReq? && !r.Mkdir?
    modifies k
    ensures k.Held() == old(k.Held())
    ensures (status, k.positive) ==
      Performed(k, c, old(k.positive), Reach(c.verify, k.world, k.cache, handle), r)
    ensures Listed(k, c, Reach(c.verify, k.world, k.cache, handle), r, sent)
    ensures forall i :: 0 <= i < |sent| && sent[i].Some? ==> Answers(k, handle, r, NameAt(r, i), sent[i].value)
  {
    hide WellFormed, Add, HeldBy, HandleOf, Resolve, Answers, Reach, Unlinks, HasHandle;
    ghost var b := k.Held();
    var fh := new SvcFh.Decode(handle);
    fh.EmptyHolds(k);
    AddNone(b);
    sent := [];
    if r.Access? {
      status := Ok;
    } else if r.SetattrReq? {
      status := Setattr(k, fh, c, b);
    } else if r.Read? || r.Write? || r.Readdir? {
      status := Transfer(k, fh, c, b);
    } else if r.Remove? || r.Rmdir? {
      status := Unlink(k, fh, r.name, c, b);
    } else if r.Readdirplus? {
      status, sent := ListPlus(k, fh, r, c, b);
    } else {
      status := VerifyFresh(k, fh, c, b);
    }
    fh.Put(k, b);
  }

  /** Any procedure, from decoded arguments to the release step: its status and what it does to the tree of names are
      exactly as `Performed` says, all reference counts are back where they were, and every handle in the reply names
      the object with an inode that its name means in the directory the client named. */
  method Serve(k: Kernel, handle: seq<Byte>, r: Request, c: Calls)
    returns (status: Status, sent: seq<Option<seq<Byte>>>)
    requires k.Valid() && |handle| <= 128
    modifies k
    ensures k.Held() == old(k.Held())
    ensures (status, k.positive) ==
      Performed(k, c, old(k.positive), Reach(c.verify, k.world, k.cache, handle), r)
    ensures r.LookupReq? || r.CreateReq? || r.Mkdir? ==> |sent| == 1 && (sent[0].Some? <==> status == Ok)
    ensures Listed(k, c, Reach(c.verify, k.world, k.cache, handle), r, sent)
    ensures forall i :: 0 <= i < |sent| && sent[i].Some? ==>
        Genuine(k, handle, r, NameAt(r, i), sent[i].value)
  {
    hide WellFormed, Genuine, Answers, Reach, Performed, HasHandle;
    if r.LookupReq? || r.CreateReq? || r.Mkdir? {
      var one: Option<seq<Byte>>;
      status, one := ServeTwo(k, handle, r, c);
      sent := [one];
    } else {
      status, sent := ServeOne(k, handle, r, c);
    }
    forall i | 0 <= i < |sent| && sent[i].Some? ensures Genuine(k, handle, r, NameAt(r, i), sent[i].value) {
      AnswerIsGenuine(k, handle, r, NameAt(r, i), sent[i].value);
    }
  }

  /** Over any run of requests no reference is lost or left behind. */
  method ServeAll(k: Kernel, requests: seq<(seq<Byte>, Request, Calls)>)
    requires k.Valid() && forall i :: 0 <= i < |requests| ==> |requests[i].0| <= 128
    modifies k
    ensures k.Held() == old(k.Held())
  {
    for i := 0 to |requests|
      invariant k.Held() == old(k.Held())
    {
      var status, sent := Serve(k, requests[i].0, requests[i].1, requests[i].2);
    }
  }
}
