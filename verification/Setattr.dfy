/**
 SETATTR. The server applies a request in up to two calls of the kernel, size first and the rest after it, once the
 request has been adapted to what the kernel expects. Section 3.3.2 of RFC 1813.
 */
module Setattr {
  import opened Options
  import opened Xdr
  import opened Attr
  import Args

  datatype FileType = Regular | Directory | Symlink | Other

  /** A mode word: file type, the bits treated one by one here, and the other permission bits. */
  datatype Mode = Mode(ftype: FileType, suid: bool, sgid: bool, xgrp: bool, others: nat)

  datatype Attrs = Attrs(mode: Mode, uid: Word, gid: Word, size: U64, atime: Time, mtime: Time, ctime: Time)

  /** A SETATTR request as the client means it. */
  datatype Change = Change(mode: Option<Mode>, uid: Option<Word>, gid: Option<Word>, size: Option<U64>,
                           atime: SetTime, mtime: SetTime)

  // ----- what the protocol asks for: one update of everything at once -----

  /** What is left of a request on a symbolic link, whose mode cannot be set. */
  function Effective(a: Attrs, c: Change): Change {
    if a.mode.ftype == Symlink then c.(mode := None) else c
  }

  const NO_CHANGE := Change(None, None, None, None, DontChange, DontChange)

  function Or<T>(o: Option<T>, d: T): T {
    if o.Some? then o.value else d
  }

  function TimeOr(t: SetTime, now: Time, d: Time): Time {
    match t
    case DontChange => d
    case ServerTime => now
    case ClientTime(v) => v
  }

  predicate Chowns(c: Change) {
    c.uid.Some? || c.gid.Some?
  }

  /** The mode after the request: the type stays; a new owner or group of anything but a directory costs the
      set-user-id bit, and the set-group-id bit if the group may execute. */
  function NewMode(m: Mode, c: Change): Mode {
    var asked := Or(c.mode, m).(ftype := m.ftype);
    if Chowns(c) && m.ftype != Directory
    then asked.(suid := false, sgid := asked.sgid && !asked.xgrp)
    else asked
  }

  function OneShot(a: Attrs, request: Change, now: Time): Attrs {
    var c := Effective(a, request);
    if c == NO_CHANGE then a
    else Attrs(NewMode(a.mode, c), Or(c.uid, a.uid), Or(c.gid, a.gid), Or(c.size, a.size),
               TimeOr(c.atime, now, a.atime),
               TimeOr(c.mtime, now, if c.size.Some? then now else a.mtime),
               now)
  }

  /** The state between the two calls. */
  function Resized(a: Attrs, size: U64, now: Time): Attrs {
    a.(size := size, mtime := now, ctime := now)
  }

  // ----- the kernel's side -----

  /** The flags that say which attributes are meant and what else is to happen. */
  datatype Flags = Flags(mode: bool, uid: bool, gid: bool, size: bool, atime: bool, mtime: bool, ctime: bool,
                         atimeSet: bool, mtimeSet: bool, killSuid: bool, killSgid: bool, killPriv: bool)

  const NO_FLAGS := Flags(false, false, false, false, false, false, false, false, false, false, false, false)

  /** A request to the kernel. */
  datatype Asked = Asked(valid: Flags, mode: Mode, uid: Word, gid: Word, size: U64, atime: Time, mtime: Time)

  /** A mode without the set-id bits that are to be dropped. */
  function Dropped(m: Mode, v: Flags): Mode {
    m.(suid := m.suid && !v.killSuid, sgid := m.sgid && !(m.xgrp && v.killSgid))
  }

  /** The attributes after the kernel has done what was asked. */
  function Applied(a: Attrs, q: Asked, now: Time): Attrs {
    var v := q.valid;
    Attrs(Dropped(if v.mode then q.mode else a.mode, v),
          if v.uid then q.uid else a.uid,
          if v.gid then q.gid else a.gid,
          if v.size then q.size else a.size,
          if !v.atime then a.atime else if v.atimeSet then q.atime else now,
          if !v.mtime then a.mtime else if v.mtimeSet then q.mtime else now,
          if v.ctime then now else a.ctime)
  }

  /** The object being changed. */
  class Inode {
    var attrs: Attrs

    /** notify_change: all of the flagged attributes, or an error and none of them. Asking both for a mode and for
        set-id bits to be dropped would be a bug in the caller. */
    method NotifyChange(q: Asked, now: Time, fails: bool)
      requires !(q.valid.mode && (q.valid.killSuid || q.valid.killSgid))
      modifies this
      ensures attrs == if fails then old(attrs) else Applied(old(attrs), q, now)
    {
      if !fails {
        attrs := Applied(attrs, q, now);
      }
    }
  }

  /** The structure the decoder fills and nfsd_setattr edits. */
  class Iattr {
    var q: Asked
  }

  predicate Values(q: Asked, c: Change) {
    && (c.uid.Some? ==> q.uid == c.uid.value)
    && (c.gid.Some? ==> q.gid == c.gid.value)
    && (c.size.Some? ==> q.size == c.size.value)
    && (c.atime.ClientTime? ==> q.atime == c.atime.time)
    && (c.mtime.ClientTime? ==> q.mtime == c.mtime.time)
  }

  /** The flags and values that stand for a request. */
  predicate Encodes(q: Asked, c: Change) {
    && q.valid == Flags(c.mode.Some?, c.uid.Some?, c.gid.Some?, c.size.Some?, !c.atime.DontChange?,
                        !c.mtime.DontChange?, false, c.atime.ClientTime?, c.mtime.ClientTime?, false, false, false)
    && (c.mode.Some? ==> q.mode == c.mode.value)
    && Values(q, c)
  }

  /** The request once adapted to the kernel for an object of mode `m`. */
  predicate Sanitized(q: Asked, m: Mode, c: Change) {
    var kill := Chowns(c) && m.ftype != Directory;
    && q.valid == Flags(c.mode.Some?, c.uid.Some?, c.gid.Some?, c.size.Some?, !c.atime.DontChange?,
                        !c.mtime.DontChange?, false, c.atime.ClientTime?, c.mtime.ClientTime?, kill && c.mode.None?,
                        kill && c.mode.None?, kill)
    && (c.mode.Some? ==> q.mode == NewMode(m, c))
    && Values(q, c)
  }

  // ----- nfsd_setattr -----

  /** nfsd_sanitize_attrs. */
  method SanitizeAttrs(inode: Inode, iap: Iattr, ghost c: Change)
    requires Encodes(iap.q, c)
    modifies iap
    ensures Sanitized(iap.q, inode.attrs.mode, c)
  {
    var q, m := iap.q, inode.attrs.mode;
    if q.valid.mode {
      q := q.(mode := q.mode.(ftype := m.ftype));
    }
    if m.ftype != Directory && (q.valid.uid || q.valid.gid) {
      q := q.(valid := q.valid.(killPriv := true));
      if q.valid.mode {
        q := q.(mode := q.mode.(suid := false));
        if q.mode.xgrp {
          q := q.(mode := q.mode.(sgid := false));
        }
      } else {
        q := q.(valid := q.valid.(killSuid := true, killSgid := true));
      }
    }
    iap.q := q;
  }

  datatype Status = Ok | NotSync | Failed

  /** What goes wrong outside this code: the handle, the write access, the two kernel calls, the final flush. */
  datatype Faults = Faults(verify: bool, wantWrite: bool, resize: bool, update: bool, commit: bool)

  const NO_FAULTS := Faults(false, false, false, false, false)

  /** Whether there is anything to do after the size has changed. */
  predicate MoreThanSize(c: Change) {
    c.mode.Some? || Chowns(c) || !c.atime.DontChange? || c.mtime.ClientTime? || c.size.None?
  }

  /** A status and the attributes the object then has. */
  datatype Outcome = Outcome(status: Status, attrs: Attrs)

  /** The outcome of the kernel calls: one of them failed, or everything is as one update would have it. */
  function Updated(a: Attrs, request: Change, now: Time, f: Faults): Outcome {
    var c := Effective(a, request);
    if c.size.Some? && f.resize then Outcome(Failed, a)
    else if MoreThanSize(c) && f.update then
      Outcome(Failed, if c.size.Some? then Resized(a, c.size.value, now) else a)
    else Outcome(if f.commit then Failed else Ok, OneShot(a, request, now))
  }

  /** The first request to the kernel. */
  function SizeOnly(q: Asked): Asked {
    q.(valid := NO_FLAGS.(size := true, mtime := true, ctime := true))
  }

  lemma ResizeApplies(a: Attrs, q: Asked, now: Time)
    ensures Applied(a, SizeOnly(q), now) == Resized(a, q.size, now)
  {
  }

  /** With only a size, or a size and the server's time as mtime, resizing is all there is to do. */
  lemma SizeIsAll(a: Attrs, request: Change, now: Time)
    requires Effective(a, request).size.Some? && !MoreThanSize(Effective(a, request))
    ensures OneShot(a, request, now) == Resized(a, request.size.value, now)
  {
  }

  /** The second call completes the update, with or without a first. */
  lemma RestApplies(a: Attrs, q: Asked, request: Change, now: Time)
    requires Effective(a, request) != NO_CHANGE && Sanitized(q, a.mode, Effective(a, request))
    ensures
      var rest := q.(valid := q.valid.(size := false, ctime := true));
      var before := if request.size.Some? then Resized(a, q.size, now) else a;
      Applied(before, rest, now) == OneShot(a, request, now)
  {
  }

  /** The two kernel calls of nfsd_setattr. */
  method ApplyInTwo(inode: Inode, iap: Iattr, now: Time, f: Faults, ghost request: Change) returns (status: Status)
    requires Effective(inode.attrs, request) != NO_CHANGE
    requires Sanitized(iap.q, inode.attrs.mode, Effective(inode.attrs, request))
    modifies inode, iap
    ensures Outcome(status, inode.attrs) == Updated(old(inode.attrs), request, now, f)
  {
    hide OneShot, Applied, NewMode;
    ghost var a, q := inode.attrs, iap.q;
    if iap.q.valid.size {
      inode.NotifyChange(SizeOnly(iap.q), now, f.resize);
      if f.resize {
        return Failed;
      }
      ResizeApplies(a, q, now);
      iap.q := iap.q.(valid := iap.q.valid.(size := false));
      if iap.q.valid.(mtime := false) == NO_FLAGS {
        SizeIsAll(a, request, now);
        return if f.commit then Failed else Ok;
      }
    }
    iap.q := iap.q.(valid := iap.q.valid.(ctime := true));
    inode.NotifyChange(iap.q, now, f.update);
    if !f.update {
      RestApplies(a, q, request, now);
    }
    status := if f.update || f.commit then Failed else Ok;
  }

  /** The outcome of the whole procedure; the guard, of which only the seconds count, is looked at after an empty
      request has been let through. */
  function Handled(a: Attrs, request: Change, guard: Option<Time>, now: Time, f: Faults): Outcome {
    if f.verify || f.wantWrite then Outcome(Failed, a)
    else if Effective(a, request) == NO_CHANGE then Outcome(Ok, a)
    else if guard.Some? && guard.value.sec != a.ctime.sec then Outcome(NotSync, a)
    else Updated(a, request, now, f)
  }

  lemma EncodesEffective(q: Asked, a: Attrs, request: Change)
    requires Encodes(q, request)
    ensures Encodes(if a.mode.ftype == Symlink then q.(valid := q.valid.(mode := false)) else q, Effective(a, request))
  {
  }

  lemma EncodesNothing(q: Asked, c: Change)
    requires Encodes(q, c)
    ensures q.valid == NO_FLAGS <==> c == NO_CHANGE
  {
  }

  lemma UpdatedKeepsType(a: Attrs, request: Change, now: Time, f: Faults)
    ensures Updated(a, request, now, f).attrs.mode.ftype == a.mode.ftype
  {
  }

  /** nfsd_setattr: without faults, the two calls do what one update would. */
  method Setattr(inode: Inode, iap: Iattr, guard: Option<Time>, now: Time, f: Faults, ghost request: Change)
    returns (status: Status)
    requires Encodes(iap.q, request)
    modifies inode, iap
    ensures Outcome(status, inode.attrs) == Handled(old(inode.attrs), request, guard, now, f)
    ensures inode.attrs.mode.ftype == old(inode.attrs.mode.ftype)
  {
    hide Encodes, Sanitized, Effective, Updated;
    if f.verify || f.wantWrite {
      return Failed;
    }
    ghost var a := inode.attrs;
    if inode.attrs.mode.ftype == Symlink {
      iap.q := iap.q.(valid := iap.q.valid.(mode := false));
    }
    EncodesEffective(old(iap.q), a, request);
    EncodesNothing(iap.q, Effective(a, request));
    if iap.q.valid == NO_FLAGS {
      return Ok;
    }
    SanitizeAttrs(inode, iap, Effective(a, request));
    if guard.Some? && guard.value.sec != inode.attrs.ctime.sec {
      return NotSync;
    }
    status := ApplyInTwo(inode, iap, now, f, request);
    UpdatedKeepsType(a, request, now, f);
  }

  // ----- the guard as section 3.3.2 of RFC 1813 has it -----

  /** A guard that is not the ctime, nanoseconds included, refuses any request. */
  function Guarded(a: Attrs, request: Change, guard: Option<Time>, now: Time, f: Faults): Outcome {
    if f.verify || f.wantWrite then Outcome(Failed, a)
    else if guard.Some? && guard.value != a.ctime then Outcome(NotSync, a)
    else Handled(a, request, None, now, f)
  }

  /** The server does what the protocol asks exactly if there is no guard to look at, the guard is the ctime, or it
      differs in the seconds and the request asks for something. */
  lemma GuardIsExact(a: Attrs, request: Change, guard: Option<Time>, now: Time, f: Faults)
    ensures Handled(a, request, guard, now, f) == Guarded(a, request, guard, now, f) <==>
      || f.verify || f.wantWrite || guard.None? || guard.value == a.ctime
      || (guard.value.sec != a.ctime.sec && Effective(a, request) != NO_CHANGE)
  {
    hide OneShot, Effective;
  }

  /** An object of user 1 whose ctime is two nanoseconds into a second. */
  const OBJECT := Attrs(Mode(Regular, false, false, false, 0), 1, 1, 0, Time(5, 2), Time(5, 2), Time(5, 2))

  /** A guard that is off by a nanosecond lets a new owner through. */
  method MissedGuard() returns (inode: Inode, status: Status)
    ensures fresh(inode) && status == Ok && inode.attrs.uid == 7
    ensures var chown := NO_CHANGE.(uid := Some(7));
      Guarded(OBJECT, chown, Some(Time(5, 1)), Time(6, 0), NO_FAULTS).status == NotSync
  {
    inode := new Inode;
    inode.attrs := OBJECT;
    var iap := new Iattr;
    var t := Time(0, 0);
    iap.q := Asked(NO_FLAGS.(uid := true), OBJECT.mode, 7, 0, 0, t, t);
    status := Setattr(inode, iap, Some(Time(5, 1)), Time(6, 0), NO_FAULTS, NO_CHANGE.(uid := Some(7)));
  }

  /** A request for nothing gets by a guard that is off by years. */
  method EmptyMissesGuard() returns (inode: Inode, status: Status)
    ensures fresh(inode) && status == Ok && inode.attrs == OBJECT
    ensures Guarded(OBJECT, NO_CHANGE, Some(Time(1, 0)), Time(6, 0), NO_FAULTS).status == NotSync
  {
    inode := new Inode;
    inode.attrs := OBJECT;
    var iap := new Iattr;
    var t := Time(0, 0);
    iap.q := Asked(NO_FLAGS, OBJECT.mode, 0, 0, 0, t, t);
    status := Setattr(inode, iap, Some(Time(1, 0)), Time(6, 0), NO_FAULTS, NO_CHANGE);
  }

  /** What the one update keeps and what it takes away. */
  lemma OneShotFacts(a: Attrs, request: Change, now: Time)
    ensures var r := OneShot(a, request, now);
      && r.mode.ftype == a.mode.ftype
      && (Chowns(request) && a.mode.ftype != Directory ==> !r.mode.suid && !(r.mode.sgid && r.mode.xgrp))
      && (request.mode.None? && !Chowns(request) ==> r.mode == a.mode)
      && (request.size.None? && request.mtime.DontChange? ==> r.mtime == a.mtime)
  {
  }

  // ----- from the arguments on the wire -----

  /** A mode word, bit by bit. */
  function ModeOf(w: Word): Mode {
    var t := w / 0x1000 % 0x10;
    Mode(if t == 8 then Regular else if t == 4 then Directory else if t == 10 then Symlink else Other,
         w / 0x800 % 2 == 1, w / 0x400 % 2 == 1, w / 8 % 2 == 1,
         w % 8 + 0x10 * (w / 0x10 % 0x40))
  }

  /** The permission bits of a mode: 07777 at most, with S_ISUID, S_ISGID and S_IXGRP in their places. */
  function Bits(m: Mode): nat {
    m.others + (if m.suid then 0x800 else 0) + (if m.sgid then 0x400 else 0) + (if m.xgrp then 8 else 0)
  }

  /** A mode word means its low twelve bits, and the type that S_IFMT says. */
  lemma ModeBits(w: Word)
    ensures Bits(ModeOf(w)) == w % 0x1000
    ensures ModeOf(w).ftype == Regular <==> w / 0x1000 % 0x10 == 8
    ensures ModeOf(w).ftype == Directory <==> w / 0x1000 % 0x10 == 4
    ensures ModeOf(w).ftype == Symlink <==> w / 0x1000 % 0x10 == 10
  {
    var a, b, c, d := w % 8, w / 8 % 2, w / 0x10 % 0x40, w / 0x400 % 2;
    assert w / 8 == 2 * (w / 0x10) + b;
    assert w / 0x10 == 0x40 * (w / 0x400) + c;
    assert w / 0x400 == 2 * (w / 0x800) + d;
    assert w / 0x800 == 2 * (w / 0x1000) + w / 0x800 % 2;
  }

  /** Permission bits without the set-id bits that a new owner costs. */
  function Stripped(n: nat): nat {
    n % 0x400 + if n / 0x400 % 2 == 1 && n / 8 % 2 == 0 then 0x400 else 0
  }

  lemma SplitBits(n: nat, a: nat, b: nat, c: nat, d: nat, e: nat)
    requires a < 8 && b < 2 && c < 0x40 && d < 2 && e < 2
    requires n == a + 8 * b + 0x10 * c + 0x400 * d + 0x800 * e
    ensures n % 0x400 == a + 8 * b + 0x10 * c && n / 0x400 % 2 == d && n / 8 % 2 == b
  {
    assert n / 0x400 == d + 2 * e;
    assert n / 8 == b + 2 * c + 0x80 * d + 0x100 * e;
  }

  lemma StrippedBits(w: Word)
    ensures var m := ModeOf(w);
      Bits(m.(suid := false, sgid := m.sgid && !m.xgrp)) == Stripped(w % 0x1000)
  {
    ModeBits(w);
    var a, b, c, d, e := w % 8, w / 8 % 2, w / 0x10 % 0x40, w / 0x400 % 2, w / 0x800 % 2;
    var n := w % 0x1000;
    assert n == a + 8 * b + 0x10 * c + 0x400 * d + 0x800 * e;
    SplitBits(n, a, b, c, d, e);
  }

  /** An owner or group that is to be set. */
  predicate Proper(o: Option<Word>) {
    o.Some? && o.value != 0xffff_ffff
  }

  /** What SETATTR with these attributes asks of an object, in the words of the protocol: owner and group are set unless
      they are all ones, the size is at most the largest offset, and setting it sets the mtime; the mode of a symbolic
      link stays; a new owner of anything but a directory costs the set-id bits. */
  ghost predicate Obeys(before: Attrs, s: Args.Sattr3, now: Time, after: Attrs) {
    var chown := (Proper(s.uid) || Proper(s.gid)) && before.mode.ftype != Directory;
    var chmod := s.mode.Some? && before.mode.ftype != Symlink;
    && after.mode.ftype == before.mode.ftype
    && (chmod ==> Bits(after.mode) == if chown then Stripped(s.mode.value % 0x1000) else s.mode.value % 0x1000)
    && (!chmod && chown ==>
          after.mode == before.mode.(suid := false, sgid := before.mode.sgid && !before.mode.xgrp))
    && (!chmod && !chown ==> after.mode == before.mode)
    && after.uid == (if Proper(s.uid) then s.uid.value else before.uid)
    && after.gid == (if Proper(s.gid) then s.gid.value else before.gid)
    && after.size == (if s.size.None? then before.size
                      else if s.size.value < 0x8000_0000_0000_0000 then s.size.value
                      else 0x7fff_ffff_ffff_ffff)
    && after.atime == (match s.atime
                       case DontChange => before.atime
                       case ServerTime => now
                       case ClientTime(t) => t)
    && after.mtime == (match s.mtime
                       case DontChange => if s.size.Some? then now else before.mtime
                       case ServerTime => now
                       case ClientTime(t) => t)
    && after.ctime == (if chmod || Proper(s.uid) || Proper(s.gid) || s.size.Some? || !s.atime.DontChange? ||
                          !s.mtime.DontChange? then now else before.ctime)
  }

  lemma TypeApart(m: Mode, t: FileType)
    ensures Bits(m.(ftype := t)) == Bits(m)
  {
  }

  /** Decoded attributes as a request. */
  function ChangeOf(s: Args.Sattr3): Change {
    Change(if s.mode.Some? then Some(ModeOf(s.mode.value)) else None, s.uid, s.gid, s.size, s.atime, s.mtime)
  }

  /** That is what the one update does. */
  lemma OneShotObeys(a: Attrs, s: Args.Sattr3, now: Time)
    ensures Obeys(a, s, now, OneShot(a, ChangeOf(Args.Normal(s)), now))
  {
    hide ModeOf, Bits, Stripped;
    if s.mode.Some? {
      ModeBits(s.mode.value);
      StrippedBits(s.mode.value);
      TypeApart(ModeOf(s.mode.value), a.mode.ftype);
      var m := ModeOf(s.mode.value);
      TypeApart(m.(suid := false, sgid := m.sgid && !m.xgrp), a.mode.ftype);
    }
  }

  /** The structure decode_sattr3 fills: values that were not sent are left at zero. */
  function AskedOf(s: Args.Sattr3): Asked {
    var zero := Time(0, 0);
    Asked(Flags(s.mode.Some?, s.uid.Some?, s.gid.Some?, s.size.Some?, !s.atime.DontChange?, !s.mtime.DontChange?,
                false, s.atime.ClientTime?, s.mtime.ClientTime?, false, false, false),
          ModeOf(Or(s.mode, 0)), Or(s.uid, 0), Or(s.gid, 0), Or(s.size, 0),
          TimeOr(s.atime, zero, zero), TimeOr(s.mtime, zero, zero))
  }

  lemma DecodedEncodes(s: Args.Sattr3)
    ensures Encodes(AskedOf(s), ChangeOf(s))
  {
    hide ModeOf;
  }

  /** Without faults, and with a guard that is the ctime or none, a request is obeyed. */
  lemma HandledObeys(a: Attrs, s: Args.Sattr3, guard: Option<Time>, now: Time)
    requires guard.None? || guard.value == a.ctime
    ensures var o := Handled(a, ChangeOf(Args.Normal(s)), guard, now, NO_FAULTS);
      o.status == Ok && Obeys(a, s, now, o.attrs)
  {
    hide ModeOf, Obeys, ChangeOf, Args.Normal;
    OneShotObeys(a, s, now);
  }

  function SentGuard(g: Args.Guard): Option<Time> {
    if g.NoGuard? then None else Some(g.ctime)
  }

  lemma SecondsOnly(a: Attrs, request: Change, g: Option<Time>, h: Option<Time>, now: Time, f: Faults)
    requires g.Some? <==> h.Some?
    requires g.Some? ==> g.value.sec == h.value.sec
    ensures Handled(a, request, g, now, f) == Handled(a, request, h, now, f)
  {
  }

  /** SETATTR from its arguments on. Whatever arguments are in the request, the object becomes what they ask for, with
      owners and size as the server takes them; arguments that are cut short change nothing. */
  method Serve(mem: seq<Word>, len: nat, inode: Inode, now: Time, f: Faults) returns (status: Option<Status>)
    requires len <= |mem|
    modifies inode
    ensures status.None? ==> inode.attrs == old(inode.attrs)
    ensures forall a :: Args.At(mem, 0, Args.SattrArgsWords(a)) ==>
      if |Args.SattrArgsWords(a)| > len then status.None?
      else
        && status.Some?
        && Outcome(status.value, inode.attrs) ==
           Handled(old(inode.attrs), ChangeOf(Args.Normal(a.attrs)), SentGuard(a.guard), now, f)
    ensures forall a :: Args.At(mem, 0, Args.SattrArgsWords(a)) && |Args.SattrArgsWords(a)| <= len && f == NO_FAULTS &&
                        (a.guard.NoGuard? || a.guard.ctime == old(inode.attrs.ctime)) ==>
      status == Some(Ok) && Obeys(old(inode.attrs), a.attrs, now, inode.attrs)
  {
    hide Handled, Encodes, ChangeOf, AskedOf, Args.Normal, Args.At, Args.SattrArgsWords, Obeys, OneShot;
    var ok, fh, attrs, sec := Args.DecodeSattrArgs(mem, len);
    if !ok {
      return None;
    }
    DecodedEncodes(attrs);
    var iap := new Iattr;
    iap.q := AskedOf(attrs);
    var guard := if sec.Some? then Some(Time(sec.value, 0)) else None;
    ghost var before := inode.attrs;
    var s := Setattr(inode, iap, guard, now, f, ChangeOf(attrs));
    status := Some(s);
    forall a | Args.At(mem, 0, Args.SattrArgsWords(a))
      ensures Outcome(s, inode.attrs) == Handled(before, ChangeOf(Args.Normal(a.attrs)), SentGuard(a.guard), now, f)
    {
      SecondsOnly(before, ChangeOf(attrs), SentGuard(a.guard), guard, now, f);
    }
    forall a | Args.At(mem, 0, Args.SattrArgsWords(a)) && f == NO_FAULTS &&
               (a.guard.NoGuard? || a.guard.ctime == before.ctime)
      ensures s == Ok && Obeys(before, a.attrs, now, inode.attrs)
    {
      HandledObeys(before, a.attrs, SentGuard(a.guard), now);
    }
  }
}
