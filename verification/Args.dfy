/**
 Argument decoders. A cursor runs through the words of a request; what lies beyond the request is whatever the page
 held before. Each decoder is proved against the grammar of RFC 1813 (sections 2.6, 3.3.2, 3.3.3, 3.3.8 and 3.3.9):
 whatever arguments the words encode, those are what comes out, and exactly the encoding is used up.
 */
module Args {
  import opened Options
  import opened Xdr
  import opened Attr

  // ----- the grammar -----

  datatype Sattr3 = Sattr3(mode: Option<Word>, uid: Option<Word>, gid: Option<Word>, size: Option<U64>,
                           atime: SetTime, mtime: SetTime)

  function SetWord(o: Option<Word>): seq<Word> {
    if o.None? then [0] else [1, o.value]
  }

  function SetSize(o: Option<U64>): seq<Word> {
    if o.None? then [0] else [1] + Hyper(o.value)
  }

  function SetTimeWords(t: SetTime): seq<Word> {
    match t
    case DontChange => [0]
    case ServerTime => [1]
    case ClientTime(v) => [2, v.sec, v.nsec]
  }

  function Ids(s: Sattr3): seq<Word> {
    SetWord(s.mode) + (SetWord(s.uid) + SetWord(s.gid))
  }

  function Sattr3Words(s: Sattr3): seq<Word> {
    Ids(s) + (SetSize(s.size) + (SetTimeWords(s.atime) + SetTimeWords(s.mtime)))
  }

  /** The guard of SETATTR: perhaps the ctime the client last saw. */
  datatype Guard = NoGuard | CheckCtime(ctime: Time)

  function GuardWords(g: Guard): seq<Word> {
    if g.NoGuard? then [0] else [1, g.ctime.sec, g.ctime.nsec]
  }

  datatype How = Unchecked(attrs: Sattr3) | Guarded(attrs: Sattr3) | Exclusive(verf0: Word, verf1: Word)

  function HowWords(h: How): seq<Word> {
    match h
    case Unchecked(s) => [0] + Sattr3Words(s)
    case Guarded(s) => [1] + Sattr3Words(s)
    case Exclusive(v, w) => [2, v, w]
  }

  /** Variable-length data of any length that can be encoded. */
  type Bytes = b: seq<Byte> | |b| < 0x1_0000_0000 witness []

  datatype DirOp = DirOp(fh: Bytes, name: Bytes)

  function DirOpWords(d: DirOp): seq<Word> {
    Opaque(d.fh) + Opaque(d.name)
  }

  // ----- what the server makes of it -----

  function Owner(o: Option<Word>): Option<Word> {
    if o == Some(0xffff_ffff) then None else o
  }

  /** The attributes as the server uses them: no owner is all ones, and no size is past the largest offset. */
  function Normal(s: Sattr3): Sattr3 {
    s.(uid := Owner(s.uid), gid := Owner(s.gid),
       size := if s.size.Some? && s.size.value > NFS_OFFSET_MAX then Some(NFS_OFFSET_MAX) else s.size)
  }

  /** Exactly the all-ones owners and the sizes from 2^63 on do not come out as they were sent: such an owner is not set
      at all, and such a size is taken for the largest. */
  lemma NormalExactly(s: Sattr3)
    ensures Normal(s) == s <==>
      && s.uid != Some(0xffff_ffff) && s.gid != Some(0xffff_ffff)
      && (s.size.Some? ==> s.size.value < 0x8000_0000_0000_0000)
    ensures var t := Normal(s);
      && t == s.(uid := t.uid, gid := t.gid, size := t.size)
      && t.uid == (if s.uid == Some(0xffff_ffff) then None else s.uid)
      && t.gid == (if s.gid == Some(0xffff_ffff) then None else s.gid)
      && (s.size.Some? && s.size.value >= 0x8000_0000_0000_0000 ==> t.size == Some(0x7fff_ffff_ffff_ffff))
      && (s.size.None? ==> t.size.None?)
  {
  }

  function NormalHow(h: How): How {
    if h.Exclusive? then h else h.(attrs := Normal(h.attrs))
  }

  // ----- the request in memory -----

  /** The words `ws` are in memory at `p`. */
  predicate At(mem: seq<Word>, p: nat, ws: seq<Word>) {
    p + |ws| <= |mem| && mem[p..p + |ws|] == ws
  }

  lemma AtSplit(mem: seq<Word>, p: nat, a: seq<Word>, b: seq<Word>)
    requires At(mem, p, a + b)
    ensures At(mem, p, a) && At(mem, p + |a|, b)
  {
    assert mem[p..p + |a|] == (a + b)[..|a|];
    assert mem[p + |a|..p + |a| + |b|] == (a + b)[|a|..];
  }

  function Peek(mem: seq<Word>, p: nat): Word {
    if p < |mem| then mem[p] else 0
  }

  lemma AtWord(mem: seq<Word>, p: nat, ws: seq<Word>, i: nat)
    requires At(mem, p, ws) && i < |ws|
    ensures Peek(mem, p + i) == ws[i]
  {
    assert mem[p..p + |ws|][i] == mem[p + i];
  }

  function Words(mem: seq<Word>, p: nat, n: nat): (r: seq<Word>)
    ensures |r| == n
    ensures forall i :: 0 <= i < n ==> r[i] == Peek(mem, p + i)
  {
    if n == 0 then [] else Words(mem, p, n - 1) + [Peek(mem, p + n - 1)]
  }

  lemma WordsAt(mem: seq<Word>, p: nat, ws: seq<Word>)
    requires At(mem, p, ws)
    ensures Words(mem, p, |ws|) == ws
  {
    forall i | 0 <= i < |ws| ensures Words(mem, p, |ws|)[i] == ws[i] {
      AtWord(mem, p, ws, i);
    }
  }

  // ----- decoders of parts -----

  /** Variable-length opaque data: decode_file_name, and decode_file_handle for what it copies into the handle. */
  method DecodeOpaque(mem: seq<Word>, p: nat) returns (p': nat, bs: Bytes)
    ensures p' == p + 1 + QuadLen(Peek(mem, p)) && |bs| == Peek(mem, p)
    ensures forall o: Bytes :: At(mem, p, Opaque(o)) ==> bs == o && p' == p + |Opaque(o)|
  {
    hide Unpack;
    var n := Peek(mem, p);
    bs := Unpack(Words(mem, p + 1, QuadLen(n)), n);
    p' := p + 1 + QuadLen(n);
    forall o: Bytes | At(mem, p, Opaque(o)) ensures bs == o && p' == p + |Opaque(o)| {
      AtWord(mem, p, Opaque(o), 0);
      AtSplit(mem, p, [|o|], Pack(o));
      WordsAt(mem, p + 1, Pack(o));
      UnpackPack(o);
    }
  }

  method DecodeSetWord(mem: seq<Word>, p: nat) returns (p': nat, v: Option<Word>)
    ensures forall o :: At(mem, p, SetWord(o)) ==> v == o && p' == p + |SetWord(o)|
    ensures v.Some? <==> Peek(mem, p) != 0
  {
    if Peek(mem, p) != 0 {
      p', v := p + 2, Some(Peek(mem, p + 1));
    } else {
      p', v := p + 1, None;
    }
    forall o | At(mem, p, SetWord(o)) ensures v == o && p' == p + |SetWord(o)| {
      AtWord(mem, p, SetWord(o), 0);
      if o.Some? {
        AtWord(mem, p, SetWord(o), 1);
      }
    }
  }

  method DecodeSetSize(mem: seq<Word>, p: nat) returns (p': nat, v: Option<U64>)
    ensures forall o :: At(mem, p, SetSize(o)) ==> v == o && p' == p + |SetSize(o)|
    ensures v.Some? <==> Peek(mem, p) != 0
  {
    hide FromHyper, Hyper;
    if Peek(mem, p) != 0 {
      p', v := p + 3, Some(FromHyper(Peek(mem, p + 1), Peek(mem, p + 2)));
    } else {
      p', v := p + 1, None;
    }
    forall o | At(mem, p, SetSize(o)) ensures v == o && p' == p + |SetSize(o)| {
      AtWord(mem, p, SetSize(o), 0);
      if o.Some? {
        AtWord(mem, p, SetSize(o), 1);
        AtWord(mem, p, SetSize(o), 2);
        HyperRoundTrip(o.value);
      }
    }
  }

  method DecodeSetTime(mem: seq<Word>, p: nat) returns (p': nat, t: SetTime)
    ensures forall u :: At(mem, p, SetTimeWords(u)) ==> t == u && p' == p + |SetTimeWords(u)|
    ensures t.DontChange? <==> Peek(mem, p) != 1 && Peek(mem, p) != 2
  {
    var how := Peek(mem, p);
    p', t := p + 1, DontChange;
    if how == 1 {
      t := ServerTime;
    } else if how == 2 {
      t := ClientTime(Time(Peek(mem, p + 1), Peek(mem, p + 2)));
      p' := p + 3;
    }
    forall u | At(mem, p, SetTimeWords(u)) ensures t == u && p' == p + |SetTimeWords(u)| {
      AtWord(mem, p, SetTimeWords(u), 0);
      if u.ClientTime? {
        AtWord(mem, p, SetTimeWords(u), 1);
        AtWord(mem, p, SetTimeWords(u), 2);
      }
    }
  }

  /** Where the parts of the attributes are. */
  lemma AtSattr3(mem: seq<Word>, p: nat, s: Sattr3)
    requires At(mem, p, Sattr3Words(s))
    ensures var p1 := p + |SetWord(s.mode)|;
      var p2 := p1 + |SetWord(s.uid)|;
      var p3 := p2 + |SetWord(s.gid)|;
      var p4 := p3 + |SetSize(s.size)|;
      var p5 := p4 + |SetTimeWords(s.atime)|;
      && At(mem, p, SetWord(s.mode)) && At(mem, p1, SetWord(s.uid)) && At(mem, p2, SetWord(s.gid))
      && At(mem, p3, SetSize(s.size)) && At(mem, p4, SetTimeWords(s.atime)) && At(mem, p5, SetTimeWords(s.mtime))
      && p + |Sattr3Words(s)| == p5 + |SetTimeWords(s.mtime)|
  {
    hide At, SetWord, SetSize, SetTimeWords;
    var times := SetTimeWords(s.atime) + SetTimeWords(s.mtime);
    AtSplit(mem, p, Ids(s), SetSize(s.size) + times);
    AtSplit(mem, p, SetWord(s.mode), SetWord(s.uid) + SetWord(s.gid));
    AtSplit(mem, p + |SetWord(s.mode)|, SetWord(s.uid), SetWord(s.gid));
    AtSplit(mem, p + |Ids(s)|, SetSize(s.size), times);
    AtSplit(mem, p + |Ids(s)| + |SetSize(s.size)|, SetTimeWords(s.atime), SetTimeWords(s.mtime));
  }

  /** decode_sattr3. */
  method DecodeSattr3(mem: seq<Word>, p: nat) returns (p': nat, iap: Sattr3)
    ensures forall s :: At(mem, p, Sattr3Words(s)) ==> iap == Normal(s) && p' == p + |Sattr3Words(s)|
  {
    hide At, SetWord, SetSize, SetTimeWords, Sattr3Words;
    var p1, mode := DecodeSetWord(mem, p);
    var p2, uid := DecodeSetWord(mem, p1);
    var p3, gid := DecodeSetWord(mem, p2);
    var p4, size := DecodeSetSize(mem, p3);
    var p5, atime := DecodeSetTime(mem, p4);
    var p6, mtime := DecodeSetTime(mem, p5);
    forall s | At(mem, p, Sattr3Words(s))
      ensures p6 == p + |Sattr3Words(s)| && s == Sattr3(mode, uid, gid, size, atime, mtime)
    {
      AtSattr3(mem, p, s);
    }
    if uid.Some? && uid.value == 0xffff_ffff {
      uid := None;
    }
    if gid.Some? && gid.value == 0xffff_ffff {
      gid := None;
    }
    if size.Some? && size.value > NFS_OFFSET_MAX {
      size := Some(NFS_OFFSET_MAX);
    }
    p', iap := p6, Sattr3(mode, uid, gid, size, atime, mtime);
  }

  /** decode_time3 behind its flag; only the seconds are kept. */
  method DecodeGuard(mem: seq<Word>, p: nat) returns (p': nat, guard: Option<Word>)
    ensures forall g :: At(mem, p, GuardWords(g)) ==>
        guard == (if g.NoGuard? then None else Some(g.ctime.sec)) && p' == p + |GuardWords(g)|
    ensures guard.Some? <==> Peek(mem, p) != 0
  {
    if Peek(mem, p) != 0 {
      p', guard := p + 3, Some(Peek(mem, p + 1));
    } else {
      p', guard := p + 1, None;
    }
    forall g | At(mem, p, GuardWords(g))
      ensures guard == (if g.NoGuard? then None else Some(g.ctime.sec)) && p' == p + |GuardWords(g)|
    {
      AtWord(mem, p, GuardWords(g), 0);
      if g.CheckCtime? {
        AtWord(mem, p, GuardWords(g), 1);
      }
    }
  }

  /** The arm of CREATE; a mode the protocol does not know is refused. */
  method DecodeHow(mem: seq<Word>, p: nat) returns (ok: bool, p': nat, how: How)
    ensures ok <==> Peek(mem, p) <= 2
    ensures forall h :: At(mem, p, HowWords(h)) ==> ok && how == NormalHow(h) && p' == p + |HowWords(h)|
  {
    hide At, Sattr3Words, Normal;
    var mode := Peek(mem, p);
    ok := true;
    if mode <= 1 {
      var q, attrs := DecodeSattr3(mem, p + 1);
      p' := q;
      how := if mode == 0 then Unchecked(attrs) else Guarded(attrs);
    } else {
      p' := p + 3;
      how := Exclusive(Peek(mem, p + 1), Peek(mem, p + 2));
      ok := mode == 2;
    }
    forall h | At(mem, p, HowWords(h)) ensures ok && how == NormalHow(h) && p' == p + |HowWords(h)| {
      AtWord(mem, p, HowWords(h), 0);
      if h.Exclusive? {
        AtWord(mem, p, HowWords(h), 1);
        AtWord(mem, p, HowWords(h), 2);
      } else {
        AtSplit(mem, p, [mode], Sattr3Words(h.attrs));
      }
    }
  }

  // ----- decoders of whole requests -----

  lemma AtWithin(mem: seq<Word>, len: nat, ws: seq<Word>)
    requires len <= |mem| && At(mem, 0, ws)
    ensures At(mem[..len], 0, ws) <==> |ws| <= len
  {
    if |ws| <= len {
      assert mem[..len][0..|ws|] == mem[0..|ws|];
    }
  }

  /** nfs3svc_decode_diropargs (REMOVE, RMDIR, LOOKUP): nothing is refused, so a name may reach past the `len` words of
      the request; it does not exactly when the encoding is all there. */
  method DecodeDirop(mem: seq<Word>, len: nat) returns (ok: bool, p: nat, d: DirOp)
    requires len <= |mem|
    ensures ok
    ensures forall e :: At(mem, 0, DirOpWords(e)) ==> d == e && p == |DirOpWords(e)|
    ensures forall e :: At(mem, 0, DirOpWords(e)) ==> (p <= len <==> At(mem[..len], 0, DirOpWords(e)))
  {
    hide At, Opaque;
    var p1, fh := DecodeOpaque(mem, 0);
    var p2, name := DecodeOpaque(mem, p1);
    ok, p, d := true, p2, DirOp(fh, name);
    forall e | At(mem, 0, DirOpWords(e))
      ensures d == e && p == |DirOpWords(e)| && (p <= len <==> At(mem[..len], 0, DirOpWords(e)))
    {
      AtSplit(mem, 0, Opaque(e.fh), Opaque(e.name));
      AtWithin(mem, len, DirOpWords(e));
    }
  }

  lemma StaleRequest(fh: Bytes, stale: Bytes)
    requires stale != []
    ensures var request := Opaque(fh) + [|stale|];
      && At(request + Pack(stale), 0, DirOpWords(DirOp(fh, stale)))
      && |DirOpWords(DirOp(fh, stale))| > |request|
  {
    hide Pack;
    var ws := DirOpWords(DirOp(fh, stale));
    assert Opaque(fh) + [|stale|] + Pack(stale) == ws;
    assert ws[0..|ws|] == ws;
  }

  /** A request that stops after the length of the name: the name that comes out is what the page held before. */
  method DecodeStaleName(fh: Bytes, stale: Bytes) returns (ok: bool, d: DirOp)
    requires stale != []
    ensures ok && d == DirOp(fh, stale)
  {
    hide At, DirOpWords, Opaque;
    var request := Opaque(fh) + [|stale|];
    var mem := request + Pack(stale);
    var p;
    ok, p, d := DecodeDirop(mem, |request|);
    StaleRequest(fh, stale);
    assert p > |request|;
  }

  datatype SattrArgs = SattrArgs(fh: Bytes, attrs: Sattr3, guard: Guard)

  function SattrArgsWords(a: SattrArgs): seq<Word> {
    Opaque(a.fh) + (Sattr3Words(a.attrs) + GuardWords(a.guard))
  }

  /** nfs3svc_decode_sattrargs: the arguments come out whatever follows them, and are accepted exactly when all of them
      are in the request. */
  method DecodeSattrArgs(mem: seq<Word>, len: nat) returns (ok: bool, fh: Bytes, attrs: Sattr3, guard: Option<Word>)
    requires len <= |mem|
    ensures forall a :: At(mem, 0, SattrArgsWords(a)) ==>
        && fh == a.fh && attrs == Normal(a.attrs)
        && guard == (if a.guard.NoGuard? then None else Some(a.guard.ctime.sec))
        && (ok <==> |SattrArgsWords(a)| <= len)
  {
    hide At, Opaque, Sattr3Words, GuardWords, Normal;
    var p1, bs := DecodeOpaque(mem, 0);
    fh := bs;
    var p2, p3;
    p2, attrs := DecodeSattr3(mem, p1);
    p3, guard := DecodeGuard(mem, p2);
    ok := p3 <= len;
    forall a | At(mem, 0, SattrArgsWords(a))
      ensures fh == a.fh && attrs == Normal(a.attrs) && p3 == |SattrArgsWords(a)|
      ensures guard == (if a.guard.NoGuard? then None else Some(a.guard.ctime.sec))
    {
      AtSplit(mem, 0, Opaque(a.fh), Sattr3Words(a.attrs) + GuardWords(a.guard));
      AtSplit(mem, |Opaque(a.fh)|, Sattr3Words(a.attrs), GuardWords(a.guard));
    }
  }

  datatype CreateArgs = CreateArgs(dir: DirOp, how: How)

  function CreateArgsWords(a: CreateArgs): seq<Word> {
    DirOpWords(a.dir) + HowWords(a.how)
  }

  /** nfs3svc_decode_createargs. */
  method DecodeCreateArgs(mem: seq<Word>, len: nat) returns (ok: bool, args: CreateArgs)
    requires len <= |mem|
    ensures forall a :: At(mem, 0, CreateArgsWords(a)) ==>
        args == a.(how := NormalHow(a.how)) && (ok <==> |CreateArgsWords(a)| <= len)
    ensures forall d :: At(mem, 0, DirOpWords(d)) && Peek(mem, |DirOpWords(d)|) > 2 ==> !ok
  {
    hide At, DirOpWords, HowWords, NormalHow;
    var _, p, dir := DecodeDirop(mem, len);
    var known, p', how := DecodeHow(mem, p);
    args := CreateArgs(dir, how);
    ok := known && p' <= len;
    forall a | At(mem, 0, CreateArgsWords(a))
      ensures args == a.(how := NormalHow(a.how)) && known && p' == |CreateArgsWords(a)|
    {
      AtSplit(mem, 0, DirOpWords(a.dir), HowWords(a.how));
    }
  }

  datatype MkdirArgs = MkdirArgs(dir: DirOp, attrs: Sattr3)

  function MkdirArgsWords(a: MkdirArgs): seq<Word> {
    DirOpWords(a.dir) + Sattr3Words(a.attrs)
  }

  /** nfs3svc_decode_mkdirargs. */
  method DecodeMkdirArgs(mem: seq<Word>, len: nat) returns (ok: bool, args: MkdirArgs)
    requires len <= |mem|
    ensures forall a :: At(mem, 0, MkdirArgsWords(a)) ==>
        args == a.(attrs := Normal(a.attrs)) && (ok <==> |MkdirArgsWords(a)| <= len)
  {
    hide At, DirOpWords, Sattr3Words, Normal;
    var _, p, dir := DecodeDirop(mem, len);
    var p', attrs := DecodeSattr3(mem, p);
    args := MkdirArgs(dir, attrs);
    ok := p' <= len;
    forall a | At(mem, 0, MkdirArgsWords(a))
      ensures args == a.(attrs := Normal(a.attrs)) && p' == |MkdirArgsWords(a)|
    {
      AtSplit(mem, 0, DirOpWords(a.dir), Sattr3Words(a.attrs));
    }
  }
}
