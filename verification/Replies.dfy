/**
 Replies of fixed shape: what each encoder sends after the status, that a client can read it back, and that it fits
 the size the procedure table declares.
 */
module Replies {
  import opened Options
  import opened Xdr
  import opened Attr
  import ReadFile

  /** An object's handle and, if they could be had, its attributes. */
  datatype Found = Found(fh: HandleBytes, attr: Option<Fattr3>)

  datatype Written = Written(count: Word, committed: Word, verf0: Word, verf1: Word)

  /** `favail` is the number of inodes the caller may use. */
  datatype FsStat = FsStat(total: U64, free: U64, avail: U64, files: U64, ffree: U64, favail: U64, invarsec: Word)

  /** `delta` is the granularity of the server's clock. */
  datatype FsInfo = FsInfo(rtmax: Word, rtpref: Word, rtmult: Word, wtmax: Word, wtpref: Word, wtmult: Word,
                           dtpref: Word, maxfilesize: U64, delta: Time, properties: Word)

  /** Size, mtime and ctime of an object before an operation. */
  datatype Before = Before(size: U64, mtime: Time, ctime: Time)

  /** What a client learns of an object that was changed: perhaps what it was before, perhaps what it is after. */
  datatype WccData = WccData(before: Option<Before>, after: Option<Fattr3>)

  /** struct kstatfs, as far as FSSTAT uses it: sizes are in blocks. */
  datatype Kstatfs = Kstatfs(bsize: U64, blocks: U64, bfree: U64, bavail: U64, files: U64, ffree: U64)

  const TWO64: int := 0x1_0000_0000_0000_0000

  /** The statistics that are sent: bytes, in 64 bits, and inodes. */
  function StatOf(k: Kstatfs, invarsec: Word): FsStat {
    FsStat(k.bsize * k.blocks % TWO64, k.bsize * k.bfree % TWO64, k.bsize * k.bavail % TWO64, k.files, k.ffree, k.ffree,
           invarsec)
  }

  /** The optional part of each is there exactly when the status is zero, except for attributes. */
  datatype Reply =
    | Getattr(stat: Option<Fattr3>)
    | Wcc(wcc: WccData)
    | Lookup(found: Option<Found>, dir: Option<Fattr3>)
    | Access(attr: Option<Fattr3>, access: Option<Word>)
    | Write(wcc: WccData, written: Option<Written>)
    | Create(made: Option<Found>, wcc: WccData)
    | Fsstat(stats: Option<FsStat>)
    | Fsinfo(info: Option<FsInfo>)

  // ----- the encoders -----

  function FoundWords(f: Found): seq<Word> {
    Opaque(f.fh) + PostOpAttrWords(f.attr)
  }

  function WrittenWords(w: Written): seq<Word> {
    [w.count, w.committed, w.verf0, w.verf1]
  }

  function FsStatWords(s: FsStat): seq<Word> {
    Hyper(s.total) + Hyper(s.free) + Hyper(s.avail) + Hyper(s.files) + Hyper(s.ffree) + Hyper(s.ffree) + [s.invarsec]
  }

  function FsInfoWords(i: FsInfo): seq<Word> {
    [i.rtmax, i.rtpref, i.rtmult, i.wtmax, i.wtpref, i.wtmult, i.dtpref] + Hyper(i.maxfilesize) + [1, 0, i.properties]
  }

  /** No attributes from before the operation are sent. */
  function WccWords(w: WccData): seq<Word> {
    [0] + PostOpAttrWords(w.after)
  }

  function Encode(r: Reply): seq<Word> {
    match r
    case Getattr(s) => if s.Some? then Fattr3Words(s.value) else []
    case Wcc(w) => WccWords(w)
    case Lookup(f, d) => (if f.Some? then FoundWords(f.value) else []) + PostOpAttrWords(d)
    case Access(a, w) => PostOpAttrWords(a) + if w.Some? then [w.value] else []
    case Write(a, w) => WccWords(a) + if w.Some? then WrittenWords(w.value) else []
    case Create(f, d) => (if f.Some? then [1] + FoundWords(f.value) else []) + WccWords(d)
    case Fsstat(s) => [0] + if s.Some? then FsStatWords(s.value) else []
    case Fsinfo(i) => [0] + if i.Some? then FsInfoWords(i.value) else []
  }

  // ----- the procedure table -----

  const ST := 1
  const FH := 17
  const AT := 21
  const PAT := 1 + AT
  const WC := 7 + PAT
  const NFSSVC_MAXBLKSIZE := 0x10_0000

  /** The largest reply the table declares, in words and with the status. */
  function Declared(r: Reply): nat {
    match r
    case Getattr(_) => ST + AT
    case Wcc(_) => ST + WC
    case Lookup(_, _) => ST + FH + PAT + PAT
    case Access(_, _) => ST + PAT + 1
    case Write(_, _) => ST + WC + 4
    case Create(_, _) => ST + (1 + FH + PAT) + WC
    case Fsstat(_) => ST + PAT + 2 * 6 + 1
    case Fsinfo(_) => ST + PAT + 12
  }

  lemma FoundFits(f: Found)
    ensures |FoundWords(f)| <= FH + PAT
  {
  }

  /** No reply outgrows its declaration, whatever its status, its attributes and its handle. */
  lemma ReplyFits(r: Reply)
    ensures ST + |Encode(r)| <= Declared(r)
  {
    hide FoundWords, Fattr3Words;
    match r
    case Lookup(f, _) =>
      if f.Some? {
        FoundFits(f.value);
      }
    case Create(f, _) =>
      if f.Some? {
        FoundFits(f.value);
      }
    case _ =>
  }

  /** Everything that may be in a reply is in it, with a handle of full size. */
  predicate Full(r: Reply) {
    match r
    case Getattr(s) => s.Some?
    case Wcc(w) => w.after.Some?
    case Lookup(f, d) => f.Some? && |f.value.fh| == NFS3_FHSIZE && f.value.attr.Some? && d.Some?
    case Access(a, w) => a.Some? && w.Some?
    case Write(w, o) => w.after.Some? && o.Some?
    case Create(f, w) => f.Some? && |f.value.fh| == NFS3_FHSIZE && f.value.attr.Some? && w.after.Some?
    case Fsstat(s) => s.Some?
    case Fsinfo(i) => i.Some?
  }

  /** The declarations are exact, but for the six words of attributes from before an operation and the 21 of attributes
      in FSSTAT and FSINFO, which this server never sends. */
  lemma DeclaredExactly(r: Reply)
    requires Full(r)
    ensures Declared(r) == ST + |Encode(r)| +
      match r
      case Wcc(_) => 6
      case Write(_, _) => 6
      case Create(_, _) => 6
      case Fsstat(_) => 21
      case Fsinfo(_) => 21
      case _ => 0
  {
  }

  /** Nor does READ, which the table treats the same way. */
  lemma ReadFits(attr: Option<Fattr3>, ok: bool, data: seq<Byte>, eof: bool)
    requires |data| <= NFSSVC_MAXBLKSIZE
    ensures ST + |ReadFile.ReplyWords(attr, ok, data, eof)| <= ST + PAT + 4 + NFSSVC_MAXBLKSIZE / 4
  {
  }

  // ----- the client -----

  function TakeFound(s: seq<Word>): Parsed<Found> {
    match TakeOpaque(s)
    case Bad => Bad
    case Good(fh, s1) =>
      if |fh| > NFS3_FHSIZE then Bad
      else match TakePostOpAttr(s1)
           case Bad => Bad
           case Good(attr, s2) => Good(Found(fh, attr), s2)
  }

  lemma TakeFoundWords(f: Found, rest: seq<Word>)
    ensures TakeFound(FoundWords(f) + rest) == Good(f, rest)
  {
    hide Opaque, TakeOpaque, PostOpAttrWords, TakePostOpAttr;
    Assoc(Opaque(f.fh), PostOpAttrWords(f.attr), rest);
    TakeOpaqueOpaque(f.fh, PostOpAttrWords(f.attr) + rest);
    TakePostOpAttrWords(f.attr, rest);
  }

  function TakeWritten(s: seq<Word>): Parsed<Written> {
    if |s| < 4 then Bad else Good(Written(s[0], s[1], s[2], s[3]), s[4..])
  }

  function TakeFsStat(s: seq<Word>): Parsed<FsStat> {
    if |s| < 13 then Bad
    else Good(FsStat(FromHyper(s[0], s[1]), FromHyper(s[2], s[3]), FromHyper(s[4], s[5]), FromHyper(s[6], s[7]),
                     FromHyper(s[8], s[9]), FromHyper(s[10], s[11]), s[12]), s[13..])
  }

  function TakeFsInfo(s: seq<Word>): Parsed<FsInfo> {
    if |s| < 12 then Bad
    else Good(FsInfo(s[0], s[1], s[2], s[3], s[4], s[5], s[6], FromHyper(s[7], s[8]), Time(s[9], s[10]), s[11]),
              s[12..])
  }

  lemma TakeFsStatWords(t: FsStat, rest: seq<Word>)
    ensures TakeFsStat(FsStatWords(t) + rest) == Good(t.(favail := t.ffree), rest)
  {
    HyperRoundTrip(t.total);
    HyperRoundTrip(t.free);
    HyperRoundTrip(t.avail);
    HyperRoundTrip(t.files);
    HyperRoundTrip(t.ffree);
    assert (FsStatWords(t) + rest)[13..] == rest;
  }

  lemma TakeFsInfoWords(i: FsInfo, rest: seq<Word>)
    ensures TakeFsInfo(FsInfoWords(i) + rest) == Good(i.(delta := Time(1, 0)), rest)
  {
    HyperRoundTrip(i.maxfilesize);
    assert (FsInfoWords(i) + rest)[12..] == rest;
  }

  /** wcc_data: perhaps size, mtime and ctime from before the operation, then attributes from after it. */
  function TakeWcc(s: seq<Word>): Parsed<WccData> {
    if |s| < 1 || s[0] > 1 then Bad
    else if s[0] == 0 then
      match TakePostOpAttr(s[1..]) case Bad => Bad case Good(a, s1) => Good(WccData(None, a), s1)
    else if |s| < 7 then Bad
    else
      var before := Before(FromHyper(s[1], s[2]), Time(s[3], s[4]), Time(s[5], s[6]));
      match TakePostOpAttr(s[7..]) case Bad => Bad case Good(a, s1) => Good(WccData(Some(before), a), s1)
  }

  lemma TakeWccWords(w: WccData, rest: seq<Word>)
    ensures TakeWcc(WccWords(w) + rest) == Good(w.(before := None), rest)
  {
    hide PostOpAttrWords, TakePostOpAttr;
    assert (WccWords(w) + rest)[1..] == PostOpAttrWords(w.after) + rest;
    TakePostOpAttrWords(w.after, rest);
  }

  /** The whole grammar of wcc_data, of which the server sends a part. */
  function FullWccWords(w: WccData): seq<Word> {
    match w.before
    case None => [0] + PostOpAttrWords(w.after)
    case Some(b) =>
      [1] + Hyper(b.size) + [b.mtime.sec, b.mtime.nsec, b.ctime.sec, b.ctime.nsec] + PostOpAttrWords(w.after)
  }

  /** The client would understand attributes from before the operation if they were sent. */
  lemma TakeFullWcc(w: WccData, rest: seq<Word>)
    ensures TakeWcc(FullWccWords(w) + rest) == Good(w, rest)
    ensures WccWords(w) == FullWccWords(w.(before := None))
  {
    hide PostOpAttrWords, TakePostOpAttr;
    TakePostOpAttrWords(w.after, rest);
    var s := FullWccWords(w) + rest;
    match w.before
    case None => assert s[1..] == PostOpAttrWords(w.after) + rest;
    case Some(b) =>
      HyperRoundTrip(b.size);
      assert s[7..] == PostOpAttrWords(w.after) + rest;
  }

  /** What the client is told: nothing of before the operation, as many inodes to use as there are free ones, and a
      clock that counts seconds. */
  function Told(r: Reply): Reply {
    match r
    case Wcc(w) => Wcc(w.(before := None))
    case Write(w, o) => Write(w.(before := None), o)
    case Create(f, w) => Create(f, w.(before := None))
    case Fsstat(Some(t)) => Fsstat(Some(t.(favail := t.ffree)))
    case Fsinfo(Some(i)) => Fsinfo(Some(i.(delta := Time(1, 0))))
    case _ => r
  }

  function TakeLookup(ok: bool, s: seq<Word>): Parsed<Reply> {
    if !ok then (match TakePostOpAttr(s) case Bad => Bad case Good(d, s1) => Good(Lookup(None, d), s1))
    else match TakeFound(s)
         case Bad => Bad
         case Good(f, s1) =>
           (match TakePostOpAttr(s1) case Bad => Bad case Good(d, s2) => Good(Lookup(Some(f), d), s2))
  }

  function TakeAccess(ok: bool, s: seq<Word>): Parsed<Reply> {
    match TakePostOpAttr(s)
    case Bad => Bad
    case Good(a, s1) =>
      if !ok then Good(Access(a, None), s1)
      else (match TakeWord(s1) case Bad => Bad case Good(w, s2) => Good(Access(a, Some(w)), s2))
  }

  function TakeWrite(ok: bool, s: seq<Word>): Parsed<Reply> {
    match TakeWcc(s)
    case Bad => Bad
    case Good(a, s1) =>
      if !ok then Good(Write(a, None), s1)
      else (match TakeWritten(s1) case Bad => Bad case Good(w, s2) => Good(Write(a, Some(w)), s2))
  }

  /** The handle of a created object is optional in the protocol; this server always sends it. */
  function TakeCreate(ok: bool, s: seq<Word>): Parsed<Reply> {
    if !ok then (match TakeWcc(s) case Bad => Bad case Good(d, s1) => Good(Create(None, d), s1))
    else if |s| < 1 || s[0] != 1 then Bad
    else match TakeFound(s[1..])
         case Bad => Bad
         case Good(f, s1) => (match TakeWcc(s1) case Bad => Bad case Good(d, s2) => Good(Create(Some(f), d), s2))
  }

  function TakeFsstat(ok: bool, s: seq<Word>): Parsed<Reply> {
    if |s| < 1 || s[0] != 0 then Bad
    else if !ok then Good(Fsstat(None), s[1..])
    else (match TakeFsStat(s[1..]) case Bad => Bad case Good(t, s1) => Good(Fsstat(Some(t)), s1))
  }

  function TakeFsinfo(ok: bool, s: seq<Word>): Parsed<Reply> {
    if |s| < 1 || s[0] != 0 then Bad
    else if !ok then Good(Fsinfo(None), s[1..])
    else (match TakeFsInfo(s[1..]) case Bad => Bad case Good(i, s1) => Good(Fsinfo(Some(i)), s1))
  }

  /** A reply of the same kind and with the same status as `like`, read from the words after the status. */
  function Take(like: Reply, s: seq<Word>): Parsed<Reply> {
    match like
    case Getattr(o) =>
      if o.None? then Good(Getattr(None), s)
      else (match TakeFattr3(s) case Bad => Bad case Good(v, s1) => Good(Getattr(Some(v)), s1))
    case Wcc(_) => (match TakeWcc(s) case Bad => Bad case Good(a, s1) => Good(Wcc(a), s1))
    case Lookup(o, _) => TakeLookup(o.Some?, s)
    case Access(_, o) => TakeAccess(o.Some?, s)
    case Write(_, o) => TakeWrite(o.Some?, s)
    case Create(o, _) => TakeCreate(o.Some?, s)
    case Fsstat(o) => TakeFsstat(o.Some?, s)
    case Fsinfo(o) => TakeFsinfo(o.Some?, s)
  }

  lemma LookupReadsBack(f: Option<Found>, d: Option<Fattr3>, rest: seq<Word>)
    ensures TakeLookup(f.Some?, Encode(Lookup(f, d)) + rest) == Good(Lookup(f, d), rest)
  {
    hide FoundWords, TakeFound, PostOpAttrWords, TakePostOpAttr;
    TakePostOpAttrWords(d, rest);
    if f.Some? {
      Assoc(FoundWords(f.value), PostOpAttrWords(d), rest);
      TakeFoundWords(f.value, PostOpAttrWords(d) + rest);
    } else {
      assert [] + PostOpAttrWords(d) == PostOpAttrWords(d);
    }
  }

  lemma AccessReadsBack(a: Option<Fattr3>, o: Option<Word>, rest: seq<Word>)
    ensures TakeAccess(o.Some?, Encode(Access(a, o)) + rest) == Good(Access(a, o), rest)
  {
    hide PostOpAttrWords, TakePostOpAttr;
    var w: seq<Word> := if o.Some? then [o.value] else [];
    Assoc(PostOpAttrWords(a), w, rest);
    TakePostOpAttrWords(a, w + rest);
    assert (w + rest)[|w|..] == rest;
  }

  lemma WriteReadsBack(a: WccData, o: Option<Written>, rest: seq<Word>)
    ensures TakeWrite(o.Some?, Encode(Write(a, o)) + rest) == Good(Told(Write(a, o)), rest)
  {
    hide WccWords, TakeWcc;
    var w: seq<Word> := if o.Some? then WrittenWords(o.value) else [];
    TakeWccWords(a, w + rest);
    Assoc(WccWords(a), w, rest);
    assert (w + rest)[|w|..] == rest;
  }

  lemma CreateReadsBack(f: Option<Found>, d: WccData, rest: seq<Word>)
    ensures TakeCreate(f.Some?, Encode(Create(f, d)) + rest) == Good(Told(Create(f, d)), rest)
  {
    hide FoundWords, TakeFound, WccWords, TakeWcc;
    var wcc := WccWords(d);
    TakeWccWords(d, rest);
    if f.Some? {
      var fw := FoundWords(f.value);
      assert ([1] + fw + wcc + rest)[1..] == fw + (wcc + rest);
      TakeFoundWords(f.value, wcc + rest);
    } else {
      assert [] + wcc == wcc;
    }
  }

  lemma FsstatReadsBack(o: Option<FsStat>, rest: seq<Word>)
    ensures TakeFsstat(o.Some?, Encode(Fsstat(o)) + rest) == Good(Told(Fsstat(o)), rest)
  {
    hide FsStatWords, TakeFsStat;
    var w: seq<Word> := if o.Some? then FsStatWords(o.value) else [];
    assert ([0] + w + rest)[1..] == w + rest;
    if o.Some? {
      TakeFsStatWords(o.value, rest);
    }
  }

  /** The client reads the sizes in bytes, if they fit 64 bits. */
  lemma FsstatTells(k: Kstatfs, invarsec: Word, rest: seq<Word>)
    requires k.bsize * k.blocks < TWO64 && k.bsize * k.bfree < TWO64 && k.bsize * k.bavail < TWO64
    ensures TakeFsstat(true, Encode(Fsstat(Some(StatOf(k, invarsec)))) + rest) ==
      Good(Fsstat(Some(FsStat(k.bsize * k.blocks, k.bsize * k.bfree, k.bsize * k.bavail, k.files, k.ffree, k.ffree,
                              invarsec))), rest)
  {
    hide FsStatWords, TakeFsStat, Encode, TakeFsstat;
    FsstatReadsBack(Some(StatOf(k, invarsec)), rest);
  }

  lemma FsinfoReadsBack(o: Option<FsInfo>, rest: seq<Word>)
    ensures TakeFsinfo(o.Some?, Encode(Fsinfo(o)) + rest) == Good(Told(Fsinfo(o)), rest)
  {
    hide FsInfoWords, TakeFsInfo;
    var w: seq<Word> := if o.Some? then FsInfoWords(o.value) else [];
    assert ([0] + w + rest)[1..] == w + rest;
    if o.Some? {
      TakeFsInfoWords(o.value, rest);
    }
  }

  /** Whatever follows it, the client reads back the reply that was sent. */
  lemma ReadsBack(r: Reply, rest: seq<Word>)
    ensures Take(r, Encode(r) + rest) == Good(Told(r), rest)
  {
    hide TakeLookup, TakeAccess, TakeWrite, TakeCreate, TakeFsstat, TakeFsinfo, TakeWcc, TakeFattr3;
    match r
    case Getattr(o) =>
      if o.Some? {
        TakeFattr3Words(o.value, rest);
      } else {
        assert [] + rest == rest;
      }
    case Wcc(a) => TakeWccWords(a, rest);
    case Lookup(f, d) => LookupReadsBack(f, d, rest);
    case Access(a, o) => AccessReadsBack(a, o, rest);
    case Write(a, o) => WriteReadsBack(a, o, rest);
    case Create(f, d) => CreateReadsBack(f, d, rest);
    case Fsstat(o) => FsstatReadsBack(o, rest);
    case Fsinfo(o) => FsinfoReadsBack(o, rest);
  }
}
