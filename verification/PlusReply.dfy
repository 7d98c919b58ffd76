/**
 READDIRPLUS with the handles of its entries: what a client reads from the reply names, for each entry that came with a
 handle, the object that the entry's name means in the directory.
 */
module PlusReply {
  import opened Options
  import opened Paging
  import opened Xdr
  import opened Attr
  import opened DirWire
  import opened PageMemory
  import opened DirEncoder
  import opened HandleWire
  import opened Handles
  import DirentBuffer
  import Listing
  import Readdir
  import Requests

  /** An entry as the file system lists it, the attributes that would be found for its object, and whether looking its
      name up fails. */
  datatype Listed = Listed(name: seq<Byte>, ino: U64, dtype: Word, attr: Option<Fattr3>, fails: bool)

  /** `bs` is the handle of the object that `name` means in directory `dir`: it has inode number `ino`, and nothing is
      mounted on it. */
  ghost predicate HandleFor(k: Kernel, x: ExportId, dir: DentryId, name: seq<Byte>, ino: U64, bs: seq<Byte>,
                            d: DentryId) {
    && Requests.Names(k.world, bs, x, d) && Requests.Named(k, dir, name, d)
    && d in k.ino && k.ino[d] == ino && d !in k.mountpoints
  }

  /** What encode_entryplus_baggage adds: a handle with perhaps attributes if one is due, or neither. */
  ghost predicate Furnished(k: Kernel, x: ExportId, dir: DentryId, r: Listed, e: Listing.DirEnt)
    reads k`positive
  {
    && e.name == r.name && e.ino == r.ino && e.dtype == r.dtype && e.plus.Plus?
    && (e.plus.handle.Some? <==>
          Requests.EntryObject(k, k.positive, x, dir, Truncated(r.name), r.ino, r.fails).Some?)
    && match e.plus.handle
       case None => e.plus.attr.None?
       case Some(bs) => e.plus.attr == r.attr && exists d :: HandleFor(k, x, dir, Truncated(r.name), r.ino, bs, d)
  }

  lemma NamesSmall(w: World, bs: seq<Byte>, x: ExportId, d: DentryId)
    requires Requests.Names(w, bs, x, d)
    ensures |bs| <= NFS3_FHSIZE
    ensures d in w.fids && |bs| <= 12 + |w.fids[d].bytes|
  {
  }

  /** The entries of a directory with their handles. */
  method Furnish(k: Kernel, fh: SvcFh, raw: seq<Listed>) returns (ents: seq<Listing.DirEnt>)
    requires k.Valid() && fh.Good(k) && fh.exp.Some?
    modifies k`dentries, k`exports, k`writers
    ensures k.Held() == old(k.Held()) && |ents| == |raw|
    ensures forall n :: 0 <= n < |raw| ==> Furnished(k, fh.exp.value, fh.dentry.value, raw[n], ents[n])
  {
    hide Requests.Names, Requests.Named, Requests.EntryObject;
    ents := [];
    for n := 0 to |raw|
      invariant k.Held() == old(k.Held()) && |ents| == n
      invariant forall m :: 0 <= m < n ==> Furnished(k, fh.exp.value, fh.dentry.value, raw[m], ents[m])
    {
      var r := raw[n];
      var sent, d := Requests.EntryHandle(k, fh, Truncated(r.name), r.ino, r.fails);
      var plus := Plus(None, None);
      if sent.Some? {
        NamesSmall(k.world, sent.value, fh.exp.value, d);
        plus := Plus(r.attr, Some(sent.value));
        assert HandleFor(k, fh.exp.value, fh.dentry.value, Truncated(r.name), r.ino, sent.value, d);
      }
      ents := ents + [Listing.DirEnt(r.name, r.ino, r.dtype, plus)];
    }
  }

  ghost predicate ResolvesTo(k: Kernel, x: ExportId, dir: DentryId, e: Entry, d: DentryId)
    requires e.baggage.Plus? && e.baggage.handle.Some?
  {
    && Resolve(k.world, k.cache, e.baggage.handle.value) == Found(x, d)
    && Requests.Named(k, dir, e.name, d) && d in k.ino && k.ino[d] == e.fileid
  }

  /** A client that sends the handle back is taken to the object that the entry's name means. */
  ghost predicate Resolves(k: Kernel, x: ExportId, dir: DentryId, e: Entry) {
    && e.baggage.Plus?
    && (e.baggage.handle.Some? ==> exists d :: ResolvesTo(k, x, dir, e, d))
  }

  /** The export cache knows the export under its own device and root. */
  ghost predicate Reachable(k: Kernel, x: ExportId) {
    x in k.world.exports && GoodDev(k.world.exports[x].dev) && Known(k.world, k.cache, FSID_DEV, x)
  }

  lemma EntryResolves(k: Kernel, x: ExportId, dir: DentryId, r: Listed, e: Listing.DirEnt, cookie: U64)
    requires k.Valid() && Furnished(k, x, dir, r, e) && Reachable(k, x)
    ensures Resolves(k, x, dir, Entry(e.ino, Truncated(e.name), cookie, e.plus))
  {
    hide Resolve, WellFormed, Requests.Names, Requests.Named;
    var listed := Entry(e.ino, Truncated(e.name), cookie, e.plus);
    if e.plus.handle.Some? {
      var bs := e.plus.handle.value;
      var d :| HandleFor(k, x, dir, Truncated(r.name), r.ino, bs, d);
      Requests.SentHandleComesBack(k.world, k.cache, x, d, bs, []);
      assert ResolvesTo(k, x, dir, listed, d);
    }
  }

  /** Identifiers of files leave the handle within 60 bytes. */
  ghost predicate ShortFids(w: World) {
    forall d :: d in w.fids ==> |w.fids[d].bytes| <= 48
  }

  /** Positions and names as a directory has them. */
  ghost predicate Listable(raw: seq<Listed>, pos: seq<U64>) {
    && |pos| == |raw| + 1 && Listing.Distinct(pos) && Listing.Seekable(pos)
    && (forall n :: 0 <= n < |raw| ==> DirentBuffer.RecLen(|raw[n].name|) <= PAGE_SIZE)
  }

  lemma FurnishedSmall(k: Kernel, x: ExportId, dir: DentryId, r: Listed, e: Listing.DirEnt)
    requires Furnished(k, x, dir, r, e) && ShortFids(k.world)
    ensures SmallHandle(Listing.BaggageOf(e, true))
  {
    hide Requests.Names, Requests.Named;
    if e.plus.handle.Some? {
      var d :| HandleFor(k, x, dir, Truncated(r.name), r.ino, e.plus.handle.value, d);
      NamesSmall(k.world, e.plus.handle.value, x, d);
    }
  }

  lemma FurnishedWell(k: Kernel, x: ExportId, dir: DentryId, raw: seq<Listed>, pos: seq<U64>, es: seq<Listing.DirEnt>)
    requires Listable(raw, pos) && |es| == |raw| && ShortFids(k.world)
    requires forall n :: 0 <= n < |raw| ==> Furnished(k, x, dir, raw[n], es[n])
    ensures Listing.WellFormed(Listing.Directory(es, pos))
    ensures forall n :: 0 <= n < |es| ==> SmallHandle(Listing.BaggageOf(es[n], true))
  {
    hide ShortFids, HandleFor;
    forall n | 0 <= n < |es| ensures SmallHandle(Listing.BaggageOf(es[n], true)) {
      FurnishedSmall(k, x, dir, raw[n], es[n]);
    }
  }

  /** Whatever part of the directory a reply lists. */
  lemma ServedResolves(k: Kernel, x: ExportId, dir: DentryId, raw: seq<Listed>, d: Listing.Directory, i: nat,
                       budget: int)
    requires k.Valid() && Reachable(k, x) && Listing.WellFormed(d) && i <= |d.ents| == |raw|
    requires forall n :: 0 <= n < |raw| ==> Furnished(k, x, dir, raw[n], d.ents[n])
    ensures var l := Listing.Serve(d, true, i, budget);
      forall n :: 0 <= n < |l.entries| ==> Resolves(k, x, dir, l.entries[n])
  {
    hide Furnished, Resolves, WellFormed, Reachable, Listing.Taken, Listing.Entries;
    var j := i + Listing.Taken(d, true, i, budget);
    var l := Listing.Serve(d, true, i, budget);
    forall n | 0 <= n < |l.entries| ensures Resolves(k, x, dir, l.entries[n]) {
      Listing.EntriesAt(d, true, i, j, i + n);
      EntryResolves(k, x, dir, raw[i + n], d.ents[i + n], d.pos[i + n + 1]);
    }
  }

  /** One READDIRPLUS: each handle that the client reads from the reply leads to what its entry names. The handles are
      composed first here, and while the entries are encoded in the code; composing one looks things up and leaves no
      reference behind. */
  method ListPlus(k: Kernel, fh: SvcFh, raw: seq<Listed>, pos: seq<U64>, cookie: U64, count: Word, payload: Word,
                  mem: array<Word>, all: seq<nat>, attr: Option<Fattr3>, verf: U64, rpcHead: nat)
    returns (l: DirList, ghost ents: seq<Listing.DirEnt>)
    requires k.Valid() && fh.Good(k) && fh.exp.Some? && Reachable(k, fh.exp.value) && ShortFids(k.world)
    requires Listable(raw, pos) && cookie in pos && Readdir.TrailerFits(attr, rpcHead)
    requires Disjoint(all) && Inside(all, mem.Length) && Readdir.OnlySuccessorsAdjoin(all)
    requires Readdir.Reserved(true, count, payload) <= |all|
    modifies k`dentries, k`exports, k`writers, mem
    ensures k.Held() == old(k.Held()) && |ents| == |raw| && Listing.WellFormed(Listing.Directory(ents, pos))
    ensures forall n :: 0 <= n < |raw| ==> Furnished(k, fh.exp.value, fh.dentry.value, raw[n], ents[n])
    ensures var d := Listing.Directory(ents, pos);
      l == Listing.Serve(d, true, Listing.IndexOf(d, cookie), Readdir.Budget(true, count, payload))
    ensures forall n :: 0 <= n < |l.entries| ==> Resolves(k, fh.exp.value, fh.dentry.value, l.entries[n])
  {
    hide Furnished, Resolves, WellFormed, Disjoint, Inside, Readdir.TrailerFits, Readdir.OnlySuccessorsAdjoin,
      Reachable, ShortFids, Readdir.Clean, Listing.IndexOf, Listing.Taken, Listing.Entries, Listing.Distinct,
      Listing.Seekable, Listing.Serve;
    var es := Furnish(k, fh, raw);
    ents := es;
    var d := Listing.Directory(es, pos);
    FurnishedWell(k, fh.exp.value, fh.dentry.value, raw, pos, es);
    ghost var i := Listing.IndexOf(d, cookie);
    Readdir.CleanEnough(d, true, i, count, payload, all);
    var file := new Readdir.DirFile(d, true);
    l := Readdir.Exchange(file, true, cookie, count, payload, mem, all, attr, verf, rpcHead);
    ServedResolves(k, fh.exp.value, fh.dentry.value, raw, d, i, Readdir.Budget(true, count, payload));
  }

}
