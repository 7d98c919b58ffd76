/**
 What one request does for the next: a name that was created is found, with the handle that was sent for it; a name that
 was removed is not; and removing undoes creating.
 */
module NameRuns {
  import opened Options
  import opened Xdr
  import opened Attr
  import opened HandleWire
  import opened Handles
  import opened Requests

  /** Every kernel call works. */
  predicate Smooth(c: Calls) {
    && c.verify.NoFault? && !c.lookup && !c.want && c.directory && c.making.Made? && c.attrs == Ok && c.commit == Ok
    && !c.unlink && c.opening.Opens? && c.missed == {}
  }

  /** With every call working, LOOKUP of a proper name succeeds exactly if it means an object with an inode whose handle
      fits, and says that there is no such entry exactly if it means one without. */
  lemma LookupExactly(k: Kernel, c: Calls, positive: set<DentryId>, x: ExportId, dir: DentryId, name: seq<Byte>)
    requires Smooth(c) && name != []
    ensures var (status, after) := Performed(k, c, positive, Found(x, dir), LookupReq(name));
      && after == positive
      && (status == Ok <==> exists d :: LooksUp(k, x, dir, name, d) && d in positive && Fits(k.world, x, d))
      && (status == NoEnt <==> exists d :: LooksUp(k, x, dir, name, d) && d !in positive)
  {
    hide LookupMeaning, Fits;
    if LookupMeaning(k, x, dir, name).Some? {
      assert LooksUp(k, x, dir, name, LookupMeaning(k, x, dir, name).value);
    }
  }

  /** CREATE answers that the name exists exactly if it is a dot name, or is there already and the mode forbids that. */
  lemma ExistExactly(k: Kernel, c: Calls, positive: set<DentryId>, x: ExportId, dir: DentryId, name: seq<Byte>,
                     mode: CreateMode)
    requires Smooth(c)
    ensures Performed(k, c, positive, Found(x, dir), CreateReq(name, mode)).0 == Exist <==>
      || IsDotEnt(name)
      || (name != [] && !mode.Unchecked? && !(mode.Exclusive? && c.sameTimes) &&
          exists d :: Named(k, dir, name, d) && d in positive && Fits(k.world, x, d))
  {
    hide Meaning, Fits, IsDotEnt;
    DotNames(name);
    if Meaning(k, dir, name).Some? {
      assert Named(k, dir, name, Meaning(k, dir, name).value);
    }
  }

  /** REMOVE takes the inode of what the name means away, and no other. */
  lemma RemoveExactly(k: Kernel, c: Calls, positive: set<DentryId>, x: ExportId, dir: DentryId, name: seq<Byte>)
    requires Smooth(c)
    ensures var (status, after) := Performed(k, c, positive, Found(x, dir), Remove(name));
      && (status == Ok <==> name != [] && !IsDotEnt(name) && exists d :: Named(k, dir, name, d) && d in positive)
      && (status == Ok ==> exists d :: Named(k, dir, name, d) && after == positive - {d})
      && (status != Ok ==> after == positive)
  {
    hide Meaning, IsDotEnt;
    if Meaning(k, dir, name).Some? {
      assert Named(k, dir, name, Meaning(k, dir, name).value);
    }
  }

  /** A handle that was reached without a fault is what its bytes mean. */
  lemma ReachFound(fault: Fault, w: World, cache: Cache, bs: seq<Byte>)
    ensures Reach(fault, w, cache, bs).Found? ==> Reach(NoFault, w, cache, bs) == Reach(fault, w, cache, bs)
    ensures Reach(NoFault, w, cache, bs) == Resolve(w, cache, bs)
    ensures Reach(fault, w, cache, bs).Failed? ==> Reach(fault, w, cache, bs).status != Ok
  {
    hide ParseHandle, DecodeFid;
  }

  /** What a successful CREATE says about its name. */
  lemma CreatedName(k: Kernel, c: Calls, positive: set<DentryId>, obj: Resolved, name: seq<Byte>, mode: CreateMode)
    requires Performed(k, c, positive, obj, CreateReq(name, mode)).0 == Ok
    ensures obj.Found? && name != [] && !IsDotEnt(name)
    ensures var after := Performed(k, c, positive, obj, CreateReq(name, mode)).1;
      exists d :: Named(k, obj.d, name, d) && d in after && Fits(k.world, obj.x, d) && after == positive + {d}
  {
    hide Meaning, IsDotEnt, Fits;
    var d := Meaning(k, obj.d, name).value;
    assert Named(k, obj.d, name, d);
  }

  /** Outside the dot names LOOKUP takes a name as the others do. */
  lemma NotDots(k: Kernel, x: ExportId, dir: DentryId, name: seq<Byte>)
    requires !IsDotEnt(name)
    ensures LookupMeaning(k, x, dir, name) == Meaning(k, dir, name)
  {
  }

  /** Two requests that take a name for the same object answer with the same bytes. */
  lemma SameAnswer(k: Kernel, handle: seq<Byte>, r: Request, q: Request, name: seq<Byte>, bs: seq<Byte>, cs: seq<Byte>)
    requires name != [] && !IsDotEnt(name) && Genuine(k, handle, r, name, bs) && Genuine(k, handle, q, name, cs)
    ensures bs == cs
  {
    hide Resolve, HandleOf, Meaning;
    var x, dir, d :|
      && Resolve(k.world, k.cache, handle) == Found(x, dir) && Answer(k, r, x, dir, name, d, bs)
      && |bs| > 3 && (bs[3] == FILEID_ROOT <==> d == k.world.exports[x].root);
    var y, e, f :|
      && Resolve(k.world, k.cache, handle) == Found(y, e) && Answer(k, q, y, e, name, f, cs)
      && |cs| > 3 && (cs[3] == FILEID_ROOT <==> f == k.world.exports[y].root);
    NotDots(k, x, dir, name);
  }

  /** A proper name that means an object with an inode, whose handle fits, is found. */
  lemma FoundAfter(k: Kernel, c: Calls, c': Calls, positive: set<DentryId>, handle: seq<Byte>, name: seq<Byte>,
                   d: DentryId)
    requires Smooth(c') && name != [] && !IsDotEnt(name)
    requires var obj := Reach(c.verify, k.world, k.cache, handle);
      obj.Found? && Named(k, obj.d, name, d) && d in positive && Fits(k.world, obj.x, d)
    ensures Performed(k, c', positive, Reach(c'.verify, k.world, k.cache, handle), LookupReq(name)) == (Ok, positive)
  {
    hide Performed, Resolve, Reach, Meaning, Fits, IsDotEnt;
    var obj := Reach(c.verify, k.world, k.cache, handle);
    ReachFound(c.verify, k.world, k.cache, handle);
    NotDots(k, obj.x, obj.d, name);
    LookupExactly(k, c', positive, obj.x, obj.d, name);
    assert LooksUp(k, obj.x, obj.d, name, d);
  }

  /** LOOKUP after CREATE: the same handle. */
  method CreateThenLookup(k: Kernel, handle: seq<Byte>, name: seq<Byte>, mode: CreateMode, c: Calls, c': Calls)
    returns (made: seq<Option<seq<Byte>>>, found: seq<Option<seq<Byte>>>)
    requires k.Valid() && |handle| <= 128 && Smooth(c')
    modifies k
    ensures k.Held() == old(k.Held())
    ensures |made| == 1 && |found| == 1 && (made[0].Some? ==> found == made)
  {
    hide Performed, Resolve, Reach, Genuine, Fits, Named, IsDotEnt;
    ghost var before := k.positive;
    var status, status';
    status, made := Serve(k, handle, CreateReq(name, mode), c);
    ghost var obj, after := Reach(c.verify, k.world, k.cache, handle), k.positive;
    status', found := Serve(k, handle, LookupReq(name), c');
    if status == Ok {
      CreatedName(k, c, before, obj, name, mode);
      ghost var d :| Named(k, obj.d, name, d) && d in after && Fits(k.world, obj.x, d) && after == before + {d};
      FoundAfter(k, c, c', after, handle, name, d);
      assert Genuine(k, handle, CreateReq(name, mode), NameAt(CreateReq(name, mode), 0), made[0].value);
      assert Genuine(k, handle, LookupReq(name), NameAt(LookupReq(name), 0), found[0].value);
      SameAnswer(k, handle, CreateReq(name, mode), LookupReq(name), name, made[0].value, found[0].value);
    }
  }

  /** REMOVE after a guarded CREATE: the tree is as it was. */
  method CreateThenRemove(k: Kernel, handle: seq<Byte>, name: seq<Byte>, c: Calls, c': Calls)
    returns (status: Status, status': Status)
    requires k.Valid() && |handle| <= 128 && Smooth(c')
    modifies k
    ensures k.Held() == old(k.Held())
    ensures status == Ok ==> status' == Ok && k.positive == old(k.positive)
  {
    hide Resolve, Reach, Fits, Meaning, IsDotEnt, Genuine;
    var made, gone;
    status, made := Serve(k, handle, CreateReq(name, Guarded), c);
    status', gone := Serve(k, handle, Remove(name), c');
    if status == Ok {
      ReachFound(c.verify, k.world, k.cache, handle);
    }
  }

  /** LOOKUP after REMOVE: no such entry. */
  method RemoveThenLookup(k: Kernel, handle: seq<Byte>, name: seq<Byte>, c: Calls, c': Calls)
    returns (status: Status, status': Status)
    requires k.Valid() && |handle| <= 128 && Smooth(c')
    modifies k
    ensures k.Held() == old(k.Held())
    ensures status == Ok ==> status' == NoEnt
  {
    hide Resolve, Reach, Fits, Meaning, IsDotEnt, Genuine, LookupMeaning;
    var gone, found;
    status, gone := Serve(k, handle, Remove(name), c);
    status', found := Serve(k, handle, LookupReq(name), c');
    ReachFound(c.verify, k.world, k.cache, handle);
    if status == Ok {
      ghost var obj := Reach(c.verify, k.world, k.cache, handle);
      NotDots(k, obj.x, obj.d, name);
    }
  }

  /** The handle that MKDIR sent can be used: it leads to the new directory. */
  method MkdirThenUse(k: Kernel, handle: seq<Byte>, name: seq<Byte>, c: Calls, c': Calls)
    returns (made: seq<Option<seq<Byte>>>, status: Status)
    requires k.Valid() && |handle| <= 128 && Smooth(c')
    requires forall x :: x in k.world.exports && GoodDev(k.world.exports[x].dev) ==>
               Known(k.world, k.cache, FSID_DEV, x)
    modifies k
    ensures k.Held() == old(k.Held())
    ensures |made| == 1 && (made[0].Some? ==> |made[0].value| <= NFS3_FHSIZE && status == Ok)
  {
    hide Resolve, Fits, Meaning, IsDotEnt, HandleOf, Known, WellFormed, Hits;
    var s;
    s, made := Serve(k, handle, Mkdir(name), c);
    status := Ok;
    if made[0].Some? {
      var bs := made[0].value;
      assert Genuine(k, handle, Mkdir(name), NameAt(Mkdir(name), 0), bs);
      ghost var x, dir, d :|
        && Resolve(k.world, k.cache, handle) == Found(x, dir) && Answer(k, Mkdir(name), x, dir, name, d, bs)
        && |bs| > 3 && (bs[3] == FILEID_ROOT <==> d == k.world.exports[x].root);
      SentHandleComesBack(k.world, k.cache, x, d, bs, []);
      ReachFound(NoFault, k.world, k.cache, bs);
      var sent;
      status, sent := Serve(k, bs, Getattr, c');
    }
  }
}
