/**
 Which export a path belongs to: the nearest ancestor that is exported.
 */
module Exports {
  import opened Options
  import opened Xdr
  import opened Attr
  import opened HandleWire
  import opened Handles

  /** What exp_get_by_name finds for a directory. */
  datatype Lookup = NotExported | Refused(code: nat) | Exported(x: ExportId)

  /** struct path, on one mount. */
  class Path {
    var dentry: DentryId

    constructor (d: DentryId)
      ensures dentry == d
    {
      dentry := d;
    }
  }

  predicate IsRoot(k: Kernel, d: DentryId) {
    d in k.parent && k.parent[d] == d
  }

  /** The way up from `d`: to its parent, which is less deep unless `d` is a root. */
  ghost predicate Up(k: Kernel, depth: map<DentryId, nat>, d: DentryId) {
    && d in depth && d in k.parent && k.parent[d] in k.world.fids && k.parent[d] in depth
    && (k.parent[d] != d ==> depth[k.parent[d]] < depth[d])
  }

  /** The tree is finitely deep, and only a root is its own parent. */
  ghost predicate Tree(k: Kernel, depth: map<DentryId, nat>) {
    forall d {:trigger Up(k, depth, d)} :: d in k.world.fids ==> Up(k, depth, d)
  }

  /** The `n`-th ancestor. */
  ghost function Ancestor(k: Kernel, d: DentryId, n: nat): DentryId
    decreases n
  {
    if n == 0 then d
    else if d in k.parent then Ancestor(k, k.parent[d], n - 1)
    else d
  }

  function At(table: map<DentryId, Lookup>, d: DentryId): Lookup {
    if d in table then table[d] else NotExported
  }

  /** `r` is what is found for the `n`-th ancestor of `d`, the first for which something is found, or the root. */
  ghost predicate NearestIs(k: Kernel, table: map<DentryId, Lookup>, d: DentryId, n: nat, r: Lookup) {
    && r == At(table, Ancestor(k, d, n))
    && (r.NotExported? ==> IsRoot(k, Ancestor(k, d, n)))
    && (forall m :: 0 <= m < n ==> At(table, Ancestor(k, d, m)).NotExported? && !IsRoot(k, Ancestor(k, d, m)))
  }

  lemma {:induction false} AncestorStep(k: Kernel, d: DentryId, n: nat)
    requires Ancestor(k, d, n) in k.parent
    ensures Ancestor(k, d, n + 1) == k.parent[Ancestor(k, d, n)]
    decreases n
  {
    if n == 0 || d !in k.parent {
    } else {
      AncestorStep(k, k.parent[d], n - 1);
    }
  }

  lemma AncestorSelf(k: Kernel, d: DentryId)
    ensures Ancestor(k, d, 0) == d
  {
  }

  ghost function FoundRef(r: Lookup): Refs {
    if r.Exported? then ExportRef(r.x) else NONE
  }

  /** exp_get_by_name: takes a reference to the export it finds. */
  method GetByName(k: Kernel, table: map<DentryId, Lookup>, d: DentryId) returns (r: Lookup)
    modifies k`exports
    ensures r == At(table, d)
    ensures k.Held() == Add(old(k.Held()), FoundRef(r))
  {
    hide Add;
    r := At(table, d);
    if r.Exported? {
      k.ExpGet(r.x);
    } else {
      AddNone(k.Held());
    }
  }

  /** One step up: hold the parent, let go of the child. */
  method Climb(k: Kernel, path: Path, ghost b: Refs)
    requires path.dentry in k.parent && k.Held() == Add(b, DentryRef(path.dentry))
    modifies k`dentries, path
    ensures path.dentry == k.parent[old(path.dentry)]
    ensures k.Held() == Add(b, DentryRef(path.dentry))
  {
    hide Add;
    var p := k.parent[path.dentry];
    k.Dget(p);
    AddAC(b, DentryRef(path.dentry), DentryRef(p));
    k.Dput(path.dentry, Add(b, DentryRef(p)));
    path.dentry := p;
  }

  /** exp_parent and rqst_exp_parent: walk up until something is found or there is no way up. The path is as before,
      every dentry's count is as before, and the export found is held for the caller. */
  method ExpParent(k: Kernel, table: map<DentryId, Lookup>, path: Path, ghost depth: map<DentryId, nat>, ghost b: Refs)
    returns (r: Lookup)
    requires Tree(k, depth) && path.dentry in k.world.fids && k.Held() == Add(b, DentryRef(path.dentry))
    modifies k`dentries, k`exports, path
    ensures path.dentry == old(path.dentry)
    ensures k.Held() == Add(Add(b, DentryRef(path.dentry)), FoundRef(r))
    ensures exists n :: NearestIs(k, table, path.dentry, n, r)
  {
    hide Add, Ancestor;
    var saved := path.dentry;
    assert Up(k, depth, saved);
    AncestorSelf(k, saved);
    ghost var start := Add(b, DentryRef(saved));
    ghost var n := 0;
    k.Dget(saved);
    r := GetByName(k, table, path.dentry);
    while r.NotExported? && !IsRoot(k, path.dentry)
      invariant path.dentry in k.world.fids && path.dentry in depth && path.dentry == Ancestor(k, saved, n)
      invariant r == At(table, path.dentry)
      invariant k.Held() == Add(Add(start, DentryRef(path.dentry)), FoundRef(r))
      invariant forall m :: 0 <= m < n ==>
        At(table, Ancestor(k, saved, m)).NotExported? && !IsRoot(k, Ancestor(k, saved, m))
      decreases depth[path.dentry]
    {
      assert Up(k, depth, path.dentry);
      AncestorStep(k, saved, n);
      AddNone(Add(start, DentryRef(path.dentry)));
      Climb(k, path, start);
      n := n + 1;
      r := GetByName(k, table, path.dentry);
    }
    AddAC(start, DentryRef(path.dentry), FoundRef(r));
    k.Dput(path.dentry, Add(start, FoundRef(r)));
    path.dentry := saved;
    assert NearestIs(k, table, saved, n, r);
  }

  /** `handle` is that of `d` in the nearest export above it. */
  ghost predicate RootHandleIs(k: Kernel, table: map<DentryId, Lookup>, d: DentryId, n: nat, x: ExportId,
                               handle: seq<Byte>) {
    && NearestIs(k, table, d, n, Exported(x))
    && x in k.world.exports && GoodDev(k.world.exports[x].dev) && d in k.world.fids
    && handle == HandleOf(k.world, FSID_DEV, x, d)
  }

  /** The export found for a directory is one whose root it is. */
  ghost predicate RootsFound(k: Kernel, table: map<DentryId, Lookup>) {
    forall c :: c in table && table[c].Exported? ==>
      table[c].x in k.world.exports && k.world.exports[table[c].x].root == c
  }

  /** The way up stays on the device. */
  lemma {:induction false} AncestorDevice(k: Kernel, d: DentryId, n: nat)
    requires k.Valid() && d in k.world.fids
    ensures Ancestor(k, d, n) in k.world.fids && k.world.device[Ancestor(k, d, n)] == k.world.device[d]
    decreases n
  {
    hide RootsDistinct, FidsDistinct, FidsGood, ExportsGood;
    if n == 0 {
      AncestorSelf(k, d);
    } else {
      assert d in k.parent && k.parent[d] in k.world.fids;
      AncestorDevice(k, k.parent[d], n - 1);
    }
  }

  /** So the export above a file is on the file's device. */
  lemma NearestDevice(k: Kernel, table: map<DentryId, Lookup>, d: DentryId, n: nat, x: ExportId)
    requires k.Valid() && RootsFound(k, table) && d in k.world.fids && NearestIs(k, table, d, n, Exported(x))
    ensures x in k.world.exports && k.world.exports[x].dev == k.world.device[d]
  {
    hide RootsDistinct, FidsDistinct, FidsGood, Ancestor;
    AncestorDevice(k, d, n);
  }

  /** The handle of `d` in export `x` has at most `maxsize` bytes. */
  predicate Short(k: Kernel, x: ExportId, d: DentryId, maxsize: nat) {
    && x in k.world.exports && d in k.world.fids
    && (d == k.world.exports[x].root || 12 + |k.world.fids[d].bytes| <= maxsize)
  }

  lemma NearestUnique(k: Kernel, table: map<DentryId, Lookup>, d: DentryId, n: nat, r: Lookup, m: nat, q: Lookup)
    requires NearestIs(k, table, d, n, r) && NearestIs(k, table, d, m, q)
    ensures n == m && r == q
  {
    hide Ancestor;
  }

  /** A handle made, copied out and released again. */
  method ComposeRoot(k: Kernel, x: ExportId, d: DentryId, maxsize: nat, ghost b: Refs)
    returns (handle: Option<seq<Byte>>)
    requires k.Valid() && k.Held() == b && d in k.positive && 12 <= maxsize <= NFS3_FHSIZE
    requires x in k.world.exports && d in k.world.fids && k.world.device[d] == k.world.exports[x].dev
    modifies k`dentries, k`exports, k`writers
    ensures k.Held() == b
    ensures handle.Some? <==> Short(k, x, d, maxsize)
    ensures handle.Some? ==>
      GoodDev(k.world.exports[x].dev) && |handle.value| <= maxsize && handle.value == HandleOf(k.world, FSID_DEV, x, d)
  {
    hide WellFormed, Add, HeldBy, HandleOf;
    var fh := new SvcFh.Init(maxsize);
    fh.EmptyHolds(k);
    AddNone(b);
    handle := None;
    var status := fh.Compose(k, x, d, b);
    if status == Ok {
      handle := Some(fh.Wire());
    }
    fh.Put(k, b);
  }

  /** exp_rootfh: the handle of a path. Whatever happens, nothing stays held. */
  method RootFh(k: Kernel, table: map<DentryId, Lookup>, d: DentryId, maxsize: nat, ghost depth: map<DentryId, nat>)
    returns (handle: Option<seq<Byte>>)
    requires k.Valid() && Tree(k, depth) && d in k.world.fids && d in k.positive && 12 <= maxsize <= NFS3_FHSIZE
    requires RootsFound(k, table)
    modifies k`dentries, k`exports, k`writers
    ensures k.Held() == old(k.Held())
    ensures handle.Some? ==> |handle.value| <= maxsize && exists n, x :: RootHandleIs(k, table, d, n, x, handle.value)
    ensures forall n, r :: NearestIs(k, table, d, n, r) ==> (handle.Some? <==> r.Exported? && Short(k, r.x, d, maxsize))
  {
    hide WellFormed, Add, HeldBy, HandleOf, NearestIs, Tree, RootsFound;
    ghost var b := k.Held();
    k.Dget(d);
    var path := new Path(d);
    var r := ExpParent(k, table, path, depth, b);
    ghost var n :| NearestIs(k, table, d, n, r);
    forall m, q | NearestIs(k, table, d, m, q) ensures q == r {
      NearestUnique(k, table, d, n, r, m, q);
    }
    handle := None;
    if r.Exported? {
      NearestDevice(k, table, d, n, r.x);
      handle := ComposeRoot(k, r.x, d, maxsize, Add(Add(b, DentryRef(d)), ExportRef(r.x)));
      if handle.Some? {
        assert RootHandleIs(k, table, d, n, r.x, handle.value);
      }
      k.ExpPut(r.x, Add(b, DentryRef(d)));
    } else {
      AddNone(Add(b, DentryRef(d)));
    }
    k.Dput(d, b);
  }
}
