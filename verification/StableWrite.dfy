/**
 WRITE and stable storage. A file has bytes that reads see and bytes that a crash leaves; the kernel may copy
 the former to the latter at any time, and must do so when a range is synced. What a client was told is
 committed has to be there after a crash for as long as nobody writes over it.
 */
module StableWrite {
  import opened Xdr

  /** The stability that promises nothing; DATA_SYNC and FILE_SYNC are 1 and 2. */
  const NFS_UNSTABLE: Word := 0

  const LLONG_MAX: int := 0x7fff_ffff_ffff_ffff

  /** `cache` is what reads see, `disk` what a crash leaves. */
  datatype FileState = FileState(cache: map<nat, Byte>, disk: map<nat, Byte>)

  /** The byte of `bs` that belongs at file position `k` when `bs` starts at `offset`. */
  function Placed(bs: seq<Byte>, offset: nat, k: nat): Byte
    requires offset <= k < offset + |bs|
  {
    bs[k - offset]
  }

  /** `bs` written over `m` from `offset` on. */
  function Overlay(m: map<nat, Byte>, offset: nat, bs: seq<Byte>): map<nat, Byte> {
    m + map k: nat | offset <= k < offset + |bs| :: Placed(bs, offset, k)
  }

  lemma OverlayAt(m: map<nat, Byte>, offset: nat, bs: seq<Byte>, k: nat)
    ensures k in Overlay(m, offset, bs) <==> k in m || offset <= k < offset + |bs|
    ensures offset <= k < offset + |bs| ==> Overlay(m, offset, bs)[k] == bs[k - offset]
    ensures !(offset <= k < offset + |bs|) && k in m ==> Overlay(m, offset, bs)[k] == m[k]
  {
  }

  /** Some bytes of the cache have gone to disk, none of the others has changed. */
  ghost predicate Flushed(cache: map<nat, Byte>, disk: map<nat, Byte>, disk': map<nat, Byte>) {
    && (forall k :: k in disk ==> k in disk')
    && (forall k :: k in disk' ==> (k in disk && disk'[k] == disk[k]) || (k in cache && disk'[k] == cache[k]))
  }

  /** The bytes from `lo` to `hi` that reads see are on disk. */
  ghost predicate Synced(s: FileState, lo: nat, hi: int) {
    forall k :: k in s.cache && lo <= k <= hi ==> k in s.disk && s.disk[k] == s.cache[k]
  }

  /** What happened to a file: bytes were written over it, and maybe the client was told they are committed; the machine
      crashed; or the kernel wrote something back. */
  datatype Event = Wrote(offset: nat, bytes: seq<Byte>, committed: bool) | Crashed | WroteBack

  /** One event on an export that is or is not synchronous. */
  ghost predicate Step(sync: bool, s: FileState, e: Event, s': FileState) {
    match e
    case Wrote(o, bs, committed) =>
      && s'.cache == Overlay(s.cache, o, bs)
      && Flushed(s'.cache, s.disk, s'.disk)
      && (sync && committed ==> Synced(s', o, o + |bs| - 1))
    case Crashed => s'.cache == s.disk && s'.disk == s.disk
    case WroteBack => s'.cache == s.cache && Flushed(s.cache, s.disk, s'.disk)
  }

  // ----- nfsd_vfs_write -----

  /** What the kernel does with one WRITE: how much it writes (negative for an error), which bytes it happens to write
      back meanwhile, and whether a sync fails after having written back some more. */
  datatype Kernel = Kernel(written: int, early: set<nat>, syncFails: bool, late: set<nat>)

  /** `disk` after the bytes of `cache` at the positions `some` were written back. */
  function WrittenBack(cache: map<nat, Byte>, disk: map<nat, Byte>, some: set<nat>): map<nat, Byte> {
    disk + map k | k in some && k in cache :: cache[k]
  }

  lemma NothingWrittenBack(cache: map<nat, Byte>, disk: map<nat, Byte>)
    ensures WrittenBack(cache, disk, {}) == disk
  {
  }

  lemma WrittenBackFlushes(cache: map<nat, Byte>, disk: map<nat, Byte>, some: set<nat>)
    ensures Flushed(cache, disk, WrittenBack(cache, disk, some))
  {
  }

  lemma OverlayNothing(m: map<nat, Byte>, offset: nat)
    ensures Overlay(m, offset, []) == m
  {
  }

  lemma FlushedTwice(cache: map<nat, Byte>, d0: map<nat, Byte>, d1: map<nat, Byte>, d2: map<nat, Byte>)
    requires Flushed(cache, d0, d1) && Flushed(cache, d1, d2)
    ensures Flushed(cache, d0, d2)
  {
  }

  class File {
    var cache: map<nat, Byte>
    var disk: map<nat, Byte>

    ghost function State(): FileState
      reads this
    {
      FileState(cache, disk)
    }

    /** vfs_writev: fails before it has written anything, or writes a beginning of the data. */
    method VfsWrite(offset: nat, data: seq<Byte>, k: Kernel) returns (n: int)
      modifies this
      ensures n == if k.written <= |data| then k.written else |data|
      ensures cache == if n < 0 then old(cache) else Overlay(old(cache), offset, data[..n])
      ensures disk == WrittenBack(cache, old(disk), k.early)
    {
      n := if k.written <= |data| then k.written else |data|;
      if n >= 0 {
        cache := Overlay(cache, offset, data[..n]);
      }
      disk := WrittenBack(cache, disk, k.early);
    }

    /** vfs_fsync_range: when it succeeds, the bytes of the range are on disk. */
    method FsyncRange(lo: nat, hi: int, k: Kernel) returns (err: bool)
      modifies `disk
      ensures err == k.syncFails
      ensures disk == WrittenBack(cache, old(disk), if err then k.late else set p | p in cache && lo <= p <= hi)
      ensures Flushed(cache, old(disk), disk)
      ensures !err ==> Synced(State(), lo, hi)
    {
      err := k.syncFails;
      var more := if err then k.late else set p | p in cache && lo <= p <= hi;
      disk := WrittenBack(cache, disk, more);
    }

    /** nfsd_vfs_write: write, then sync what was written if the request is stable and the export synchronous. `e` is
        what happened to the file. */
    method VfsWriteStable(sync: bool, offset: nat, data: seq<Byte>, asked: Word, k: Kernel)
      returns (ok: bool, count: nat, ghost e: Event)
      modifies this
      ensures count <= |data|
      ensures e == Wrote(offset, data[..count], ok && asked != NFS_UNSTABLE)
      ensures Step(sync, old(State()), e, State())
      ensures ok <==> k.written >= 0 && (sync && asked != NFS_UNSTABLE ==> !k.syncFails)
      ensures ok ==> count == if k.written <= |data| then k.written else |data|
      ensures !sync || asked == NFS_UNSTABLE ==> disk == WrittenBack(cache, old(disk), k.early)
      ensures ok && sync && asked != NFS_UNSTABLE && count == 0 ==> Synced(State(), offset, 0x7fff_ffff_ffff_ffff)
      ensures ok && sync && asked != NFS_UNSTABLE && count > 0 ==>
        disk == WrittenBack(cache, WrittenBack(cache, old(disk), k.early),
                            set p | p in cache && offset <= p < offset + count)
    {
      hide Overlay, WrittenBack;
      var stable := if sync then asked else NFS_UNSTABLE;
      var n := VfsWrite(offset, data, k);
      WrittenBackFlushes(cache, old(disk), k.early);
      if n < 0 {
        OverlayNothing(old(cache), offset);
        return false, 0, Wrote(offset, data[..0], false);
      }
      ok, count := true, n;
      if stable != NFS_UNSTABLE {
        var end: int := if count > 0 then offset + count - 1 else LLONG_MAX;
        ghost var before := disk;
        var err := FsyncRange(offset, end, k);
        assert count > 0 ==>
          (set p | p in cache && offset <= p <= end) == (set p | p in cache && offset <= p < offset + count);
        FlushedTwice(cache, old(disk), before, disk);
        ok := !err;
      }
      e := Wrote(offset, data[..count], ok && asked != NFS_UNSTABLE);
    }

    /** nfsd3_proc_write, with the number of pieces the data came in and whether the file could be opened. The reply
        repeats the stability that was asked for. */
    method Write(sync: bool, offset: nat, data: seq<Byte>, asked: Word, pieces: nat, opens: bool, k: Kernel)
      returns (ok: bool, count: nat, committed: Word, ghost e: Event)
      modifies this
      ensures e.Wrote? && e.offset == offset && Step(sync, old(State()), e, State())
      ensures e.committed <==> ok && committed != 0
      ensures ok && sync && asked != 0 && count == 0 ==> Synced(State(), offset, 0x7fff_ffff_ffff_ffff)
      ensures ok ==> committed == asked && count <= |data| && e.bytes == data[..count]
      ensures pieces == 0 || !opens ==> !ok && State() == old(State())
      ensures pieces > 0 && opens ==>
          (ok <==> k.written >= 0 && (sync && asked != NFS_UNSTABLE ==> !k.syncFails))
      ensures ok ==> count == if k.written <= |data| then k.written else |data|
      ensures !sync && pieces > 0 && opens ==> disk == WrittenBack(cache, old(disk), k.early)
    {
      hide Overlay, WrittenBack;
      committed, count := asked, |data|;
      if pieces == 0 || !opens {
        OverlayNothing(cache, offset);
        return false, count, committed, Wrote(offset, [], false);
      }
      ok, count, e := VfsWriteStable(sync, offset, data, asked, k);
    }

    /** The power goes; what reads see afterwards is what was on disk. */
    method Crash()
      modifies `cache
      ensures Step(true, old(State()), Crashed, State())
    {
      cache := disk;
    }

    /** On an asynchronous export a FILE_SYNC write is acknowledged as FILE_SYNC, and a crash loses it. */
    method LoseCommittedByte(b: Byte) returns (ok: bool, count: nat, committed: Word)
      requires cache == map[] && disk == map[]
      modifies this
      ensures ok && count == 1 && committed == 2
      ensures 0 !in cache
    {
      hide WrittenBack, Overlay;
      ghost var e;
      ok, count, committed, e := Write(false, 0, [b], 2, 1, true, Kernel(1, {}, false, {}));
      NothingWrittenBack(cache, old(disk));
      Crash();
    }
  }

  // ----- what the client may rely on -----

  predicate Covers(e: Event, k: nat) {
    e.Wrote? && e.offset <= k < e.offset + |e.bytes|
  }

  /** The promises after one more event. */
  function Revised(before: map<nat, Byte>, e: Event): map<nat, Byte> {
    if !e.Wrote? then before
    else
      var rest := map k | k in before && !Covers(e, k) :: before[k];
      if e.committed then Overlay(rest, e.offset, e.bytes) else rest
  }

  /** The bytes that were committed and not written over since. */
  function Promised(events: seq<Event>): map<nat, Byte> {
    if events == [] then map[]
    else
      Revised(Promised(events[..|events| - 1]), events[|events| - 1])
  }

  /** The last write over byte `k` was event `i`, and it was committed. */
  ghost predicate LastCommitted(events: seq<Event>, k: nat, i: nat) {
    && i < |events| && Covers(events[i], k) && events[i].committed
    && (forall j :: i < j < |events| ==> !Covers(events[j], k))
  }

  /** A byte is promised exactly when the last write over it was committed, and then with that write's value. */
  lemma {:induction false} PromisedMeans(events: seq<Event>, k: nat)
    ensures k in Promised(events) <==> exists i: nat :: LastCommitted(events, k, i)
    ensures forall i: nat :: LastCommitted(events, k, i) ==>
        k in Promised(events) && Promised(events)[k] == Placed(events[i].bytes, events[i].offset, k)
  {
    if events == [] {
    } else {
      var n := |events| - 1;
      var front, e := events[..n], events[n];
      PromisedMeans(front, k);
      if Covers(e, k) {
        assert e.committed ==> LastCommitted(events, k, n);
      } else {
        forall i | LastCommitted(events, k, i) ensures LastCommitted(front, k, i) {
        }
        forall i | LastCommitted(front, k, i) ensures LastCommitted(events, k, i) {
        }
      }
    }
  }

  /** Reads see the promised bytes and a crash would leave them. */
  ghost predicate Kept(s: FileState, promised: map<nat, Byte>) {
    forall k :: k in promised ==>
      k in s.cache && s.cache[k] == promised[k] && k in s.disk && s.disk[k] == promised[k]
  }

  lemma RevisedAt(before: map<nat, Byte>, e: Event, k: nat)
    requires k in Revised(before, e)
    ensures Covers(e, k) ==> e.committed && Revised(before, e)[k] == Placed(e.bytes, e.offset, k)
    ensures !Covers(e, k) ==> k in before && Revised(before, e)[k] == before[k]
  {
  }

  lemma StepKeeps(s: FileState, before: map<nat, Byte>, e: Event, s': FileState)
    requires Kept(s, before) && Step(true, s, e, s')
    ensures Kept(s', Revised(before, e))
  {
    hide Revised, Overlay;
    forall k | k in Revised(before, e)
      ensures k in s'.cache && s'.cache[k] == Revised(before, e)[k]
      ensures k in s'.disk && s'.disk[k] == Revised(before, e)[k]
    {
      RevisedAt(before, e, k);
      if e.Wrote? {
        OverlayAt(s.cache, e.offset, e.bytes, k);
      }
    }
  }

  /** A run: the file goes from state to state by the events. */
  ghost predicate Run(sync: bool, states: seq<FileState>, events: seq<Event>) {
    |states| == |events| + 1 && forall i :: 0 <= i < |events| ==> Step(sync, states[i], events[i], states[i + 1])
  }

  /** On a synchronous export, through any run of writes, write-backs and crashes, every byte acknowledged as committed
      reads back as written until it is written over, short writes included. */
  lemma {:induction false} CommittedBytesSurvive(states: seq<FileState>, events: seq<Event>)
    requires Run(true, states, events)
    ensures Kept(states[|events|], Promised(events))
    decreases |events|
  {
    if events == [] {
    } else {
      var n := |events| - 1;
      CommittedBytesSurvive(states[..n + 1], events[..n]);
      StepKeeps(states[n], Promised(events[..n]), events[n], states[n + 1]);
    }
  }

  /** On an asynchronous export the reply still says committed, and a crash may lose the byte. */
  lemma AsyncExportLoses(b: Byte)
    ensures exists states, events :: Run(false, states, events) && !Kept(states[|events|], Promised(events))
  {
    var s0 := FileState(map[], map[]);
    var s1 := FileState(map[0 := b], map[]);
    var events := [Wrote(0, [b], true), Crashed];
    var states := [s0, s1, s0];
    assert Step(false, s0, events[0], s1) by { assert Overlay(s0.cache, 0, [b]) == s1.cache; }
    assert Step(false, s1, events[1], s0);
    assert Run(false, states, events);
    assert LastCommitted(events, 0, 0);
    PromisedMeans(events, 0);
  }

  /** So the promise of a committed write holds in every run exactly on synchronous exports. */
  lemma DurableIffSync(sync: bool)
    ensures sync <==> forall states, events :: Run(sync, states, events) ==> Kept(states[|events|], Promised(events))
  {
    if sync {
      forall states, events | Run(sync, states, events) ensures Kept(states[|events|], Promised(events)) {
        CommittedBytesSurvive(states, events);
      }
    } else {
      AsyncExportLoses(0);
    }
  }
}
