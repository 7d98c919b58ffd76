/**
 READDIR and READDIRPLUS from the request to the words of the reply: entries go from the
 file system through the dirent page into the reply pages, as long as the client's count
 has room for them.
 */
module Readdir {
  import opened Options
  import opened Paging
  import opened Xdr
  import opened Attr
  import opened DirWire
  import opened PageMemory
  import opened DirEncoder
  import opened DirentBuffer
  import opened Listing

  function RecordOf(d: Directory, k: nat): Dirent
    requires k < |d.ents| < |d.pos|
  {
    Dirent(d.ents[k].ino, d.pos[k], d.ents[k].dtype, d.ents[k].name)
  }

  /** The records of entries `i` to `j` (exclusive). */
  function Records(d: Directory, i: nat, j: nat): (r: seq<Dirent>)
    requires i <= j <= |d.ents| < |d.pos|
    ensures |r| == j - i
  {
    if i == j then [] else Records(d, i, j - 1) + [RecordOf(d, j - 1)]
  }

  lemma {:induction false} RecordsAt(d: Directory, i: nat, j: nat, k: nat)
    requires i <= k < j <= |d.ents| < |d.pos|
    ensures Records(d, i, j)[k - i] == RecordOf(d, k)
    decreases j
  {
    if k == j - 1 {
    } else {
      RecordsAt(d, i, j - 1, k);
    }
  }

  /** An open directory, on a file system that does or does not report errors. */
  class DirFile {
    const dir: Directory
    const reliable: bool
    /** The entry at the file position. */
    var at: nat

    ghost predicate Valid()
      reads this
    {
      WellFormed(dir) && at <= |dir.ents|
    }

    constructor (dir: Directory, reliable: bool)
      requires WellFormed(dir)
      ensures Valid() && this.dir == dir && this.reliable == reliable && at == 0
    {
      this.dir, this.reliable, at := dir, reliable, 0;
    }

    /** iterate_dir: hand entries to the filler until it refuses one or there are no more. A file system may also
        return early, but not before it has handed out something, or fail at any point; and it may or may not take the
        filler's refusal for a failure. */
    method Iterate(buf: ReaddirData) returns (failed: bool)
      requires Valid() && buf.Valid() && buf.records == [] && !buf.full
      modifies this, buf, buf.dirent
      ensures Valid() && buf.Valid() && old(at) <= at
      ensures buf.records == Records(dir, old(at), at)
      ensures !failed && at == old(at) ==> at == |dir.ents|
      ensures buf.full ==> old(at) < at < |dir.ents| && Size(buf.records) + RecLen(|dir.ents[at].name|) > PAGE_SIZE
      ensures reliable && !buf.full ==> !failed
    {
      hide Distinct, Size, Packed;
      failed := false;
      while at < |dir.ents|
        invariant Valid() && buf.Valid() && old(at) <= at && !buf.full && !failed
        invariant buf.records == Records(dir, old(at), at)
        decreases |dir.ents| - at
      {
        failed := *;
        failed := failed && !reliable;
        if failed {
          break;
        }
        assert at == old(at) ==> Size(buf.records) == 0 by { SizeNone(); }
        var ok := buf.Filldir(RecordOf(dir, at));
        if !ok {
          failed := *;
          break;
        }
        at := at + 1;
        var early: bool := *;
        if early {
          break;
        }
      }
    }
  }

  /** The entries in the reply are those from `i` to `j`, the last one's cookie aside. */
  ghost predicate Lists(es: seq<Entry>, d: Directory, plus: bool, i: nat, j: nat) {
    i <= j <= |d.ents| < |d.pos| && Patched(es, d.pos[j]) == Entries(d, plus, i, j)
  }

  lemma CookieOfEntry(d: Directory, plus: bool, j: nat)
    requires j < |d.ents| < |d.pos|
    ensures EntryOf(d, plus, j).cookie == d.pos[j + 1]
  {
  }

  lemma ListsNext(es: seq<Entry>, d: Directory, plus: bool, i: nat, j: nat)
    requires Lists(es, d, plus, i, j) && j < |d.ents|
    ensures Lists(Patched(es, d.pos[j]) + [EntryOf(d, plus, j).(cookie := NFS_OFFSET_MAX)], d, plus, i, j + 1)
  {
    hide EntryOf;
    var e := EntryOf(d, plus, j).(cookie := NFS_OFFSET_MAX);
    var es' := Entries(d, plus, i, j) + [e];
    assert es'[..|es'| - 1] == Entries(d, plus, i, j);
    assert Patched(es', d.pos[j + 1]) == Entries(d, plus, i, j) + [e.(cookie := d.pos[j + 1])];
    assert e.(cookie := d.pos[j + 1]) == EntryOf(d, plus, j) by { CookieOfEntry(d, plus, j); }
  }

  /** What one more accepted entry does to the number of entries still to come. */
  lemma TakenNext(d: Directory, plus: bool, j: nat, budget: int)
    requires j < |d.ents| < |d.pos|
    ensures budget >= Estimate(Truncated(d.ents[j].name), plus) ==>
      Taken(d, plus, j, budget) ==
        1 + Taken(d, plus, j + 1, budget - |EntryWords(EntryOf(d, plus, j).(cookie := NFS_OFFSET_MAX))|)
    ensures budget < Estimate(Truncated(d.ents[j].name), plus) ==> Taken(d, plus, j, budget) == 0
  {
    hide EntryWords, Estimate, BaggageWords;
    assert |EntryWords(EntryOf(d, plus, j).(cookie := NFS_OFFSET_MAX))| == |EntryWords(EntryOf(d, plus, j))|;
  }

  /** Entry `k` of a reply that starts at entry `i` leaves the cursor outside the pages. */
  ghost predicate FallsAt(pages: seq<nat>, d: Directory, plus: bool, i: nat, k: nat)
    requires i <= k < |d.ents| < |d.pos|
  {
    FallsOff(pages, |Flat(Entries(d, plus, i, k))|, EntryOf(d, plus, k))
  }

  /** None of the entries from `i` to `j` does. */
  ghost predicate Steady(pages: seq<nat>, d: Directory, plus: bool, i: nat, j: nat)
    requires i <= j <= |d.ents| < |d.pos|
  {
    forall k :: i <= k < j ==> !FallsAt(pages, d, plus, i, k)
  }

  /** None but perhaps the last of them does. */
  ghost predicate SteadyButLast(pages: seq<nat>, d: Directory, plus: bool, i: nat, j: nat)
    requires i <= j <= |d.ents| < |d.pos|
  {
    forall k :: i <= k < j - 1 ==> !FallsAt(pages, d, plus, i, k)
  }

  /** The last of them does. */
  ghost predicate Fallen(pages: seq<nat>, d: Directory, plus: bool, i: nat, j: nat)
    requires i <= j <= |d.ents| < |d.pos|
  {
    i < j && FallsAt(pages, d, plus, i, j - 1)
  }

  /** The address behind the page in which the last entry begins. */
  ghost function Behind(pages: seq<nat>, d: Directory, plus: bool, i: nat, j: nat): nat
    requires i <= j <= |d.ents| < |d.pos| && Fallen(pages, d, plus, i, j)
  {
    pages[|Flat(Entries(d, plus, i, j - 1))| / PAGE_WORDS] + PAGE_WORDS
  }

  /** The cursor is where the entries end, or behind the page of the last one if that fell off. */
  ghost predicate Placed(res: ReaddirRes, d: Directory, plus: bool, i: nat, j: nat)
    requires i <= j <= |d.ents| < |d.pos|
    reads res, res.mem
  {
    && res.Core()
    && if Fallen(res.pages, d, plus, i, j) then res.buffer == Behind(res.pages, d, plus, i, j) else res.Valid()
  }

  /** Between entries: `res` lists entries `i` to `j` and goes on from `j`, unless the last one fell off and there is no
      room for more. */
  ghost predicate Going(res: ReaddirRes, d: Directory, plus: bool, i: nat, j: nat)
    reads res, res.mem
  {
    && res.Pending() && Lists(res.entries, d, plus, i, j) && Placed(res, d, plus, i, j)
    && j - i + Taken(d, plus, j, res.buflen) == Taken(d, plus, i, res.limit)
    && (Fallen(res.pages, d, plus, i, j) ==> Taken(d, plus, j, res.buflen) == 0)
  }

  /** Stopped: `res` lists entries `i` to `j`, and the next one does not fit. */
  ghost predicate Stopped(res: ReaddirRes, d: Directory, plus: bool, i: nat, j: nat)
    reads res, res.mem
  {
    && res.err == TooSmall
    && Lists(res.entries, d, plus, i, j) && Placed(res, d, plus, i, j)
    && j - i == Taken(d, plus, i, res.limit) && j < |d.ents| && res.offset1 == None
    && (res.entries != [] ==> res.entries[|res.entries| - 1].cookie == d.pos[j])
  }

  lemma SteadyAll(pages: seq<nat>, d: Directory, plus: bool, i: nat, j: nat)
    requires i <= j <= |d.ents| < |d.pos| && Steady(pages, d, plus, i, j)
    ensures SteadyButLast(pages, d, plus, i, j) && !Fallen(pages, d, plus, i, j)
  {
    hide FallsAt;
  }

  /** Handles of at most 60 bytes are enough for that. */
  lemma SmallHandlesSteady(pages: seq<nat>, d: Directory, plus: bool, i: nat, j: nat)
    requires i <= j <= |d.ents| < |d.pos|
    requires forall k :: i <= k < j ==> SmallHandle(BaggageOf(d.ents[k], plus))
    ensures Steady(pages, d, plus, i, j)
  {
    hide Flat, Entries;
  }

  lemma ListsLength(es: seq<Entry>, d: Directory, plus: bool, i: nat, j: nat)
    requires Lists(es, d, plus, i, j)
    ensures |Flat(es)| == |Flat(Entries(d, plus, i, j))|
    ensures es != [] ==> i < j && CookiePos(es) == CookiePos(Entries(d, plus, i, j))
    ensures i < j ==> es != []
  {
    hide Flat, Entries, CookiePos;
    if es != [] {
      PatchedFlat(es, d.pos[j]);
    }
  }

  lemma AnyCookie(pages: seq<nat>, n: nat, e: Entry)
    ensures FallsOff(pages, n, e) <==> FallsOff(pages, n, e.(cookie := NFS_OFFSET_MAX))
  {
  }

  /** One buffered entry goes to the encoder. */
  method Emit(res: ReaddirRes, de: Dirent, d: Directory, plus: bool, j: nat, ghost i: nat) returns (accepted: bool)
    requires Going(res, d, plus, i, j) && j < |d.ents| && de == RecordOf(d, j) && WellFormed(d)
    modifies res.mem, res`buffer, res`buflen, res`offset, res`offset1, res`err, res`entries
    ensures KeepsOutside(res.pages, old(res.mem[..]), res.mem[..])
    ensures accepted <==> j < i + Taken(d, plus, i, res.limit)
    ensures accepted ==> res.err == Ok && (res.Valid() <==> !FallsAt(res.pages, d, plus, i, j))
    ensures accepted ==> Placed(res, d, plus, i, j + 1) && res.Pending() && Lists(res.entries, d, plus, i, j + 1)
    ensures accepted && (!FallsAt(res.pages, d, plus, i, j) || j + 1 == i + Taken(d, plus, i, res.limit)) ==>
      Going(res, d, plus, i, j + 1)
    ensures !accepted ==> Stopped(res, d, plus, i, j)
  {
    hide EntryWords, Estimate, Taken, Entries, Flat, Distinct, Holds, CookiePointers, Addr, FallsOff, CookiePos,
      Straddles, KeepsOutside;
    TakenNext(d, plus, j, res.buflen);
    ListsNext(res.entries, d, plus, i, j);
    ListsLength(res.entries, d, plus, i, j);
    var baggage := BaggageOf(d.ents[j], plus);
    AnyCookie(res.pages, |Flat(res.entries)|, EntryOf(d, plus, j));
    accepted := res.EncodeEntry(de.name, de.offset, de.ino, baggage);
  }

  /** The same when no entry of the reply but the last leaves the pages. */
  method EmitSteady(res: ReaddirRes, de: Dirent, d: Directory, plus: bool, j: nat, ghost i: nat)
    returns (accepted: bool)
    requires Going(res, d, plus, i, j) && j < |d.ents| && de == RecordOf(d, j) && WellFormed(d)
    requires i <= |d.ents| && SteadyButLast(res.pages, d, plus, i, i + Taken(d, plus, i, res.limit))
    modifies res.mem, res`buffer, res`buflen, res`offset, res`offset1, res`err, res`entries
    ensures KeepsOutside(res.pages, old(res.mem[..]), res.mem[..])
    ensures accepted ==> Going(res, d, plus, i, j + 1) && res.err == Ok
    ensures !accepted ==> Stopped(res, d, plus, i, j)
  {
    hide Stopped, KeepsOutside, Taken, FallsAt, WellFormed, Holds, Flat, CookiePointers, Patched, Entries;
    accepted := Emit(res, de, d, plus, j, i);
  }

  /** The inner loop of nfsd_buffered_readdir: the records in the page, which are entries `b` to `e`, go to the encoder
      one by one. Something is left in the page exactly when the encoder refused an entry. */
  method Walk(buf: ReaddirData, res: ReaddirRes, d: Directory, plus: bool, b: nat, ghost e: nat, ghost i: nat)
    returns (size: nat, offset: U64, ghost j: nat)
    requires buf.Valid() && b < e <= |d.ents| < |d.pos| && buf.records == Records(d, b, e)
    requires buf.dirent as object != res.mem
    requires Going(res, d, plus, i, b) && WellFormed(d)
    requires i <= |d.ents| && SteadyButLast(res.pages, d, plus, i, i + Taken(d, plus, i, res.limit))
    modifies res.mem, res`buffer, res`buflen, res`offset, res`offset1, res`err, res`entries
    ensures KeepsOutside(res.pages, old(res.mem[..]), res.mem[..])
    ensures size == 0 ==> j == e && Going(res, d, plus, i, j)
    ensures size > 0 ==> b <= j < e && Stopped(res, d, plus, i, j) && offset == d.pos[j]
  {
    hide Size, Packed, Going, Stopped, WellFormed, Records, KeepsOutside, Taken, SteadyButLast;
    size, offset, j := buf.used, 0, b;
    KeepsOutsideRefl(res.pages, res.mem[..]);
    var p, k := 0, 0;
    SizeNone();
    assert buf.records[..0] == [];
    while size > 0
      invariant k <= e - b && j == b + k && p == Size(buf.records[..k]) && size == buf.used - p
      invariant Going(res, d, plus, i, j)
      invariant KeepsOutside(res.pages, old(res.mem[..]), res.mem[..])
      invariant buf.Valid()
      decreases size
    {
      ghost var m := res.mem[..];
      SizeAtEnd(buf.records, k);
      RecordsAt(d, b, e, b + k);
      var de := buf.Read(p, k);
      offset := de.offset;
      var accepted := EmitSteady(res, de, d, plus, b + k, i);
      KeepsOutsideTrans(res.pages, old(res.mem[..]), m, res.mem[..]);
      if !accepted {
        break;
      }
      if res.err != Ok {
        break;
      }
      SizeStep(buf.records, k);
      var reclen := RecLen(|de.name|);
      size, p, k, j := size - reclen, p + reclen, k + 1, j + 1;
    }
    SizeAtEnd(buf.records, k);
  }

  /** An entry was refused after one whose cookie straddles two pages. */
  ghost predicate Unsettled(d: Directory, plus: bool, i: nat, j: nat)
    requires i <= j <= |d.ents| < |d.pos|
  {
    i < j < |d.ents| && Straddles(CookiePos(Entries(d, plus, i, j)))
  }

  /** After reading: `res` lists entries `i` to `j`, as many as have room; it says Eof exactly if those are all. */
  ghost predicate Finished(res: ReaddirRes, d: Directory, plus: bool, i: nat, j: nat)
    reads res, res.mem
  {
    && Lists(res.entries, d, plus, i, j) && Placed(res, d, plus, i, j)
    && j - i == Taken(d, plus, i, res.limit)
    && res.err == (if j == |d.ents| then Eof else TooSmall)
    && (res.Pending() <==> !Unsettled(d, plus, i, j))
    && (!res.Pending() ==> res.entries[|res.entries| - 1].cookie == d.pos[j])
  }

  /** Finished with everything that has room, and `offset` is the position after it. */
  ghost predicate Ended(res: ReaddirRes, d: Directory, plus: bool, i: nat, offset: U64)
    reads res, res.mem
  {
    && i <= |d.ents| < |d.pos|
    && var j := i + Taken(d, plus, i, res.limit);
       j < |d.pos| && offset == d.pos[j] && Finished(res, d, plus, i, j)
  }

  lemma GoingToEnd(res: ReaddirRes, d: Directory, plus: bool, i: nat)
    requires Going(res, d, plus, i, |d.ents|) && res.err == Eof
    ensures Finished(res, d, plus, i, |d.ents|)
  {
    hide Holds, Flat, Entries, CookiePos, Straddles;
  }

  lemma StoppedFinished(res: ReaddirRes, d: Directory, plus: bool, i: nat, j: nat)
    requires Stopped(res, d, plus, i, j)
    ensures Finished(res, d, plus, i, j)
  {
    hide Holds, Flat, Entries, CookiePos, Straddles, Patched;
    ListsLength(res.entries, d, plus, i, j);
  }

  /** The status is Eof until an entry is accepted. */
  method StartAtEof(res: ReaddirRes, ghost d: Directory, ghost plus: bool, ghost i: nat, ghost j: nat)
    requires Going(res, d, plus, i, j)
    modifies res`err
    ensures Going(res, d, plus, i, j) && res.err == Eof
  {
    hide Lists, Taken, Holds, Flat, Disjoint, Inside, CookiePointers, Addr;
    res.err := Eof;
  }

  lemma FinishedAt(res: ReaddirRes, d: Directory, plus: bool, i: nat, j: nat)
    requires Finished(res, d, plus, i, j)
    ensures i <= j <= |d.ents| < |d.pos| && j == i + Taken(d, plus, i, res.limit) && Disjoint(res.pages)
    ensures res.err == Eof <==> j == |d.ents|
  {
  }

  lemma RecordsSize(d: Directory, i: nat, j: nat)
    requires i <= j <= |d.ents| < |d.pos|
    ensures Size(Records(d, i, j)) == 0 <==> i == j
  {
  }

  /** The second half of a round of nfsd_buffered_readdir: hand out what is in the page, entries `b` to `e`. It is the
      last round if there is nothing or the encoder refused an entry. */
  method HandOut(buf: ReaddirData, res: ReaddirRes, d: Directory, plus: bool, b: nat, e: nat, ghost i: nat)
    returns (last: bool, offset: U64)
    requires buf.Valid() && i <= b <= e <= |d.ents| < |d.pos| && buf.records == Records(d, b, e)
    requires b == e ==> e == |d.ents|
    requires buf.dirent as object != res.mem
    requires Going(res, d, plus, i, b) && res.err == Eof && WellFormed(d)
    requires SteadyButLast(res.pages, d, plus, i, i + Taken(d, plus, i, res.limit))
    modifies res.mem, res`buffer, res`buflen, res`offset, res`offset1, res`err, res`entries
    ensures KeepsOutside(res.pages, old(res.mem[..]), res.mem[..])
    ensures last ==> Ended(res, d, plus, i, offset)
    ensures !last ==> b < e && Going(res, d, plus, i, e) && offset == d.pos[e]
  {
    hide Going, Stopped, Finished, Size, Packed, Records, WellFormed, KeepsOutside, SteadyButLast, Taken;
    last, offset := true, d.pos[e];
    RecordsSize(d, b, e);
    if buf.used == 0 {
      GoingToEnd(res, d, plus, i);
      FinishedAt(res, d, plus, i, e);
      KeepsOutsideRefl(res.pages, res.mem[..]);
      return;
    }
    var size, next, j := Walk(buf, res, d, plus, b, e, i);
    last := size > 0;
    if last {
      StoppedFinished(res, d, plus, i, j);
      FinishedAt(res, d, plus, i, j);
      offset := next;
    }
  }

  /** One round of nfsd_buffered_readdir: fill the page, hand out what is in it. `offset` is the position of the first
      entry not handed out. */
  method Round(file: DirFile, buf: ReaddirData, res: ReaddirRes, plus: bool, ghost i: nat)
    returns (failed: bool, last: bool, offset: U64)
    requires file.Valid() && i <= file.at
    requires SteadyButLast(res.pages, file.dir, plus, i, i + Taken(file.dir, plus, i, res.limit))
    requires Going(res, file.dir, plus, i, file.at)
    requires buf.Valid() && buf.dirent as object != res.mem
    modifies file, buf, buf.dirent, res.mem, res`buffer, res`buflen, res`offset, res`offset1, res`err, res`entries
    ensures file.Valid() && i <= file.at && buf.Valid() && (file.reliable ==> !failed)
    ensures KeepsOutside(res.pages, old(res.mem[..]), res.mem[..])
    ensures failed ==> Going(res, file.dir, plus, i, old(file.at))
    ensures !failed && last ==> Ended(res, file.dir, plus, i, offset)
    ensures !failed && !last ==>
      Going(res, file.dir, plus, i, file.at) && offset == file.dir.pos[file.at] && file.at > old(file.at)
  {
    hide Going, Ended, Size, Packed, Records, Distinct, Ordinary, KeepsOutside, SteadyButLast, Taken;
    StartAtEof(res, file.dir, plus, i, file.at);
    buf.Reset();
    var b := file.at;
    failed := file.Iterate(buf);
    last, offset := true, file.dir.pos[file.at];
    if buf.full {
      failed := false;
    }
    if failed {
      KeepsOutsideRefl(res.pages, res.mem[..]);
      return;
    }
    last, offset := HandOut(buf, res, file.dir, plus, b, file.at, i);
  }

  /** nfsd_buffered_readdir. On success `offset` is the position of the first entry that is not in the reply. */
  method BufferedReaddir(file: DirFile, res: ReaddirRes, plus: bool, cookie: U64) returns (ok: bool, offset: U64)
    requires file.Valid()
    requires SteadyButLast(res.pages, file.dir, plus, file.at, file.at + Taken(file.dir, plus, file.at, res.limit))
    requires Going(res, file.dir, plus, file.at, file.at)
    modifies file, res.mem, res`buffer, res`buflen, res`offset, res`offset1, res`err, res`entries
    ensures file.Valid() && KeepsOutside(res.pages, old(res.mem[..]), res.mem[..])
    ensures ok ==> Ended(res, file.dir, plus, old(file.at), offset)
    ensures !ok ==> !file.reliable && offset == cookie && exists j :: Going(res, file.dir, plus, old(file.at), j)
  {
    hide Going, Ended, Distinct, Ordinary, KeepsOutside, SteadyButLast, Taken;
    ghost var i := file.at;
    KeepsOutsideRefl(res.pages, res.mem[..]);
    var buf := new ReaddirData();
    offset := cookie;
    var failed, last := false, false;
    while !last
      invariant file.Valid() && i <= file.at
      invariant buf.Valid() && fresh(buf) && fresh(buf.dirent)
      invariant KeepsOutside(res.pages, old(res.mem[..]), res.mem[..])
      invariant !failed && (!last ==> Going(res, file.dir, plus, i, file.at))
      invariant last ==> Ended(res, file.dir, plus, i, offset)
      decreases !last, |file.dir.ents| - file.at
    {
      ghost var m := res.mem[..];
      failed, last, offset := Round(file, buf, res, plus, i);
      KeepsOutsideTrans(res.pages, old(res.mem[..]), m, res.mem[..]);
      if failed {
        offset := cookie;
        break;
      }
    }
    ok := !failed;
  }

  // ----- a whole request -----

  /** The count the server goes by: READDIR replies with one page, READDIRPLUS with up to the largest payload. */
  function Clamped(plus: bool, count: Word, payload: Word): Word {
    var most := if plus then payload else PAGE_SIZE;
    if count < most then count else most
  }

  /** Pages the argument decoder reserves for a reply. */
  function Reserved(plus: bool, count: Word, payload: Word): nat {
    if plus then (Clamped(plus, count, payload) + PAGE_SIZE - 1) / PAGE_SIZE else 1
  }

  /** Words for entries: room for the end of the list and the eof flag is kept back. */
  function Budget(plus: bool, count: Word, payload: Word): int {
    Clamped(plus, count, payload) / 4 - 2
  }

  /** What a count is good for, in bytes: with the two words of the trailer, the entries of a reply stay within the
      count, or the largest payload if that is less (a page for READDIR), up to one word if the last of them has a
      handle of more than 60 bytes; and the next entry, with 39 words for attributes and handle in READDIRPLUS, would
      not. */
  lemma CountFilled(d: Directory, plus: bool, i: nat, count: Word, payload: Word)
    requires WellFormed(d) && i <= |d.ents|
    ensures var j := i + Taken(d, plus, i, Budget(plus, count, payload));
      var n := |Flat(Entries(d, plus, i, j))|;
      var limit := if plus then payload else 4096;
      var most := if count < limit then count else limit;
      && (j > i ==> 4 * (n + 2) <= most + 4)
      && (j > i && SmallHandle(BaggageOf(d.ents[j - 1], plus)) ==> 4 * (n + 2) <= most)
      && (j < |d.ents| ==> 4 * (n + 2 + |EntryWords(EntryOf(d, false, j))| + if plus then 39 else 0) > most)
  {
    hide Flat, Entries, EntryWords, Taken, SmallHandle, Distinct, Seekable, Ordinary;
    var budget := Budget(plus, count, payload);
    TakenFills(d, plus, i, budget);
    var j := i + Taken(d, plus, i, budget);
    if j < |d.ents| {
      EstimateBounds(EntryOf(d, false, j));
    }
  }

  /** The page loop of nfs3svc_decode_readdirplusargs. */
  method ReservePages(plus: bool, count: Word, payload: Word) returns (pages: nat)
    ensures pages == Reserved(plus, count, payload)
    ensures Budget(plus, count, payload) <= pages * PAGE_WORDS - 2
  {
    if plus {
      pages := 0;
      var len: int := Clamped(plus, count, payload);
      while len > 0
        invariant len == Clamped(plus, count, payload) - pages * PAGE_SIZE && len > -PAGE_SIZE
      {
        pages := pages + 1;
        len := len - PAGE_SIZE;
      }
    } else {
      pages := 1;
    }
  }

  /** The first `n` words of the reply pages, as the transport sends them. */
  method ReadOut(mem: array<Word>, pages: seq<nat>, n: nat) returns (out: seq<Word>)
    requires n <= |pages| * PAGE_WORDS && Inside(pages, mem.Length)
    ensures |out| == n && Holds(mem[..], pages, out)
  {
    out := [];
    for k := 0 to n
      invariant |out| == k
      invariant forall q :: 0 <= q < k ==> out[q] == mem[..][Addr(pages, q)]
    {
      AddrInPage(pages, k);
      out := out + [mem[pages[k / PAGE_WORDS] + k % PAGE_WORDS]];
    }
  }

  /** The pages hold but one sequence of a length. */
  lemma HoldsOnly(mem: seq<Word>, pages: seq<nat>, out: seq<Word>, ws: seq<Word>)
    requires Holds(mem, pages, out) && |ws| == |out|
    ensures out == ws <==> Holds(mem, pages, ws)
  {
  }

  /** Of two such sequences the shorter one is where the longer one begins. */
  lemma HoldsPrefix(mem: seq<Word>, pages: seq<nat>, out: seq<Word>, ws: seq<Word>)
    requires Holds(mem, pages, out) && Holds(mem, pages, ws)
    ensures out <= ws || ws <= out
  {
  }

  lemma StartGoing(res: ReaddirRes, d: Directory, plus: bool, i: nat)
    requires res.Valid() && res.Pending() && res.entries == [] && res.buflen == res.limit
    requires i <= |d.ents| < |d.pos|
    ensures Going(res, d, plus, i, i)
  {
    hide Taken;
  }

  /** A reply of no entries yet, with the pages and the room the client's count asks for. */
  method OpenReply(plus: bool, count: Word, payload: Word, mem: array<Word>, all: seq<nat>, ghost d: Directory,
                   ghost i: nat) returns (res: ReaddirRes)
    requires Disjoint(all) && Inside(all, mem.Length) && Reserved(plus, count, payload) <= |all|
    requires i <= |d.ents| < |d.pos|
    ensures fresh(res) && res.mem == mem && res.limit == Budget(plus, count, payload)
    ensures res.pages == all[..Reserved(plus, count, payload)]
    ensures Going(res, d, plus, i, i)
  {
    hide Going, Taken;
    var n := ReservePages(plus, count, payload);
    res := new ReaddirRes(mem, all[..n], all[n..], Budget(plus, count, payload));
    StartGoing(res, d, plus, i);
  }

  predicate TrailerFits(attr: Option<Fattr3>, rpcHead: nat) {
    rpcHead + 4 * (|PostOpAttrWords(attr)| + 2) + 8 <= PAGE_SIZE
  }

  /** nfs3svc_encode_readdirres: head, entries from the pages, trailer. Without room for the trailer in the head page
      the reply ends after the verifier. */
  function Encode(attr: Option<Fattr3>, verf: U64, words: seq<Word>, eof: bool, rpcHead: nat): seq<Word> {
    var head := PostOpAttrWords(attr) + Hyper(verf);
    if TrailerFits(attr, rpcHead) then head + words + [0, EofWord(eof)] else head
  }

  /** The trailer is sent exactly if it fits into what the RPC header, the attributes and the verifier leave of the
      head page. */
  lemma TrailerExactly(attr: Option<Fattr3>, verf: U64, words: seq<Word>, eof: bool, rpcHead: nat)
    ensures var head := PostOpAttrWords(attr) + [verf / 0x1_0000_0000, verf % 0x1_0000_0000];
      Encode(attr, verf, words, eof, rpcHead) ==
        if rpcHead + 4 * |head| + 8 <= 4096 then head + words + [0, if eof then 1 else 0] else head
  {
    hide PostOpAttrWords;
  }

  lemma {:induction false} AllEntries(d: Directory, plus: bool, i: nat, j: nat)
    requires WellFormed(d) && i <= j <= |d.ents|
    ensures AllOf(plus, Entries(d, plus, i, j))
    decreases j
  {
    if i == j {
    } else {
      AllEntries(d, plus, i, j - 1);
    }
  }

  /** A client reads an encoded reply as the entries it was made from. */
  lemma EncodeReadsBack(d: Directory, plus: bool, i: nat, budget: int, attr: Option<Fattr3>, verf: U64, rpcHead: nat)
    requires WellFormed(d) && i <= |d.ents| && TrailerFits(attr, rpcHead)
    ensures var l := Serve(d, plus, i, budget);
            TakeReply(plus, Encode(attr, verf, Flat(l.entries), l.eof, rpcHead)) == Good(Reply(attr, verf, l), [])
  {
    hide Taken, Flat, Entries, PostOpAttrWords, TakeReply, Distinct, Ordinary;
    var r := Reply(attr, verf, Serve(d, plus, i, budget));
    AllEntries(d, plus, i, i + Taken(d, plus, i, budget));
    ReplyReadsBack(plus, r, []);
    assert ReplyWords(r) + [] == ReplyWords(r);
  }

  /** If the last entry fell off and no page begins where the cursor is, all the pages are sent. */
  ghost predicate Overlong(pages: seq<nat>, d: Directory, plus: bool, i: nat, j: nat, attr: Option<Fattr3>,
                           reply: seq<Word>)
    requires i <= j <= |d.ents| < |d.pos| && Fallen(pages, d, plus, i, j)
  {
    !InSomePage(pages, Behind(pages, d, plus, i, j)) ==>
      |reply| == |PostOpAttrWords(attr)| + 2 + |pages| * PAGE_WORDS + 2
  }

  /** The page of the last cookie. */
  ghost function LastPage(d: Directory, plus: bool, i: nat, j: nat): nat
    requires i < j <= |d.ents| < |d.pos|
  {
    CookiePos(Entries(d, plus, i, j)) / PAGE_WORDS
  }

  /** The last patch damages the reply: it comes after a refused entry, the cookie straddles, and behind its page
      begins another page of the reply with a word that differs from the low half of the cookie. */
  ghost predicate Spoiled(pages: seq<nat>, d: Directory, plus: bool, i: nat, j: nat)
    requires i <= j <= |d.ents| < |d.pos|
  {
    && Unsettled(d, plus, i, j) && LastPage(d, plus, i, j) < |pages|
    && Overwrites(pages, Flat(Entries(d, plus, i, j)), LastPage(d, plus, i, j), d.pos[j] % TWO32)
  }

  /** The last patch changes memory `m` outside the pages: as before, but no page begins behind the cookie's, and the
      word there differs from the low half of the cookie. */
  ghost predicate Leaks(pages: seq<nat>, d: Directory, plus: bool, i: nat, j: nat, m: seq<Word>)
    requires i <= j <= |d.ents| < |d.pos|
  {
    && Unsettled(d, plus, i, j)
    && var c := LastPage(d, plus, i, j);
       && c < |pages| && !Adjoined(pages, c) && pages[c] + PAGE_WORDS < |m|
       && m[pages[c] + PAGE_WORDS] != d.pos[j] % TWO32
  }

  /** What the reply to a request says and does to the memory: `m` before and `m'` after it, for entries `i` to `j`. */
  ghost predicate Replied(d: Directory, plus: bool, i: nat, j: nat, pages: seq<nat>, attr: Option<Fattr3>, verf: U64,
                          rpcHead: nat, reply: seq<Word>, m: seq<Word>, m': seq<Word>)
    requires i <= j <= |d.ents| < |d.pos|
  {
    var r := Reply(attr, verf, DirList(Entries(d, plus, i, j), j == |d.ents|));
    && (!TrailerFits(attr, rpcHead) ==> reply == PostOpAttrWords(attr) + Hyper(verf))
    && (TrailerFits(attr, rpcHead) ==>
          (reply == ReplyWords(r) <==> !Spoiled(pages, d, plus, i, j) && !Fallen(pages, d, plus, i, j)))
    && (TrailerFits(attr, rpcHead) && reply == ReplyWords(r) ==> TakeReply(plus, reply) == Good(r, []))
    && Tells(r.list.entries, d, plus, i)
    && (TrailerFits(attr, rpcHead) && Fallen(pages, d, plus, i, j) ==> Overlong(pages, d, plus, i, j, attr, reply))
    && (KeepsOutside(pages, m, m') <==> !Leaks(pages, d, plus, i, j, m))
  }

  /** A request with this cookie may start at entry `i`: the one it stands for, or any if it is no entry's position. */
  ghost predicate MayStart(d: Directory, cookie: U64, i: nat)
    requires WellFormed(d)
  {
    cookie <= NFS_OFFSET_MAX && i <= |d.ents| && (cookie in d.pos ==> i == IndexOf(d, cookie))
  }

  /** vfs_llseek. A cookie that is negative as a loff_t is refused; where one leads that is no entry's position, and
      whether it is refused, is the file system's choice. */
  method Seek(file: DirFile, cookie: U64) returns (ok: bool)
    requires file.Valid()
    modifies file
    ensures file.Valid() && (ok ==> MayStart(file.dir, cookie, file.at))
    ensures cookie in file.dir.pos ==> ok
  {
    hide Ordinary;
    if cookie > NFS_OFFSET_MAX {
      return false;
    }
    var i := 0;
    while i < |file.dir.pos| && file.dir.pos[i] != cookie
      invariant i <= |file.dir.pos|
      invariant forall k :: 0 <= k < i ==> file.dir.pos[k] != cookie
    {
      i := i + 1;
    }
    if i == |file.dir.pos| {
      i, ok := *, *;
      if i < 0 || i > |file.dir.ents| || !ok {
        return false;
      }
    }
    file.at := i;
    ok := true;
  }

  /** A directory that could not be read: the procedures patch the last cookie all the same. */
  method Abandon(res: ReaddirRes, ghost d: Directory, ghost plus: bool, ghost i: nat, offset: U64, ghost m: seq<Word>)
    requires exists j :: Going(res, d, plus, i, j)
    requires KeepsOutside(res.pages, m, res.mem[..])
    modifies res.mem, res`offset1, res`entries
    ensures KeepsOutside(res.pages, m, res.mem[..])
  {
    hide KeepsOutside, Holds, Flat, CookiePointers, CookiePos, Straddles, Lists, Taken, Strayed;
    ghost var m1 := res.mem[..];
    res.PatchCookie(offset);
    KeepsOutsideTrans(res.pages, m, m1, res.mem[..]);
  }

  lemma Cancel<T>(a: seq<T>, b: seq<T>, c: seq<T>, d: seq<T>)
    requires a + b + d == a + c + d
    ensures b == c
  {
    assert |b| == |c|;
    assert b == (a + b + d)[|a|..|a| + |b|];
    assert c == (a + c + d)[|a|..|a| + |c|];
  }

  /** The reply is right exactly if its words are. */
  lemma EncodeIff(attr: Option<Fattr3>, verf: U64, words: seq<Word>, l: DirList, rpcHead: nat)
    ensures var reply := Encode(attr, verf, words, l.eof, rpcHead);
      if TrailerFits(attr, rpcHead)
      then
        && (reply == ReplyWords(Reply(attr, verf, l)) <==> words == Flat(l.entries))
        && |reply| == |PostOpAttrWords(attr)| + 2 + |words| + 2
      else reply == PostOpAttrWords(attr) + Hyper(verf)
  {
    hide PostOpAttrWords, Flat, EofWord;
    var head := PostOpAttrWords(attr) + Hyper(verf);
    var trailer: seq<Word> := [0, EofWord(l.eof)];
    if TrailerFits(attr, rpcHead) && head + words + trailer == head + Flat(l.entries) + trailer {
      Cancel(head, words, Flat(l.entries), trailer);
    }
  }

  /** Where nothing has changed outside the pages, the word behind a page is still the same. */
  lemma LeaksFrom(pages: seq<nat>, d: Directory, plus: bool, i: nat, j: nat, m: seq<Word>, m1: seq<Word>)
    requires i <= j <= |d.ents| < |d.pos| && Disjoint(pages) && KeepsOutside(pages, m, m1)
    ensures Leaks(pages, d, plus, i, j, m) <==> Leaks(pages, d, plus, i, j, m1)
  {
    hide Flat, Entries, CookiePos, Straddles;
    if Unsettled(d, plus, i, j) {
      var c := LastPage(d, plus, i, j);
      if c < |pages| && !Adjoined(pages, c) {
        NotAdjoined(pages, c);
      }
    }
  }

  /** Patch the last cookie: the reply is right and the rest of the memory untouched exactly outside these cases. */
  method Settle(res: ReaddirRes, ghost d: Directory, ghost plus: bool, ghost i: nat, ghost j: nat, offset: U64)
    requires Finished(res, d, plus, i, j) && offset == d.pos[j]
    modifies res.mem, res`offset1, res`entries
    ensures res.entries == Entries(d, plus, i, j) && |Flat(res.entries)| == |Flat(old(res.entries))|
    ensures Holds(res.mem[..], res.pages, Flat(res.entries)) <==> !Spoiled(res.pages, d, plus, i, j)
    ensures KeepsOutside(res.pages, old(res.mem[..]), res.mem[..]) <==>
      !Leaks(res.pages, d, plus, i, j, old(res.mem[..]))
  {
    hide Flat, Holds, Patched, CookiePos, CookiePointers, Overwrites, Adjoined, KeepsOutside, Entries, Disjoint, Inside,
      Straddles, Taken;
    res.PatchCookie(offset);
  }

  /** Its cookie is in one page. */
  lemma FallenSettled(pages: seq<nat>, d: Directory, plus: bool, i: nat, j: nat)
    requires i <= j <= |d.ents| < |d.pos| && Fallen(pages, d, plus, i, j)
    ensures !Unsettled(d, plus, i, j) && !Spoiled(pages, d, plus, i, j)
  {
    hide Flat, EntryWords, CookiePos;
    CookiePosSnoc(Entries(d, plus, i, j - 1), EntryOf(d, plus, j - 1));
    EstimateBounds(EntryOf(d, plus, j - 1));
  }

  lemma HoldsBound(mem: seq<Word>, pages: seq<nat>, ws: seq<Word>)
    requires Holds(mem, pages, ws)
    ensures |ws| <= |pages| * PAGE_WORDS
  {
  }

  lemma EntriesLast(d: Directory, plus: bool, i: nat, j: nat)
    requires i < j <= |d.ents| < |d.pos|
    ensures Entries(d, plus, i, j) == Entries(d, plus, i, j - 1) + [EntryOf(d, plus, j - 1)]
  {
  }

  /** An entry that falls off ends with its page, and the cursor behind it is not where the next page begins. */
  lemma FallenLength(pages: seq<nat>, n: nat, e: Entry, count: nat)
    requires FallsOff(pages, n, e)
    requires var a := pages[n / PAGE_WORDS] + PAGE_WORDS;
      if InSomePage(pages, a) then count < |pages| * PAGE_WORDS && Addr(pages, count) == a
      else count == |pages| * PAGE_WORDS
    ensures n + |EntryWords(e)| < |pages| * PAGE_WORDS && count != n + |EntryWords(e)|
  {
    hide EntryWords, InSomePage;
    EstimateBounds(e);
    AddrAt(pages, n + |EntryWords(e)|, n / PAGE_WORDS + 1, 0);
  }

  lemma FallenSomewhere(pages: seq<nat>, d: Directory, plus: bool, i: nat, j: nat)
    requires i <= j <= |d.ents| < |d.pos| && Fallen(pages, d, plus, i, j)
    ensures |pages| > 0
  {
    hide Flat, Entries, EntryWords, EntryOf;
  }

  /** So the scan does not find the cursor where the entries end. */
  lemma FallenCount(pages: seq<nat>, d: Directory, plus: bool, i: nat, j: nat, count: nat)
    requires i <= j <= |d.ents| < |d.pos| && Fallen(pages, d, plus, i, j)
    requires var a := Behind(pages, d, plus, i, j);
      if InSomePage(pages, a) then count < |pages| * PAGE_WORDS && Addr(pages, count) == a
      else count == |pages| * PAGE_WORDS
    ensures count != |Flat(Entries(d, plus, i, j))|
  {
    hide Flat, Entries, FallsOff, EntryWords, InSomePage, EntryOf;
    EntriesLast(d, plus, i, j);
    FlatSnoc(Entries(d, plus, i, j - 1), EntryOf(d, plus, j - 1));
    FallenLength(pages, |Flat(Entries(d, plus, i, j - 1))|, EntryOf(d, plus, j - 1), count);
  }

  /** The words to send. */
  method Scan(res: ReaddirRes, ghost d: Directory, ghost plus: bool, ghost i: nat, ghost j: nat) returns (count: nat)
    requires Lists(res.entries, d, plus, i, j) && Placed(res, d, plus, i, j)
    ensures count <= |res.pages| * PAGE_WORDS && Inside(res.pages, res.mem.Length)
    ensures count == |Flat(Entries(d, plus, i, j))| <==> !Fallen(res.pages, d, plus, i, j)
    ensures Fallen(res.pages, d, plus, i, j) && !InSomePage(res.pages, Behind(res.pages, d, plus, i, j)) ==>
      count == |res.pages| * PAGE_WORDS
  {
    hide Flat, Holds, Patched, CookiePos, CookiePointers, Disjoint, Straddles, Entries, Fallen, Behind, InSomePage;
    HoldsBound(res.mem[..], res.pages, Flat(res.entries));
    ListsLength(res.entries, d, plus, i, j);
    count := 0;
    if |res.pages| > 0 {
      count := res.CountWords();
    }
    if Fallen(res.pages, d, plus, i, j) {
      FallenSomewhere(res.pages, d, plus, i, j);
      FallenCount(res.pages, d, plus, i, j, count);
    }
  }

  /** The end of nfsd3_proc_readdirplus and nfsd3_proc_readdir: count the words, patch the last cookie. If the last
      entry fell off, the scan does not find the cursor where the entries end: all of the pages are sent, or, if one of
      them happens to begin where the cursor is, those before it. */
  method Finish(res: ReaddirRes, ghost d: Directory, ghost plus: bool, ghost i: nat, ghost j: nat, offset: U64)
    returns (words: seq<Word>)
    requires Finished(res, d, plus, i, j) && offset == d.pos[j]
    modifies res.mem, res`offset1, res`entries
    ensures words == Flat(Entries(d, plus, i, j)) <==>
      !Spoiled(res.pages, d, plus, i, j) && !Fallen(res.pages, d, plus, i, j)
    ensures Fallen(res.pages, d, plus, i, j) ==>
      && (!InSomePage(res.pages, Behind(res.pages, d, plus, i, j)) ==> |words| == |res.pages| * PAGE_WORDS)
      && (words < Flat(Entries(d, plus, i, j)) || Flat(Entries(d, plus, i, j)) < words)
    ensures KeepsOutside(res.pages, old(res.mem[..]), res.mem[..]) <==>
      !Leaks(res.pages, d, plus, i, j, old(res.mem[..]))
  {
    hide Flat, Holds, Patched, CookiePos, CookiePointers, Disjoint, Straddles, Taken, Entries, Spoiled, Leaks,
      KeepsOutside, Fallen, Behind, InSomePage, Placed;
    var count := Scan(res, d, plus, i, j);
    Settle(res, d, plus, i, j, offset);
    words := ReadOut(res.mem, res.pages, count);
    if Fallen(res.pages, d, plus, i, j) {
      FallenSettled(res.pages, d, plus, i, j);
      HoldsPrefix(res.mem[..], res.pages, words, Flat(res.entries));
    } else {
      HoldsOnly(res.mem[..], res.pages, words, Flat(res.entries));
    }
  }

  /** The end of the procedures and nfs3svc_encode_readdirres. */
  method Conclude(res: ReaddirRes, ghost d: Directory, ghost plus: bool, ghost i: nat, offset: U64,
                  attr: Option<Fattr3>, verf: U64, rpcHead: nat, ghost m: seq<Word>) returns (reply: seq<Word>)
    requires WellFormed(d) && Ended(res, d, plus, i, offset) && KeepsOutside(res.pages, m, res.mem[..])
    modifies res.mem, res`offset1, res`entries
    ensures Replied(d, plus, i, i + Taken(d, plus, i, res.limit), res.pages, attr, verf, rpcHead, reply, m, res.mem[..])
  {
    hide Finished, Taken, Flat, Entries, TakeReply, TrailerFits, WellFormed, KeepsOutside, Spoiled, Leaks, Encode,
      Disjoint, Fallen, Behind, InSomePage, Tells;
    ghost var j := i + Taken(d, plus, i, res.limit);
    FinishedAt(res, d, plus, i, j);
    EntriesTell(d, plus, i, j);
    ghost var m1 := res.mem[..];
    var eof := res.err == Eof;
    var words := Finish(res, d, plus, i, j, offset);
    reply := Encode(attr, verf, words, eof, rpcHead);
    EncodeIff(attr, verf, words, DirList(Entries(d, plus, i, j), eof), rpcHead);
    if TrailerFits(attr, rpcHead) {
      EncodeReadsBack(d, plus, i, res.limit, attr, verf, rpcHead);
    }
    KeepsOutsideFrom(res.pages, m, m1, res.mem[..]);
    LeaksFrom(res.pages, d, plus, i, j, m, m1);
  }

  /** READDIR or READDIRPLUS, from the count and cookie in the arguments to the words of the reply after the status.
      `all` are the pages the transport has set aside, `rpcHead` the bytes before those words in the head page. */
  method Request(file: DirFile, plus: bool, cookie: U64, count: Word, payload: Word, mem: array<Word>, all: seq<nat>,
                 attr: Option<Fattr3>, verf: U64, rpcHead: nat) returns (reply: Option<seq<Word>>, ghost i: nat)
    requires file.Valid()
    requires Disjoint(all) && Inside(all, mem.Length) && Reserved(plus, count, payload) <= |all|
    requires forall k: nat :: MayStart(file.dir, cookie, k) ==>
      SteadyButLast(all[..Reserved(plus, count, payload)], file.dir, plus, k,
                    k + Taken(file.dir, plus, k, Budget(plus, count, payload)))
    modifies file, mem
    ensures file.Valid() && (file.reliable && cookie in file.dir.pos ==> reply.Some?)
    ensures reply.None? ==> KeepsOutside(all[..Reserved(plus, count, payload)], old(mem[..]), mem[..])
    ensures reply.Some? ==> MayStart(file.dir, cookie, i)
    ensures reply.Some? ==>
      Replied(file.dir, plus, i, i + Taken(file.dir, plus, i, Budget(plus, count, payload)),
              all[..Reserved(plus, count, payload)], attr, verf, rpcHead, reply.value, old(mem[..]), mem[..])
  {
    hide Going, Ended, Taken, Flat, Entries, TakeReply, TrailerFits, Disjoint, Inside, Distinct, Ordinary, IndexOf,
      Encode, SteadyButLast, Replied, KeepsOutside, MayStart;
    var found := Seek(file, cookie);
    i := file.at;
    if !found {
      KeepsOutsideRefl(all[..Reserved(plus, count, payload)], mem[..]);
      return None, i;
    }
    var res := OpenReply(plus, count, payload, mem, all, file.dir, i);
    var ok, offset := BufferedReaddir(file, res, plus, cookie);
    if !ok {
      Abandon(res, file.dir, plus, i, cookie, old(mem[..]));
      return None, i;
    }
    var words := Conclude(res, file.dir, plus, i, offset, attr, verf, rpcHead, old(mem[..]));
    reply := Some(words);
  }

  // ----- the last cookie -----

  // ----- pages for which the reply is always right -----

  /** A page may lie directly behind another only if it also follows it in the reply. */
  ghost predicate OnlySuccessorsAdjoin(pages: seq<nat>) {
    forall i, j :: 0 <= i < |pages| && 0 <= j < |pages| && pages[j] == pages[i] + PAGE_WORDS ==> j == i + 1
  }

  lemma NextPage(pages: seq<nat>, i: nat, j: nat)
    requires OnlySuccessorsAdjoin(pages) && i < |pages| && j < |pages| && pages[j] == pages[i] + PAGE_WORDS
    ensures j == i + 1
  {
  }

  /** With such pages no reply is spoiled: the word behind the page of a straddling cookie is its own low half, or no
      word of the reply. */
  lemma SuccessorsNotSpoiled(pages: seq<nat>, d: Directory, plus: bool, i: nat, j: nat)
    requires i <= j <= |d.ents| < |d.pos| && OnlySuccessorsAdjoin(pages)
    ensures !Spoiled(pages, d, plus, i, j)
  {
    hide Flat, Entries, CookiePos, Patched, OnlySuccessorsAdjoin;
    if Unsettled(d, plus, i, j) && LastPage(d, plus, i, j) < |pages| {
      var es, c := Entries(d, plus, i, j), LastPage(d, plus, i, j);
      LastCookie(d, plus, i, j);
      PatchedAlready(es, d.pos[j]);
      forall q | 0 <= q < |pages| && pages[q] == pages[c] + PAGE_WORDS && q * PAGE_WORDS < |Flat(es)|
        ensures Flat(es)[q * PAGE_WORDS] == d.pos[j] % TWO32
      {
        NextPage(pages, c, q);
        assert CookiePos(es) + 1 == q * PAGE_WORDS;
      }
    }
  }

  // ----- a client on the wire -----

  /** The reply to a request from entry `i` on is right. */
  ghost predicate Clean(d: Directory, plus: bool, i: nat, count: Word, payload: Word, all: seq<nat>) {
    && i <= |d.ents| < |d.pos| && Reserved(plus, count, payload) <= |all|
    && var j, pages := i + Taken(d, plus, i, Budget(plus, count, payload)), all[..Reserved(plus, count, payload)];
       Steady(pages, d, plus, i, j) && !Spoiled(pages, d, plus, i, j)
  }

  /** Small handles, and pages of which none lies behind one that it does not follow, are enough. */
  lemma CleanEnough(d: Directory, plus: bool, i: nat, count: Word, payload: Word, all: seq<nat>)
    requires i <= |d.ents| < |d.pos| && Reserved(plus, count, payload) <= |all|
    requires OnlySuccessorsAdjoin(all) && forall k :: 0 <= k < |d.ents| ==> SmallHandle(BaggageOf(d.ents[k], plus))
    ensures Clean(d, plus, i, count, payload, all)
  {
    hide Taken, Steady, Spoiled, SmallHandle;
    var j, pages := i + Taken(d, plus, i, Budget(plus, count, payload)), all[..Reserved(plus, count, payload)];
    SmallHandlesSteady(pages, d, plus, i, j);
    SuccessorsNotSpoiled(pages, d, plus, i, j);
  }

  /** Room for entries in each of several replies. */
  function Budgets(plus: bool, counts: seq<Word>, payload: Word): (r: seq<int>)
    ensures |r| == |counts|
    ensures forall q :: 0 <= q < |counts| ==> r[q] == Budget(plus, counts[q], payload)
  {
    seq(|counts|, q requires 0 <= q < |counts| => Budget(plus, counts[q], payload))
  }

  /** One exchange: the client's reading of the reply is what the directory has to offer. */
  method Exchange(file: DirFile, plus: bool, cookie: U64, count: Word, payload: Word, mem: array<Word>, all: seq<nat>,
                  attr: Option<Fattr3>, verf: U64, rpcHead: nat) returns (l: DirList)
    requires file.Valid() && file.reliable && cookie in file.dir.pos && TrailerFits(attr, rpcHead)
    requires Disjoint(all) && Inside(all, mem.Length)
    requires Clean(file.dir, plus, IndexOf(file.dir, cookie), count, payload, all)
    modifies file, mem
    ensures file.Valid() && l == Serve(file.dir, plus, IndexOf(file.dir, cookie), Budget(plus, count, payload))
    ensures Tells(l.entries, file.dir, plus, IndexOf(file.dir, cookie))
  {
    hide Taken, Steady, Spoiled, Leaks, IndexOf, TakeReply, TrailerFits, Disjoint, Inside, Distinct, Ordinary,
      KeepsOutside, ReplyWords, SteadyButLast, Fallen, Tells;
    ghost var start := IndexOf(file.dir, cookie);
    SteadyAll(all[..Reserved(plus, count, payload)], file.dir, plus, start,
              start + Taken(file.dir, plus, start, Budget(plus, count, payload)));
    var reply, i := Request(file, plus, cookie, count, payload, mem, all, attr, verf, rpcHead);
    l := TakeReply(plus, reply.value).value.list;
  }

  /** A client that goes on from cookie to cookie until eof, with `counts[0]` in the first request and so on. If it sees
      eof it has got every entry from its first cookie on, exactly once and in order. */
  method ListAll(file: DirFile, plus: bool, cookie: U64, counts: seq<Word>, payload: Word, mem: array<Word>,
                 all: seq<nat>, attr: Option<Fattr3>, verf: U64, rpcHead: nat) returns (got: Option<seq<Entry>>)
    requires file.Valid() && file.reliable && cookie in file.dir.pos && TrailerFits(attr, rpcHead)
    requires Disjoint(all) && Inside(all, mem.Length)
    requires forall q, i :: 0 <= q < |counts| && 0 <= i <= |file.dir.ents| ==>
      Clean(file.dir, plus, i, counts[q], payload, all)
    modifies file, mem
    ensures file.Valid() && got == Session(file.dir, plus, cookie, Budgets(plus, counts, payload))
    ensures got.Some? ==> got.value == Entries(file.dir, plus, IndexOf(file.dir, cookie), |file.dir.ents|)
    ensures got.Some? ==> Tells(got.value, file.dir, plus, IndexOf(file.dir, cookie))
    decreases |counts|
  {
    hide Clean, Taken, Entries, TrailerFits, Disjoint, Inside, Distinct, Ordinary, Session, Tells;
    ghost var i, budgets := IndexOf(file.dir, cookie), Budgets(plus, counts, payload);
    SessionComplete(file.dir, plus, i, budgets);
    EntriesTell(file.dir, plus, i, |file.dir.ents|);
    if counts == [] {
      SessionOver(file.dir, plus, cookie);
      return None;
    }
    SessionStep(file.dir, plus, i, budgets);
    var l := Exchange(file, plus, cookie, counts[0], payload, mem, all, attr, verf, rpcHead);
    if l.eof {
      return Some(l.entries);
    }
    if l.entries == [] {
      return None;
    }
    LastCookie(file.dir, plus, i, i + |l.entries|);
    var last := l.entries[|l.entries| - 1];
    var more := ListAll(file, plus, last.cookie, counts[1..], payload, mem, all, attr, verf, rpcHead);
    assert Budgets(plus, counts[1..], payload) == budgets[1..];
    got := Extend(l.entries, more);
  }
}
