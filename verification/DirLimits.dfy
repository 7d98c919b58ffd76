/**
 Requests that meet the encoder's two weak points: a handle of more than 60 bytes whose entry ends just at the end of
 a page, and a straddling cookie that a refused entry has already patched.
 */
module DirLimits {
  import opened Options
  import opened Paging
  import opened Xdr
  import opened Attr
  import opened DirWire
  import opened PageMemory
  import opened DirEncoder
  import opened DirentBuffer
  import opened Listing
  import opened Readdir

  // ----- a directory of equal entries, then one of another size, then one more -----

  /** A name of four small letters for each number: `k` to the base 26. */
  function Letters(k: nat): (r: seq<Byte>)
    requires k < 2000
    ensures |r| == 4 && forall i :: 0 <= i < 4 ==> 'a' as int <= r[i] <= 'z' as int
    ensures k == (r[1] - 'a' as int) * 676 + (r[2] - 'a' as int) * 26 + (r[3] - 'a' as int)
  {
    ['a' as int, 'a' as int + k / 676, 'a' as int + k / 26 % 26, 'a' as int + k % 26]
  }

  /** An entry with a name of four letters, and no attributes or handle to send: nine words. */
  function Ordinary4(k: nat): DirEnt
    requires k < 2000
  {
    DirEnt(Letters(k), k, 8, Plus(None, None))
  }

  function Equals(n: nat): (r: seq<DirEnt>)
    requires n < 2000
    ensures |r| == n
    ensures forall k :: 0 <= k < n ==> r[k] == Ordinary4(k + 1)
  {
    if n == 0 then [] else Equals(n - 1) + [Ordinary4(n)]
  }

  function Positions(n: Word): (r: seq<U64>)
    ensures |r| == n
    ensures forall k :: 0 <= k < n ==> r[k] == k
  {
    if n == 0 then [] else Positions(n - 1) + [n - 1]
  }

  function Crowded(n: nat, odd: DirEnt): Directory
    requires n < 1000
  {
    Directory(Equals(n) + [odd, Ordinary4(n + 2)], Positions(n + 3))
  }

  lemma CrowdedWellFormed(n: nat, odd: DirEnt)
    requires n < 1000 && odd.plus.Plus? && |odd.name| <= MAXNAMLEN
    ensures WellFormed(Crowded(n, odd))
  {
  }

  lemma FlatNone()
    ensures Flat([]) == []
  {
  }

  lemma CrowdedAt(n: nat, odd: DirEnt, k: nat)
    requires k <= n + 1 && n < 1000
    ensures var d := Crowded(n, odd);
      && |d.ents| == n + 2 && |d.pos| == n + 3 && d.pos[k] == k && d.pos[k + 1] == k + 1
      && d.ents[k] == if k == n then odd else Ordinary4(k + 1)
  {
  }

  /** The first `k` entries take nine words each. */
  lemma {:induction false} CrowdedLength(n: nat, odd: DirEnt, k: nat)
    requires k <= n < 1000
    ensures |Flat(Entries(Crowded(n, odd), true, 0, k))| == 9 * k
    ensures k > 0 ==> Flat(Entries(Crowded(n, odd), true, 0, k))[0] == 1
  {
    hide Crowded, Flat;
    var d := Crowded(n, odd);
    if k == 0 {
      FlatNone();
    } else {
      CrowdedLength(n, odd, k - 1);
      CrowdedAt(n, odd, k - 1);
      FlatSnoc(Entries(d, true, 0, k - 1), EntryOf(d, true, k - 1));
    }
  }

  lemma CrowdedSize(n: nat, odd: DirEnt)
    requires n < 1000
    ensures |Crowded(n, odd).ents| == n + 2 && |Crowded(n, odd).pos| == n + 3
  {
  }

  lemma EqualEntry(n: nat, odd: DirEnt, k: nat)
    requires k < n < 1000
    ensures |Crowded(n, odd).ents| == n + 2 && |Crowded(n, odd).pos| == n + 3
    ensures Need(Crowded(n, odd), true, k) == 46 && |EntryWords(EntryOf(Crowded(n, odd), true, k))| == 9
  {
    hide Crowded;
    CrowdedAt(n, odd, k);
  }

  lemma EqualTaken(n: nat, odd: DirEnt, k: nat, budget: int)
    requires k < n < 1000 && budget >= 46
    ensures |Crowded(n, odd).ents| == n + 2 && |Crowded(n, odd).pos| == n + 3
    ensures Taken(Crowded(n, odd), true, k, budget) == 1 + Taken(Crowded(n, odd), true, k + 1, budget - 9)
  {
    hide Crowded, EntryWords, EntryOf, Need, BaggageWords, CookieAt;
    EqualEntry(n, odd, k);
  }

  /** With room for them all, a reply takes the equal entries and then what is left room for. */
  lemma {:induction false} CrowdedTaken(n: nat, odd: DirEnt, k: nat, budget: int)
    requires k <= n < 1000 && budget >= 9 * (n - k) + 46
    ensures |Crowded(n, odd).ents| == n + 2 && |Crowded(n, odd).pos| == n + 3
    ensures Taken(Crowded(n, odd), true, k, budget) == n - k + Taken(Crowded(n, odd), true, n, budget - 9 * (n - k))
    decreases n - k
  {
    hide Crowded, Taken;
    CrowdedSize(n, odd);
    if k == n {
    } else {
      EqualTaken(n, odd, k, budget);
      CrowdedTaken(n, odd, k + 1, budget - 9);
    }
  }

  // ----- a cookie that straddles, then an entry without room -----

  /** A name of 36 letters: nine words. */
  function LongName(): (r: seq<Byte>)
    ensures |r| == 36 && forall i :: 0 <= i < 36 ==> 'a' as int <= r[i] <= 'z' as int
  {
    seq(36, (i: nat) => 'a' as int + i % 26)
  }

  /** 226 equal entries fill 2034 words; the cookie of the next begins at word 2047, the last of the second page. */
  function StraddlingDir(): Directory {
    Crowded(226, DirEnt(LongName(), 227, 8, Plus(None, None)))
  }

  /** With this count a reply has room for 227 of the 228 entries. */
  const TIGHT_COUNT: Word := 8360

  ghost predicate EndsStraddling(d: Directory) {
    && |d.ents| == 228 && |d.pos| == 229 && d.pos[0] == 0 && d.pos[227] == 227
    && Taken(d, true, 0, 2088) == 227
    && Unsettled(d, true, 0, 227) && LastPage(d, true, 0, 227) == 1
    && var ws := Flat(Entries(d, true, 0, 227)); |ws| > 2047 && ws[0] == 1
  }

  /** Room for an entry with a name of nine words, and not for one with four bytes after it. */
  lemma TwoMore(d: Directory, k: nat, budget: int)
    requires |d.ents| == k + 2 && |d.pos| == k + 3 && budget == 54
    requires |d.ents[k].name| == 36 && d.ents[k].plus == Plus(None, None) && |d.ents[k + 1].name| == 4
    ensures Taken(d, true, k, budget) == 1
  {
    hide Flat;
    assert |EntryWords(EntryOf(d, true, k))| == 17;
    assert Taken(d, true, k + 1, budget - 17) == 0;
  }

  lemma StraddlingTaken()
    ensures WellFormed(StraddlingDir()) && EndsStraddling(StraddlingDir())
  {
    hide Crowded, LongName, Flat, EntryWords, CookiePos, Taken, Entries;
    var odd := DirEnt(LongName(), 227, 8, Plus(None, None));
    var d := Crowded(226, odd);
    CrowdedWellFormed(226, odd);
    CrowdedAt(226, odd, 0);
    CrowdedAt(226, odd, 226);
    CrowdedAt(226, odd, 227);
    CrowdedTaken(226, odd, 0, 2088);
    TwoMore(d, 226, 54);
    CrowdedLength(226, odd, 226);
    EntriesLast(d, true, 0, 227);
    CookiePosSnoc(Entries(d, true, 0, 226), EntryOf(d, true, 226));
  }

  lemma StraddlingSteady(pages: seq<nat>)
    ensures var d := StraddlingDir();
      |d.ents| == 228 && |d.pos| == 229 && Steady(pages, d, true, 0, 227)
  {
    hide Crowded, Steady;
    var odd := DirEnt(LongName(), 227, 8, Plus(None, None));
    var d := Crowded(226, odd);
    CrowdedAt(226, odd, 0);
    forall k | 0 <= k < 227 ensures SmallHandle(BaggageOf(d.ents[k], true)) {
      CrowdedAt(226, odd, k);
    }
    SmallHandlesSteady(pages, d, true, 0, 227);
  }

  /** READDIRPLUS of that directory from its start, with the pages of the reply at `pages`. */
  method ListStraddling(mem: array<Word>, pages: seq<nat>, attr: Option<Fattr3>, verf: U64, rpcHead: nat)
    returns (reply: seq<Word>)
    requires |pages| == 3 && Disjoint(pages) && Inside(pages, mem.Length) && TrailerFits(attr, rpcHead)
    modifies mem
    ensures var d := StraddlingDir();
      && |d.ents| == 228 && |d.pos| == 229
      && (reply == ReplyWords(Reply(attr, verf, DirList(Entries(d, true, 0, 227), false))) <==>
        !Spoiled(pages, d, true, 0, 227))
      && (KeepsOutside(pages, old(mem[..]), mem[..]) <==> !Leaks(pages, d, true, 0, 227, old(mem[..])))
  {
    hide StraddlingDir, Taken, Entries, Spoiled, Leaks, KeepsOutside, TrailerFits, Unsettled, LastPage, Flat,
      Steady, SteadyButLast, Fallen, Disjoint, Inside, WellFormed, IndexOf, TakeReply;
    StraddlingTaken();
    StraddlingSteady(pages);
    var d := StraddlingDir();
    SteadyAll(pages, d, true, 0, 227);
    var file := new DirFile(d, true);
    IndexOfPos(d, 0);
    assert pages[..3] == pages;
    var r, i := Request(file, true, 0, TIGHT_COUNT, TIGHT_COUNT, mem, pages, attr, verf, rpcHead);
    reply := r.value;
  }

  /** If the first page lies behind the second, the reply that is sent is not the encoding of its entries. */
  method SpoiledReply(mem: array<Word>, attr: Option<Fattr3>, verf: U64, rpcHead: nat) returns (reply: seq<Word>)
    requires mem.Length > 6144 && TrailerFits(attr, rpcHead)
    modifies mem
    ensures |StraddlingDir().ents| == 228 && |StraddlingDir().pos| == 229
    ensures reply != ReplyWords(Reply(attr, verf, DirList(Entries(StraddlingDir(), true, 0, 227), false)))
  {
    hide StraddlingDir, Taken, Entries, Leaks, KeepsOutside, TrailerFits, Unsettled, LastPage, Flat, WellFormed;
    StraddlingTaken();
    var pages: seq<nat> := [2048, 1024, 5120];
    assert pages[0] == pages[1] + PAGE_WORDS;
    reply := ListStraddling(mem, pages, attr, verf, rpcHead);
  }

  /** If no page lies behind the second, a word that does not belong to the reply is changed. */
  method LeakyReply(mem: array<Word>, attr: Option<Fattr3>, verf: U64, rpcHead: nat) returns (reply: seq<Word>)
    requires mem.Length > 11264 && mem[6144] != 227 && TrailerFits(attr, rpcHead)
    modifies mem
    ensures !KeepsOutside([1024, 5120, 10240], old(mem[..]), mem[..])
  {
    hide StraddlingDir, Taken, Entries, Spoiled, KeepsOutside, TrailerFits, Unsettled, LastPage, Flat, WellFormed;
    StraddlingTaken();
    var pages: seq<nat> := [1024, 5120, 10240];
    assert !Adjoined(pages, 1);
    reply := ListStraddling(mem, pages, attr, verf, rpcHead);
  }

  // ----- a handle of full size at the end of a page -----

  /** 108 equal entries fill 972 words; the next, estimated at 51, takes 52 and ends with the page. */
  function FullHandleDir(attr: Fattr3, handle: HandleBytes): Directory {
    Crowded(108, DirEnt(LongName()[..24], 109, 8, Plus(Some(attr), Some(handle))))
  }

  lemma EqualStays(pages: seq<nat>, d: Directory, i: nat, k: nat)
    requires i <= k < |d.ents| < |d.pos| && SmallHandle(BaggageOf(d.ents[k], true))
    ensures !FallsAt(pages, d, true, i, k)
  {
    hide Flat, Entries;
  }

  lemma FullHandleTaken(attr: Fattr3, handle: HandleBytes)
    requires |handle| > NFS3_FHSIZE - 4
    ensures var d := FullHandleDir(attr, handle);
      && WellFormed(d) && |d.ents| == 110 && |d.pos| == 111
      && Taken(d, true, 0, 2046) > 108
      && |Flat(Entries(d, true, 0, 108))| == 972
      && FallsAt([1024, 5120], d, true, 0, 108)
  {
    hide Crowded, LongName, Flat, Entries, EntryWords;
    var odd := DirEnt(LongName()[..24], 109, 8, Plus(Some(attr), Some(handle)));
    CrowdedWellFormed(108, odd);
    CrowdedAt(108, odd, 108);
    CrowdedTaken(108, odd, 0, 2046);
    CrowdedLength(108, odd, 108);
  }

  /** The encoder, given these entries, ends up with its cursor in none of its pages. */
  method FallOff(mem: array<Word>, attr: Fattr3, handle: HandleBytes) returns (res: ReaddirRes)
    requires mem.Length > 6144 && |handle| > NFS3_FHSIZE - 4
    modifies mem
    ensures fresh(res) && res.pages == [1024, 5120] && !res.Valid() && !InSomePage(res.pages, res.buffer)
  {
    hide Crowded, Taken, Going, WellFormed, KeepsOutside, Flat, Entries, LongName, FallsAt;
    var odd := DirEnt(LongName()[..24], 109, 8, Plus(Some(attr), Some(handle)));
    var d := Crowded(108, odd);
    FullHandleTaken(attr, handle);
    res := new ReaddirRes(mem, [1024, 5120], [], 2046);
    StartGoing(res, d, true, 0);
    for k := 0 to 108
      invariant Going(res, d, true, 0, k)
    {
      CrowdedAt(108, odd, k);
      EqualStays(res.pages, d, 0, k);
      var accepted := Emit(res, RecordOf(d, k), d, true, k, 0);
    }
    CrowdedAt(108, odd, 108);
    var accepted := Emit(res, RecordOf(d, 108), d, true, 108, 0);
  }

  /** With this count a reply of two pages has room for 109 of the 110 entries. */
  const TWO_PAGE_COUNT: Word := 4144

  lemma LastTaken(attr: Fattr3, handle: HandleBytes)
    requires |handle| > NFS3_FHSIZE - 4
    ensures var d := FullHandleDir(attr, handle);
      |d.ents| == 110 && |d.pos| == 111 && Taken(d, true, 108, 62) == 1
  {
    hide Crowded, LongName;
    var odd := DirEnt(LongName()[..24], 109, 8, Plus(Some(attr), Some(handle)));
    var d := Crowded(108, odd);
    CrowdedAt(108, odd, 108);
    CrowdedAt(108, odd, 109);
    assert |EntryWords(EntryOf(d, true, 108))| == 52;
    assert Taken(d, true, 109, 10) == 0;
  }

  lemma FullHandleLast(attr: Fattr3, handle: HandleBytes)
    requires |handle| > NFS3_FHSIZE - 4
    ensures var d := FullHandleDir(attr, handle);
      && WellFormed(d) && |d.ents| == 110 && |d.pos| == 111 && d.pos[0] == 0
      && Taken(d, true, 0, 1034) == 109
      && SteadyButLast([1024, 5120], d, true, 0, 109) && Fallen([1024, 5120], d, true, 0, 109)
      && Behind([1024, 5120], d, true, 0, 109) == 2048
  {
    hide Crowded, LongName, Flat, Entries, EntryWords, FallsAt;
    var odd := DirEnt(LongName()[..24], 109, 8, Plus(Some(attr), Some(handle)));
    var d := Crowded(108, odd);
    FullHandleTaken(attr, handle);
    CrowdedAt(108, odd, 0);
    CrowdedTaken(108, odd, 0, 1034);
    LastTaken(attr, handle);
    forall k | 0 <= k < 108 ensures !FallsAt([1024, 5120], d, true, 0, k) {
      CrowdedAt(108, odd, k);
      EqualStays([1024, 5120], d, 0, k);
    }
  }

  lemma FullHandleLength(attr: Fattr3, handle: HandleBytes)
    requires |handle| > NFS3_FHSIZE - 4
    ensures var d := FullHandleDir(attr, handle);
      |d.ents| == 110 && |d.pos| == 111 && |Flat(Entries(d, true, 0, 109))| == 1024
  {
    hide Crowded, LongName, Flat, Entries;
    var odd := DirEnt(LongName()[..24], 109, 8, Plus(Some(attr), Some(handle)));
    var d := Crowded(108, odd);
    FullHandleTaken(attr, handle);
    CrowdedAt(108, odd, 108);
    EntriesLast(d, true, 0, 109);
    FlatSnoc(Entries(d, true, 0, 108), EntryOf(d, true, 108));
  }

  /** READDIRPLUS of that directory: both pages are sent, although the entries take only one. */
  method OverlongReply(mem: array<Word>, dirAttr: Option<Fattr3>, verf: U64, rpcHead: nat, attr: Fattr3,
                       handle: HandleBytes) returns (reply: seq<Word>)
    requires mem.Length > 6144 && |handle| > NFS3_FHSIZE - 4 && TrailerFits(dirAttr, rpcHead)
    modifies mem
    ensures var d := FullHandleDir(attr, handle);
      && |d.ents| == 110 && |d.pos| == 111 && |Flat(Entries(d, true, 0, 109))| == 1024
      && reply != ReplyWords(Reply(dirAttr, verf, DirList(Entries(d, true, 0, 109), false)))
      && |reply| == |PostOpAttrWords(dirAttr)| + 2 + 2048 + 2
  {
    hide FullHandleDir, Taken, Entries, Spoiled, Leaks, KeepsOutside, TrailerFits, Flat, SteadyButLast, Fallen, Behind,
      WellFormed, IndexOf, TakeReply, PostOpAttrWords;
    FullHandleLast(attr, handle);
    FullHandleLength(attr, handle);
    var d := FullHandleDir(attr, handle);
    var pages: seq<nat> := [1024, 5120];
    var file := new DirFile(d, true);
    IndexOfPos(d, 0);
    assert pages[..2] == pages;
    var r, i := Request(file, true, 0, TWO_PAGE_COUNT, TWO_PAGE_COUNT, mem, pages, dirAttr, verf, rpcHead);
    reply := r.value;
  }
}
