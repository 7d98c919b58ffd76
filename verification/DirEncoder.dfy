/**
 The directory reply encoder: entries are written in place into the reply pages,
 split over two pages where they have to be, and the cookie of each entry is
 filled in only when the next entry (or the end of the reply) is known.
 */
module DirEncoder {
  import opened Options
  import opened Paging
  import opened Xdr
  import opened Attr
  import opened DirWire
  import opened PageMemory

  /** NFS3_ENTRY_BAGGAGE: fileid, name length, cookie, next. */
  const ENTRY_BAGGAGE: int := 2 + 1 + 2 + 1

  /** NFS3_ENTRYPLUS_BAGGAGE. It counts 16 words for the handle and none for its length. */
  const ENTRYPLUS_BAGGAGE: int := 1 + 21 + 1 + NFS3_FHSIZE / 4

  datatype Status = Ok | Eof | TooSmall

  function Truncated(name: seq<Byte>): Name {
    if |name| <= MAXNAMLEN then name else name[..MAXNAMLEN]
  }

  /** An entry as it is first written, its cookie still to come. */
  function NewEntry(name: seq<Byte>, ino: U64, baggage: Baggage): Entry {
    Entry(ino, Truncated(name), NFS_OFFSET_MAX, baggage)
  }

  /** The encoder's estimate of the words an entry takes. */
  function Estimate(name: Name, plus: bool): nat {
    QuadLen(|name|) + ENTRY_BAGGAGE + if plus then ENTRYPLUS_BAGGAGE else 0
  }

  /** The baggage stays within ENTRYPLUS_BAGGAGE. */
  predicate SmallHandle(b: Baggage) {
    b.Plus? && b.attr.Some? && b.handle.Some? ==> |b.handle.value| <= NFS3_FHSIZE - 4
  }

  /** The estimate bounds the entry exactly when attributes do not come with a handle of 61 to 64 bytes,
      and even then it is short by a single word. */
  lemma EstimateBounds(e: Entry)
    ensures |EntryWords(e)| <= Estimate(e.name, e.baggage.Plus?) <==> SmallHandle(e.baggage)
    ensures |EntryWords(e)| <= Estimate(e.name, e.baggage.Plus?) + 1
    ensures |EntryWords(e)| <= 110
    ensures e.baggage.Plain? ==> |EntryWords(e)| == Estimate(e.name, false)
    ensures Estimate(e.name, true) == |EntryWords(e.(baggage := Plain))| + 39
  {
  }

  /** The entries with the last one's cookie filled in. */
  function Patched(es: seq<Entry>, cookie: U64): (r: seq<Entry>)
    ensures |r| == |es|
  {
    if es == [] then [] else es[..|es| - 1] + [es[|es| - 1].(cookie := cookie)]
  }

  lemma PatchedNone(cookie: U64)
    ensures Patched([], cookie) == []
  {
  }

  /** Where the last entry's cookie starts in the flat encoding. */
  ghost function CookiePos(es: seq<Entry>): nat
    requires es != []
  {
    |Flat(es[..|es| - 1])| + CookieAt(es[|es| - 1])
  }

  /** `s` with its words `k` and `k + 1` replaced by the two halves of `v`. */
  function WithCookie(s: seq<Word>, k: nat, v: U64): (r: seq<Word>)
    requires k + 1 < |s|
    ensures |r| == |s|
  {
    s[k := Hyper(v)[0]][k + 1 := Hyper(v)[1]]
  }

  lemma PatchedEntry(e: Entry, cookie: U64)
    ensures CookieAt(e.(cookie := cookie)) == CookieAt(e) && CookieAt(e) + 1 < |EntryWords(e)|
    ensures EntryWords(e.(cookie := cookie)) == WithCookie(EntryWords(e), CookieAt(e), cookie)
  {
    hide Hyper, Opaque, BaggageWords;
    assert HeadWords(e.(cookie := cookie)) == HeadWords(e);
  }

  lemma ReplaceInTail(a: seq<Word>, b: seq<Word>, k: nat, v: U64)
    requires k + 1 < |b|
    ensures a + WithCookie(b, k, v) == WithCookie(a + b, |a| + k, v)
  {
    hide Hyper;
  }

  lemma LastApart(es: seq<Entry>, cookie: U64)
    requires es != []
    ensures var front, e := es[..|es| - 1], es[|es| - 1];
      es == front + [e] && Patched(es, cookie) == front + [e.(cookie := cookie)]
  {
  }

  lemma CookiePosSnoc(front: seq<Entry>, e: Entry)
    ensures CookiePos(front + [e]) == |Flat(front)| + CookieAt(e)
    ensures Flat(front + [e]) == Flat(front) + EntryWords(e) && CookieAt(e) + 1 < |EntryWords(e)|
  {
    assert (front + [e])[..|front|] == front;
  }

  /** Patching the cookie changes its two words of the flat encoding and nothing else. */
  lemma PatchedFlat(es: seq<Entry>, cookie: U64)
    requires es != []
    ensures CookiePos(es) + 1 < |Flat(es)|
    ensures CookiePos(Patched(es, cookie)) == CookiePos(es)
    ensures Flat(Patched(es, cookie)) == WithCookie(Flat(es), CookiePos(es), cookie)
  {
    hide EntryWords, WithCookie, Flat, BaggageWords, CookieAt, Patched, CookiePos;
    var front, e := es[..|es| - 1], es[|es| - 1];
    var e' := e.(cookie := cookie);
    LastApart(es, cookie);
    CookiePosSnoc(front, e);
    CookiePosSnoc(front, e');
    PatchedEntry(e, cookie);
    ReplaceInTail(Flat(front), EntryWords(e), CookieAt(e), cookie);
  }

  /** `v` written to two words of memory, high half first. */
  function WithHyper(mem: seq<Word>, hi: nat, lo: nat, v: U64): seq<Word>
    requires hi < |mem| && lo < |mem|
  {
    mem[hi := Hyper(v)[0]][lo := Hyper(v)[1]]
  }

  /** Writing the two words at the addresses of the last cookie patches it in the pages. */
  lemma PatchHolds(mem: seq<Word>, pages: seq<nat>, es: seq<Entry>, next: U64)
    requires es != [] && Disjoint(pages) && Holds(mem, pages, Flat(es))
    ensures CookiePos(es) + 1 < |Flat(es)| <= |pages| * PAGE_WORDS
    ensures Addr(pages, CookiePos(es)) < |mem| && Addr(pages, CookiePos(es) + 1) < |mem|
    ensures Holds(WithHyper(mem, Addr(pages, CookiePos(es)), Addr(pages, CookiePos(es) + 1), next), pages,
                  Flat(Patched(es, next)))
  {
    hide Flat, Patched, CookiePos;
    var k := CookiePos(es);
    PatchedFlat(es, next);
    AddrInPage(pages, k);
    AddrInPage(pages, k + 1);
    HoldsUpdate(mem, pages, Flat(es), k, Hyper(next)[0]);
    HoldsUpdate(mem[Addr(pages, k) := Hyper(next)[0]], pages, Flat(es)[k := Hyper(next)[0]], k + 1, Hyper(next)[1]);
  }

  /** Words `lo` and `lo + 1` of the flat encoding are on different pages. */
  predicate Straddles(k: nat) {
    k % PAGE_WORDS == PAGE_WORDS - 1
  }

  /** Entry `e` follows `ws` in the pages, and the cookie pointers are on its cookie. */
  ghost predicate Encoded(m: seq<Word>, pages: seq<nat>, offset: Option<nat>, offset1: Option<nat>, ws: seq<Word>,
                          e: Entry) {
    && Holds(m, pages, ws + EntryWords(e))
    && |ws| + |EntryWords(e)| <= |pages| * PAGE_WORDS
    && offset == Some(Addr(pages, |ws| + CookieAt(e)))
    && offset1 == if Straddles(|ws| + CookieAt(e)) then Some(Addr(pages, |ws| + CookieAt(e) + 1)) else None
  }

  /** The pointers denote the two words of the last entry's cookie; the second one is only ever set for a straddling
      cookie. */
  ghost predicate CookiePointers(pages: seq<nat>, es: seq<Entry>, offset: Option<nat>, offset1: Option<nat>) {
    if es == [] then offset == None && offset1 == None
    else
      && CookiePos(es) + 1 < |pages| * PAGE_WORDS
      && offset == Some(Addr(pages, CookiePos(es)))
      && (offset1.Some? ==> Straddles(CookiePos(es)) && offset1.value == Addr(pages, CookiePos(es) + 1))
  }

  /** Once encoded, `e` is the last of the entries and its cookie is the pending one. */
  lemma EncodedEntry(m: seq<Word>, pages: seq<nat>, offset: Option<nat>, offset1: Option<nat>, es: seq<Entry>, e: Entry)
    requires Encoded(m, pages, offset, offset1, Flat(es), e)
    ensures Flat(es + [e]) == Flat(es) + EntryWords(e) && CookiePos(es + [e]) == |Flat(es)| + CookieAt(e)
    ensures Holds(m, pages, Flat(es + [e]))
    ensures CookiePointers(pages, es + [e], offset, offset1)
    ensures Straddles(CookiePos(es + [e])) ==> offset1.Some?
  {
    hide EntryWords, Holds, Addr, Straddles, Flat, CookiePos, CookieAt, BaggageWords;
    CookiePosSnoc(es, e);
  }

  lemma EncodedIntro(m: seq<Word>, pages: seq<nat>, offset: Option<nat>, offset1: Option<nat>, ws: seq<Word>, e: Entry)
    requires Holds(m, pages, ws + EntryWords(e))
    requires |ws| + |EntryWords(e)| <= |pages| * PAGE_WORDS
    requires offset == Some(Addr(pages, |ws| + CookieAt(e)))
    requires offset1 == if Straddles(|ws| + CookieAt(e)) then Some(Addr(pages, |ws| + CookieAt(e) + 1)) else None
    ensures Encoded(m, pages, offset, offset1, ws, e)
  {
  }

  lemma CookieInPage(pages: seq<nat>, n: nat, i: nat, off: nat, at: nat)
    requires At(pages, n, i, off) && off + at + 2 <= PAGE_WORDS
    ensures n + at < |pages| * PAGE_WORDS && Addr(pages, n + at) == pages[i] + off + at
    ensures !Straddles(n + at)
  {
    AddrAt(pages, n + at, i, off + at);
  }

  lemma CookieAcross(pages: seq<nat>, ws: seq<Word>, i: nat, len1: nat, at: nat)
    requires EndsIn(pages, ws, i, len1) && at + 1 < PAGE_WORDS
    ensures |ws| + at + 1 < |pages| * PAGE_WORDS
    ensures Addr(pages, |ws| + at) ==
      if at < len1 then pages[i] + (PAGE_WORDS - len1) + at else pages[i + 1] + (at - len1)
    ensures Straddles(|ws| + at) <==> at == len1 - 1
    ensures at == len1 - 1 ==> Addr(pages, |ws| + at + 1) == pages[i + 1]
  {
    AddrAfterEnd(pages, ws, i, len1, at);
    AddrAfterEnd(pages, ws, i, len1, at + 1);
  }

  /** The one way an accepted entry can leave `buffer` outside the reply: its handle made it a word longer than
      estimated, it ends exactly at the end of its page, and the next page lies elsewhere. */
  ghost predicate FallsOff(pages: seq<nat>, n: nat, e: Entry) {
    var i := n / PAGE_WORDS;
    && !SmallHandle(e.baggage)
    && n % PAGE_WORDS + Estimate(e.name, e.baggage.Plus?) == PAGE_WORDS - 1
    && i + 1 < |pages| && pages[i + 1] != pages[i] + PAGE_WORDS
  }

  /** Patching a cookie with the value it holds changes nothing. */
  lemma PatchedAlready(es: seq<Entry>, cookie: U64)
    requires es != [] && es[|es| - 1].cookie == cookie
    ensures Patched(es, cookie) == es
    ensures CookiePos(es) + 1 < |Flat(es)|
    ensures Flat(es)[CookiePos(es)] == Hyper(cookie)[0] && Flat(es)[CookiePos(es) + 1] == Hyper(cookie)[1]
  {
    hide Flat, CookiePos;
    PatchedFlat(es, cookie);
  }

  /** The low half of a straddling cookie went to the word behind its page instead. The reply is still right exactly
      if that does not overwrite the first word of one of its pages with another value; the memory outside the pages
      is as before exactly if the word belongs to one of them or had this value anyway. */
  ghost predicate Strayed(pages: seq<nat>, es: seq<Entry>, next: U64, m: seq<Word>, m': seq<Word>) {
    && es != []
    && var i, w := CookiePos(es) / PAGE_WORDS, next % TWO32;
       && i < |pages| && pages[i] + PAGE_WORDS < |m| && m' == m[pages[i] + PAGE_WORDS := w]
       && (Holds(m', pages, Flat(es)) <==> !Overwrites(pages, Flat(es), i, w))
       && (KeepsOutside(pages, m, m') <==> Adjoined(pages, i) || m[pages[i] + PAGE_WORDS] == w)
  }

  class ReaddirRes {
    /** Word memory, and in it the reply pages the argument decoder reserved (up to rq_next_page). */
    const mem: array<Word>
    const pages: seq<nat>
    /** The pages of rq_respages after those, up to its terminating null. */
    const beyond: seq<nat>
    /** The word budget of the whole reply: count/4 - 2. */
    const limit: int

    var buffer: nat
    var buflen: int
    var offset: Option<nat>
    var offset1: Option<nat>
    var err: Status

    /** The entries accepted so far, with the cookies they hold now. */
    ghost var entries: seq<Entry>

    ghost predicate Layout() {
      && Disjoint(pages)
      && Inside(pages, mem.Length)
      && limit <= |pages| * PAGE_WORDS - 2
    }

    /** What holds between calls, wherever `buffer` points. */
    ghost predicate Core()
      reads this, mem
    {
      && Layout()
      && Holds(mem[..], pages, Flat(entries))
      && |Flat(entries)| + buflen == limit
      && (entries != [] ==> buflen >= -1)
      && CookiePointers(pages, entries, offset, offset1)
    }

    /** `buffer` is the address of the next position, strictly inside a reserved page. */
    ghost predicate Valid()
      reads this, mem
    {
      && Core()
      && (|pages| > 0 ==> |Flat(entries)| < |pages| * PAGE_WORDS && buffer == Addr(pages, |Flat(entries)|))
    }

    /** A cookie that straddles two pages still has its second pointer. */
    ghost predicate Pending()
      reads this
    {
      entries != [] && Straddles(CookiePos(entries)) ==> offset1.Some?
    }

    constructor (mem: array<Word>, pages: seq<nat>, beyond: seq<nat>, limit: int)
      requires Disjoint(pages) && Inside(pages, mem.Length)
      requires limit <= |pages| * PAGE_WORDS - 2
      ensures Valid() && Pending() && entries == [] && err == Ok && buflen == limit
      ensures this.mem == mem && this.pages == pages && this.beyond == beyond && this.limit == limit
    {
      this.mem, this.pages, this.beyond, this.limit := mem, pages, beyond, limit;
      buffer := if |pages| == 0 then 0 else pages[0];
      buflen := limit;
      offset, offset1 := None, None;
      err := Ok;
      entries := [];
    }

    /** memcpy of words into the reply memory. */
    method Store(p: nat, ws: seq<Word>)
      requires p + |ws| <= mem.Length
      modifies mem
      ensures mem[..] == Spliced(old(mem[..]), p, ws)
    {
      for i := 0 to |ws|
        invariant forall a :: 0 <= a < mem.Length ==>
          mem[a] == if p <= a < p + i then ws[a - p] else old(mem[a])
      {
        mem[p + i] := ws[i];
      }
      forall a | 0 <= a < mem.Length ensures mem[a] == Spliced(old(mem[..]), p, ws)[a] {
        SplicedAt(old(mem[..]), p, ws, a);
      }
    }

    /** memmove of words inside the reply memory. */
    method Move(dst: nat, src: nat, n: nat)
      requires dst + n <= mem.Length && src + n <= mem.Length
      modifies mem
      ensures mem[..] == Spliced(old(mem[..]), dst, old(mem[..])[src..src + n])
    {
      var ws := mem[src..src + n];
      Store(dst, ws);
    }

    /** Move the first `len1` of `n` words at `tmp` to `p`, and the rest down to `tmp`. */
    method SplitMove(p: nat, tmp: nat, len1: nat, n: nat)
      requires len1 <= n && p + len1 <= mem.Length && tmp + n <= mem.Length
      modifies mem
      ensures mem[..] == SplitBack(old(mem[..]), p, tmp, len1, n)
    {
      hide Spliced;
      Move(p, tmp, len1);
      Move(tmp, tmp + len1, n - len1);
    }

    /** encode_entry_baggage followed, for READDIRPLUS, by encode_entryplus_baggage, at address `p`. */
    method Build(p: nat, e: Entry) returns (p': nat)
      requires p + |EntryWords(e)| <= mem.Length && e.cookie == NFS_OFFSET_MAX
      modifies mem, `offset
      ensures mem[..] == Spliced(old(mem[..]), p, EntryWords(e))
      ensures offset == Some(p + CookieAt(e)) && p' == p + |EntryWords(e)|
    {
      hide Spliced;
      ghost var m := mem[..];
      Store(p, [1]);
      Store(p + 1, Hyper(e.fileid));
      SplicedTwice(m, p, [1], Hyper(e.fileid));
      Store(p + 3, Opaque(e.name));
      SplicedTwice(m, p, [1] + Hyper(e.fileid), Opaque(e.name));
      p' := p + CookieAt(e);
      offset := Some(p');
      Store(p', Hyper(NFS_OFFSET_MAX));
      SplicedTwice(m, p, HeadWords(e), Hyper(e.cookie));
      p' := p' + 2;
      Store(p', BaggageWords(e.baggage));
      SplicedTwice(m, p, HeadWords(e) + Hyper(e.cookie), BaggageWords(e.baggage));
      p' := p' + |BaggageWords(e.baggage)|;
    }

    /** Fill in the cookie of the last entry: encode_entry does this when the next entry comes, and the READDIR and
        READDIRPLUS procedures when the directory has been read.
        If a refused entry has already patched a straddling cookie, its second pointer is gone and the low word
        is written to the word behind the page. */
    method PatchCookie(next: U64)
      requires Core()
      requires !Pending() ==> entries[|entries| - 1].cookie == next
      modifies mem, `offset1, `entries
      ensures entries == Patched(old(entries), next) && |Flat(entries)| == |Flat(old(entries))|
      ensures offset1 == None
      ensures old(Pending()) ==> Core() && KeepsOutside(pages, old(mem[..]), mem[..])
      ensures !old(Pending()) ==> Strayed(pages, entries, next, old(mem[..]), mem[..])
    {
      hide Holds, Flat, Patched, CookiePos, Addr, Straddles, KeepsOutside, WithHyper, Strayed;
      ghost var m: seq<Word> := mem[..];
      if offset.Some? {
        if Pending() {
          PendingPatch(next);
        } else {
          StrayPatch(next);
        }
        if offset1.Some? {
          StoreHyper(offset.value, offset1.value, next);
          offset1 := None;
        } else {
          StoreHyper(offset.value, offset.value + 1, next);
        }
        entries := Patched(entries, next);
      } else {
        KeepsOutsideRefl(pages, m);
        PatchedNone(next);
      }
    }

    /** What writing both halves through the pointers does while they are intact. */
    lemma PendingPatch(next: U64)
      requires Core() && Pending() && entries != []
      ensures |Flat(Patched(entries, next))| == |Flat(entries)|
      ensures CookiePointers(pages, Patched(entries, next), offset, None)
      ensures var lo := if offset1.Some? then offset1.value else offset.value + 1;
              && offset.value < mem.Length && lo < mem.Length
              && Holds(WithHyper(mem[..], offset.value, lo, next), pages, Flat(Patched(entries, next)))
              && KeepsOutside(pages, mem[..], WithHyper(mem[..], offset.value, lo, next))
    {
      hide Holds, Flat, Patched, CookiePos, Addr, Straddles, KeepsOutside, WithHyper;
      PatchedFlat(entries, next);
      PatchHolds(mem[..], pages, entries, next);
      FramePatch(mem[..], CookiePos(entries), next);
      CookieAddresses(CookiePos(entries));
    }

    /** A 64-bit value in network order, its halves at `hi` and `lo`. */
    method StoreHyper(hi: nat, lo: nat, v: U64)
      requires hi < mem.Length && lo < mem.Length
      modifies mem
      ensures mem[..] == WithHyper(old(mem[..]), hi, lo, v)
    {
      mem[hi] := v / TWO32;
      mem[lo] := v % TWO32;
    }

    lemma FramePatch(m: seq<Word>, k: nat, v: U64)
      requires Layout() && |m| == mem.Length && k + 1 < |pages| * PAGE_WORDS
      ensures Addr(pages, k) < |m| && Addr(pages, k + 1) < |m|
      ensures KeepsOutside(pages, m, WithHyper(m, Addr(pages, k), Addr(pages, k + 1), v))
    {
      CookieAddresses(k);
      AddrInPage(pages, k);
      AddrInPage(pages, k + 1);
    }

    /** The two words of a cookie are in reserved pages, next to each other unless they straddle. */
    lemma CookieAddresses(k: nat)
      requires Layout() && k + 1 < |pages| * PAGE_WORDS
      ensures InSomePage(pages, Addr(pages, k)) && InSomePage(pages, Addr(pages, k + 1))
      ensures !Straddles(k) ==> Addr(pages, k + 1) == Addr(pages, k) + 1
    {
      AddrInPage(pages, k);
      AddrInPage(pages, k + 1);
      if !Straddles(k) {
        AddrStep(pages, k, 1);
      }
    }

    /** Which page is being filled: the first reserved page that contains `buffer`. */
    method CurrentPage() returns (i: nat)
      requires Valid() && |pages| > 0
      ensures i == |Flat(entries)| / PAGE_WORDS && i < |pages|
      ensures InPage(pages, i, buffer) && buffer == pages[i] + |Flat(entries)| % PAGE_WORDS
    {
      hide Flat, Holds, CookiePos;
      ghost var k := |Flat(entries)|;
      AddrInPage(pages, k);
      i := 0;
      while i < |pages| && !InPage(pages, i, buffer)
        invariant i <= k / PAGE_WORDS
      {
        i := i + 1;
      }
      InPageUnique(pages, i, k / PAGE_WORDS, buffer);
    }

    lemma FrameSplit(m: seq<Word>, i: nat, len1: nat, n: nat)
      requires Layout() && |m| == mem.Length && i + 1 < |pages| && len1 <= n <= PAGE_WORDS
      ensures KeepsOutside(pages, m, SplitBack(m, pages[i] + (PAGE_WORDS - len1), pages[i + 1], len1, n))
    {
      hide Spliced, KeepsOutside;
      var p, tmp := pages[i] + (PAGE_WORDS - len1), pages[i + 1];
      SplicedKeepsOutside(pages, m, i, PAGE_WORDS - len1, m[tmp..tmp + len1]);
      var m1 := Spliced(m, p, m[tmp..tmp + len1]);
      SplicedKeepsOutside(pages, m1, i + 1, 0, m1[tmp + len1..tmp + n]);
      KeepsOutsideTrans(pages, m, m1, SplitBack(m, p, tmp, len1, n));
    }

    /** Room is left for the whole entry: it is written where it belongs. */
    method EncodeHere(e: Entry, ghost i: nat, ghost off: nat, ghost ws: seq<Word>) returns (p: nat)
      requires Layout() && Holds(mem[..], pages, ws) && e.cookie == NFS_OFFSET_MAX && offset1 == None
      requires At(pages, |ws|, i, off) && buffer == pages[i] + off && off + |EntryWords(e)| <= PAGE_WORDS
      modifies mem, `offset
      ensures Encoded(mem[..], pages, offset, offset1, ws, e) && p == buffer + |EntryWords(e)|
      ensures KeepsOutside(pages, old(mem[..]), mem[..])
    {
      hide Holds, EntryWords, Spliced, Straddles, KeepsOutside, Addr, Encoded, Disjoint, Inside, BaggageWords, CookieAt;
      CookieInPage(pages, |ws|, i, off, CookieAt(e));
      ghost var m := mem[..];
      HoldsExtendAt(m, pages, ws, EntryWords(e), i, off);
      SplicedKeepsOutside(pages, m, i, off, EntryWords(e));
      p := Build(buffer, e);
      EncodedIntro(mem[..], pages, offset, offset1, ws, e);
    }

    /** The entry at `tmp` fits the current page after all. */
    method MoveBack(e: Entry, tmp: nat, n: nat, ghost i: nat, ghost off: nat, ghost ws: seq<Word>, ghost m: seq<Word>)
      returns (p: nat)
      requires Layout() && i + 1 < |pages| && tmp == pages[i + 1]
      requires |m| == mem.Length && Holds(m, pages, ws) && |EntryWords(e)| == n
      requires At(pages, |ws|, i, off) && buffer == pages[i] + off && off + n < PAGE_WORDS
      requires mem[..] == Spliced(m, tmp, EntryWords(e))
      requires offset == Some(tmp + CookieAt(e)) && offset1 == None
      modifies mem, `offset
      ensures Encoded(mem[..], pages, offset, offset1, ws, e)
      ensures |ws| + n < |pages| * PAGE_WORDS && p == Addr(pages, |ws| + n)
      ensures KeepsOutside(pages, old(mem[..]), mem[..])
    {
      hide Holds, EntryWords, Spliced, Straddles, KeepsOutside, Addr, Encoded;
      CookieInPage(pages, |ws|, i, off, CookieAt(e));
      AddrAt(pages, |ws| + n, i, off + n);
      SplicedSlice(m, tmp, EntryWords(e));
      SplicedKeepsOutside(pages, mem[..], i, off, EntryWords(e));
      HoldsMovedBack(m, pages, ws, EntryWords(e), i, off);
      Move(buffer, tmp, n);
      p := buffer + n;
      offset := Some(buffer + (offset.value - tmp));
      EncodedIntro(mem[..], pages, offset, offset1, ws, e);
    }

    /** The three places a cookie can end up in when its entry is split `len1` words before a page end. */
    method RelocateCookie(tmp: nat, len1: nat, ghost r: nat)
      requires offset == Some(tmp + r) && offset1 == None
      modifies `offset, `offset1
      ensures offset == Some(if r < len1 then buffer + r else tmp + (r - len1))
      ensures offset1 == if r == len1 - 1 then Some(tmp) else None
    {
      var at := offset.value - tmp;
      if at + 2 <= len1 {
        offset := Some(buffer + at);
      } else if at >= len1 {
        offset := Some(offset.value - len1);
      } else {
        assert at == len1 - 1;  // the BUG_ON of the source cannot fire
        offset := Some(buffer + at);
        offset1 := Some(tmp);
      }
    }

    /** The entry at `tmp` fills the current page and goes on in the next. */
    method MoveBackSplit(e: Entry, tmp: nat, len1: nat, n: nat, ghost i: nat, ghost ws: seq<Word>, ghost m: seq<Word>)
      returns (p: nat)
      requires Layout() && i + 1 < |pages| && tmp == pages[i + 1]
      requires |m| == mem.Length && Holds(m, pages, ws) && len1 <= |EntryWords(e)| == n < PAGE_WORDS
      requires EndsIn(pages, ws, i, len1) && buffer == pages[i] + (PAGE_WORDS - len1)
      requires mem[..] == Spliced(m, tmp, EntryWords(e))
      requires offset == Some(tmp + CookieAt(e)) && offset1 == None
      modifies mem, `offset, `offset1
      ensures Encoded(mem[..], pages, offset, offset1, ws, e)
      ensures |ws| + n < |pages| * PAGE_WORDS && p == Addr(pages, |ws| + n)
      ensures KeepsOutside(pages, old(mem[..]), mem[..])
    {
      hide Holds, Spliced, SplitBack, EntryWords, KeepsOutside, Addr, Straddles, Encoded;
      CookieAcross(pages, ws, i, len1, CookieAt(e));
      AddrAfterEnd(pages, ws, i, len1, n);
      HoldsSplitBack(m, pages, ws, EntryWords(e), i, len1);
      FrameSplit(mem[..], i, len1, n);
      RelocateCookie(tmp, len1, CookieAt(e));
      SplitMove(buffer, tmp, len1, n);
      p := tmp + (n - len1);
      EncodedIntro(mem[..], pages, offset, offset1, ws, e);
    }

    /** The entry may not fit: it is built in the next page and moved back, whole or in two pieces. */
    method EncodeAcross(e: Entry, i: nat, ghost off: nat, ghost ws: seq<Word>) returns (p: nat)
      requires Layout() && Holds(mem[..], pages, ws) && e.cookie == NFS_OFFSET_MAX && offset1 == None
      requires At(pages, |ws|, i, off) && i + 1 < |pages| && buffer == pages[i] + off
      modifies mem, `offset, `offset1
      ensures Encoded(mem[..], pages, offset, offset1, ws, e) && |ws| + |EntryWords(e)| < |pages| * PAGE_WORDS
      ensures p == Addr(pages, |ws| + |EntryWords(e)|)
      ensures KeepsOutside(pages, old(mem[..]), mem[..])
    {
      EstimateBounds(e);
      hide EntryWords, Holds, Spliced, KeepsOutside, Encoded, Addr;
      ghost var m := mem[..];
      var tmp, len1 := pages[i + 1], pages[i] + PAGE_WORDS - buffer;
      SplicedKeepsOutside(pages, m, i + 1, 0, EntryWords(e));
      var p1 := Build(tmp, e);
      ghost var m1 := mem[..];
      var words := p1 - tmp;
      if words < len1 {
        p := MoveBack(e, tmp, words, i, off, ws, m);
      } else {
        p := MoveBackSplit(e, tmp, len1, words, i, ws, m);
      }
      KeepsOutsideTrans(pages, m, m1, mem[..]);
    }

    /** Write `e` after the entries so far, in whichever way its place asks for. */
    method Place(e: Entry, elen: nat) returns (p: nat)
      requires Valid() && e.cookie == NFS_OFFSET_MAX && offset1 == None
      requires elen == Estimate(e.name, e.baggage.Plus?) <= buflen
      modifies mem, `offset, `offset1
      ensures Encoded(mem[..], pages, offset, offset1, Flat(entries), e)
      ensures |Flat(entries)| + |EntryWords(e)| < |pages| * PAGE_WORDS
      ensures p == Addr(pages, |Flat(entries)| + |EntryWords(e)|) <==> !FallsOff(pages, |Flat(entries)|, e)
      ensures FallsOff(pages, |Flat(entries)|, e) ==> p == pages[|Flat(entries)| / PAGE_WORDS] + PAGE_WORDS
      ensures KeepsOutside(pages, old(mem[..]), mem[..])
    {
      EstimateBounds(e);
      hide Flat, EntryWords, Holds, CookiePos, Encoded, KeepsOutside, Addr, Estimate, SmallHandle;
      p := 0;
      var i := CurrentPage();
      ghost var ws, off := Flat(entries), |Flat(entries)| % PAGE_WORDS;
      if buffer + elen < pages[i] + PAGE_WORDS {
        p := EncodeHere(e, i, off, ws);
        EndOfEntry(|ws|, i, off, e);
      } else if i + 1 < |pages| + |beyond| {
        p := EncodeAcross(e, i, off, ws);
      } else {
        assert false;  // never TooSmall for want of a page: the budget ends before the last reserved page does
      }
    }

    /** Where an entry written in its page ends. */
    lemma EndOfEntry(n: nat, i: nat, off: nat, e: Entry)
      requires Layout() && At(pages, n, i, off) && off + |EntryWords(e)| <= PAGE_WORDS
      requires off + Estimate(e.name, e.baggage.Plus?) < PAGE_WORDS
      requires n + |EntryWords(e)| < |pages| * PAGE_WORDS
      ensures FallsOff(pages, n, e) <==> Addr(pages, n + |EntryWords(e)|) != pages[i] + off + |EntryWords(e)|
      ensures FallsOff(pages, n, e) ==> off + |EntryWords(e)| == PAGE_WORDS && i == n / PAGE_WORDS
    {
      EstimateBounds(e);
      hide EntryWords, SmallHandle, Estimate;
      AddrAt(pages, n, i, off);
      if off + |EntryWords(e)| < PAGE_WORDS {
        AddrAt(pages, n + |EntryWords(e)|, i, off + |EntryWords(e)|);
      } else {
        AddrAt(pages, n + |EntryWords(e)|, i + 1, 0);
      }
    }

    /** encode_entry: nfs3svc_encode_entry and nfs3svc_encode_entry_plus. */
    method EncodeEntry(name: seq<Byte>, next: U64, ino: U64, baggage: Baggage) returns (accepted: bool)
      requires Core() && Pending() && (Valid() || buflen < Estimate(Truncated(name), baggage.Plus?))
      modifies mem, `buffer, `buflen, `offset, `offset1, `err, `entries
      ensures Core() && KeepsOutside(pages, old(mem[..]), mem[..])
      ensures accepted <==> old(buflen) >= Estimate(Truncated(name), baggage.Plus?)
      ensures !accepted ==> err == TooSmall && offset1 == None && buflen == old(buflen) && buffer == old(buffer)
      ensures !accepted ==> entries == Patched(old(entries), next)
      ensures accepted ==>
        var e, n := NewEntry(name, ino, baggage), |Flat(old(entries))|;
        && err == Ok && Pending()
        && entries == Patched(old(entries), next) + [e]
        && buflen == old(buflen) - |EntryWords(e)|
        && (Valid() <==> !FallsOff(pages, n, e))
        && (FallsOff(pages, n, e) ==> buffer == pages[n / PAGE_WORDS] + PAGE_WORDS)
    {
      hide Flat, EntryWords, Holds, CookiePos, Encoded, KeepsOutside, Addr, Estimate, FallsOff, Patched, Straddles,
        CookiePointers, Strayed;
      PatchCookie(next);
      ghost var m := mem[..];
      var e := NewEntry(name, ino, baggage);
      var elen := Estimate(e.name, e.baggage.Plus?);
      if buflen < elen {
        err := TooSmall;
        return false;
      }
      var p := Place(e, elen);
      EstimateBounds(e);
      KeepsOutsideTrans(pages, old(mem[..]), m, mem[..]);
      EncodedEntry(mem[..], pages, offset, offset1, entries, e);
      buflen := buflen - |EntryWords(e)|;
      buffer := p;
      err := Ok;
      entries := entries + [e];
      accepted := true;
    }

    /** What writing both halves from the last word of a page does. */
    lemma StrayPatch(next: U64)
      requires Core() && !Pending() && entries[|entries| - 1].cookie == next
      ensures offset.Some? && offset.value + 1 < mem.Length
      ensures Patched(entries, next) == entries
      ensures Strayed(pages, entries, next, mem[..], WithHyper(mem[..], offset.value, offset.value + 1, next))
    {
      hide Flat, CookiePos, Patched, Overwrites, Adjoined, KeepsOutside;
      var k := CookiePos(entries);
      PatchedAlready(entries, next);
      AddrInPage(pages, k);
      assert mem[..][Addr(pages, k)] == Hyper(next)[0];
      var i := k / PAGE_WORDS;
      StoreBehind(mem[..], pages, Flat(entries), i, next % TWO32);
      assert WithHyper(mem[..], offset.value, offset.value + 1, next) == mem[..][pages[i] + PAGE_WORDS := next % TWO32];
    }

    /** The page scan of nfsd3_proc_readdirplus: the position of `buffer`, or all the pages if it is in none of them.
        That is the number of words written as long as no entry fell off. */
    method CountWords() returns (count: nat)
      requires Core() && |pages| > 0
      ensures InSomePage(pages, buffer) ==> count < |pages| * PAGE_WORDS && Addr(pages, count) == buffer
      ensures !InSomePage(pages, buffer) ==> count == |pages| * PAGE_WORDS
      ensures Valid() ==> count == |Flat(entries)|
    {
      hide Flat, Holds, CookiePointers;
      count := 0;
      var i := 0;
      while i < |pages|
        invariant i <= |pages| && count == i * PAGE_WORDS
        invariant forall j :: 0 <= j < i ==> !InPage(pages, j, buffer)
      {
        if InPage(pages, i, buffer) {
          count := count + (buffer - pages[i]);
          AddrAt(pages, count, i, buffer - pages[i]);
          if Valid() {
            AddrInjective(pages, count, |Flat(entries)|);
          }
          return;
        }
        count := count + PAGE_WORDS;
        i := i + 1;
      }
      if Valid() {
        AddrInPage(pages, |Flat(entries)|);
      }
    }
  }
}
