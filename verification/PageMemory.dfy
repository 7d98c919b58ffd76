/**
 Reply pages: word memory in which the pages of a reply lie anywhere, in any
 order, without overlapping. A position in the reply is a page number and an
 offset in that page; consecutive positions need not be consecutive addresses.
 */
module PageMemory {
  import opened Paging
  import opened Xdr

  /** No two pages overlap. */
  ghost predicate Disjoint(pages: seq<nat>) {
    forall i, j :: 0 <= i < j < |pages| ==>
      pages[i] + PAGE_WORDS <= pages[j] || pages[j] + PAGE_WORDS <= pages[i]
  }

  /** The address of position `k` of the reply. */
  function Addr(pages: seq<nat>, k: nat): nat
    requires k < |pages| * PAGE_WORDS
  {
    pages[k / PAGE_WORDS] + k % PAGE_WORDS
  }

  /** Address `a` belongs to page `i`. */
  predicate InPage(pages: seq<nat>, i: nat, a: int)
    requires i < |pages|
  {
    pages[i] <= a < pages[i] + PAGE_WORDS
  }

  ghost predicate InSomePage(pages: seq<nat>, a: int) {
    exists i :: 0 <= i < |pages| && InPage(pages, i, a)
  }

  lemma InPageUnique(pages: seq<nat>, i: nat, j: nat, a: int)
    requires Disjoint(pages) && i < |pages| && j < |pages|
    requires InPage(pages, i, a) && InPage(pages, j, a)
    ensures i == j
  {
  }

  lemma AddrInPage(pages: seq<nat>, k: nat)
    requires k < |pages| * PAGE_WORDS
    ensures InPage(pages, k / PAGE_WORDS, Addr(pages, k))
  {
  }

  /** A position is determined by its address. */
  lemma AddrOnlyIn(pages: seq<nat>, k: nat, i: nat)
    requires Disjoint(pages) && k < |pages| * PAGE_WORDS && i < |pages|
    requires InPage(pages, i, Addr(pages, k))
    ensures k == i * PAGE_WORDS + (Addr(pages, k) - pages[i])
  {
    InPageUnique(pages, i, k / PAGE_WORDS, Addr(pages, k));
  }

  lemma AddrInjective(pages: seq<nat>, j: nat, k: nat)
    requires Disjoint(pages) && j < |pages| * PAGE_WORDS && k < |pages| * PAGE_WORDS
    requires Addr(pages, j) == Addr(pages, k)
    ensures j == k
  {
    AddrOnlyIn(pages, j, k / PAGE_WORDS);
    AddrOnlyIn(pages, k, k / PAGE_WORDS);
  }

  /** Positions inside one page are consecutive addresses. */
  lemma AddrStep(pages: seq<nat>, k: nat, d: nat)
    requires k % PAGE_WORDS + d < PAGE_WORDS && k < |pages| * PAGE_WORDS
    ensures k + d < |pages| * PAGE_WORDS && Addr(pages, k + d) == Addr(pages, k) + d
    ensures (k + d) % PAGE_WORDS == k % PAGE_WORDS + d
  {
    assert (k + d) / PAGE_WORDS == k / PAGE_WORDS;
    assert (k + d) % PAGE_WORDS == k % PAGE_WORDS + d;
  }

  /** Every page lies in the memory, and so does the word after it. */
  ghost predicate Inside(pages: seq<nat>, size: nat) {
    forall i :: 0 <= i < |pages| ==> pages[i] + PAGE_WORDS < size
  }

  /** Reading the pages in reply order gives `ws`. */
  ghost predicate Holds(mem: seq<Word>, pages: seq<nat>, ws: seq<Word>) {
    && Inside(pages, |mem|)
    && |ws| <= |pages| * PAGE_WORDS
    && forall k :: 0 <= k < |ws| ==> mem[Addr(pages, k)] == ws[k]
  }

  /** `ws` written over the memory from address `p`. */
  function Spliced(mem: seq<Word>, p: nat, ws: seq<Word>): (r: seq<Word>)
    requires p + |ws| <= |mem|
    ensures |r| == |mem|
  {
    mem[..p] + ws + mem[p + |ws|..]
  }

  lemma SplicedAt(mem: seq<Word>, p: nat, ws: seq<Word>, a: nat)
    requires p + |ws| <= |mem| && a < |mem|
    ensures Spliced(mem, p, ws)[a] == if p <= a < p + |ws| then ws[a - p] else mem[a]
  {
  }

  lemma SplicedTwice(mem: seq<Word>, p: nat, ws: seq<Word>, xs: seq<Word>)
    requires p + |ws| + |xs| <= |mem|
    ensures Spliced(Spliced(mem, p, ws), p + |ws|, xs) == Spliced(mem, p, ws + xs)
  {
  }

  lemma SplicedSlice(mem: seq<Word>, p: nat, ws: seq<Word>)
    requires p + |ws| <= |mem|
    ensures Spliced(mem, p, ws)[p..p + |ws|] == ws
  {
  }

  /** A write away from a stretch of memory does not change it. */
  lemma SplicedApart(mem: seq<Word>, p: nat, ws: seq<Word>, lo: nat, hi: nat)
    requires p + |ws| <= |mem| && lo <= hi <= |mem|
    requires hi <= p || p + |ws| <= lo
    ensures Spliced(mem, p, ws)[lo..hi] == mem[lo..hi]
  {
    var m := Spliced(mem, p, ws);
    forall a | lo <= a < hi ensures m[a] == mem[a] {
      SplicedAt(mem, p, ws, a);
    }
    assert m[lo..hi] == mem[lo..hi];
  }

  /** Writing past the part already in use, in any one page, keeps that part. */
  lemma HoldsElsewhere(mem: seq<Word>, pages: seq<nat>, ws: seq<Word>, i: nat, off: nat, xs: seq<Word>)
    requires Holds(mem, pages, ws) && Disjoint(pages)
    requires i < |pages| && off + |xs| <= PAGE_WORDS && |ws| <= i * PAGE_WORDS + off
    ensures Holds(Spliced(mem, pages[i] + off, xs), pages, ws)
  {
    var m := Spliced(mem, pages[i] + off, xs);
    forall k | 0 <= k < |ws| ensures m[Addr(pages, k)] == ws[k] {
      var a := Addr(pages, k);
      SplicedAt(mem, pages[i] + off, xs, a);
      if pages[i] + off <= a < pages[i] + off + |xs| {
        AddrOnlyIn(pages, k, i);
        assert false;
      }
    }
  }

  /** Writing inside the current page extends what the pages hold. */
  lemma HoldsExtend(mem: seq<Word>, pages: seq<nat>, ws: seq<Word>, xs: seq<Word>)
    requires Holds(mem, pages, ws) && Disjoint(pages)
    requires |ws| < |pages| * PAGE_WORDS && |ws| % PAGE_WORDS + |xs| <= PAGE_WORDS
    ensures Addr(pages, |ws|) + |xs| <= |mem|
    ensures Holds(Spliced(mem, Addr(pages, |ws|), xs), pages, ws + xs)
  {
    var p := Addr(pages, |ws|);
    var i, off := |ws| / PAGE_WORDS, |ws| % PAGE_WORDS;
    HoldsElsewhere(mem, pages, ws, i, off, xs);
    var m := Spliced(mem, p, xs);
    assert |ws + xs| <= |pages| * PAGE_WORDS;
    forall k | 0 <= k < |ws + xs| ensures m[Addr(pages, k)] == (ws + xs)[k] {
      if k >= |ws| {
        AddrStep(pages, |ws|, k - |ws|);
        SplicedAt(mem, p, xs, p + (k - |ws|));
      }
    }
  }

  /** Overwriting one position changes that position and no other. */
  lemma HoldsUpdate(mem: seq<Word>, pages: seq<nat>, ws: seq<Word>, k: nat, w: Word)
    requires Holds(mem, pages, ws) && Disjoint(pages) && k < |ws|
    ensures Holds(mem[Addr(pages, k) := w], pages, ws[k := w])
  {
    forall j | 0 <= j < |ws| && j != k ensures Addr(pages, j) != Addr(pages, k) {
      if Addr(pages, j) == Addr(pages, k) {
        AddrInjective(pages, j, k);
        assert false;
      }
    }
  }

  /** Position `n` is word `off` of page `i`. */
  predicate At(pages: seq<nat>, n: nat, i: nat, off: nat) {
    i < |pages| && off < PAGE_WORDS && n == i * PAGE_WORDS + off
  }

  lemma AddrAt(pages: seq<nat>, n: nat, i: nat, off: nat)
    requires At(pages, n, i, off)
    ensures n / PAGE_WORDS == i && n % PAGE_WORDS == off && n < |pages| * PAGE_WORDS
    ensures Addr(pages, n) == pages[i] + off
  {
  }

  lemma HoldsExtendAt(mem: seq<Word>, pages: seq<nat>, ws: seq<Word>, xs: seq<Word>, i: nat, off: nat)
    requires Holds(mem, pages, ws) && Disjoint(pages) && At(pages, |ws|, i, off) && off + |xs| <= PAGE_WORDS
    ensures pages[i] + off + |xs| <= |mem|
    ensures Holds(Spliced(mem, pages[i] + off, xs), pages, ws + xs)
  {
    AddrAt(pages, |ws|, i, off);
    HoldsExtend(mem, pages, ws, xs);
  }

  /** Writing `xs` first to the next page and then over the current one also extends what the pages hold. */
  lemma HoldsMovedBack(mem: seq<Word>, pages: seq<nat>, ws: seq<Word>, xs: seq<Word>, i: nat, off: nat)
    requires Holds(mem, pages, ws) && Disjoint(pages) && At(pages, |ws|, i, off)
    requires i + 1 < |pages| && off + |xs| <= PAGE_WORDS
    ensures pages[i] + off + |xs| <= |mem| && pages[i + 1] + |xs| <= |mem|
    ensures Holds(Spliced(Spliced(mem, pages[i + 1], xs), pages[i] + off, xs), pages, ws + xs)
  {
    assert Inside(pages, |mem|);
    hide Spliced, Holds;
    HoldsElsewhere(mem, pages, ws, i + 1, 0, xs);
    HoldsExtendAt(Spliced(mem, pages[i + 1], xs), pages, ws, xs, i, off);
  }

  /** The memory after an entry `xs`, written at `tmp`, is moved back in two pieces. */
  function SplitBack(mem: seq<Word>, p: nat, tmp: nat, len1: nat, n: nat): seq<Word>
    requires len1 <= n && p + len1 <= |mem| && tmp + n <= |mem|
  {
    var m := Spliced(mem, p, mem[tmp..tmp + len1]);
    Spliced(m, tmp, m[tmp + len1..tmp + n])
  }

  /** Moving back takes the entry itself apart, since the two pages do not overlap. */
  lemma SplitBackPieces(mem: seq<Word>, p: nat, tmp: nat, len1: nat, xs: seq<Word>)
    requires len1 <= |xs| && p + len1 <= |mem| && tmp + |xs| <= |mem|
    requires p + len1 <= tmp || tmp + |xs| <= p
    ensures var m := Spliced(mem, tmp, xs);
            SplitBack(m, p, tmp, len1, |xs|) == Spliced(Spliced(m, p, xs[..len1]), tmp, xs[len1..])
  {
    hide Spliced;
    var m := Spliced(mem, tmp, xs);
    SplicedSlice(mem, tmp, xs);
    assert m[tmp..tmp + len1] == m[tmp..tmp + |xs|][..len1] == xs[..len1];
    SplicedApart(m, p, xs[..len1], tmp + len1, tmp + |xs|);
    assert m[tmp + len1..tmp + |xs|] == m[tmp..tmp + |xs|][len1..] == xs[len1..];
  }

  lemma HoldsNextPage(mem: seq<Word>, pages: seq<nat>, ws: seq<Word>, xs: seq<Word>, i: nat)
    requires Holds(mem, pages, ws) && Disjoint(pages)
    requires i < |pages| && |ws| == i * PAGE_WORDS && |xs| <= PAGE_WORDS
    ensures Holds(Spliced(mem, pages[i], xs), pages, ws + xs)
  {
    HoldsExtendAt(mem, pages, ws, xs, i, 0);
  }

  /** Position and address of the current end of the reply, `len1` words before the end of page `i`. */
  ghost predicate EndsIn(pages: seq<nat>, ws: seq<Word>, i: nat, len1: nat) {
    i + 1 < |pages| && 0 < len1 <= PAGE_WORDS && |ws| == (i + 1) * PAGE_WORDS - len1
  }

  lemma HoldsPageFilled(mem: seq<Word>, pages: seq<nat>, ws: seq<Word>, xs: seq<Word>, i: nat, len1: nat)
    requires Holds(mem, pages, ws) && Disjoint(pages) && EndsIn(pages, ws, i, len1)
    requires len1 <= |xs| <= PAGE_WORDS
    ensures pages[i] + PAGE_WORDS <= |mem| && pages[i + 1] + |xs| <= |mem|
    ensures Holds(Spliced(Spliced(mem, pages[i + 1], xs), pages[i] + (PAGE_WORDS - len1), xs[..len1]),
                  pages, ws + xs[..len1])
  {
    assert Inside(pages, |mem|);
    hide Spliced, Holds;
    HoldsElsewhere(mem, pages, ws, i + 1, 0, xs);
    HoldsExtendAt(Spliced(mem, pages[i + 1], xs), pages, ws, xs[..len1], i, PAGE_WORDS - len1);
  }

  /** Filling up the current page and continuing in the next one extends what the pages hold. */
  lemma HoldsSplitBack(mem: seq<Word>, pages: seq<nat>, ws: seq<Word>, xs: seq<Word>, i: nat, len1: nat)
    requires Holds(mem, pages, ws) && Disjoint(pages) && EndsIn(pages, ws, i, len1)
    requires len1 <= |xs| <= PAGE_WORDS
    ensures pages[i] + PAGE_WORDS <= |mem| && pages[i + 1] + |xs| <= |mem|
    ensures Holds(SplitBack(Spliced(mem, pages[i + 1], xs), pages[i] + (PAGE_WORDS - len1), pages[i + 1], len1, |xs|),
                  pages, ws + xs)
  {
    assert Inside(pages, |mem|);
    hide Spliced, Holds, SplitBack;
    var p, tmp := pages[i] + (PAGE_WORDS - len1), pages[i + 1];
    SplitBackPieces(mem, p, tmp, len1, xs);
    HoldsPageFilled(mem, pages, ws, xs, i, len1);
    HoldsNextPage(Spliced(Spliced(mem, tmp, xs), p, xs[..len1]), pages, ws + xs[..len1], xs[len1..], i + 1);
    Assoc(ws, xs[..len1], xs[len1..]);
    assert xs[..len1] + xs[len1..] == xs;
  }

  /** Where the `r`-th word after the current end lies. */
  lemma AddrAfterEnd(pages: seq<nat>, ws: seq<Word>, i: nat, len1: nat, r: nat)
    requires EndsIn(pages, ws, i, len1) && r < len1 + PAGE_WORDS
    ensures |ws| + r < |pages| * PAGE_WORDS
    ensures Addr(pages, |ws| + r) == if r < len1 then pages[i] + (PAGE_WORDS - len1) + r else pages[i + 1] + (r - len1)
    ensures (|ws| + r) % PAGE_WORDS == if r < len1 then PAGE_WORDS - len1 + r else r - len1
  {
    if r < len1 {
      assert (|ws| + r) / PAGE_WORDS == i;
    } else {
      assert (|ws| + r) / PAGE_WORDS == i + 1;
    }
  }

  // ----- the rest of the memory -----

  /** Two states of the memory differ inside the pages only. */
  ghost predicate KeepsOutside(pages: seq<nat>, m: seq<Word>, m': seq<Word>) {
    |m| == |m'| && forall a :: 0 <= a < |m| && !InSomePage(pages, a) ==> m'[a] == m[a]
  }

  lemma KeepsOutsideRefl(pages: seq<nat>, m: seq<Word>)
    ensures KeepsOutside(pages, m, m)
  {
  }

  lemma KeepsOutsideTrans(pages: seq<nat>, m: seq<Word>, m1: seq<Word>, m2: seq<Word>)
    requires KeepsOutside(pages, m, m1) && KeepsOutside(pages, m1, m2)
    ensures KeepsOutside(pages, m, m2)
  {
  }

  lemma KeepsOutsideFrom(pages: seq<nat>, m: seq<Word>, m1: seq<Word>, m2: seq<Word>)
    requires KeepsOutside(pages, m, m1)
    ensures KeepsOutside(pages, m, m2) <==> KeepsOutside(pages, m1, m2)
  {
  }

  /** A write inside one page leaves everything outside the pages alone. */
  lemma SplicedKeepsOutside(pages: seq<nat>, m: seq<Word>, i: nat, off: nat, xs: seq<Word>)
    requires Inside(pages, |m|) && i < |pages| && off + |xs| <= PAGE_WORDS
    ensures KeepsOutside(pages, m, Spliced(m, pages[i] + off, xs))
  {
    forall a | 0 <= a < |m| && !InSomePage(pages, a) ensures Spliced(m, pages[i] + off, xs)[a] == m[a] {
      SplicedAt(m, pages[i] + off, xs, a);
      assert !InPage(pages, i, a);
    }
  }

  // ----- one word behind a page -----

  /** Some page begins where page `i` ends. */
  ghost predicate Adjoined(pages: seq<nat>, i: nat)
    requires i < |pages|
  {
    exists j :: 0 <= j < |pages| && pages[j] == pages[i] + PAGE_WORDS
  }

  /** Some page of the reply `ws` begins where page `i` ends, and `w` is not its first word. */
  ghost predicate Overwrites(pages: seq<nat>, ws: seq<Word>, i: nat, w: Word)
    requires i < |pages|
  {
    exists j :: 0 <= j < |pages| && pages[j] == pages[i] + PAGE_WORDS && j * PAGE_WORDS < |ws| &&
      ws[j * PAGE_WORDS] != w
  }

  /** The word behind a page can only be the first word of another. */
  lemma BehindIsFirst(pages: seq<nat>, i: nat, j: nat)
    requires Disjoint(pages) && i < |pages| && j < |pages|
    ensures InPage(pages, j, pages[i] + PAGE_WORDS) <==> pages[j] == pages[i] + PAGE_WORDS
  {
  }

  lemma StoreBehindHolds(mem: seq<Word>, pages: seq<nat>, ws: seq<Word>, i: nat, w: Word)
    requires Holds(mem, pages, ws) && Disjoint(pages) && i < |pages|
    ensures Holds(mem[pages[i] + PAGE_WORDS := w], pages, ws) <==> !Overwrites(pages, ws, i, w)
  {
    var s := pages[i] + PAGE_WORDS;
    var m := mem[s := w];
    if Overwrites(pages, ws, i, w) {
      var j :| 0 <= j < |pages| && pages[j] == s && j * PAGE_WORDS < |ws| && ws[j * PAGE_WORDS] != w;
      AddrAt(pages, j * PAGE_WORDS, j, 0);
      assert m[Addr(pages, j * PAGE_WORDS)] != ws[j * PAGE_WORDS];
    } else {
      forall k | 0 <= k < |ws| ensures m[Addr(pages, k)] == ws[k] {
        if Addr(pages, k) == s {
          var j := k / PAGE_WORDS;
          AddrInPage(pages, k);
          BehindIsFirst(pages, i, j);
          assert k == j * PAGE_WORDS;
        }
      }
    }
  }

  lemma NotAdjoined(pages: seq<nat>, i: nat)
    requires Disjoint(pages) && i < |pages| && !Adjoined(pages, i)
    ensures !InSomePage(pages, pages[i] + PAGE_WORDS)
  {
    var s := pages[i] + PAGE_WORDS;
    forall j | 0 <= j < |pages| ensures !InPage(pages, j, s) {
      BehindIsFirst(pages, i, j);
    }
  }

  lemma StoreBehindKeeps(mem: seq<Word>, pages: seq<nat>, i: nat, w: Word)
    requires Inside(pages, |mem|) && Disjoint(pages) && i < |pages|
    ensures KeepsOutside(pages, mem, mem[pages[i] + PAGE_WORDS := w]) <==>
      Adjoined(pages, i) || mem[pages[i] + PAGE_WORDS] == w
  {
    var s := pages[i] + PAGE_WORDS;
    if Adjoined(pages, i) {
      var j :| 0 <= j < |pages| && pages[j] == s;
      assert InPage(pages, j, s);
    } else {
      NotAdjoined(pages, i);
    }
  }

  /** What a word stored behind page `i` does to the reply and to the rest of the memory. */
  lemma StoreBehind(mem: seq<Word>, pages: seq<nat>, ws: seq<Word>, i: nat, w: Word)
    requires Holds(mem, pages, ws) && Disjoint(pages) && i < |pages|
    ensures pages[i] + PAGE_WORDS < |mem|
    ensures Holds(mem[pages[i] + PAGE_WORDS := w], pages, ws) <==> !Overwrites(pages, ws, i, w)
    ensures KeepsOutside(pages, mem, mem[pages[i] + PAGE_WORDS := w]) <==>
      Adjoined(pages, i) || mem[pages[i] + PAGE_WORDS] == w
  {
    StoreBehindHolds(mem, pages, ws, i, w);
    StoreBehindKeeps(mem, pages, i, w);
  }
}
