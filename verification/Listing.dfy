/**
 Paging through a directory: what one READDIR or READDIRPLUS reply lists, and what a
 client that goes on from cookie to cookie gets in the end.
 */
module Listing {
  import opened Options
  import opened Paging
  import opened Xdr
  import opened Attr
  import opened DirWire
  import opened DirEncoder
  import DirentBuffer

  /** An entry as the file system has it. `plus` is what READDIRPLUS finds out about it. */
  datatype DirEnt = DirEnt(name: seq<Byte>, ino: U64, dtype: Word, plus: Baggage)

  /** A directory that does not change: its entries, and the file position of each and of the end. */
  datatype Directory = Directory(ents: seq<DirEnt>, pos: seq<U64>)

  /** Positions are not negative as a loff_t. */
  ghost predicate Seekable(pos: seq<U64>) {
    forall i :: 0 <= i < |pos| ==> pos[i] <= NFS_OFFSET_MAX
  }

  ghost predicate Distinct(pos: seq<U64>) {
    forall i, j :: 0 <= i < j < |pos| ==> pos[i] != pos[j]
  }

  /** Each entry can be buffered in a page. */
  ghost predicate Ordinary(ents: seq<DirEnt>) {
    forall k :: 0 <= k < |ents| ==> ents[k].plus.Plus? && DirentBuffer.RecLen(|ents[k].name|) <= PAGE_SIZE
  }

  ghost predicate WellFormed(d: Directory) {
    |d.pos| == |d.ents| + 1 && Distinct(d.pos) && Seekable(d.pos) && Ordinary(d.ents)
  }

  function BaggageOf(e: DirEnt, plus: bool): Baggage {
    if plus then e.plus else Plain
  }

  /** Entry `k` in a reply: its cookie is the position of the entry after it. */
  function EntryOf(d: Directory, plus: bool, k: nat): Entry
    requires k < |d.ents| < |d.pos|
  {
    Entry(d.ents[k].ino, Truncated(d.ents[k].name), d.pos[k + 1], BaggageOf(d.ents[k], plus))
  }

  /** Entries `i` to `j` (exclusive) as the client sees them. */
  function Entries(d: Directory, plus: bool, i: nat, j: nat): (r: seq<Entry>)
    requires i <= j <= |d.ents| < |d.pos|
    ensures |r| == j - i
  {
    if i == j then [] else Entries(d, plus, i, j - 1) + [EntryOf(d, plus, j - 1)]
  }

  lemma {:induction false} EntriesAt(d: Directory, plus: bool, i: nat, j: nat, k: nat)
    requires i <= k < j <= |d.ents| < |d.pos|
    ensures Entries(d, plus, i, j)[k - i] == EntryOf(d, plus, k)
    decreases j
  {
    if k == j - 1 {
    } else {
      EntriesAt(d, plus, i, j - 1, k);
    }
  }

  lemma {:induction false} EntriesSplit(d: Directory, plus: bool, i: nat, j: nat, k: nat)
    requires i <= j <= k <= |d.ents| < |d.pos|
    ensures Entries(d, plus, i, j) + Entries(d, plus, j, k) == Entries(d, plus, i, k)
    decreases k
  {
    hide EntryOf;
    if j == k {
    } else {
      EntriesSplit(d, plus, i, j, k - 1);
      Assoc(Entries(d, plus, i, j), Entries(d, plus, j, k - 1), [EntryOf(d, plus, k - 1)]);
    }
  }

  /** What the entries of a reply that starts at entry `i` say: inode number and name as the file system has them, the
      name cut off after 255 bytes, the position of the entry after, and for READDIRPLUS attributes and handle. */
  ghost predicate Tells(es: seq<Entry>, d: Directory, plus: bool, i: nat) {
    && i + |es| <= |d.ents| < |d.pos|
    && forall k :: 0 <= k < |es| ==>
         && es[k].fileid == d.ents[i + k].ino
         && es[k].name == (if |d.ents[i + k].name| <= 255 then d.ents[i + k].name else d.ents[i + k].name[..255])
         && es[k].cookie == d.pos[i + k + 1]
         && es[k].baggage == if plus then d.ents[i + k].plus else Plain
  }

  lemma EntriesTell(d: Directory, plus: bool, i: nat, j: nat)
    requires i <= j <= |d.ents| < |d.pos|
    ensures Tells(Entries(d, plus, i, j), d, plus, i)
  {
    hide Entries;
    var es := Entries(d, plus, i, j);
    forall k | 0 <= k < |es|
      ensures es[k].fileid == d.ents[i + k].ino && es[k].cookie == d.pos[i + k + 1]
      ensures es[k].name == (if |d.ents[i + k].name| <= 255 then d.ents[i + k].name else d.ents[i + k].name[..255])
      ensures es[k].baggage == if plus then d.ents[i + k].plus else Plain
    {
      EntriesAt(d, plus, i, j, i + k);
    }
  }

  function Need(d: Directory, plus: bool, k: nat): nat
    requires k < |d.ents|
  {
    Estimate(Truncated(d.ents[k].name), plus)
  }

  /** How many entries from `i` on a reply with room for `budget` words takes. */
  function Taken(d: Directory, plus: bool, i: nat, budget: int): (n: nat)
    requires i <= |d.ents| < |d.pos|
    ensures i + n <= |d.ents|
    decreases |d.ents| - i
  {
    if i == |d.ents| || budget < Need(d, plus, i) then 0
    else 1 + Taken(d, plus, i + 1, budget - |EntryWords(EntryOf(d, plus, i))|)
  }

  /** The directory part of the reply to a request that starts at entry `i`. */
  function Serve(d: Directory, plus: bool, i: nat, budget: int): DirList
    requires i <= |d.ents| < |d.pos|
  {
    var j := i + Taken(d, plus, i, budget);
    DirList(Entries(d, plus, i, j), j == |d.ents|)
  }

  /** Every entry a reply takes fits into the budget it started with. */
  lemma {:induction false} TakenFit(d: Directory, plus: bool, i: nat, budget: int, k: nat)
    requires i <= |d.ents| < |d.pos| && i <= k < i + Taken(d, plus, i, budget)
    ensures Need(d, plus, k) <= budget
    decreases |d.ents| - i
  {
    hide EntryWords, Estimate;
    if i == k {
    } else {
      TakenFit(d, plus, i + 1, budget - |EntryWords(EntryOf(d, plus, i))|, k);
    }
  }

  lemma EntriesNone(d: Directory, plus: bool, i: nat)
    requires i <= |d.ents| < |d.pos|
    ensures Entries(d, plus, i, i) == [] && Flat([]) == []
  {
  }

  lemma EntriesOne(d: Directory, plus: bool, i: nat)
    requires i < |d.ents| < |d.pos|
    ensures Entries(d, plus, i, i + 1) == [EntryOf(d, plus, i)]
  {
    hide EntryOf;
    assert Entries(d, plus, i, i) == [];
  }

  /** The words of a listing, first entry and rest. */
  lemma FlatFirst(d: Directory, plus: bool, i: nat, j: nat)
    requires i < j <= |d.ents| < |d.pos|
    ensures |Flat(Entries(d, plus, i, j))| ==
            |EntryWords(EntryOf(d, plus, i))| + |Flat(Entries(d, plus, i + 1, j))|
  {
    hide EntryWords, Flat, Entries, EntryOf;
    EntriesSplit(d, plus, i, i + 1, j);
    EntriesOne(d, plus, i);
    FlatCons(EntryOf(d, plus, i), Entries(d, plus, i + 1, j));
  }

  /** The estimate for an entry bounds it, up to one word. */
  lemma NeedBounds(d: Directory, plus: bool, k: nat)
    requires WellFormed(d) && k < |d.ents|
    ensures var n := |EntryWords(EntryOf(d, plus, k))|;
      n <= Need(d, plus, k) + 1 && (SmallHandle(BaggageOf(d.ents[k], plus)) ==> n <= Need(d, plus, k))
  {
    hide EntryWords, Distinct, Seekable, SmallHandle;
    EstimateBounds(EntryOf(d, plus, k));
  }

  /** A reply of entries `i` to `j` is full: it is within the budget, up to the one word by which an entry may outgrow
      its estimate, and there is no room for the estimate of the next entry. */
  ghost predicate Fills(d: Directory, plus: bool, i: nat, j: nat, budget: int)
    requires i <= j <= |d.ents| < |d.pos|
  {
    var n := |Flat(Entries(d, plus, i, j))|;
    && (j > i ==> n <= budget + 1)
    && (j > i && SmallHandle(BaggageOf(d.ents[j - 1], plus)) ==> n <= budget)
    && (j < |d.ents| ==> n + Need(d, plus, j) > budget)
  }

  lemma FillsNext(d: Directory, plus: bool, i: nat, j: nat, budget: int)
    requires WellFormed(d) && i < j <= |d.ents| && Need(d, plus, i) <= budget
    requires Fills(d, plus, i + 1, j, budget - |EntryWords(EntryOf(d, plus, i))|)
    ensures Fills(d, plus, i, j, budget)
  {
    hide EntryWords, Flat, Entries, Need, EntryOf, SmallHandle, Distinct, Seekable, Ordinary;
    NeedBounds(d, plus, i);
    FlatFirst(d, plus, i, j);
    EntriesNone(d, plus, i + 1);
  }

  lemma FillsNone(d: Directory, plus: bool, i: nat, budget: int)
    requires i <= |d.ents| < |d.pos| && (i == |d.ents| || budget < Need(d, plus, i))
    ensures Fills(d, plus, i, i, budget)
  {
    hide Need;
  }

  lemma {:induction false} TakenFills(d: Directory, plus: bool, i: nat, budget: int)
    requires WellFormed(d) && i <= |d.ents|
    ensures Fills(d, plus, i, i + Taken(d, plus, i, budget), budget)
    decreases |d.ents| - i
  {
    hide EntryWords, Need, EntryOf, Distinct, Seekable, Ordinary, Fills;
    if i == |d.ents| || budget < Need(d, plus, i) {
      FillsNone(d, plus, i, budget);
    } else {
      var rest := budget - |EntryWords(EntryOf(d, plus, i))|;
      TakenFills(d, plus, i + 1, rest);
      FillsNext(d, plus, i, i + 1 + Taken(d, plus, i + 1, rest), budget);
    }
  }

  lemma TakenNone(d: Directory, plus: bool, i: nat, budget: int)
    requires i <= |d.ents| < |d.pos|
    ensures Taken(d, plus, i, budget) == 0 <==> i == |d.ents| || budget < Need(d, plus, i)
  {
    hide EntryWords, Need;
  }

  // ----- the client -----

  /** The entry a cookie stands for. */
  ghost function IndexOf(d: Directory, cookie: U64): (i: nat)
    requires WellFormed(d) && cookie in d.pos
    ensures i <= |d.ents| && d.pos[i] == cookie
  {
    var i :| 0 <= i < |d.pos| && d.pos[i] == cookie;
    i
  }

  lemma IndexOfPos(d: Directory, i: nat)
    requires WellFormed(d) && i <= |d.ents|
    ensures d.pos[i] in d.pos && IndexOf(d, d.pos[i]) == i
  {
  }

  /** A reply and what came after it, if that came to an end. */
  function Extend(es: seq<Entry>, rest: Option<seq<Entry>>): Option<seq<Entry>> {
    match rest
    case None => None
    case Some(more) => Some(es + more)
  }

  /** The cookie a client goes on from is the position of the first entry it has not seen. */
  lemma LastCookie(d: Directory, plus: bool, i: nat, j: nat)
    requires i < j <= |d.ents| < |d.pos|
    ensures Entries(d, plus, i, j)[j - i - 1].cookie == d.pos[j]
  {
    EntriesAt(d, plus, i, j, j - 1);
  }

  /** A client that asks from `cookie` and goes on from the last cookie it was given until it sees eof, with room for
      `budgets[0]` words in the first reply, `budgets[1]` in the second and so on. It gives up after the last of
      them, and it is stuck when a reply brings nothing. */
  ghost function Session(d: Directory, plus: bool, cookie: U64, budgets: seq<int>): Option<seq<Entry>>
    requires WellFormed(d) && cookie in d.pos
    decreases |budgets|
  {
    if budgets == [] then None
    else
      var i := IndexOf(d, cookie);
      var reply := Serve(d, plus, i, budgets[0]);
      if reply.eof then Some(reply.entries)
      else if reply.entries == [] then None
      else
        LastCookie(d, plus, i, i + |reply.entries|);
        Extend(reply.entries, Session(d, plus, reply.entries[|reply.entries| - 1].cookie, budgets[1..]))
  }

  lemma SessionOver(d: Directory, plus: bool, cookie: U64)
    requires WellFormed(d) && cookie in d.pos
    ensures Session(d, plus, cookie, []) == None
  {
  }

  /** One request of a session. */
  lemma SessionStep(d: Directory, plus: bool, i: nat, budgets: seq<int>)
    requires WellFormed(d) && i <= |d.ents| && budgets != []
    ensures var j := i + Taken(d, plus, i, budgets[0]);
            && d.pos[i] in d.pos && d.pos[j] in d.pos
            && Session(d, plus, d.pos[i], budgets) ==
               if j == |d.ents| then Some(Entries(d, plus, i, j))
               else if j == i then None
               else Extend(Entries(d, plus, i, j), Session(d, plus, d.pos[j], budgets[1..]))
  {
    hide Taken, Entries, Distinct, Ordinary, IndexOf, Extend;
    IndexOfPos(d, i);
    var j := i + Taken(d, plus, i, budgets[0]);
    if i < j {
      LastCookie(d, plus, i, j);
    }
  }

  /** Whatever the counts, a client that sees eof has got every entry exactly once and in order. */
  lemma {:induction false} SessionComplete(d: Directory, plus: bool, i: nat, budgets: seq<int>)
    requires WellFormed(d) && i <= |d.ents|
    ensures d.pos[i] in d.pos
    ensures Session(d, plus, d.pos[i], budgets).Some? ==>
      Session(d, plus, d.pos[i], budgets) == Some(Entries(d, plus, i, |d.ents|))
    decreases |budgets|
  {
    hide Taken, Session, Distinct, Ordinary, Entries;
    if budgets == [] {
      SessionOver(d, plus, d.pos[i]);
    } else {
      SessionStep(d, plus, i, budgets);
      var j := i + Taken(d, plus, i, budgets[0]);
      if i < j < |d.ents| {
        SessionComplete(d, plus, j, budgets[1..]);
        EntriesSplit(d, plus, i, j, |d.ents|);
      }
    }
  }

  /** A client that sends the same count each time finishes exactly when every entry fits such a reply by itself;
      it then needs no more requests than there are entries. */
  lemma {:induction false} SessionEnds(d: Directory, plus: bool, i: nat, count: int, budgets: seq<int>)
    requires WellFormed(d) && i <= |d.ents|
    requires |budgets| > 0 && |budgets| >= |d.ents| - i && forall q :: 0 <= q < |budgets| ==> budgets[q] == count
    ensures d.pos[i] in d.pos
    ensures Session(d, plus, d.pos[i], budgets).Some? <==> forall k :: i <= k < |d.ents| ==> Need(d, plus, k) <= count
    decreases |budgets|
  {
    hide Need, Session, Taken, Distinct, Ordinary, Entries;
    TakenNone(d, plus, i, count);
    SessionStep(d, plus, i, budgets);
    var j := i + Taken(d, plus, i, count);
    forall k | i <= k < j ensures Need(d, plus, k) <= count {
      TakenFit(d, plus, i, count, k);
    }
    if i == j || j == |d.ents| {
    } else {
      SessionEnds(d, plus, j, count, budgets[1..]);
    }
  }

  /** Going on from the cookie of any entry of a reply, not only the last, continues right after that entry. */
  lemma ResumeAfter(d: Directory, plus: bool, i: nat, budget: int, k: nat)
    requires WellFormed(d) && i <= |d.ents| && k < |Serve(d, plus, i, budget).entries|
    ensures var cookie := Serve(d, plus, i, budget).entries[k].cookie;
            cookie in d.pos && IndexOf(d, cookie) == i + k + 1
  {
    hide Taken;
    EntriesAt(d, plus, i, i + Taken(d, plus, i, budget), i + k);
    IndexOfPos(d, i + k + 1);
  }
}
