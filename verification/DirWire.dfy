/**
 The directory part of a READDIR or READDIRPLUS reply as RFC 1813 describes it
 (sections 3.3.16 and 3.3.17): a linked list of entries, flat on the wire.

 `Flat` is the simple form of what the page encoder builds; `TakeReply` is the
 client's reading of it.
 */
module DirWire {
  import opened Options
  import opened Xdr
  import opened Attr

  /** Longest name an entry may carry (NFS3_MAXNAMLEN). */
  const MAXNAMLEN: int := 255

  type Name = n: seq<Byte> | |n| <= 255 witness []

  /** What READDIRPLUS adds to an entry; READDIR adds nothing. */
  datatype Baggage = Plain | Plus(attr: Option<Fattr3>, handle: Option<HandleBytes>)

  datatype Entry = Entry(fileid: U64, name: Name, cookie: U64, baggage: Baggage)

  function BaggageWords(b: Baggage): seq<Word> {
    match b
    case Plain => []
    case Plus(a, h) => PostOpAttrWords(a) + PostOpFhWords(h)
  }

  /** Where the cookie sits in the words of an entry. */
  function CookieAt(e: Entry): nat {
    4 + QuadLen(|e.name|)
  }

  /** Words before the cookie: "value follows", fileid, name. */
  function HeadWords(e: Entry): (r: seq<Word>)
    ensures |r| == CookieAt(e)
  {
    [1] + Hyper(e.fileid) + Opaque(e.name)
  }

  function EntryWords(e: Entry): (r: seq<Word>)
    ensures |r| == CookieAt(e) + 2 + |BaggageWords(e.baggage)|
  {
    HeadWords(e) + Hyper(e.cookie) + BaggageWords(e.baggage)
  }

  /** The entries one after the other. */
  function Flat(es: seq<Entry>): seq<Word> {
    if es == [] then [] else Flat(es[..|es| - 1]) + EntryWords(es[|es| - 1])
  }

  lemma FlatSnoc(es: seq<Entry>, e: Entry)
    ensures Flat(es + [e]) == Flat(es) + EntryWords(e)
  {
    assert (es + [e])[..|es|] == es;
  }

  lemma {:induction false} FlatCons(e: Entry, es: seq<Entry>)
    ensures Flat([e] + es) == EntryWords(e) + Flat(es)
    decreases |es|
  {
    if es == [] {
      FlatSnoc([], e);
      assert [e] + es == [] + [e];
    } else {
      var front, last := es[..|es| - 1], es[|es| - 1];
      calc {
        Flat([e] + es);
        { assert [e] + es == ([e] + front) + [last]; }
        Flat(([e] + front) + [last]);
        { FlatSnoc([e] + front, last); }
        Flat([e] + front) + EntryWords(last);
        { FlatCons(e, front); }
        EntryWords(e) + Flat(front) + EntryWords(last);
        { Assoc(EntryWords(e), Flat(front), EntryWords(last)); }
        EntryWords(e) + (Flat(front) + EntryWords(last));
        EntryWords(e) + Flat(es);
      }
    }
  }

  // ----- the client's reading -----

  function TakeBaggage(plus: bool, s: seq<Word>): Parsed<Baggage> {
    if !plus then Good(Plain, s)
    else match TakePostOpAttr(s)
         case Bad => Bad
         case Good(a, s1) =>
           match TakePostOpFh(s1)
           case Bad => Bad
           case Good(h, s2) => Good(Plus(a, h), s2)
  }

  /** An entry after its "value follows" flag. */
  function TakeEntry(plus: bool, s: seq<Word>): Parsed<Entry> {
    match TakeHyper(s)
    case Bad => Bad
    case Good(ino, s1) =>
      match TakeOpaque(s1)
      case Bad => Bad
      case Good(name, s2) =>
        if |name| > MAXNAMLEN then Bad
        else match TakeHyper(s2)
             case Bad => Bad
             case Good(cookie, s3) =>
               match TakeBaggage(plus, s3)
               case Bad => Bad
               case Good(b, s4) => Good(Entry(ino, name, cookie, b), s4)
  }

  datatype DirList = DirList(entries: seq<Entry>, eof: bool)

  /** dirlist3 / dirlistplus3: entries, end of list, eof flag. */
  function TakeDirList(plus: bool, s: seq<Word>): Parsed<DirList>
    decreases |s|
  {
    if |s| < 2 || s[0] > 1 then Bad
    else if s[0] == 0 then (if s[1] > 1 then Bad else Good(DirList([], s[1] == 1), s[2..]))
    else match TakeEntry(plus, s[1..])
         case Bad => Bad
         case Good(e, s1) =>
           if |s1| >= |s| then Bad
           else match TakeDirList(plus, s1)
                case Bad => Bad
                case Good(l, s2) => Good(DirList([e] + l.entries, l.eof), s2)
  }

  lemma TakeBaggageWords(b: Baggage, rest: seq<Word>)
    ensures TakeBaggage(b.Plus?, BaggageWords(b) + rest) == Good(b, rest)
  {
    match b
    case Plain =>
      assert BaggageWords(b) + rest == rest;
    case Plus(a, h) =>
      assert BaggageWords(b) + rest == PostOpAttrWords(a) + (PostOpFhWords(h) + rest);
      TakePostOpAttrWords(a, PostOpFhWords(h) + rest);
      TakePostOpFhWords(h, rest);
  }

  lemma TakeEntryWords(e: Entry, rest: seq<Word>)
    ensures EntryWords(e)[0] == 1
    ensures TakeEntry(e.baggage.Plus?, (EntryWords(e) + rest)[1..]) == Good(e, rest)
  {
    var s4 := BaggageWords(e.baggage) + rest;
    var s3 := Hyper(e.cookie) + s4;
    var s2 := Opaque(e.name) + s3;
    assert (EntryWords(e) + rest)[1..] == Hyper(e.fileid) + s2;
    TakeHyperHyper(e.fileid, s2);
    TakeOpaqueOpaque(e.name, s3);
    TakeHyperHyper(e.cookie, s4);
    TakeBaggageWords(e.baggage, rest);
  }

  ghost predicate AllOf(plus: bool, es: seq<Entry>) {
    forall e :: e in es ==> e.baggage.Plus? == plus
  }

  function EofWord(eof: bool): Word {
    if eof then 1 else 0
  }

  lemma TakeDirListCons(e: Entry, after: seq<Word>, l: DirList, rest: seq<Word>)
    requires TakeDirList(e.baggage.Plus?, after) == Good(l, rest)
    ensures TakeDirList(e.baggage.Plus?, EntryWords(e) + after) == Good(DirList([e] + l.entries, l.eof), rest)
  {
    TakeEntryWords(e, after);
  }

  lemma TakeDirListNil(plus: bool, eof: bool, rest: seq<Word>)
    ensures TakeDirList(plus, [0, EofWord(eof)] + rest) == Good(DirList([], eof), rest)
  {
    assert ([0, EofWord(eof)] + rest)[2..] == rest;
  }

  /** A client that reads the flat entries and the two-word trailer gets the entries back. */
  lemma {:induction false} TakeDirListFlat(plus: bool, es: seq<Entry>, eof: bool, rest: seq<Word>)
    requires AllOf(plus, es)
    ensures TakeDirList(plus, Flat(es) + ([0, EofWord(eof)] + rest)) == Good(DirList(es, eof), rest)
    decreases |es|
  {
    hide TakeDirList, EntryWords, EofWord;
    var tail := [0, EofWord(eof)] + rest;
    if es == [] {
      assert Flat(es) == [];
      assert [] + tail == tail;
      TakeDirListNil(plus, eof, rest);
    } else {
      var e, es' := es[0], es[1..];
      TakeDirListFlat(plus, es', eof, rest);
      TakeDirListCons(e, Flat(es') + tail, DirList(es', eof), rest);
      assert es == [e] + es';
      FlatCons(e, es');
      Assoc(EntryWords(e), Flat(es'), tail);
    }
  }

  /** The body of a successful reply: dir_attributes, cookieverf, dirlist. */
  datatype Reply = Reply(attr: Option<Fattr3>, verf: U64, list: DirList)

  function ReplyWords(r: Reply): seq<Word> {
    PostOpAttrWords(r.attr) + Hyper(r.verf) + Flat(r.list.entries) + [0, EofWord(r.list.eof)]
  }

  function TakeReply(plus: bool, s: seq<Word>): Parsed<Reply> {
    match TakePostOpAttr(s)
    case Bad => Bad
    case Good(a, s1) =>
      match TakeHyper(s1)
      case Bad => Bad
      case Good(v, s2) =>
        match TakeDirList(plus, s2)
        case Bad => Bad
        case Good(l, s3) => Good(Reply(a, v, l), s3)
  }

  /** The flat reply is a well-formed READDIR3resok / READDIRPLUS3resok with exactly its contents. */
  lemma ReplyReadsBack(plus: bool, r: Reply, rest: seq<Word>)
    requires AllOf(plus, r.list.entries)
    ensures TakeReply(plus, ReplyWords(r) + rest) == Good(r, rest)
  {
    var tail := [0, EofWord(r.list.eof)];
    var s2 := Flat(r.list.entries) + (tail + rest);
    var s1 := Hyper(r.verf) + s2;
    Assoc(PostOpAttrWords(r.attr) + Hyper(r.verf), Flat(r.list.entries), tail);
    Assoc(PostOpAttrWords(r.attr) + Hyper(r.verf), Flat(r.list.entries) + tail, rest);
    Assoc(Flat(r.list.entries), tail, rest);
    Assoc(PostOpAttrWords(r.attr), Hyper(r.verf), s2);
    TakePostOpAttrWords(r.attr, s1);
    TakeHyperHyper(r.verf, s2);
    TakeDirListFlat(plus, r.list.entries, r.list.eof, rest);
  }
}
