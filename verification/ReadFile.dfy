/**
 READ: the vector of pages the argument decoder sets up, the bytes that end up in the reply, the eof flag, and a
 client that reads a whole file piece by piece. Section 3.3.6 of RFC 1813.
 */
module ReadFile {
  import opened Options
  import opened Paging
  import opened Xdr
  import opened Attr

  type Page = p: seq<Byte> | |p| == 4096 witness seq(4096, i => 0)

  function Min(a: nat, b: nat): nat {
    if a < b then a else b
  }

  // ----- nfs3svc_decode_readargs -----

  function Sum(ns: seq<nat>): nat {
    if ns == [] then 0 else Sum(ns[..|ns| - 1]) + ns[|ns| - 1]
  }

  /** Pieces that fill whole pages, except perhaps the last. */
  predicate FullPages(vec: seq<nat>) {
    && (forall i :: 0 <= i < |vec| - 1 ==> vec[i] == PAGE_SIZE)
    && (|vec| > 0 ==> 0 < vec[|vec| - 1] <= PAGE_SIZE)
  }

  /** The pieces add up to exactly what may be read, in full pages. */
  method BuildVector(count: Word, maxBlock: Word) returns (vec: seq<nat>)
    ensures Sum(vec) == Min(count, maxBlock)
    ensures FullPages(vec)
  {
    vec := [];
    var len := Min(count, maxBlock);
    while len > 0
      invariant Sum(vec) + len == Min(count, maxBlock)
      invariant FullPages(vec)
      invariant len > 0 && |vec| > 0 ==> vec[|vec| - 1] == PAGE_SIZE
    {
      var piece := Min(len, PAGE_SIZE);
      assert (vec + [piece])[..|vec|] == vec;
      vec := vec + [piece];
      len := len - piece;
    }
  }

  lemma SumSnoc(vec: seq<nat>, i: nat)
    requires i < |vec|
    ensures Sum(vec[..i + 1]) == Sum(vec[..i]) + vec[i]
  {
    assert vec[..i + 1][..i] == vec[..i];
  }

  lemma {:induction false} FullPagesSum(vec: seq<nat>, i: nat)
    requires FullPages(vec) && i < |vec|
    ensures Sum(vec[..i]) == i * PAGE_SIZE
  {
    if i == 0 {
    } else {
      FullPagesSum(vec, i - 1);
      SumSnoc(vec, i - 1);
    }
  }

  lemma FullPagesTotal(vec: seq<nat>)
    requires FullPages(vec)
    ensures Sum(vec) == if vec == [] then 0 else (|vec| - 1) * PAGE_SIZE + vec[|vec| - 1]
  {
    if vec != [] {
      FullPagesSum(vec, |vec| - 1);
    }
  }

  // ----- vfs_readv, and the pages as the reply sends them -----

  /** The bytes of the pages one after the other. */
  function Bytes(pages: seq<Page>): (r: seq<Byte>)
    ensures |r| == |pages| * PAGE_SIZE
  {
    if pages == [] then [] else Bytes(pages[..|pages| - 1]) + pages[|pages| - 1]
  }

  lemma NoBytes()
    ensures Bytes([]) == []
  {
  }

  /** One more page: its first `piece` bytes continue the file. */
  lemma BytesGrow(filled: seq<Page>, page: Page, file: seq<Byte>, from: nat, done: nat, piece: nat)
    requires done == |Bytes(filled)| && piece <= PAGE_SIZE
    requires from + done + piece <= |file|
    requires Bytes(filled) == file[from..from + done]
    requires page[..piece] == file[from + done..from + done + piece]
    ensures Bytes(filled + [page])[..done + piece] == file[from..from + done + piece]
  {
    assert (filled + [page])[..|filled|] == filled;
    assert Bytes(filled + [page]) == Bytes(filled) + page;
  }

  /** A page after the end changes nothing before it. */
  lemma BytesKeep(filled: seq<Page>, page: Page, done: nat)
    requires done <= |Bytes(filled)|
    ensures Bytes(filled + [page])[..done] == Bytes(filled)[..done]
  {
    assert (filled + [page])[..|filled|] == filled;
    assert Bytes(filled + [page]) == Bytes(filled) + page;
  }

  /** `n` bytes of the file go into the pages, piece by piece. The reply sends the first `n` bytes of the pages, and
      these are the bytes of the file. */
  method Scatter(file: seq<Byte>, offset: nat, n: nat, vec: seq<nat>, pages: seq<Page>) returns (filled: seq<Page>)
    requires FullPages(vec) && |pages| == |vec|
    requires n <= Sum(vec) && offset + n <= |file|
    ensures |filled| == |pages| && n <= |Bytes(filled)|
    ensures Bytes(filled)[..n] == file[offset..offset + n]
  {
    hide Bytes, Sum;
    filled := [];
    var done := 0;
    FullPagesTotal(vec);
    NoBytes();
    while |filled| < |vec|
      invariant |filled| <= |vec|
      invariant done == if |filled| < |vec| then Min(n, |filled| * PAGE_SIZE) else n
      invariant done <= |Bytes(filled)| && Bytes(filled)[..done] == file[offset..offset + done]
    {
      var i := |filled|;
      var piece := Min(vec[i], n - done);
      var page: Page := file[offset + done..offset + done + piece] + pages[i][piece..];
      if done < n {
        BytesGrow(filled, page, file, offset, done, piece);
      } else {
        BytesKeep(filled, page, done);
      }
      filled := filled + [page];
      done := done + piece;
    }
  }

  // ----- nfsd3_proc_read -----

  predicate EofOnRead(requested: nat, read: nat, offset: nat, size: nat) {
    requested > read || offset + read >= size
  }

  /** Bytes a read at `offset` finds. */
  function Available(file: seq<Byte>, offset: nat): nat {
    if offset < |file| then |file| - offset else 0
  }

  /** What the protocol asks of READ: the bytes that are there, up to the count, and whether the end was reached. */
  function Served(file: seq<Byte>, offset: nat, most: nat): (seq<Byte>, bool) {
    var n := Min(most, Available(file, offset));
    (if offset < |file| then file[offset..offset + n] else [], offset + n >= |file|)
  }

  /** The eof flag says that the end was reached, and rightly so, if and only if the file system read all that it
      could. */
  lemma EofIsExact(requested: nat, read: nat, file: seq<Byte>, offset: nat)
    requires read <= requested && read <= Available(file, offset)
    ensures (EofOnRead(requested, read, offset, |file|) <==> offset + read >= |file|)
       <==> read == Min(requested, Available(file, offset))
  {
  }

  lemma PiecesFit(vec: seq<nat>, pages: nat)
    requires FullPages(vec) && Sum(vec) <= pages * PAGE_SIZE
    ensures |vec| <= pages
  {
    FullPagesTotal(vec);
  }

  /** nfsd3_proc_read with the file system's answer `got`: negative on failure, else a number of bytes. Its eof flag
      is right exactly if the file system read all that it could, and then the reply is what the protocol asks for,
      clamped requests included. */
  method ProcRead(file: seq<Byte>, offset: nat, count: Word, maxBlock: Word, got: int, pages: seq<Page>)
    returns (ok: bool, n: nat, eof: bool, filled: seq<Page>)
    requires got <= Min(Min(count, maxBlock), Available(file, offset))
    requires |pages| * PAGE_SIZE >= maxBlock
    ensures ok <==> got >= 0
    ensures ok ==> n == got && n <= |Bytes(filled)|
    ensures ok ==> Bytes(filled)[..n] == if offset < |file| then file[offset..offset + n] else []
    ensures ok ==> ((eof <==> offset + n >= |file|) <==> n == Min(Min(count, maxBlock), Available(file, offset)))
    ensures ok && n == Min(Min(count, maxBlock), Available(file, offset)) ==>
      (Bytes(filled)[..n], eof) == Served(file, offset, Min(count, maxBlock))
  {
    var vec := BuildVector(count, maxBlock);
    var cnt := Min(count, maxBlock);
    PiecesFit(vec, |pages|);
    if got < 0 {
      return false, 0, false, [];
    }
    ok, n := true, got;
    filled := pages[..|vec|];
    if n > 0 {
      filled := Scatter(file, offset, n, vec, filled);
    }
    eof := EofOnRead(cnt, n, offset, |file|);
    EofIsExact(cnt, n, file, offset);
  }

  /** A short read: one byte of two is read, and the reply says that the file ends after it. */
  method ShortReadEndsFile(file: seq<Byte>, pages: seq<Page>) returns (n: nat, eof: bool)
    requires |file| == 2 && |pages| > 0
    ensures n == 1 && eof && n < |file|
  {
    var ok, filled;
    ok, n, eof, filled := ProcRead(file, 0, 2, PAGE_SIZE, 1, pages);
  }

  // ----- the reply on the wire -----

  function Raw(ws: seq<Word>): seq<Byte> {
    if ws == [] then [] else UnQuad(ws[0]) + Raw(ws[1..])
  }

  lemma {:induction false} RawAppend(a: seq<Word>, b: seq<Word>)
    ensures Raw(a + b) == Raw(a) + Raw(b)
  {
    if a == [] {
      assert a + b == b;
    } else {
      assert (a + b)[1..] == a[1..] + b;
      RawAppend(a[1..], b);
    }
  }

  function Padding(n: nat): nat {
    if n % 4 == 0 then 0 else 4 - n % 4
  }

  function Zeros(n: nat): (r: seq<Byte>)
    ensures |r| == n
  {
    seq(n, i => 0)
  }

  lemma RawOne(w: Word)
    ensures Raw([w]) == UnQuad(w)
  {
    hide UnQuad;
    assert [w][1..] == [];
    assert UnQuad(w) + [] == UnQuad(w);
  }

  lemma PaddedToFour(bs: seq<Byte>)
    requires 0 < |bs| < 4
    ensures [bs[0], ByteAt(bs, 1), ByteAt(bs, 2), ByteAt(bs, 3)] == bs + Zeros(4 - |bs|)
  {
  }

  lemma RawPackLast(bs: seq<Byte>)
    requires 0 < |bs| < 4
    ensures Raw(Pack(bs)) == bs + Zeros(4 - |bs|)
  {
    hide UnQuad, Quad, Raw, Zeros, ByteAt;
    var w := Quad(bs[0], ByteAt(bs, 1), ByteAt(bs, 2), ByteAt(bs, 3));
    UnQuadQuad(bs[0], ByteAt(bs, 1), ByteAt(bs, 2), ByteAt(bs, 3));
    RawOne(w);
    assert Pack(bs) == [w] + Pack([]) == [w];
    PaddedToFour(bs);
  }

  lemma NothingPacked()
    ensures Raw(Pack([])) == [] + Zeros(0)
  {
  }

  lemma RawCons(w: Word, ws: seq<Word>)
    ensures Raw([w] + ws) == UnQuad(w) + Raw(ws)
  {
    assert ([w] + ws)[1..] == ws;
  }

  lemma FirstFour(bs: seq<Byte>)
    requires |bs| >= 4
    ensures bs[..4] == [bs[0], bs[1], bs[2], bs[3]]
  {
  }

  lemma RawPackFour(bs: seq<Byte>)
    requires |bs| >= 4
    ensures Raw(Pack(bs)) == bs[..4] + Raw(Pack(bs[4..]))
  {
    hide UnQuad, Quad, Raw;
    UnQuadQuad(bs[0], bs[1], bs[2], bs[3]);
    FirstFour(bs);
    RawCons(Quad(bs[0], bs[1], bs[2], bs[3]), Pack(bs[4..]));
  }

  lemma {:induction false} RawPack(bs: seq<Byte>)
    ensures Raw(Pack(bs)) == bs + Zeros(Padding(|bs|))
    decreases |bs|
  {
    hide UnQuad, Quad, Zeros, Raw, Pack;
    if |bs| == 0 {
      NothingPacked();
    } else if |bs| < 4 {
      RawPackLast(bs);
    } else {
      RawPackFour(bs);
      RawPack(bs[4..]);
      assert bs == bs[..4] + bs[4..];
      Assoc(bs[..4], bs[4..], Zeros(Padding(|bs|)));
    }
  }

  function Flag(b: bool): Word {
    if b then 1 else 0
  }

  /** READ3res after the status, as section 3.3.6 of RFC 1813 lays it out. */
  function ReplyWords(attr: Option<Fattr3>, ok: bool, data: seq<Byte>, eof: bool): seq<Word>
    requires |data| < TWO32
  {
    PostOpAttrWords(attr) + if ok then [|data|, Flag(eof)] + Opaque(data) else []
  }

  lemma Regroup<T>(p: seq<T>, a: T, b: T, c: T, d: seq<T>)
    ensures p + ([a, b] + ([c] + d)) == p + [a, b, c] + d
  {
    assert [a, b] + ([c] + d) == [a, b, c] + d;
    Assoc(p, [a, b, c], d);
  }

  /** The reply is what precedes the data, then the packed data. */
  lemma ReplyInTwo(attr: Option<Fattr3>, data: seq<Byte>, eof: bool)
    requires |data| < TWO32
    ensures ReplyWords(attr, true, data, eof)
         == PostOpAttrWords(attr) + [|data|, Flag(eof), |data|] + Pack(data)
  {
    hide Pack, PostOpAttrWords, Flag;
    Regroup<Word>(PostOpAttrWords(attr), |data|, Flag(eof), |data|, Pack(data));
  }

  /** nfs3svc_encode_readres: words before the data, the data left in its pages, zero bytes after it. Together they are
      the reply. */
  method EncodeReadres(attr: Option<Fattr3>, ok: bool, n: Word, eof: bool, pages: seq<Page>)
    returns (head: seq<Word>, pageLen: nat, tail: seq<Byte>)
    requires n <= |Bytes(pages)|
    ensures pageLen <= |Bytes(pages)|
    ensures Raw(head) + Bytes(pages)[..pageLen] + tail == Raw(ReplyWords(attr, ok, Bytes(pages)[..n], eof))
  {
    hide Raw, Bytes, Pack, PostOpAttrWords, Zeros;
    head, pageLen, tail := PostOpAttrWords(attr), 0, Zeros(0);
    ghost var data := Bytes(pages)[..n];
    if ok {
      ReplyInTwo(attr, data, eof);
      head := head + [n, Flag(eof), n];
      pageLen := n;
      if n % 4 != 0 {
        tail := Zeros(4 - n % 4);
      }
      RawPack(data);
      RawAppend(head, Pack(data));
      Assoc(Raw(head), data, tail);
    } else {
      assert PostOpAttrWords(attr) + [] == PostOpAttrWords(attr);
    }
  }

  datatype Reply = Reply(attr: Option<Fattr3>, data: seq<Byte>, eof: bool)

  /** The client's reading of a successful reply. */
  function TakeReply(s: seq<Word>): Parsed<Reply> {
    match TakePostOpAttr(s)
    case Bad => Bad
    case Good(attr, s1) =>
      if |s1| < 2 || s1[1] > 1 then Bad
      else match TakeOpaque(s1[2..])
           case Bad => Bad
           case Good(data, s2) => if |data| == s1[0] then Good(Reply(attr, data, s1[1] == 1), s2) else Bad
  }

  lemma ReplyReadsBack(attr: Option<Fattr3>, data: seq<Byte>, eof: bool, rest: seq<Word>)
    requires |data| < TWO32
    ensures TakeReply(ReplyWords(attr, true, data, eof) + rest) == Good(Reply(attr, data, eof), rest)
  {
    hide PostOpAttrWords, TakePostOpAttr, Opaque, TakeOpaque;
    var counts: seq<Word> := [|data|, Flag(eof)];
    var s1 := counts + Opaque(data) + rest;
    assert ReplyWords(attr, true, data, eof) + rest == PostOpAttrWords(attr) + s1;
    TakePostOpAttrWords(attr, s1);
    assert s1[2..] == Opaque(data) + rest;
    TakeOpaqueOpaque(data, rest);
  }

  /** A READ that succeeds and reads all it can puts on the wire the reply that the client takes for the bytes that are
      there and the right eof flag. */
  method Request(file: seq<Byte>, offset: nat, count: Word, maxBlock: Word, pages: seq<Page>, attr: Option<Fattr3>)
    returns (wire: seq<Byte>)
    requires |pages| * PAGE_SIZE >= maxBlock
    ensures var (data, eof) := Served(file, offset, Min(count, maxBlock));
      && |data| < TWO32
      && wire == Raw(ReplyWords(attr, true, data, eof))
      && TakeReply(ReplyWords(attr, true, data, eof)) == Good(Reply(attr, data, eof), [])
  {
    hide Raw, Bytes, Served, ReplyWords, TakeReply;
    var got := Min(Min(count, maxBlock), Available(file, offset));
    var ok, n, eof, filled := ProcRead(file, offset, count, maxBlock, got, pages);
    var head, pageLen, tail := EncodeReadres(attr, ok, n, eof, filled);
    wire := Raw(head) + Bytes(filled)[..pageLen] + tail;
    ghost var data := Bytes(filled)[..n];
    ReplyReadsBack(attr, data, eof, []);
    assert ReplyWords(attr, true, data, eof) + [] == ReplyWords(attr, true, data, eof);
  }

  // ----- reading a whole file -----

  /** A client that asks for `counts[0]`, `counts[1]`, … bytes, each time where the last reply ended, until eof. None
      if it runs out of requests first. */
  function Fetch(file: seq<Byte>, offset: nat, counts: seq<nat>, maxBlock: nat): Option<seq<Byte>>
    decreases counts
  {
    if counts == [] then None
    else
      var (data, eof) := Served(file, offset, Min(counts[0], maxBlock));
      if eof then Some(data)
      else match Fetch(file, offset + |data|, counts[1..], maxBlock)
           case None => None
           case Some(more) => Some(data + more)
  }

  function From(file: seq<Byte>, offset: nat): seq<Byte> {
    if offset < |file| then file[offset..] else []
  }

  /** Bytes the requests may bring in all. */
  function Asked(counts: seq<nat>, maxBlock: nat): nat {
    if counts == [] then 0 else Min(counts[0], maxBlock) + Asked(counts[1..], maxBlock)
  }

  /** One reply either ends the file or brings all that was asked for. */
  lemma ServedStep(file: seq<Byte>, offset: nat, most: nat)
    ensures var (data, eof) := Served(file, offset, most);
      && (eof <==> offset + most >= |file|)
      && (eof ==> data == From(file, offset))
      && (!eof ==> |data| == most && data + From(file, offset + most) == From(file, offset))
  {
  }

  /** The client gets exactly the file from where it started, and it gets there exactly when its requests, each clamped
      to the largest payload, cover it. */
  lemma {:induction false} FetchIsFile(file: seq<Byte>, offset: nat, counts: seq<nat>, maxBlock: nat)
    ensures var r := Fetch(file, offset, counts, maxBlock);
      && (r.Some? <==> counts != [] && offset + Asked(counts, maxBlock) >= |file|)
      && (r.Some? ==> r.value == From(file, offset))
    decreases counts
  {
    hide Served, From;
    if counts == [] {
    } else {
      var most := Min(counts[0], maxBlock);
      ServedStep(file, offset, most);
      var (data, eof) := Served(file, offset, most);
      if !eof {
        FetchIsFile(file, offset + most, counts[1..], maxBlock);
      }
    }
  }

  /** Bytes on the wire are read back as the words they came from. */
  lemma {:induction false} PackRaw(ws: seq<Word>)
    ensures Pack(Raw(ws)) == ws
  {
    hide UnQuad, Quad;
    if ws == [] {
    } else {
      var b, rest := UnQuad(ws[0]), Raw(ws[1..]);
      QuadUnQuad(ws[0]);
      assert (b + rest)[4..] == rest;
      PackRaw(ws[1..]);
      assert ws == [ws[0]] + ws[1..];
    }
  }

  /** One exchange: the client's reading of the bytes on the wire is what the file has to offer. */
  method Exchange(file: seq<Byte>, offset: nat, count: Word, maxBlock: Word, pages: seq<Page>, attr: Option<Fattr3>)
    returns (data: seq<Byte>, eof: bool)
    requires |pages| * PAGE_SIZE >= maxBlock
    ensures (data, eof) == Served(file, offset, Min(count, maxBlock))
  {
    hide Raw, Served, ReplyWords, TakeReply, Pack;
    var wire := Request(file, offset, count, maxBlock, pages, attr);
    ghost var (served, end) := Served(file, offset, Min(count, maxBlock));
    PackRaw(ReplyWords(attr, true, served, end));
    var reply := TakeReply(Pack(wire)).value;
    data, eof := reply.data, reply.eof;
  }

  /** The client on the wire. If it sees eof it has got the file from where it started. */
  method FetchAll(file: seq<Byte>, offset: nat, counts: seq<Word>, maxBlock: Word, pages: seq<Page>,
                  attr: Option<Fattr3>) returns (got: Option<seq<Byte>>)
    requires |pages| * PAGE_SIZE >= maxBlock
    ensures got == Fetch(file, offset, counts, maxBlock)
    ensures got.Some? <==> counts != [] && offset + Asked(counts, maxBlock) >= |file|
    ensures got.Some? ==> got.value == From(file, offset)
    decreases |counts|
  {
    hide Served, From, Asked;
    FetchIsFile(file, offset, counts, maxBlock);
    if counts == [] {
      return None;
    }
    var data, eof := Exchange(file, offset, counts[0], maxBlock, pages, attr);
    if eof {
      return Some(data);
    }
    var more := FetchAll(file, offset + |data|, counts[1..], maxBlock, pages, attr);
    got := match more case None => None case Some(rest) => Some(data + rest);
  }

  lemma {:induction false} AskedAtLeast(counts: seq<nat>, maxBlock: nat)
    requires maxBlock > 0
    requires forall i :: 0 <= i < |counts| ==> counts[i] > 0
    ensures Asked(counts, maxBlock) >= |counts|
  {
    if counts == [] {
    } else {
      AskedAtLeast(counts[1..], maxBlock);
    }
  }

  /** With positive counts and payload, as many requests as there are bytes are enough (one if there are none). */
  lemma {:induction false} FetchEnds(file: seq<Byte>, offset: nat, counts: seq<nat>, maxBlock: nat)
    requires maxBlock > 0
    requires forall i :: 0 <= i < |counts| ==> counts[i] > 0
    requires |counts| >= 1 && |counts| >= |file| - offset
    ensures Fetch(file, offset, counts, maxBlock) == Some(From(file, offset))
  {
    AskedAtLeast(counts, maxBlock);
    FetchIsFile(file, offset, counts, maxBlock);
  }
}
