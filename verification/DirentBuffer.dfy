/**
 The page that buffers directory entries between the file system, which fills it
 record by record, and the reply encoder, which walks it. A record is a fixed
 24-byte head, little-endian, followed by the name, padded to a multiple of eight.
 */
module DirentBuffer {
  import opened LittleEndian
  import opened Paging
  import opened Xdr

  /** sizeof(struct buffered_dirent). */
  const HEAD: int := 24

  datatype Dirent = Dirent(ino: U64, offset: U64, dtype: Word, name: seq<Byte>)

  /** ALIGN(sizeof(struct buffered_dirent) + namlen, sizeof(u64)). */
  function RecLen(namlen: nat): (n: nat)
    ensures HEAD + namlen <= n < HEAD + namlen + 8 && n % 8 == 0
  {
    (HEAD + namlen + 7) / 8 * 8
  }

  /** A record takes its head of 24 bytes and the name, rounded up to a multiple of eight. */
  lemma RecLenExact(namlen: nat)
    ensures RecLen(namlen) % 8 == 0 && 24 + namlen <= RecLen(namlen) < 24 + namlen + 8
  {
  }

  // ----- records -----

  /** The record of `d`, without its padding: ino, offset, namlen, d_type, name. */
  function Bytes(d: Dirent): (r: seq<Byte>)
    ensures |r| == HEAD + |d.name|
  {
    LE(d.ino, 8) + LE(d.offset, 8) + LE(|d.name|, 4) + LE(d.dtype, 4) + d.name
  }

  ghost predicate RecordAt(page: seq<Byte>, p: nat, d: Dirent) {
    p + HEAD + |d.name| <= |page| && page[p..p + HEAD + |d.name|] == Bytes(d)
  }

  lemma SubSlice(s: seq<Byte>, p: nat, n: nat, lo: nat, hi: nat)
    requires p + n <= |s| && lo <= hi <= n
    ensures s[p..p + n][lo..hi] == s[p + lo..p + hi]
  {
    var a, b := s[p..p + n][lo..hi], s[p + lo..p + hi];
    assert |a| == |b|;
    forall i | 0 <= i < |a| ensures a[i] == b[i] {
      assert a[i] == s[p..p + n][lo + i];
    }
  }

  /** The fields of a record, one after the other. */
  lemma BytesParts(d: Dirent)
    ensures var r := Bytes(d);
      && r[0..8] == LE(d.ino, 8) && r[8..16] == LE(d.offset, 8)
      && r[16..20] == LE(|d.name|, 4) && r[20..24] == LE(d.dtype, 4) && r[24..|r|] == d.name
  {
    hide LE;
  }

  lemma RecordFields(page: seq<Byte>, p: nat, d: Dirent)
    requires RecordAt(page, p, d) && |d.name| < TWO32
    ensures FromLE(page[p..p + 8]) == d.ino && FromLE(page[p + 8..p + 16]) == d.offset
    ensures FromLE(page[p + 16..p + 20]) == |d.name| && FromLE(page[p + 20..p + 24]) == d.dtype
    ensures page[p + HEAD..p + HEAD + |d.name|] == d.name
  {
    hide LE, FromLE, Bytes, Pow256;
    var n := HEAD + |d.name|;
    SubSlice(page, p, n, 0, 8);
    SubSlice(page, p, n, 8, 16);
    SubSlice(page, p, n, 16, 20);
    SubSlice(page, p, n, 20, 24);
    SubSlice(page, p, n, HEAD, n);
    BytesParts(d);
    Pow256Values();
    LERoundTrip(d.ino, 8);
    LERoundTrip(d.offset, 8);
    LERoundTrip(|d.name|, 4);
    LERoundTrip(d.dtype, 4);
  }

  /** Bytes taken by the records `ds`. */
  function Size(ds: seq<Dirent>): nat {
    if ds == [] then 0 else Size(ds[..|ds| - 1]) + RecLen(|ds[|ds| - 1].name|)
  }

  lemma SizeSnoc(ds: seq<Dirent>, d: Dirent)
    ensures Size(ds + [d]) == Size(ds) + RecLen(|d.name|)
  {
    assert (ds + [d])[..|ds|] == ds;
  }

  lemma {:induction false} SizeMonotone(ds: seq<Dirent>, k: nat)
    requires k < |ds|
    ensures Size(ds[..k]) + RecLen(|ds[k].name|) <= Size(ds)
    decreases |ds|
  {
    var n := |ds| - 1;
    if k == n {
    } else {
      assert ds[..n][..k] == ds[..k];
      SizeMonotone(ds[..n], k);
    }
  }

  lemma SizeNone()
    ensures Size([]) == 0
  {
  }

  lemma SizeStep(ds: seq<Dirent>, k: nat)
    requires k < |ds|
    ensures Size(ds[..k + 1]) == Size(ds[..k]) + RecLen(|ds[k].name|) <= Size(ds)
  {
    assert ds[..k + 1] == ds[..k] + [ds[k]];
    SizeSnoc(ds[..k], ds[k]);
    SizeMonotone(ds, k);
  }

  /** A walk over the records is at the end of the used part exactly when it has seen them all. */
  lemma SizeAtEnd(ds: seq<Dirent>, k: nat)
    requires k <= |ds|
    ensures Size(ds[..k]) <= Size(ds)
    ensures Size(ds[..k]) == Size(ds) <==> k == |ds|
  {
    if k == |ds| {
      assert ds[..k] == ds;
    } else {
      SizeMonotone(ds, k);
    }
  }

  /** The page holds the records `ds` one after the other. */
  ghost predicate Packed(page: seq<Byte>, ds: seq<Dirent>) {
    forall k :: 0 <= k < |ds| ==> RecordAt(page, Size(ds[..k]), ds[k])
  }

  lemma RecordKept(before: seq<Byte>, page: seq<Byte>, p: nat, d: Dirent, end: nat)
    requires |before| == |page| && RecordAt(before, p, d) && p + HEAD + |d.name| <= end <= |page|
    requires forall a :: 0 <= a < end ==> page[a] == before[a]
    ensures RecordAt(page, p, d)
  {
    hide Bytes;
    assert page[p..p + HEAD + |d.name|] == before[p..p + HEAD + |d.name|];
  }

  lemma PackedSnoc(before: seq<Byte>, page: seq<Byte>, ds: seq<Dirent>, d: Dirent)
    requires |before| == |page| && Packed(before, ds) && RecordAt(page, Size(ds), d)
    requires Size(ds) <= |page|
    requires forall a :: 0 <= a < Size(ds) ==> page[a] == before[a]
    ensures Packed(page, ds + [d])
  {
    hide RecordAt, Size;
    forall k | 0 <= k < |ds + [d]| ensures RecordAt(page, Size((ds + [d])[..k]), (ds + [d])[k]) {
      assert (ds + [d])[..k] == ds[..k];
      if k < |ds| {
        SizeMonotone(ds, k);
        RecordKept(before, page, Size(ds[..k]), ds[k], Size(ds));
      } else {
        assert ds[..k] == ds;
      }
    }
  }

  class ReaddirData {
    const dirent: array<Byte>
    var used: nat
    var full: bool

    /** The records in the page. */
    ghost var records: seq<Dirent>

    ghost predicate Valid()
      reads this, dirent
    {
      && dirent.Length == PAGE_SIZE
      && used == Size(records) <= PAGE_SIZE
      && Packed(dirent[..], records)
    }

    constructor ()
      ensures Valid() && fresh(dirent) && records == [] && used == 0 && !full
    {
      dirent := new Byte[PAGE_SIZE];
      used, full, records := 0, false, [];
    }

    method Reset()
      requires Valid()
      modifies this
      ensures Valid() && records == [] && used == 0 && !full
    {
      used, full, records := 0, false, [];
    }

    method Copy(p: nat, bs: seq<Byte>)
      requires p + |bs| <= dirent.Length
      modifies dirent
      ensures forall a :: 0 <= a < dirent.Length ==>
        dirent[a] == if p <= a < p + |bs| then bs[a - p] else old(dirent[a])
    {
      for i := 0 to |bs|
        invariant forall a :: 0 <= a < dirent.Length ==>
          dirent[a] == if p <= a < p + i then bs[a - p] else old(dirent[a])
      {
        dirent[p + i] := bs[i];
      }
    }

    /** Write one record at `p`, field by field. */
    method Write(p: nat, d: Dirent)
      requires p + HEAD + |d.name| <= dirent.Length
      modifies dirent
      ensures RecordAt(dirent[..], p, d)
      ensures forall a :: 0 <= a < p ==> dirent[a] == old(dirent[a])
    {
      hide LE;
      Copy(p + 16, LE(|d.name|, 4));
      Copy(p + 8, LE(d.offset, 8));
      Copy(p, LE(d.ino, 8));
      Copy(p + 20, LE(d.dtype, 4));
      Copy(p + HEAD, d.name);
    }

    /** nfsd_buffered_filldir: append a record unless it does not fit any more. */
    method Filldir(d: Dirent) returns (ok: bool)
      requires Valid()
      modifies this, dirent
      ensures Valid()
      ensures ok <==> Size(old(records)) + RecLen(|d.name|) <= PAGE_SIZE
      ensures ok ==> records == old(records) + [d] && full == old(full)
      ensures !ok ==> records == old(records) && full
    {
      var reclen := RecLen(|d.name|);
      if used + reclen > PAGE_SIZE {
        full := true;
        return false;
      }
      ghost var before := dirent[..];
      Write(used, d);
      PackedSnoc(before, dirent[..], records, d);
      SizeSnoc(records, d);
      used := used + reclen;
      records := records + [d];
      ok := true;
    }

    /** The record of number `k`, read back from the page at its byte offset. */
    method Read(p: nat, ghost k: nat) returns (d: Dirent)
      requires Valid() && k < |records| && p == Size(records[..k])
      ensures d == records[k]
    {
      SizeMonotone(records, k);
      ghost var r := records[k];
      assert RecordAt(dirent[..], p, r);
      RecordFields(dirent[..], p, r);
      assert dirent[p..p + 8] == dirent[..][p..p + 8];
      assert dirent[p + 8..p + 16] == dirent[..][p + 8..p + 16];
      assert dirent[p + 16..p + 20] == dirent[..][p + 16..p + 20];
      assert dirent[p + 20..p + 24] == dirent[..][p + 20..p + 24];
      var namlen := FromLE(dirent[p + 16..p + 20]);
      d := Dirent(FromLE(dirent[p..p + 8]), FromLE(dirent[p + 8..p + 16]), FromLE(dirent[p + 20..p + 24]),
                  dirent[p + HEAD..p + HEAD + namlen]);
    }
  }
}
