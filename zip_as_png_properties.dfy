/**
 * What the payload of the `ziPc` chunk is, proved about the specification
 * functions of ZipAsPng: how the patched CEN trailing length is computed, what
 * the CEN walk emits, and that the payload is the archive with only its offset
 * fields moved by OFFSET_ZIP. DisguiseProperties builds on these.
 */
module ZipAsPngProperties {
  import opened Wrappers
  import opened JavaInt
  import opened ByteOrder
  import opened ByteBuffers
  import opened Checksum
  import opened ZipAsPng

  /** "PK\5\6" as it appears in a file. */
  const EOCD_SIGNATURE_BYTES: seq<byte> := [0x50, 0x4B, 0x05, 0x06]

  /** SIG_EOCD read little-endian and SIG_EOCD_REVERSED written big-endian both spell "PK\5\6". */
  lemma SignatureSpellings()
    ensures LeBytes(SIG_EOCD) == EOCD_SIGNATURE_BYTES
    ensures BeBytes(SIG_EOCD_REVERSED) == EOCD_SIGNATURE_BYTES
    ensures BeBytes(SIG_EOCD_REVERSED) == LeBytes(SIG_EOCD)
  {
  }

  /** lastIndexOfSigneture's test at `i` is exactly: the four bytes at `i` are "PK\5\6". */
  lemma EocdSignatureBytes(s: seq<byte>, i: nat)
    requires i + 4 <= |s|
    ensures IsEocdSignatureAt(s, i) <==> s[i..i + 4] == EOCD_SIGNATURE_BYTES
  {
    LeBytesOfRead(s, i);
    SignatureSpellings();
    if s[i..i + 4] == EOCD_SIGNATURE_BYTES {
      LeInt32Equal(s, i, EOCD_SIGNATURE_BYTES, 0);
    }
  }

  /** The 2-byte little-endian field at `i` (APPNOTE 4.4: every CEN length field is 2 bytes). */
  function U16(s: seq<byte>, i: nat): (r: nat)
    requires i + 2 <= |s|
    ensures r < 0x1_0000
  {
    s[i] as int + 256 * (s[i + 1] as int)
  }

  /**
   * The source reads the three 2-byte lengths of a CEN record (file name at 28,
   * extra field at 30, comment at 32) with 4-byte getInt, so each read also
   * picks up the next field, the last one the disk number at 34.
   */
  lemma TrailingLengthValue(rec: seq<byte>)
    requires |rec| == SIZE_ZIP_CEN
    ensures TrailingLength(rec)
            == Wrap(U16(rec, CENNAM) + U16(rec, CENEXT) + U16(rec, CENCOM)
                    + 0x1_0000 * (U16(rec, CENEXT) + U16(rec, CENCOM) + U16(rec, CENCOM + 2)))
  {
    var u1: int, u2: int, u3: int := LeUint32(rec, CENNAM), LeUint32(rec, CENEXT), LeUint32(rec, CENCOM);
    SignedSum(u1, u2, u3);
    assert u1 + u2 + u3 == U16(rec, CENNAM) + U16(rec, CENEXT) + U16(rec, CENCOM)
                           + 0x1_0000 * (U16(rec, CENEXT) + U16(rec, CENCOM) + U16(rec, CENCOM + 2));
  }

  /** Reading three fields as signed or as unsigned gives the same wrapped sum. */
  lemma SignedSum(u1: uint32, u2: uint32, u3: uint32)
    ensures Wrap(Signed(u1) + Signed(u2) + Signed(u3)) == Wrap(u1 + u2 + u3)
  {
    var q := (if u1 < TWO_31 then 0 else 1) + (if u2 < TWO_31 then 0 else 1) + (if u3 < TWO_31 then 0 else 1);
    assert u1 + u2 + u3 == Signed(u1) + Signed(u2) + Signed(u3) + q * TWO_32;
    WrapShift(Signed(u1) + Signed(u2) + Signed(u3), q);
  }

  /** Adding a few times 2^32 does not change the wrapped value. */
  lemma WrapShift(x: int, m: nat)
    requires m <= 3
    ensures Wrap(x + m * TWO_32) == Wrap(x)
  {
    assert (x + m * TWO_32 - x) % TWO_32 == 0;
    WrapCongruent(x + m * TWO_32, x);
  }

  /** 0x10000 * m is a multiple of 2^32 exactly when m is a multiple of 0x10000. */
  lemma ShiftedMultiple(m: int)
    ensures (0x1_0000 * m) % TWO_32 == 0 <==> m % 0x1_0000 == 0
  {
    var q, r := m / 0x1_0000, m % 0x1_0000;
    assert m == 0x1_0000 * q + r;
    assert 0x1_0000 * m == TWO_32 * q + 0x1_0000 * r;
    assert 0 <= 0x1_0000 * r < TWO_32;
    assert (0x1_0000 * m) % TWO_32 == 0x1_0000 * r;
  }

  /**
   * The trailing-data length the source computes equals file name length plus
   * extra field length plus comment length exactly when the extra field length,
   * the comment length and the disk number add up to a multiple of 0x10000;
   * for an ordinary archive (all three small), when all three are 0.
   */
  lemma TrailingLengthIsFieldSum(rec: seq<byte>)
    requires |rec| == SIZE_ZIP_CEN
    ensures TrailingLength(rec) == U16(rec, CENNAM) + U16(rec, CENEXT) + U16(rec, CENCOM)
            <==> (U16(rec, CENEXT) + U16(rec, CENCOM) + U16(rec, CENCOM + 2)) % 0x1_0000 == 0
  {
    var n, e, c, k := U16(rec, CENNAM), U16(rec, CENEXT), U16(rec, CENCOM), U16(rec, CENCOM + 2);
    var x := n + e + c;
    var y := x + 0x1_0000 * (e + c + k);
    TrailingLengthValue(rec);
    assert Wrap(x) == x;
    ShiftedMultiple(e + c + k);
    assert y - x == 0x1_0000 * (e + c + k);
    if Wrap(y) == x {
      assert (y - x) % TWO_32 == 0;
    }
    if (e + c + k) % 0x1_0000 == 0 {
      WrapCongruent(y, x);
    }
  }

  /** A CEN record with a 24-byte extra field: the computed trailing length is not 24 plus the name length. */
  lemma TrailingLengthWithExtraField()
    ensures var rec := seq(SIZE_ZIP_CEN, i => if i == CENNAM then 8 else if i == CENEXT then 24 else 0);
            TrailingLength(rec) == 8 + 24 + 0x1_0000 * 24 != U16(rec, CENNAM) + U16(rec, CENEXT) + U16(rec, CENCOM)
  {
    var rec: seq<byte> := seq(SIZE_ZIP_CEN, i => if i == CENNAM then 8 else if i == CENEXT then 24 else 0);
    TrailingLengthValue(rec);
  }

  /** Patching the local-header offset changes bytes 42-45 only, and not the trailing length. */
  lemma PatchCenMeaning(rec: seq<byte>)
    requires |rec| == SIZE_ZIP_CEN
    ensures |PatchCen(rec)| == SIZE_ZIP_CEN
    ensures LeInt32(PatchCen(rec), CENOFF) == Wrap(LeInt32(rec, CENOFF) + OFFSET_ZIP)
    ensures forall j :: 0 <= j < CENOFF ==> PatchCen(rec)[j] == rec[j]
    ensures TrailingLength(PatchCen(rec)) == TrailingLength(rec)
  {
    var p := PatchCen(rec);
    LeInt32Equal(p, CENNAM, rec, CENNAM);
    LeInt32Equal(p, CENEXT, rec, CENEXT);
    LeInt32Equal(p, CENCOM, rec, CENCOM);
  }

  /** When one CEN entry can be taken at `pos`, and what it then holds. */
  lemma CenEntryMeaning(zip: seq<byte>, pos: nat)
    requires pos <= |zip| <= INT_MAX
    ensures CenEntry(zip, pos).Success?
            <==> pos + SIZE_ZIP_CEN <= |zip|
                 && 0 <= TrailingLength(zip[pos..pos + SIZE_ZIP_CEN])
                 && pos + SIZE_ZIP_CEN + TrailingLength(zip[pos..pos + SIZE_ZIP_CEN]) <= |zip|
    ensures CenEntry(zip, pos).Success? ==>
              var entry := CenEntry(zip, pos).value;
              entry.record == PatchCen(zip[pos..pos + SIZE_ZIP_CEN])
              && |entry.extra| == TrailingLength(zip[pos..pos + SIZE_ZIP_CEN])
              && entry.extra == zip[pos + SIZE_ZIP_CEN..pos + SIZE_ZIP_CEN + |entry.extra|]
  {
    if pos + SIZE_ZIP_CEN <= |zip| {
      PatchCenMeaning(zip[pos..pos + SIZE_ZIP_CEN]);
    }
  }

  /** Position `j` lies in the local-header offset field of one of the CEN records starting at `records`. */
  predicate InOffsetField(records: seq<nat>, j: int)
  {
    exists k :: 0 <= k < |records| && records[k] + CENOFF <= j < records[k] + CENOFF + 4
  }

  /** `entry` is the archive's CEN record at `p`, offset patched, followed by the archive's bytes after it. */
  predicate EntryAt(zip: seq<byte>, p: nat, entry: Entry)
  {
    p + SIZE_ZIP_CEN + |entry.extra| <= |zip|
    && entry.record == PatchCen(zip[p..p + SIZE_ZIP_CEN])
    && |entry.extra| == TrailingLength(zip[p..p + SIZE_ZIP_CEN])
    && entry.extra == zip[p + SIZE_ZIP_CEN..p + SIZE_ZIP_CEN + |entry.extra|]
  }

  /** `entries` lie one after another in the archive from `p`. */
  predicate Laid(zip: seq<byte>, p: nat, entries: seq<Entry>)
    decreases |entries|
  {
    |entries| > 0 ==>
      EntryAt(zip, p, entries[0]) && Laid(zip, p + SIZE_ZIP_CEN + |entries[0].extra|, entries[1..])
  }

  /** What a walk over `entries` from `p` emits. */
  function Lay(p: nat, entries: seq<Entry>): Walk
    decreases |entries|
  {
    if |entries| == 0 then Walk([], [], p)
    else
      var rest := Lay(p + SIZE_ZIP_CEN + |entries[0].extra|, entries[1..]);
      Walk(entries[0].record + entries[0].extra + rest.bytes, [p] + rest.records, rest.end)
  }

  /** An entry CenEntry takes lies in the archive where it was taken. */
  lemma CenEntryLaid(zip: seq<byte>, pos: nat, entry: Entry)
    requires pos <= |zip| <= INT_MAX && CenEntry(zip, pos) == Success(entry)
    ensures EntryAt(zip, pos, entry)
  {
    PatchCenMeaning(zip[pos..pos + SIZE_ZIP_CEN]);
  }

  /** A walk that takes at least one entry: that entry, then the walk after it. */
  lemma WalkUnfold(zip: seq<byte>, pos: nat, size: int32, sizeOfCen: int32, w: Walk)
    returns (entry: Entry, rest: Walk, size': int32)
    requires pos <= |zip| <= INT_MAX && WalkCen(zip, pos, size, sizeOfCen) == Success(w) && size < sizeOfCen
    ensures EntryAt(zip, pos, entry)
    ensures size' == Wrap(Wrap(size + SIZE_ZIP_CEN) + |entry.extra|)
    ensures WalkCen(zip, pos + SIZE_ZIP_CEN + |entry.extra|, size', sizeOfCen) == Success(rest)
    ensures w == Walk(entry.record + entry.extra + rest.bytes, [pos] + rest.records, rest.end)
  {
    entry := CenEntry(zip, pos).value;
    CenEntryLaid(zip, pos, entry);
    size' := Wrap(Wrap(size + SIZE_ZIP_CEN) + |entry.extra|);
    var next := pos + SIZE_ZIP_CEN + |entry.extra|;
    WalkCenStep(zip, pos, size, sizeOfCen, entry, next, size');
    var r := WalkCen(zip, next, size', sizeOfCen);
    assert Success(w) == Prepend(entry.record + entry.extra, [pos], r);
    rest := r.value;
  }

  /** Laying out one more entry in front. */
  lemma LayInFront(zip: seq<byte>, pos: nat, entry: Entry, more: seq<Entry>)
    requires EntryAt(zip, pos, entry) && Laid(zip, pos + SIZE_ZIP_CEN + |entry.extra|, more)
    ensures Laid(zip, pos, [entry] + more)
    ensures var rest := Lay(pos + SIZE_ZIP_CEN + |entry.extra|, more);
            Lay(pos, [entry] + more) == Walk(entry.record + entry.extra + rest.bytes, [pos] + rest.records, rest.end)
  {
    assert ([entry] + more)[1..] == more;
  }

  /** A successful walk is the laying out of the CEN entries it takes. */
  lemma {:induction false} WalkEntries(zip: seq<byte>, pos: nat, size: int32, sizeOfCen: int32, w: Walk)
    returns (entries: seq<Entry>)
    requires pos <= |zip| <= INT_MAX && WalkCen(zip, pos, size, sizeOfCen) == Success(w)
    ensures Laid(zip, pos, entries) && w == Lay(pos, entries)
    ensures |entries| == 0 <==> sizeOfCen <= size
    decreases |zip| - pos
  {
    if sizeOfCen <= size {
      entries := [];
    } else {
      var entry, rest, size' := WalkUnfold(zip, pos, size, sizeOfCen, w);
      var more := WalkEntries(zip, pos + SIZE_ZIP_CEN + |entry.extra|, size', sizeOfCen, rest);
      entries := [entry] + more;
      LayInFront(zip, pos, entry, more);
    }
  }

  /** The layout facts of a walk from `pos`: bytes as many as consumed, records in order and not overlapping. */
  predicate Shaped(w: Walk, pos: nat)
  {
    |w.bytes| == w.end - pos
    && (forall k :: 0 <= k < |w.records| ==> pos <= w.records[k] && w.records[k] + SIZE_ZIP_CEN <= w.end)
    && (|w.records| > 0 ==> w.records[0] == pos)
    && (forall k :: 0 < k < |w.records| ==> w.records[k - 1] + SIZE_ZIP_CEN <= w.records[k])
  }

  /** Shaped is kept by putting one record in front. */
  lemma ShapedStep(head: seq<byte>, pos: nat, next: nat, rest: Walk, w: Walk)
    requires w == Walk(head + rest.bytes, [pos] + rest.records, rest.end)
    requires |head| == next - pos && pos + SIZE_ZIP_CEN <= next && Shaped(rest, next)
    ensures Shaped(w, pos)
  {
    assert forall k :: 0 < k < |w.records| ==> w.records[k] == rest.records[k - 1];
  }

  /** Entries laid out in the archive make a shaped walk, with one record per entry. */
  lemma {:induction false} LayShape(zip: seq<byte>, p: nat, entries: seq<Entry>)
    requires Laid(zip, p, entries)
    ensures Shaped(Lay(p, entries), p) && |Lay(p, entries).records| == |entries|
    ensures Lay(p, entries).end <= |zip| || |entries| == 0
    decreases |entries|
  {
    if |entries| > 0 {
      var e := entries[0];
      var next := p + SIZE_ZIP_CEN + |e.extra|;
      LayShape(zip, next, entries[1..]);
      ShapedStep(e.record + e.extra, p, next, Lay(next, entries[1..]), Lay(p, entries));
    }
  }

  /** Where the CEN entry whose record starts at `r` ends: after the 46-byte record and the trailing bytes it announces. */
  function EntryEnd(zip: seq<byte>, r: nat): int
    requires r + SIZE_ZIP_CEN <= |zip|
  {
    r + SIZE_ZIP_CEN + TrailingLength(zip[r..r + SIZE_ZIP_CEN])
  }

  /**
   * `records` are every CEN record from `pos` to `end`, none skipped: each
   * announces a trailer of non-negative length, the first starts at `pos`,
   * each next one where the entry before it ends, and the last entry ends at
   * `end`; there is none exactly when `end` is `pos`.
   */
  predicate Chained(zip: seq<byte>, records: seq<nat>, pos: nat, end: int)
  {
    (forall k :: 0 <= k < |records| ==>
       records[k] + SIZE_ZIP_CEN <= |zip| && records[k] + SIZE_ZIP_CEN <= EntryEnd(zip, records[k]))
    && (|records| == 0 ==> end == pos)
    && (|records| > 0 ==> records[0] == pos && EntryEnd(zip, records[|records| - 1]) == end)
    && (forall k :: 0 < k < |records| ==> records[k] == EntryEnd(zip, records[k - 1]))
  }

  /** Chained is kept by putting in front a record whose entry ends where the chain starts. */
  lemma ChainedStep(zip: seq<byte>, p: nat, next: nat, rest: seq<nat>, end: int)
    requires p + SIZE_ZIP_CEN <= |zip| && p + SIZE_ZIP_CEN <= next
    requires EntryEnd(zip, p) == next && Chained(zip, rest, next, end)
    ensures Chained(zip, [p] + rest, p, end)
  {
    var r := [p] + rest;
    forall k | 0 <= k < |r|
      ensures r[k] + SIZE_ZIP_CEN <= |zip| && r[k] + SIZE_ZIP_CEN <= EntryEnd(zip, r[k])
    {
      if k > 0 {
        assert r[k] == rest[k - 1];
      }
    }
    if |rest| > 0 {
      assert r[|r| - 1] == rest[|rest| - 1];
    }
    forall k | 0 < k < |r|
      ensures r[k] == EntryEnd(zip, r[k - 1])
    {
      if k == 1 {
        assert r[1] == rest[0];
      } else {
        assert r[k] == rest[k - 1] && r[k - 1] == rest[k - 2];
      }
    }
  }

  /** Entries laid out in the archive follow one another as their records announce. */
  lemma {:induction false} LayChained(zip: seq<byte>, p: nat, entries: seq<Entry>)
    requires Laid(zip, p, entries)
    ensures Chained(zip, Lay(p, entries).records, p, Lay(p, entries).end)
    decreases |entries|
  {
    if |entries| > 0 {
      var e := entries[0];
      var next := p + SIZE_ZIP_CEN + |e.extra|;
      LayChained(zip, next, entries[1..]);
      ChainedStep(zip, p, next, Lay(next, entries[1..]).records, Lay(next, entries[1..]).end);
    }
  }

  /** A chain without its first record is the chain from where that record's entry ends. */
  lemma ChainedTail(zip: seq<byte>, records: seq<nat>, pos: nat, end: int)
    requires Chained(zip, records, pos, end) && |records| > 0
    ensures records[0] + SIZE_ZIP_CEN <= |zip|
    ensures Chained(zip, records[1..], EntryEnd(zip, records[0]), end)
  {
    var rest := records[1..];
    assert forall k :: 0 <= k < |rest| ==> rest[k] == records[k + 1];
  }

  /** A chain of records that is not empty ends at least one record past where it starts. */
  lemma {:induction false} ChainedAdvances(zip: seq<byte>, records: seq<nat>, pos: nat, end: int)
    requires Chained(zip, records, pos, end) && |records| > 0
    ensures pos + SIZE_ZIP_CEN <= end
    decreases |records|
  {
    ChainedTail(zip, records, pos, end);
    if |records| > 1 {
      ChainedAdvances(zip, records[1..], EntryEnd(zip, records[0]), end);
    }
  }

  /** The CEN records from `pos` to `end` are determined by the archive: there is one chain at most. */
  lemma {:induction false} ChainedUnique(zip: seq<byte>, a: seq<nat>, b: seq<nat>, pos: nat, end: int)
    requires Chained(zip, a, pos, end) && Chained(zip, b, pos, end)
    ensures a == b
    decreases |a|
  {
    if |a| == 0 && |b| > 0 {
      ChainedAdvances(zip, b, pos, end);
    } else if |a| > 0 && |b| == 0 {
      ChainedAdvances(zip, a, pos, end);
    } else if |a| > 0 {
      ChainedTail(zip, a, pos, end);
      ChainedTail(zip, b, pos, end);
      ChainedUnique(zip, a[1..], b[1..], EntryEnd(zip, pos), end);
      SameHeadAndRest(a, b);
    }
  }

  /** Two sequences with the same first element and the same rest are equal. */
  lemma SameHeadAndRest(a: seq<nat>, b: seq<nat>)
    requires |a| > 0 && |b| > 0 && a[0] == b[0] && a[1..] == b[1..]
    ensures a == b
  {
    assert a == [a[0]] + a[1..] && b == [b[0]] + b[1..];
  }

  /** Every record of `w`, a walk from `p`, holds in its offset field the archive's offset plus OFFSET_ZIP. */
  predicate OffsetsPatched(zip: seq<byte>, p: nat, w: Walk)
  {
    forall k :: 0 <= k < |w.records| ==> OffsetPatchedAt(zip, p, w.bytes, w.records[k])
  }

  /** The record at `r` in the archive, emitted into `bytes` from `p` on, holds its offset plus OFFSET_ZIP. */
  predicate OffsetPatchedAt(zip: seq<byte>, p: nat, bytes: seq<byte>, r: nat)
  {
    p <= r && r - p + CENOFF + 4 <= |bytes| && r + CENOFF + 4 <= |zip|
    && LeInt32(bytes, r - p + CENOFF) == Wrap(LeInt32(zip, r + CENOFF) + OFFSET_ZIP)
  }

  /** OffsetPatchedAt is kept by emitting `head` first. */
  lemma OffsetPatchedAfter(zip: seq<byte>, p: nat, head: seq<byte>, bytes: seq<byte>, r: nat)
    requires OffsetPatchedAt(zip, p + |head|, bytes, r)
    ensures OffsetPatchedAt(zip, p, head + bytes, r)
  {
    ReadAfter(head, bytes, r - (p + |head|) + CENOFF);
  }

  /** The first entry's offset field, read at the start of what it emits. */
  lemma HeadOffset(zip: seq<byte>, p: nat, e: Entry, tail: seq<byte>)
    requires EntryAt(zip, p, e)
    ensures p + CENOFF + 4 <= |zip| && CENOFF + 4 <= |e.record + e.extra + tail|
    ensures LeInt32(e.record + e.extra + tail, CENOFF) == Wrap(LeInt32(zip, p + CENOFF) + OFFSET_ZIP)
  {
    var rec := zip[p..p + SIZE_ZIP_CEN];
    PatchCenMeaning(rec);
    var b := e.record + e.extra + tail;
    assert b[CENOFF..CENOFF + 4] == e.record[CENOFF..CENOFF + 4];
    LeInt32Equal(b, CENOFF, e.record, CENOFF);
    LeInt32Equal(rec, CENOFF, zip, p + CENOFF);
  }

  /** A read past `head` reads what follows it. */
  lemma ReadAfter(head: seq<byte>, tail: seq<byte>, i: nat)
    requires i + 4 <= |tail|
    ensures LeInt32(head + tail, |head| + i) == LeInt32(tail, i)
  {
    assert (head + tail)[|head| + i..|head| + i + 4] == tail[i..i + 4];
    LeInt32Equal(head + tail, |head| + i, tail, i);
  }

  /** OffsetsPatched is kept by putting in front a record `head` whose own offset field is patched. */
  lemma OffsetsStep(zip: seq<byte>, p: nat, head: seq<byte>, next: nat, rest: Walk, w: Walk)
    requires next == p + |head| && SIZE_ZIP_CEN <= |head| && p + CENOFF + 4 <= |zip|
    requires w.bytes == head + rest.bytes && w.records == [p] + rest.records
    requires LeInt32(w.bytes, CENOFF) == Wrap(LeInt32(zip, p + CENOFF) + OFFSET_ZIP)
    requires OffsetsPatched(zip, next, rest)
    ensures OffsetsPatched(zip, p, w)
  {
    assert OffsetPatchedAt(zip, p, w.bytes, p);
    forall k | 0 < k < |w.records|
      ensures OffsetPatchedAt(zip, p, w.bytes, w.records[k])
    {
      assert w.records[k] == rest.records[k - 1];
      OffsetPatchedAfter(zip, p, head, rest.bytes, rest.records[k - 1]);
    }
  }

  /** Each record laid out holds, in its offset field, the archive's offset plus OFFSET_ZIP. */
  lemma {:induction false} LayOffsets(zip: seq<byte>, p: nat, entries: seq<Entry>)
    requires Laid(zip, p, entries)
    ensures OffsetsPatched(zip, p, Lay(p, entries))
    decreases |entries|
  {
    if |entries| > 0 {
      var e := entries[0];
      var next := p + SIZE_ZIP_CEN + |e.extra|;
      LayOffsets(zip, next, entries[1..]);
      LayShape(zip, next, entries[1..]);
      HeadOffset(zip, p, e, Lay(next, entries[1..]).bytes);
      OffsetsStep(zip, p, e.record + e.extra, next, Lay(next, entries[1..]), Lay(p, entries));
    }
  }

  /** Every byte of `w`, a walk from `p`, outside the offset fields is the archive's byte at the same place. */
  predicate Verbatim(zip: seq<byte>, p: nat, w: Walk)
  {
    forall j :: p <= j < w.end && !InOffsetField(w.records, j) ==>
      j - p < |w.bytes| && j < |zip| && w.bytes[j - p] == zip[j]
  }

  /** Outside its offset field, the first entry emits the archive's bytes. */
  lemma HeadVerbatim(zip: seq<byte>, p: nat, e: Entry, j: nat)
    requires EntryAt(zip, p, e) && p <= j < p + SIZE_ZIP_CEN + |e.extra|
    requires !(p + CENOFF <= j < p + CENOFF + 4)
    ensures (e.record + e.extra)[j - p] == zip[j]
  {
    PatchCenMeaning(zip[p..p + SIZE_ZIP_CEN]);
  }

  /** An offset field of the walk after the first entry is one of the whole walk's. */
  lemma InOffsetFieldOfRest(p: nat, rest: seq<nat>, j: int)
    requires InOffsetField(rest, j)
    ensures InOffsetField([p] + rest, j)
  {
    var k :| 0 <= k < |rest| && rest[k] + CENOFF <= j < rest[k] + CENOFF + 4;
    assert ([p] + rest)[k + 1] == rest[k];
  }

  /** Verbatim is kept by putting one entry in front. */
  lemma VerbatimStep(zip: seq<byte>, p: nat, e: Entry, next: nat, rest: Walk, w: Walk)
    requires EntryAt(zip, p, e) && next == p + SIZE_ZIP_CEN + |e.extra|
    requires w == Walk(e.record + e.extra + rest.bytes, [p] + rest.records, rest.end)
    requires Shaped(rest, next) && Verbatim(zip, next, rest)
    ensures Verbatim(zip, p, w)
  {
    var head := e.record + e.extra;
    assert |head| == next - p;
    forall j | p <= j < w.end && !InOffsetField(w.records, j)
      ensures j - p < |w.bytes| && j < |zip| && w.bytes[j - p] == zip[j]
    {
      if j < next {
        assert !(w.records[0] + CENOFF <= j < w.records[0] + CENOFF + 4);
        HeadVerbatim(zip, p, e, j);
        assert w.bytes[j - p] == head[j - p];
      } else {
        if InOffsetField(rest.records, j) {
          InOffsetFieldOfRest(p, rest.records, j);
        }
        assert w.bytes[j - p] == rest.bytes[j - next];
      }
    }
  }

  /** Every byte laid out outside the offset fields is the archive's byte at the same place. */
  lemma {:induction false} LayVerbatim(zip: seq<byte>, p: nat, entries: seq<Entry>)
    requires Laid(zip, p, entries)
    ensures Verbatim(zip, p, Lay(p, entries))
    decreases |entries|
  {
    if |entries| > 0 {
      var e := entries[0];
      var next := p + SIZE_ZIP_CEN + |e.extra|;
      LayVerbatim(zip, next, entries[1..]);
      LayShape(zip, next, entries[1..]);
      VerbatimStep(zip, p, e, next, Lay(next, entries[1..]), Lay(p, entries));
    }
  }

  /** The layout, offset and verbatim facts of a successful CEN walk. */
  lemma WalkPieces(zip: seq<byte>, pos: nat, size: int32, sizeOfCen: int32, w: Walk)
    requires pos <= |zip| <= INT_MAX && WalkCen(zip, pos, size, sizeOfCen) == Success(w)
    ensures Shaped(w, pos) && OffsetsPatched(zip, pos, w) && Verbatim(zip, pos, w)
    ensures |w.records| == 0 <==> sizeOfCen <= size
  {
    var entries := WalkEntries(zip, pos, size, sizeOfCen, w);
    LayShape(zip, pos, entries);
    LayOffsets(zip, pos, entries);
    LayVerbatim(zip, pos, entries);
  }

  /** The records a successful CEN walk emits are every record from `pos` to where it stops. */
  lemma WalkChained(zip: seq<byte>, pos: nat, size: int32, sizeOfCen: int32, w: Walk)
    requires pos <= |zip| <= INT_MAX && WalkCen(zip, pos, size, sizeOfCen) == Success(w)
    ensures Chained(zip, w.records, pos, w.end)
  {
    var entries := WalkEntries(zip, pos, size, sizeOfCen, w);
    LayChained(zip, pos, entries);
  }

  /**
   * What the CEN walk emits: as many bytes as it consumes, in the records that
   * follow one another from `pos` as each record's lengths announce, none
   * skipped, with at least one exactly when the byte count starts below the CEN
   * size; each record's offset field moved by OFFSET_ZIP and every other byte
   * the archive's.
   */
  lemma WalkLaw(zip: seq<byte>, pos: nat, size: int32, sizeOfCen: int32, w: Walk)
    requires pos <= |zip| <= INT_MAX && WalkCen(zip, pos, size, sizeOfCen) == Success(w)
    ensures Shaped(w, pos) && OffsetsPatched(zip, pos, w) && Verbatim(zip, pos, w)
    ensures Chained(zip, w.records, pos, w.end)
    ensures |w.records| == 0 <==> sizeOfCen <= size
  {
    WalkPieces(zip, pos, size, sizeOfCen, w);
    WalkChained(zip, pos, size, sizeOfCen, w);
  }

  /** A successful BuildPayload, taken apart: the walk, and the tail after it. */
  lemma PayloadParts(zip: seq<byte>, d: Directory, p: Payload) returns (w: Walk, t: Tail)
    requires |zip| <= INT_MAX && d.cen < d.eocd && d.eocd + 20 <= |zip|
    requires BuildPayload(zip, d) == Success(p)
    ensures WalkCen(zip, d.cen, 0, d.sizeOfCen) == Success(w) && w.end == Wrap(d.cen + d.sizeOfCen)
    ensures EocdTail(zip, d, w.end) == Success(t)
    ensures p == Payload(zip[..d.cen] + w.bytes + t.bytes, w.records, t.eocdAt)
  {
    w := WalkCen(zip, d.cen, 0, d.sizeOfCen).value;
    t := EocdTail(zip, d, w.end).value;
  }

  /** A CEN that ends, in `int` arithmetic, between its start and the end of the archive ends there in fact. */
  lemma CenEnd(cen: nat, sizeOfCen: int32, end: nat)
    requires cen <= end && cen <= INT_MAX && end == Wrap(cen + sizeOfCen)
    ensures end == cen + sizeOfCen
  {
  }

  /** `b` is the archive from `end`, but with `v` in the 4 bytes at ENDOFF of the EOCD record at `at`. */
  predicate PatchedFrom(zip: seq<byte>, end: nat, at: nat, v: int32, b: seq<byte>)
  {
    end <= at && at + SIZE_ZIP_EOCD <= |zip| && |b| == |zip| - end
    && LeInt32(b, at - end + ENDOFF) == v
    && forall j :: end <= j < |zip| && !(at + ENDOFF <= j < at + ENDOFF + 4) ==> b[j - end] == zip[j]
  }

  /** Copying the archive from `end` with the EOCD record at `at` patched yields PatchedFrom. */
  lemma PatchedCopy(zip: seq<byte>, end: nat, at: nat, v: int32, b: seq<byte>)
    requires end <= at && at + SIZE_ZIP_EOCD <= |zip|
    requires b == zip[end..at] + PutInt(zip[at..at + SIZE_ZIP_EOCD], ENDOFF, v) + zip[at + SIZE_ZIP_EOCD..]
    ensures PatchedFrom(zip, end, at, v, b)
  {
    var gap, patched, rest := zip[end..at], PutInt(zip[at..at + SIZE_ZIP_EOCD], ENDOFF, v), zip[at + SIZE_ZIP_EOCD..];
    assert b == gap + (patched + rest);
    ReadAfter(gap, patched + rest, ENDOFF);
    assert (patched + rest)[ENDOFF..ENDOFF + 4] == patched[ENDOFF..ENDOFF + 4];
    LeInt32Equal(patched + rest, ENDOFF, patched, ENDOFF);
  }

  /** The tail `t` after a CEN ending at `end` is the archive from `end`, with the CEN offset of the EOCD read at `eocdAt` patched. */
  predicate TailIsArchive(zip: seq<byte>, d: Directory, end: nat, t: Tail)
  {
    t.eocdAt == (if end < d.eocd then d.eocd else end)
    && PatchedFrom(zip, end, t.eocdAt, Wrap(d.cen + OFFSET_ZIP), t.bytes)
  }

  /** What EocdTail emits: the archive from `end`, with the CEN offset of the EOCD read at `eocdAt` patched. */
  lemma TailMeaning(zip: seq<byte>, d: Directory, end: nat, t: Tail)
    requires |zip| <= INT_MAX && d.eocd <= |zip| && end <= |zip| && end == Wrap(d.cen + d.sizeOfCen)
    requires EocdTail(zip, d, end) == Success(t)
    ensures TailIsArchive(zip, d, end, t)
  {
    var at := if end < d.eocd then d.eocd else end;
    EocdTailAt(zip, d, end, at, Slice(zip, at, SIZE_ZIP_EOCD));
    assert t.eocdAt == at;
    PatchedCopy(zip, end, at, Wrap(d.cen + OFFSET_ZIP), t.bytes);
  }

  /** A read inside `mid` of `head + mid + tail` reads `mid`. */
  lemma ReadWithin(head: seq<byte>, mid: seq<byte>, tail: seq<byte>, i: nat)
    requires i + 4 <= |mid|
    ensures LeInt32(head + mid + tail, |head| + i) == LeInt32(mid, i)
  {
    assert (head + mid + tail)[|head| + i..|head| + i + 4] == mid[i..i + 4];
    LeInt32Equal(head + mid + tail, |head| + i, mid, i);
  }

  /**
   * The payload is the archive with only two kinds of change: the offset field
   * of every CEN record, which holds the record's offset plus OFFSET_ZIP, and
   * the CEN offset of the EOCD record read at `eocdAt`, which holds the CEN
   * offset plus OFFSET_ZIP. The records are every CEN record from the CEN
   * offset to the CEN offset plus the CEN size, each where the entry before it
   * ends, and there is none exactly when the CEN size is 0.
   */
  predicate PayloadIsArchive(zip: seq<byte>, d: Directory, p: Payload)
  {
    PayloadLayout(zip, d, p) && Chained(zip, p.records, d.cen, d.cen + d.sizeOfCen)
    && RecordOffsetsMoved(zip, p) && EocdOffsetMoved(d, p) && UnchangedElsewhere(zip, p)
  }

  /**
   * The payload is as long as the archive; the CEN records follow one another,
   * without overlapping, from the CEN offset to the CEN offset plus the CEN
   * size; the EOCD record is read at the EOCD, or where the CEN ends if that is later.
   */
  predicate PayloadLayout(zip: seq<byte>, d: Directory, p: Payload)
  {
    |p.bytes| == |zip|
    && 0 <= d.sizeOfCen && d.cen + d.sizeOfCen <= |zip|
    && (|p.records| == 0 <==> d.sizeOfCen == 0)
    && (|p.records| > 0 ==> p.records[0] == d.cen)
    && (forall k :: 0 <= k < |p.records| ==> d.cen <= p.records[k] && p.records[k] + SIZE_ZIP_CEN <= d.cen + d.sizeOfCen)
    && (forall k :: 0 < k < |p.records| ==> p.records[k - 1] + SIZE_ZIP_CEN <= p.records[k])
    && p.eocdAt == (if d.cen + d.sizeOfCen < d.eocd then d.eocd else d.cen + d.sizeOfCen)
    && p.eocdAt + SIZE_ZIP_EOCD <= |zip|
  }

  /** The EOCD record the payload carries holds, as its CEN offset, the archive's plus OFFSET_ZIP. */
  predicate EocdOffsetMoved(d: Directory, p: Payload)
  {
    p.eocdAt + SIZE_ZIP_EOCD <= |p.bytes| && LeInt32(p.bytes, p.eocdAt + ENDOFF) == Wrap(d.cen + OFFSET_ZIP)
  }

  /** Every CEN record of the payload holds, in its offset field, the archive's offset plus OFFSET_ZIP. */
  predicate RecordOffsetsMoved(zip: seq<byte>, p: Payload)
  {
    forall k :: 0 <= k < |p.records| ==>
      p.records[k] + CENOFF + 4 <= |p.bytes| && p.records[k] + CENOFF + 4 <= |zip|
      && LeInt32(p.bytes, p.records[k] + CENOFF) == Wrap(LeInt32(zip, p.records[k] + CENOFF) + OFFSET_ZIP)
  }

  /** Outside the CEN offset fields and the EOCD's CEN offset, the payload is the archive byte for byte. */
  predicate UnchangedElsewhere(zip: seq<byte>, p: Payload)
  {
    |p.bytes| == |zip|
    && forall j :: 0 <= j < |zip| && !InOffsetField(p.records, j) && !(p.eocdAt + ENDOFF <= j < p.eocdAt + ENDOFF + 4)
         ==> p.bytes[j] == zip[j]
  }

  /** The payload's CEN offset fields, read where the walk emitted them. */
  lemma PayloadOffsets(zip: seq<byte>, cen: nat, w: Walk, tail: seq<byte>, p: Payload)
    requires cen <= |zip| && Shaped(w, cen) && OffsetsPatched(zip, cen, w)
    requires p.bytes == zip[..cen] + w.bytes + tail && p.records == w.records
    ensures RecordOffsetsMoved(zip, p)
  {
    forall k | 0 <= k < |p.records|
      ensures LeInt32(p.bytes, p.records[k] + CENOFF) == Wrap(LeInt32(zip, p.records[k] + CENOFF) + OFFSET_ZIP)
    {
      ReadWithin(zip[..cen], w.bytes, tail, w.records[k] - cen + CENOFF);
    }
  }

  /** Outside the offset fields the payload is the archive. */
  lemma PayloadVerbatim(zip: seq<byte>, cen: nat, w: Walk, t: Tail, p: Payload)
    requires cen <= w.end <= |zip| && Shaped(w, cen) && Verbatim(zip, cen, w)
    requires |t.bytes| == |zip| - w.end
    requires forall j :: w.end <= j < |zip| && !(t.eocdAt + ENDOFF <= j < t.eocdAt + ENDOFF + 4) ==> t.bytes[j - w.end] == zip[j]
    requires p == Payload(zip[..cen] + w.bytes + t.bytes, w.records, t.eocdAt)
    ensures UnchangedElsewhere(zip, p)
  {
    forall j | 0 <= j < |zip| && !InOffsetField(p.records, j) && !(p.eocdAt + ENDOFF <= j < p.eocdAt + ENDOFF + 4)
      ensures p.bytes[j] == zip[j]
    {
      if j < cen {
        assert p.bytes[j] == zip[..cen][j];
      } else if j < w.end {
        assert p.bytes[j] == w.bytes[j - cen];
      } else {
        assert p.bytes[j] == t.bytes[j - w.end];
      }
    }
  }

  /** PayloadLayout from the walk `w` and the tail `t` a payload is made of. */
  lemma PayloadLayoutOf(zip: seq<byte>, d: Directory, w: Walk, t: Tail, p: Payload)
    requires d.cen <= d.eocd <= |zip| && Shaped(w, d.cen)
    requires w.end == d.cen + d.sizeOfCen <= |zip| && (|w.records| == 0 <==> d.sizeOfCen <= 0)
    requires TailIsArchive(zip, d, w.end, t)
    requires p == Payload(zip[..d.cen] + w.bytes + t.bytes, w.records, t.eocdAt)
    ensures PayloadLayout(zip, d, p)
  {
  }

  /** EocdOffsetMoved from the walk `w` and the tail `t` a payload is made of. */
  lemma PayloadEocdOffset(zip: seq<byte>, d: Directory, w: Walk, t: Tail, p: Payload)
    requires d.cen <= w.end && |w.bytes| == w.end - d.cen && d.cen <= |zip|
    requires TailIsArchive(zip, d, w.end, t)
    requires p == Payload(zip[..d.cen] + w.bytes + t.bytes, w.records, t.eocdAt)
    ensures EocdOffsetMoved(d, p)
  {
    ReadAfter(zip[..d.cen] + w.bytes, t.bytes, t.eocdAt - w.end + ENDOFF);
  }

  /** The walk and the tail of a payload BuildPayload returns, and what is known of each. */
  lemma PayloadPieces(zip: seq<byte>, d: Directory, p: Payload) returns (w: Walk, t: Tail)
    requires |zip| <= INT_MAX && d.cen < d.eocd && d.eocd + 20 <= |zip|
    requires BuildPayload(zip, d) == Success(p)
    ensures Shaped(w, d.cen) && OffsetsPatched(zip, d.cen, w) && Verbatim(zip, d.cen, w)
    ensures w.end == d.cen + d.sizeOfCen <= |zip| && (|w.records| == 0 <==> d.sizeOfCen <= 0)
    ensures TailIsArchive(zip, d, w.end, t)
    ensures p == Payload(zip[..d.cen] + w.bytes + t.bytes, w.records, t.eocdAt)
  {
    w, t := PayloadParts(zip, d, p);
    WalkPieces(zip, d.cen, 0, d.sizeOfCen, w);
    CenEnd(d.cen, d.sizeOfCen, w.end);
    TailMeaning(zip, d, w.end, t);
  }

  /** The records of a payload are every CEN record, from the CEN offset to the CEN offset plus the CEN size. */
  lemma PayloadChain(zip: seq<byte>, d: Directory, p: Payload)
    requires |zip| <= INT_MAX && d.cen < d.eocd && d.eocd + 20 <= |zip|
    requires BuildPayload(zip, d) == Success(p)
    ensures Chained(zip, p.records, d.cen, d.cen + d.sizeOfCen)
  {
    var w, t := PayloadParts(zip, d, p);
    WalkChained(zip, d.cen, 0, d.sizeOfCen, w);
    CenEnd(d.cen, d.sizeOfCen, w.end);
  }

  /** The payload law: a payload BuildPayload returns is the archive with its offsets moved by OFFSET_ZIP, and nothing else changed. */
  lemma PayloadLaw(zip: seq<byte>, d: Directory, p: Payload)
    requires |zip| <= INT_MAX && d.cen < d.eocd && d.eocd + 20 <= |zip|
    requires BuildPayload(zip, d) == Success(p)
    ensures PayloadIsArchive(zip, d, p)
  {
    PayloadChain(zip, d, p);
    var w, t := PayloadPieces(zip, d, p);
    PayloadLayoutOf(zip, d, w, t, p);
    PayloadOffsets(zip, d.cen, w, t.bytes, p);
    PayloadEocdOffset(zip, d, w, t, p);
    PayloadVerbatim(zip, d.cen, w, t, p);
  }
}
