/**
 * ZipAsPng.disguise: embeds a ZIP archive in a private ancillary chunk `ziPc`
 * placed right after the IHDR chunk of a PNG image, patching the archive's
 * absolute offsets so that the result is read as the same archive.
 *
 * The pure functions below are the specification of the transform, step by
 * step in the order the source performs them; the method Disguise is the
 * imperative transform over a read cursor, scratch copies and a running CRC,
 * proved to compute exactly that specification.
 *
 * Line numbers in the comments below are those of
 * src/main/java/net/the_blue_pla/net/zipaspng/ZipAsPng.java.
 */
module ZipAsPng {
  import opened Wrappers
  import opened JavaInt
  import opened ByteOrder
  import opened ByteBuffers
  import opened Checksum

  const NOT_FOUND: int := -1
  /** Central directory header signature "PK\1\2", read little-endian (APPNOTE 4.3.12). */
  const SIG_CEN: int32 := 0x0201_4b50
  /** End of central directory signature "PK\5\6", read little-endian (APPNOTE 4.3.16). */
  const SIG_EOCD: int32 := 0x0605_4b50
  /** Integer.reverseBytes(SIG_EOCD): the CRC value whose big-endian bytes spell "PK\5\6". */
  const SIG_EOCD_REVERSED: int32 := 0x504B_0506
  const SIZE_PNG_HEAD: nat := 8
  const SIZE_PNG_IHDR: nat := 4 + 4 + 0x0d + 4
  const SIZE_ZIP_EOCD: nat := 22
  const SIZE_ZIP_CEN: nat := 46
  /** The bytes inserted ahead of the archive: PNG signature, IHDR chunk, and the new chunk's length and type. */
  const OFFSET_ZIP: nat := SIZE_PNG_HEAD + SIZE_PNG_IHDR + 4 + 4

  /** The PNG signature (PNG section 5.2) and the IHDR length and type (section 11.2.2). */
  const HEAD_PNG: seq<byte> := [0x89, 0x50, 0x4E, 0x47, 0x0D, 0x0A, 0x1A, 0x0A, 0x00, 0x00, 0x00, 0x0D, 0x49, 0x48, 0x44, 0x52]
  /** The chunk type "ziPc": ancillary, private, safe to copy (PNG section 5.4). */
  const ZIPC_TYPE: seq<byte> := [0x7A, 0x69, 0x50, 0x63]

  // Field offsets inside the EOCD record and a CEN record, as java.util.zip.ZipFile names them.
  const ENDSIZ: nat := 12
  const ENDOFF: nat := 16
  const CENNAM: nat := 28
  const CENEXT: nat := 30
  const CENCOM: nat := 32
  const CENOFF: nat := 42

  /** Why the transform gives up. */
  datatype Err =
    | ZipTooLarge          // the archive is longer than Integer.MAX_VALUE bytes
    | PngTooLarge          // the image is longer than Integer.MAX_VALUE bytes
    | BadPngHeader         // the first 16 bytes are not the PNG signature and the IHDR length and type
    | EocdSignatureInPng   // the image contains "PK\5\6" somewhere
    | EocdNotFound         // the archive contains no "PK\5\6"
    | CenNotBeforeEocd     // the EOCD's CEN offset is not below the EOCD position
    | CenNotFound          // no CEN signature at the CEN offset
    | CenSizeMismatch      // the CEN walk does not end at CEN offset + CEN size
    | CrcIsEocdSignature   // the chunk CRC, written big-endian, would spell "PK\5\6"
    | Buffer(cause: BufferError)

  /** The four bytes of `s` at `i` are the EOCD signature (read as getInt does). */
  predicate IsEocdSignatureAt(s: seq<byte>, i: int)
  {
    0 <= i && i + 4 <= |s| && LeInt32(s, i) == SIG_EOCD
  }

  /** The last signature position at or below `k`, or NOT_FOUND. */
  function LastIndexFrom(s: seq<byte>, k: int): (r: int)
    requires k <= |s| - 4
    ensures r == NOT_FOUND || 0 <= r <= k
    ensures r != NOT_FOUND ==> IsEocdSignatureAt(s, r)
    ensures forall j :: r < j <= k ==> !IsEocdSignatureAt(s, j)
    decreases if k < 0 then 0 else k + 1
  {
    if k < 0 then NOT_FOUND
    else if LeInt32(s, k) == SIG_EOCD then k
    else LastIndexFrom(s, k - 1)
  }

  /** The result lastIndexOfSigneture is specified to return. */
  function LastEocdIndex(s: seq<byte>): int
  {
    LastIndexFrom(s, |s| - 4)
  }

  /** lastIndexOfSigneture: scans every 4-byte window from the end towards the start. */
  method LastIndexOfSignature(content: seq<byte>) returns (index: int)
    ensures index == LastEocdIndex(content)
    ensures index == NOT_FOUND <==> forall j :: !IsEocdSignatureAt(content, j)
    ensures index != NOT_FOUND ==> IsEocdSignatureAt(content, index) &&
                                   forall j :: index < j ==> !IsEocdSignatureAt(content, j)
  {
    index := |content| - 4;
    while 0 <= index
      invariant index <= |content| - 4
      invariant LastEocdIndex(content) == LastIndexFrom(content, index)
      decreases index
    {
      if LeInt32(content, index) == SIG_EOCD {
        return;
      }
      index := index - 1;
    }
    index := NOT_FOUND;
  }

  /** Where the EOCD record is, and what it says about the central directory. */
  datatype Directory = Directory(eocd: nat, cen: nat, sizeOfCen: int32)

  /** Lines 110-131: find the last EOCD signature, read and check the CEN offset, read the CEN size. */
  function LocateDirectory(zip: seq<byte>): (r: Result<Directory, Err>)
    requires |zip| <= INT_MAX
    ensures r.Success? ==> r.value.cen < r.value.eocd && r.value.eocd + 20 <= |zip|
  {
    var eocd := LastEocdIndex(zip);
    if eocd == NOT_FOUND then Failure(EocdNotFound)
    else match GetInt(zip, Wrap(eocd + ENDOFF))
      case Failure(e) => Failure(Buffer(e))
      case Success(cen) =>
        if eocd <= cen then Failure(CenNotBeforeEocd)
        else match GetInt(zip, cen)
          case Failure(e) => Failure(Buffer(e))
          case Success(sig) =>
            if SIG_CEN != sig then Failure(CenNotFound)
            else Success(Directory(eocd, cen, LeInt32(zip, eocd + ENDSIZ)))
  }

  /**
   * The trailing-data length of a CEN record as the source computes it: the sum,
   * in `int` arithmetic, of the 4-byte little-endian reads at CENNAM, CENEXT and CENCOM.
   */
  function TrailingLength(rec: seq<byte>): int32
    requires |rec| == SIZE_ZIP_CEN
  {
    Wrap(LeInt32(rec, CENNAM) + LeInt32(rec, CENEXT) + LeInt32(rec, CENCOM))
  }

  /** A CEN record with its local-header offset increased by OFFSET_ZIP. */
  function PatchCen(rec: seq<byte>): seq<byte>
    requires |rec| == SIZE_ZIP_CEN
  {
    PutInt(rec, CENOFF, Wrap(LeInt32(rec, CENOFF) + OFFSET_ZIP))
  }

  /** One CEN record with its offset patched, and the trailing bytes (name, extra field, comment) after it. */
  datatype Entry = Entry(record: seq<byte>, extra: seq<byte>)

  /** Lines 159-172: take a 46-byte CEN record at `pos`, patch its offset, then take its trailing bytes. */
  function CenEntry(zip: seq<byte>, pos: nat): (r: Result<Entry, Err>)
    requires pos <= |zip| <= INT_MAX
    ensures r.Success? ==> |r.value.record| == SIZE_ZIP_CEN
                           && pos + SIZE_ZIP_CEN + |r.value.extra| <= |zip|
  {
    match Slice(zip, pos, SIZE_ZIP_CEN)
    case Failure(e) => Failure(Buffer(e))
    case Success(rec) =>
      var cen := PatchCen(rec);
      match Slice(zip, pos + SIZE_ZIP_CEN, TrailingLength(cen))
      case Failure(e) => Failure(Buffer(e))
      case Success(extra) => Success(Entry(cen, extra))
  }

  /** CenEntry when the 46-byte record cannot be taken. */
  lemma CenEntryRecordFails(zip: seq<byte>, pos: nat, e: BufferError)
    requires pos <= |zip| <= INT_MAX && Slice(zip, pos, SIZE_ZIP_CEN) == Failure(e)
    ensures CenEntry(zip, pos) == Failure(Buffer(e))
  {
  }

  /** CenEntry once the record `rec` is taken: it ends as taking the trailing bytes does. */
  lemma CenEntryTrailer(zip: seq<byte>, pos: nat, rec: seq<byte>, trailer: Result<seq<byte>, BufferError>)
    requires pos <= |zip| <= INT_MAX && Slice(zip, pos, SIZE_ZIP_CEN) == Success(rec)
    requires trailer == Slice(zip, pos + SIZE_ZIP_CEN, TrailingLength(PatchCen(rec)))
    ensures CenEntry(zip, pos) == match trailer
                                 case Failure(e) => Failure(Buffer(e))
                                 case Success(extra) => Success(Entry(PatchCen(rec), extra))
  {
  }

  /** What part of the CEN walk emits: its bytes, the start of each record, and where the cursor stops. */
  datatype Walk = Walk(bytes: seq<byte>, records: seq<nat>, end: nat)

  /** Puts bytes and records emitted earlier in front of a walk's. */
  function Prepend(bytes: seq<byte>, records: seq<nat>, r: Result<Walk, Err>): Result<Walk, Err>
  {
    match r
    case Failure(e) => Failure(e)
    case Success(w) => Success(Walk(bytes + w.bytes, records + w.records, w.end))
  }

  /** Prepending nothing changes nothing. */
  lemma PrependNothing(r: Result<Walk, Err>)
    ensures Prepend([], [], r) == r
  {
    if r.Success? {
      assert [] + r.value.bytes == r.value.bytes;
      assert [] + r.value.records == r.value.records;
    }
  }

  /** Prepending twice is prepending the concatenations. */
  lemma PrependTwice(a: seq<byte>, ra: seq<nat>, b: seq<byte>, rb: seq<nat>, r: Result<Walk, Err>)
    ensures Prepend(a, ra, Prepend(b, rb, r)) == Prepend(a + b, ra + rb, r)
  {
    if r.Success? {
      assert a + (b + r.value.bytes) == a + b + r.value.bytes;
      assert ra + (rb + r.value.records) == ra + rb + r.value.records;
    }
  }

  /** Regrouping the bytes emitted so far. */
  lemma AppendAssociative(a: seq<byte>, b: seq<byte>, c: seq<byte>, d: seq<byte>)
    ensures a + b + c + d == a + (b + (c + d))
  {
    assert a + b + c + d == a + (b + c + d) == a + (b + (c + d));
  }

  /**
   * Lines 156-174: while the byte count `size` is below `sizeOfCen`, take the
   * next CEN entry at the cursor; `size` grows by the record and then by its
   * trailing bytes, in `int` arithmetic.
   */
  function WalkCen(zip: seq<byte>, pos: nat, size: int32, sizeOfCen: int32): (r: Result<Walk, Err>)
    requires pos <= |zip| <= INT_MAX
    ensures r.Success? ==> pos <= r.value.end <= |zip|
    decreases |zip| - pos
  {
    if sizeOfCen <= size then Success(Walk([], [], pos))
    else match CenEntry(zip, pos)
      case Failure(e) => Failure(e)
      case Success(entry) =>
        Prepend(entry.record + entry.extra, [pos],
          WalkCen(zip, pos + SIZE_ZIP_CEN + |entry.extra|,
                  Wrap(Wrap(size + SIZE_ZIP_CEN) + |entry.extra|), sizeOfCen))
  }

  /** One step of the walk, unfolded: the entry at `pos`, then the walk from `next` with the byte count `size'`. */
  lemma WalkCenStep(zip: seq<byte>, pos: nat, size: int32, sizeOfCen: int32, entry: Entry, next: nat, size': int32)
    requires pos <= |zip| <= INT_MAX && size < sizeOfCen
    requires CenEntry(zip, pos) == Success(entry)
    requires next == pos + SIZE_ZIP_CEN + |entry.extra| && size' == Wrap(Wrap(size + SIZE_ZIP_CEN) + |entry.extra|)
    ensures next <= |zip|
    ensures WalkCen(zip, pos, size, sizeOfCen) == Prepend(entry.record + entry.extra, [pos], WalkCen(zip, next, size', sizeOfCen))
  {
  }

  /** The chunk payload, the CEN record starts, and where the EOCD record was read. */
  datatype Payload = Payload(bytes: seq<byte>, records: seq<nat>, eocdAt: nat)

  /** What follows the CEN in the payload, and where the EOCD record was read. */
  datatype Tail = Tail(bytes: seq<byte>, eocdAt: nat)

  /**
   * Lines 180-195, the cursor at `end` just after the CEN: the gap up to the
   * EOCD if the CEN ends before it, the EOCD read at the cursor with its CEN
   * offset patched, and the rest of the archive.
   */
  function EocdTail(zip: seq<byte>, d: Directory, end: nat): Result<Tail, Err>
    requires |zip| <= INT_MAX && d.eocd <= |zip| && end <= |zip| && end == Wrap(d.cen + d.sizeOfCen)
  {
    var hasGap := Wrap(d.cen + d.sizeOfCen) < d.eocd;
    var gap := if hasGap then zip[end..d.eocd] else [];
    var at := if hasGap then d.eocd else end;
    match Slice(zip, at, SIZE_ZIP_EOCD)
    case Failure(e) => Failure(Buffer(e))
    case Success(eocd) =>
      var patched := PutInt(eocd, ENDOFF, Wrap(d.cen + OFFSET_ZIP));
      Success(Tail(gap + patched + zip[at + SIZE_ZIP_EOCD..], at))
  }

  /** EocdTail once the cursor has passed the gap and stands at `at`: it ends as taking the EOCD there does. */
  lemma EocdTailAt(zip: seq<byte>, d: Directory, end: nat, at: nat, eocd: Result<seq<byte>, BufferError>)
    requires |zip| <= INT_MAX && d.eocd <= |zip| && end <= |zip| && end == Wrap(d.cen + d.sizeOfCen)
    requires at == if end < d.eocd then d.eocd else end
    requires eocd == Slice(zip, at, SIZE_ZIP_EOCD)
    ensures eocd.Failure? ==> EocdTail(zip, d, end) == Failure(Buffer(eocd.error))
    ensures eocd.Success? ==>
              EocdTail(zip, d, end)
              == Success(Tail(zip[end..at] + PutInt(eocd.value, ENDOFF, Wrap(d.cen + OFFSET_ZIP)) + zip[at + SIZE_ZIP_EOCD..], at))
  {
    if end >= d.eocd {
      assert zip[end..at] == [];
    }
  }

  /**
   * Lines 150-195: the bytes before the CEN, the walked CEN, which must end at
   * the CEN offset plus the CEN size, then the tail.
   */
  function BuildPayload(zip: seq<byte>, d: Directory): Result<Payload, Err>
    requires |zip| <= INT_MAX && d.cen < d.eocd && d.eocd + 20 <= |zip|
  {
    match WalkCen(zip, d.cen, 0, d.sizeOfCen)
    case Failure(e) => Failure(e)
    case Success(w) =>
      if w.end != Wrap(d.cen + d.sizeOfCen) then Failure(CenSizeMismatch)
      else match EocdTail(zip, d, w.end)
        case Failure(e) => Failure(e)
        case Success(t) => Success(Payload(zip[..d.cen] + w.bytes + t.bytes, w.records, t.eocdAt))
  }

  /** The chunk CRC as the source holds it: `(int) crc.getValue()`. */
  function ChunkCrc(payload: seq<byte>): int32
  {
    Signed(Crc32(ZIPC_TYPE + payload) as int)
  }

  /**
   * Lines 138-210, once both inputs are checked: the PNG signature and IHDR
   * chunk, the `ziPc` chunk (length, type, payload, CRC), and the rest of the image.
   */
  function Assemble(zip: seq<byte>, png: seq<byte>, d: Directory): Result<seq<byte>, Err>
    requires |zip| <= INT_MAX && |HEAD_PNG| <= |png| <= INT_MAX
    requires d.cen < d.eocd && d.eocd + 20 <= |zip|
  {
    match Slice(png, SIZE_PNG_HEAD, SIZE_PNG_IHDR)
    case Failure(e) => Failure(Buffer(e))
    case Success(ihdr) =>
      match BuildPayload(zip, d)
      case Failure(e) => Failure(e)
      case Success(p) =>
        var crc := ChunkCrc(p.bytes);
        if crc == SIG_EOCD_REVERSED then Failure(CrcIsEocdSignature)
        else Success(png[..SIZE_PNG_HEAD] + ihdr + BeBytes(|zip|) + ZIPC_TYPE + p.bytes
                     + BeBytes(crc) + png[SIZE_PNG_HEAD + SIZE_PNG_IHDR..])
  }

  /** Assemble when the IHDR chunk is there but the payload cannot be built. */
  lemma AssemblePayloadFails(zip: seq<byte>, png: seq<byte>, d: Directory)
    requires |zip| <= INT_MAX && |HEAD_PNG| <= |png| <= INT_MAX
    requires d.cen < d.eocd && d.eocd + 20 <= |zip|
    requires Slice(png, SIZE_PNG_HEAD, SIZE_PNG_IHDR).Success? && BuildPayload(zip, d).Failure?
    ensures Assemble(zip, png, d) == Failure(BuildPayload(zip, d).error)
  {
  }

  /** Assemble when the chunk CRC would spell the EOCD signature. */
  lemma AssembleCrcFails(zip: seq<byte>, png: seq<byte>, d: Directory, payload: seq<byte>)
    requires |zip| <= INT_MAX && |HEAD_PNG| <= |png| <= INT_MAX
    requires d.cen < d.eocd && d.eocd + 20 <= |zip|
    requires Slice(png, SIZE_PNG_HEAD, SIZE_PNG_IHDR).Success?
    requires BuildPayload(zip, d).Success? && BuildPayload(zip, d).value.bytes == payload
    requires ChunkCrc(payload) == SIG_EOCD_REVERSED
    ensures Assemble(zip, png, d) == Failure(CrcIsEocdSignature)
  {
  }

  /** Assemble when every step succeeds: the output, piece by piece. */
  lemma AssembleSucceeds(zip: seq<byte>, png: seq<byte>, d: Directory, ihdr: seq<byte>, payload: seq<byte>, crc: int32)
    requires |zip| <= INT_MAX && |HEAD_PNG| <= |png| <= INT_MAX
    requires d.cen < d.eocd && d.eocd + 20 <= |zip|
    requires Slice(png, SIZE_PNG_HEAD, SIZE_PNG_IHDR) == Success(ihdr)
    requires BuildPayload(zip, d).Success? && BuildPayload(zip, d).value.bytes == payload
    requires crc == ChunkCrc(payload) && crc != SIG_EOCD_REVERSED
    ensures Assemble(zip, png, d) == Success(png[..SIZE_PNG_HEAD] + ihdr + BeBytes(|zip|) + ZIPC_TYPE + payload
                                             + BeBytes(crc) + png[SIZE_PNG_HEAD + SIZE_PNG_IHDR..])
  {
  }

  /** The transform, from the two file contents to the output file content. */
  function DisguiseSpec(zip: seq<byte>, png: seq<byte>): Result<seq<byte>, Err>
  {
    if INT_MAX < |zip| then Failure(ZipTooLarge)
    else if INT_MAX < |png| then Failure(PngTooLarge)
    else match Slice(png, 0, |HEAD_PNG|)
      case Failure(e) => Failure(Buffer(e))
      case Success(pngHeader) =>
        if HEAD_PNG != pngHeader then Failure(BadPngHeader)
        else if LastEocdIndex(png) != NOT_FOUND then Failure(EocdSignatureInPng)
        else match LocateDirectory(zip)
          case Failure(e) => Failure(e)
          case Success(d) => Assemble(zip, png, d)
  }

  /** Lines 110-131: finds the EOCD and reads and checks what it says about the CEN. */
  method LocateDirectoryOf(content: seq<byte>) returns (r: Result<Directory, Err>)
    requires |content| <= INT_MAX
    ensures r == LocateDirectory(content)
  {
    var positionOfEOCD := LastIndexOfSignature(content);
    if positionOfEOCD == NOT_FOUND {
      return Failure(EocdNotFound);
    }
    var cenRead := GetInt(content, Wrap(positionOfEOCD + ENDOFF));
    if cenRead.Failure? {
      return Failure(Buffer(cenRead.error));
    }
    var positionOfCEN := cenRead.value;
    if positionOfEOCD <= positionOfCEN {
      return Failure(CenNotBeforeEocd);
    }
    var sigRead := GetInt(content, positionOfCEN);
    if sigRead.Failure? {
      return Failure(Buffer(sigRead.error));
    }
    if SIG_CEN != sigRead.value {
      return Failure(CenNotFound);
    }
    var sizeRead := GetInt(content, Wrap(positionOfEOCD + ENDSIZ));
    assert sizeRead.Success?;
    r := Success(Directory(positionOfEOCD, positionOfCEN, sizeRead.value));
  }

  /** Lines 159-173: copies one CEN entry at the cursor, patching a scratch copy of the record, and feeds it to the CRC. */
  method CopyCenEntry(zipContent: ByteCursor, crc: Crc32Accumulator, out: OutputChannel) returns (r: Result<Entry, Err>)
    requires zipContent.Valid()
    modifies zipContent, crc, out
    ensures zipContent.Valid()
    ensures r == CenEntry(zipContent.content, old(zipContent.position))
    ensures r.Success? ==> zipContent.position == old(zipContent.position) + SIZE_ZIP_CEN + |r.value.extra|
                           && crc.fed == old(crc.fed) + r.value.record + r.value.extra
                           && out.written == old(out.written) + r.value.record + r.value.extra
  {
    ghost var zip, pos := zipContent.content, zipContent.position;
    var recRead := zipContent.SubBuffer(SIZE_ZIP_CEN);
    if recRead.Failure? {
      CenEntryRecordFails(zip, pos, recRead.error);
      return Failure(Buffer(recRead.error));
    }
    var cen := CopyOf(recRead.value);
    var offsetOfLocalHeader := LeInt32(cen[..], CENOFF);
    PutIntArray(cen, CENOFF, Wrap(offsetOfLocalHeader + OFFSET_ZIP));
    var patched := cen[..];
    assert patched == PatchCen(recRead.value);
    crc.Update(patched);
    out.Write(patched);
    var extraContentsLength := TrailingLength(patched);
    var extraRead := zipContent.SubBuffer(extraContentsLength);
    CenEntryTrailer(zip, pos, recRead.value, extraRead);
    if extraRead.Failure? {
      return Failure(Buffer(extraRead.error));
    }
    crc.Update(extraRead.value);
    out.Write(extraRead.value);
    r := Success(Entry(patched, extraRead.value));
  }

  /**
   * Lines 156-174: copies the CEN entries at the cursor while the byte count is
   * below `sizeOfCen`, and feeds them to the CRC.
   */
  method CopyCenRecords(zipContent: ByteCursor, crc: Crc32Accumulator, out: OutputChannel, sizeOfCen: int32)
    returns (r: Result<seq<byte>, Err>)
    requires zipContent.Valid()
    modifies zipContent, crc, out
    ensures zipContent.Valid()
    ensures match WalkCen(zipContent.content, old(zipContent.position), 0, sizeOfCen)
            case Failure(e) => r == Failure(e)
            case Success(w) => r == Success(w.bytes) && zipContent.position == w.end
                               && crc.fed == old(crc.fed) + w.bytes && out.written == old(out.written) + w.bytes
  {
    ghost var zip := zipContent.content;
    ghost var start := zipContent.position;
    ghost var fed0, out0 := crc.fed, out.written;
    var size: int32 := 0;
    var walked: seq<byte> := [];
    ghost var records: seq<nat> := [];
    PrependNothing(WalkCen(zip, start, 0, sizeOfCen));
    while size < sizeOfCen
      invariant zipContent.Valid() && zipContent.content == zip
      invariant crc.fed == fed0 + walked && out.written == out0 + walked
      invariant WalkCen(zip, start, 0, sizeOfCen)
                == Prepend(walked, records, WalkCen(zip, zipContent.position, size, sizeOfCen))
      decreases |zip| - zipContent.position
    {
      ghost var pos, size0 := zipContent.position, size;
      var entry := CopyCenEntry(zipContent, crc, out);
      if entry.Failure? {
        return Failure(entry.error);
      }
      var bytes := entry.value.record + entry.value.extra;
      size := Wrap(size + SIZE_ZIP_CEN);
      size := Wrap(size + |entry.value.extra|);
      ghost var rest := WalkCen(zip, zipContent.position, size, sizeOfCen);
      WalkCenStep(zip, pos, size0, sizeOfCen, entry.value, zipContent.position, size);
      PrependTwice(walked, records, bytes, [pos], rest);
      assert WalkCen(zip, start, 0, sizeOfCen) == Prepend(walked + bytes, records + [pos], rest);
      AppendAssociative(fed0, walked, entry.value.record, entry.value.extra);
      AppendAssociative(out0, walked, entry.value.record, entry.value.extra);
      walked := walked + bytes;
      records := records + [pos];
    }
    assert walked + [] == walked && records + [] == records;
    r := Success(walked);
  }

  /** Regrouping the bytes emitted so far. */
  lemma Regroup(a: seq<byte>, b: seq<byte>, c: seq<byte>)
    ensures a + b + c == a + (b + c)
  {
  }

  /** writeBigEndian: the four bytes of `value`, most significant first. */
  method WriteBigEndian(out: OutputChannel, value: int32)
    modifies out
    ensures out.written == old(out.written) + BeBytes(value)
  {
    var buff := new byte[4];
    buff[0], buff[1], buff[2], buff[3] := BeBytes(value)[0], BeBytes(value)[1], BeBytes(value)[2], BeBytes(value)[3];
    assert buff[..] == BeBytes(value);
    out.Write(buff[..]);
  }

  /**
   * Lines 180-195: copies the gap before the EOCD, the EOCD with its CEN offset
   * patched in a scratch copy, and whatever follows it, feeding the CRC.
   */
  method WriteEocdTail(zipContent: ByteCursor, crc: Crc32Accumulator, out: OutputChannel, d: Directory)
    returns (r: Result<seq<byte>, Err>)
    requires zipContent.Valid() && d.eocd <= |zipContent.content|
    requires zipContent.position == Wrap(d.cen + d.sizeOfCen)
    modifies zipContent, crc, out
    ensures match EocdTail(zipContent.content, d, old(zipContent.position))
            case Failure(e) => r == Failure(e)
            case Success(t) => r == Success(t.bytes) && crc.fed == old(crc.fed) + t.bytes
                               && out.written == old(out.written) + t.bytes
  {
    ghost var zip, end, fed0, out0 := zipContent.content, zipContent.position, crc.fed, out.written;
    var tail: seq<byte> := [];
    if Wrap(d.cen + d.sizeOfCen) < d.eocd {
      var gap := zipContent.SubBuffer(d.eocd - Wrap(d.cen + d.sizeOfCen));
      assert gap.Success?;
      crc.Update(gap.value);
      out.Write(gap.value);
      tail := gap.value;
    }
    assert tail == zip[end..zipContent.position];
    assert crc.fed == fed0 + tail && out.written == out0 + tail;

    ghost var at := zipContent.position;
    var eocdRead := zipContent.SubBuffer(SIZE_ZIP_EOCD);
    EocdTailAt(zip, d, end, at, eocdRead);
    if eocdRead.Failure? {
      return Failure(Buffer(eocdRead.error));
    }
    var eocd := CopyOf(eocdRead.value);
    PutIntArray(eocd, ENDOFF, Wrap(d.cen + OFFSET_ZIP));
    var patched := eocd[..];
    assert patched == PutInt(eocdRead.value, ENDOFF, Wrap(d.cen + OFFSET_ZIP));
    crc.Update(patched);
    out.Write(patched);
    Regroup(fed0, tail, patched);
    Regroup(out0, tail, patched);
    tail := tail + patched;

    var rest := zipContent.TakeRemaining();
    assert rest == zip[at + SIZE_ZIP_EOCD..];
    crc.Update(rest);
    out.Write(rest);
    Regroup(fed0, tail, rest);
    Regroup(out0, tail, rest);
    r := Success(tail + rest);
  }

  /**
   * Lines 150-195: copies the archive into the chunk, feeding the CRC: the bytes
   * before the CEN, the CEN entries, which must end at the CEN offset plus the
   * CEN size, then the tail.
   */
  method WritePayload(zipContent: ByteCursor, crc: Crc32Accumulator, out: OutputChannel, d: Directory)
    returns (r: Result<seq<byte>, Err>)
    requires zipContent.Valid() && zipContent.position == 0
    requires d.cen < d.eocd && d.eocd + 20 <= |zipContent.content|
    modifies zipContent, crc, out
    ensures match BuildPayload(zipContent.content, d)
            case Failure(e) => r == Failure(e)
            case Success(p) => r == Success(p.bytes) && crc.fed == old(crc.fed) + p.bytes
                               && out.written == old(out.written) + p.bytes
  {
    ghost var fed0, out0 := crc.fed, out.written;
    var sub := zipContent.SubBuffer(d.cen);
    assert sub.Success?;
    crc.Update(sub.value);
    out.Write(sub.value);

    var cenBytes := CopyCenRecords(zipContent, crc, out, d.sizeOfCen);
    if cenBytes.Failure? {
      return Failure(cenBytes.error);
    }
    Regroup(fed0, sub.value, cenBytes.value);
    Regroup(out0, sub.value, cenBytes.value);
    var payload := sub.value + cenBytes.value;
    if zipContent.position != Wrap(d.cen + d.sizeOfCen) {
      return Failure(CenSizeMismatch);
    }

    var tail := WriteEocdTail(zipContent, crc, out, d);
    if tail.Failure? {
      return Failure(tail.error);
    }
    Regroup(fed0, payload, tail.value);
    Regroup(out0, payload, tail.value);
    r := Success(payload + tail.value);
  }

  /**
   * Lines 133-210: with both cursors cleared, writes the PNG signature and IHDR
   * chunk, the `ziPc` chunk holding the patched archive and its CRC, and the
   * rest of the image.
   */
  method WriteDisguised(zipContent: ByteCursor, pngContent: ByteCursor, out: OutputChannel, d: Directory)
    returns (r: Result<seq<byte>, Err>)
    requires zipContent.Valid() && pngContent.Valid() && zipContent != pngContent
    requires zipContent.position == 0 && pngContent.position == 0 && |HEAD_PNG| <= |pngContent.content|
    requires d.cen < d.eocd && d.eocd + 20 <= |zipContent.content|
    modifies zipContent, pngContent, out
    ensures r == Assemble(zipContent.content, pngContent.content, d)
    ensures r.Success? ==> out.written == old(out.written) + r.value
  {
    ghost var zip, png := zipContent.content, pngContent.content;
    var crc := new Crc32Accumulator();
    var start := out.written;

    var head := pngContent.SubBuffer(SIZE_PNG_HEAD);
    assert head.Success?;
    out.Write(head.value);
    var ihdr := pngContent.SubBuffer(SIZE_PNG_IHDR);
    if ihdr.Failure? {
      return Failure(Buffer(ihdr.error));
    }
    out.Write(ihdr.value);
    WriteBigEndian(out, |zipContent.content|);
    crc.Update(ZIPC_TYPE);
    out.Write(ZIPC_TYPE);
    assert crc.fed == ZIPC_TYPE;
    ghost var emitted := head.value + ihdr.value + BeBytes(|zip|) + ZIPC_TYPE;
    assert out.written == start + emitted;

    ghost var built := BuildPayload(zip, d);
    var payload := WritePayload(zipContent, crc, out, d);
    if payload.Failure? {
      assert built.Failure? && built.error == payload.error;
      AssemblePayloadFails(zip, png, d);
      return Failure(payload.error);
    }
    assert built.Success? && built.value.bytes == payload.value;
    Regroup(start, emitted, payload.value);
    emitted := emitted + payload.value;
    var valueOfCrc32 := Signed(crc.Value() as int);
    assert valueOfCrc32 == ChunkCrc(payload.value);
    if valueOfCrc32 == SIG_EOCD_REVERSED {
      AssembleCrcFails(zip, png, d, payload.value);
      return Failure(CrcIsEocdSignature);
    }
    WriteBigEndian(out, valueOfCrc32);
    Regroup(start, emitted, BeBytes(valueOfCrc32));
    emitted := emitted + BeBytes(valueOfCrc32);
    var rest := pngContent.TakeRemaining();
    out.Write(rest);
    Regroup(start, emitted, rest);
    emitted := emitted + rest;
    assert out.written[|start|..] == emitted;
    assert head.value == png[..SIZE_PNG_HEAD] && rest == png[SIZE_PNG_HEAD + SIZE_PNG_IHDR..];
    AssembleSucceeds(zip, png, d, ihdr.value, payload.value, valueOfCrc32);
    r := Success(out.written[|start|..]);
  }

  /**
   * Lines 74-211, disguise: checks both inputs, then writes the disguised image.
   * Reading the two files is modelled by their contents.
   */
  method Disguise(zip: seq<byte>, png: seq<byte>, out: OutputChannel) returns (r: Result<seq<byte>, Err>)
    modifies out
    ensures r == DisguiseSpec(zip, png)
    ensures r.Success? ==> out.written == old(out.written) + r.value
  {
    if INT_MAX < |zip| {
      return Failure(ZipTooLarge);
    }
    if INT_MAX < |png| {
      return Failure(PngTooLarge);
    }
    var zipContent := new ByteCursor(zip);
    var pngContent := new ByteCursor(png);

    var pngHeader := pngContent.SubBuffer(|HEAD_PNG|);
    if pngHeader.Failure? {
      return Failure(Buffer(pngHeader.error));
    }
    if HEAD_PNG != pngHeader.value {
      return Failure(BadPngHeader);
    }
    var inPng := LastIndexOfSignature(png);
    if inPng != NOT_FOUND {
      return Failure(EocdSignatureInPng);
    }
    var directory := LocateDirectoryOf(zip);
    if directory.Failure? {
      return Failure(directory.error);
    }

    pngContent.Clear();
    zipContent.Clear();
    r := WriteDisguised(zipContent, pngContent, out, directory.value);
  }
}
