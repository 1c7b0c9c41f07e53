/**
 * What ZipAsPng.disguise guarantees end to end: which inputs it turns down and
 * why, how the output file is laid out as PNG chunks, and that the archive it
 * carries is found again, shifted by OFFSET_ZIP, inside the output.
 *
 * Line numbers in the comments below are those of
 * src/main/java/net/the_blue_pla/net/zipaspng/ZipAsPng.java.
 */
module DisguiseProperties {
  import opened Wrappers
  import opened JavaInt
  import opened ByteOrder
  import opened ByteBuffers
  import opened Checksum
  import opened ZipAsPng
  import opened ZipAsPngProperties

  /** The archive contains "PK\5\6" somewhere. */
  predicate HasEocdSignature(s: seq<byte>)
  {
    exists j :: 0 <= j < |s| && IsEocdSignatureAt(s, j)
  }

  /** lastIndexOfSigneture finds nothing exactly when there is no signature at all. */
  lemma LastEocdIndexNotFound(s: seq<byte>)
    ensures LastEocdIndex(s) == NOT_FOUND <==> !HasEocdSignature(s)
    ensures LastEocdIndex(s) != NOT_FOUND ==> IsEocdSignatureAt(s, LastEocdIndex(s))
  {
    if LastEocdIndex(s) != NOT_FOUND {
      assert IsEocdSignatureAt(s, LastEocdIndex(s));
    }
  }

  /**
   * Lines 110-131: the archive's directory is found exactly when it has an EOCD
   * signature whose record has room for the CEN offset, and that offset is
   * non-negative, below the EOCD and holds a CEN signature; each failure is
   * reported as the first of these checks that fails.
   */
  lemma LocateDirectoryMeaning(zip: seq<byte>)
    requires |zip| <= INT_MAX
    ensures LocateDirectory(zip) == Failure(EocdNotFound) <==> !HasEocdSignature(zip)
    ensures var e := LastEocdIndex(zip);
            e != NOT_FOUND ==>
              (LocateDirectory(zip) == Failure(Buffer(IndexOutOfBounds)) <==> (|zip| < e + 20 || LeInt32(zip, e + ENDOFF) < 0))
              && (e + 20 <= |zip| ==>
                    var cen := LeInt32(zip, e + ENDOFF);
                    (LocateDirectory(zip) == Failure(CenNotBeforeEocd) <==> e <= cen)
                    && (0 <= cen < e ==>
                          (LocateDirectory(zip) == Failure(CenNotFound) <==> LeInt32(zip, cen) != SIG_CEN)
                          && (LocateDirectory(zip).Success? <==> LeInt32(zip, cen) == SIG_CEN)
                          && (LocateDirectory(zip).Success? ==>
                                LocateDirectory(zip).value == Directory(e, cen, LeInt32(zip, e + ENDSIZ)))))
    ensures LocateDirectory(zip).Success? ==>
              var d := LocateDirectory(zip).value;
              d.eocd == LastEocdIndex(zip) && d.eocd + 20 <= |zip| && 0 <= d.cen < d.eocd
              && d.cen == LeInt32(zip, d.eocd + ENDOFF) && LeInt32(zip, d.cen) == SIG_CEN
              && d.sizeOfCen == LeInt32(zip, d.eocd + ENDSIZ)
  {
    LastEocdIndexNotFound(zip);
  }

  /**
   * Lines 77-108: the checks on the two inputs, in the order the source makes
   * them. A PNG shorter than its 16-byte header fails when subBuffer takes it.
   */
  lemma InputChecks(zip: seq<byte>, png: seq<byte>)
    ensures INT_MAX < |zip| ==> DisguiseSpec(zip, png) == Failure(ZipTooLarge)
    ensures |zip| <= INT_MAX < |png| ==> DisguiseSpec(zip, png) == Failure(PngTooLarge)
    ensures |zip| <= INT_MAX && |png| < |HEAD_PNG| ==> DisguiseSpec(zip, png) == Failure(Buffer(BufferLimitExceeded))
    ensures |zip| <= INT_MAX && |HEAD_PNG| <= |png| <= INT_MAX ==>
              (png[..|HEAD_PNG|] != HEAD_PNG ==> DisguiseSpec(zip, png) == Failure(BadPngHeader))
              && (png[..|HEAD_PNG|] == HEAD_PNG && HasEocdSignature(png) ==> DisguiseSpec(zip, png) == Failure(EocdSignatureInPng))
  {
    LastEocdIndexNotFound(png);
  }

  /**
   * Lines 110-207, once both inputs pass their checks: a failure to find the
   * directory or build the payload is passed on; a PNG too short for its IHDR
   * chunk fails when subBuffer takes it; and a CRC spelling "PK\5\6" fails.
   */
  lemma ArchiveChecks(zip: seq<byte>, png: seq<byte>)
    requires |zip| <= INT_MAX && |HEAD_PNG| <= |png| <= INT_MAX
    requires png[..|HEAD_PNG|] == HEAD_PNG && !HasEocdSignature(png)
    ensures LocateDirectory(zip).Failure? ==> DisguiseSpec(zip, png) == Failure(LocateDirectory(zip).error)
    ensures LocateDirectory(zip).Success? ==>
              var d := LocateDirectory(zip).value;
              (|png| < SIZE_PNG_HEAD + SIZE_PNG_IHDR ==> DisguiseSpec(zip, png) == Failure(Buffer(BufferLimitExceeded)))
              && (SIZE_PNG_HEAD + SIZE_PNG_IHDR <= |png| && BuildPayload(zip, d).Failure? ==>
                    DisguiseSpec(zip, png) == Failure(BuildPayload(zip, d).error))
              && (SIZE_PNG_HEAD + SIZE_PNG_IHDR <= |png| && BuildPayload(zip, d).Success? ==>
                    ((DisguiseSpec(zip, png) == Failure(CrcIsEocdSignature))
                     <==> (ChunkCrc(BuildPayload(zip, d).value.bytes) == SIG_EOCD_REVERSED)))
  {
    LastEocdIndexNotFound(png);
  }

  /** The transform succeeds exactly when every check passes. */
  lemma DisguiseSucceeds(zip: seq<byte>, png: seq<byte>)
    ensures DisguiseSpec(zip, png).Success? <==>
              |zip| <= INT_MAX && SIZE_PNG_HEAD + SIZE_PNG_IHDR <= |png| <= INT_MAX
              && png[..|HEAD_PNG|] == HEAD_PNG && !HasEocdSignature(png)
              && LocateDirectory(zip).Success?
              && BuildPayload(zip, LocateDirectory(zip).value).Success?
              && ChunkCrc(BuildPayload(zip, LocateDirectory(zip).value).value.bytes) != SIG_EOCD_REVERSED
  {
    LastEocdIndexNotFound(png);
  }

  /**
   * Lines 156-178: a CEN size of 0 or less skips the loop; a negative one then
   * fails the size check, since the cursor stays at the CEN offset. A payload is
   * built only when the walk stops exactly at the CEN offset plus the CEN size.
   */
  lemma CenSizeChecks(zip: seq<byte>, d: Directory)
    requires |zip| <= INT_MAX && d.cen < d.eocd && d.eocd + 20 <= |zip|
    ensures d.sizeOfCen <= 0 ==> WalkCen(zip, d.cen, 0, d.sizeOfCen) == Success(Walk([], [], d.cen))
    ensures d.sizeOfCen < 0 ==> BuildPayload(zip, d) == Failure(CenSizeMismatch)
    ensures BuildPayload(zip, d).Success? ==>
              WalkCen(zip, d.cen, 0, d.sizeOfCen).Success?
              && WalkCen(zip, d.cen, 0, d.sizeOfCen).value.end == d.cen + d.sizeOfCen
  {
    if BuildPayload(zip, d).Success? {
      var w := WalkCen(zip, d.cen, 0, d.sizeOfCen).value;
      assert w.end == Wrap(d.cen + d.sizeOfCen);
    }
  }

  /** What a directory that was found says about the archive. */
  lemma LocatedDirectory(zip: seq<byte>, d: Directory)
    requires |zip| <= INT_MAX && LocateDirectory(zip) == Success(d)
    ensures d.eocd == LastEocdIndex(zip) && IsEocdSignatureAt(zip, d.eocd)
    ensures d.eocd + 20 <= |zip| && 0 <= d.cen < d.eocd
    ensures d.cen == LeInt32(zip, d.eocd + ENDOFF) && LeInt32(zip, d.cen) == SIG_CEN
    ensures d.sizeOfCen == LeInt32(zip, d.eocd + ENDSIZ)
  {
    LastEocdIndexNotFound(zip);
  }

  /** A successful transform, taken apart: the directory, the payload and the IHDR chunk it used. */
  lemma DisguiseParts(zip: seq<byte>, png: seq<byte>, out: seq<byte>) returns (d: Directory, p: Payload, ihdr: seq<byte>)
    requires DisguiseSpec(zip, png) == Success(out)
    ensures |zip| <= INT_MAX && |HEAD_PNG| <= |png| <= INT_MAX
    ensures png[..|HEAD_PNG|] == HEAD_PNG && !HasEocdSignature(png)
    ensures LocateDirectory(zip) == Success(d) && d.cen < d.eocd && d.eocd + 20 <= |zip|
    ensures BuildPayload(zip, d) == Success(p)
    ensures Slice(png, SIZE_PNG_HEAD, SIZE_PNG_IHDR) == Success(ihdr)
    ensures SIZE_PNG_HEAD + SIZE_PNG_IHDR <= |png| && ihdr == png[SIZE_PNG_HEAD..SIZE_PNG_HEAD + SIZE_PNG_IHDR]
    ensures ChunkCrc(p.bytes) != SIG_EOCD_REVERSED
    ensures out == png[..SIZE_PNG_HEAD] + ihdr + BeBytes(|zip|) + ZIPC_TYPE + p.bytes
                   + BeBytes(ChunkCrc(p.bytes)) + png[SIZE_PNG_HEAD + SIZE_PNG_IHDR..]
  {
    LastEocdIndexNotFound(png);
    d := LocateDirectory(zip).value;
    ihdr := Slice(png, SIZE_PNG_HEAD, SIZE_PNG_IHDR).value;
    p := BuildPayload(zip, d).value;
  }

  /** The pieces of the output, by position. */
  lemma OutputPieces(png: seq<byte>, ihdr: seq<byte>, len: seq<byte>, payload: seq<byte>, crc: seq<byte>, out: seq<byte>)
    requires SIZE_PNG_HEAD + SIZE_PNG_IHDR <= |png| && ihdr == png[SIZE_PNG_HEAD..SIZE_PNG_HEAD + SIZE_PNG_IHDR]
    requires |len| == 4 && |crc| == 4
    requires out == png[..SIZE_PNG_HEAD] + ihdr + len + ZIPC_TYPE + payload + crc + png[SIZE_PNG_HEAD + SIZE_PNG_IHDR..]
    ensures |out| == |png| + |payload| + 12
    ensures out[..SIZE_PNG_HEAD + SIZE_PNG_IHDR] == png[..SIZE_PNG_HEAD + SIZE_PNG_IHDR]
    ensures out[SIZE_PNG_HEAD + SIZE_PNG_IHDR..OFFSET_ZIP - 4] == len
    ensures out[OFFSET_ZIP - 4..OFFSET_ZIP] == ZIPC_TYPE
    ensures out[OFFSET_ZIP..OFFSET_ZIP + |payload|] == payload
    ensures out[OFFSET_ZIP - 4..OFFSET_ZIP + |payload|] == ZIPC_TYPE + payload
    ensures out[OFFSET_ZIP + |payload|..OFFSET_ZIP + |payload| + 4] == crc
    ensures out[OFFSET_ZIP + |payload| + 4..] == png[SIZE_PNG_HEAD + SIZE_PNG_IHDR..]
  {
    var a := png[..SIZE_PNG_HEAD] + ihdr;
    assert a == png[..SIZE_PNG_HEAD + SIZE_PNG_IHDR];
    var b := a + len;
    var c := b + ZIPC_TYPE;
    var e := c + payload;
    var f := e + crc;
    assert out == f + png[SIZE_PNG_HEAD + SIZE_PNG_IHDR..];
    assert out[..|a|] == a;
    assert out[|a|..|b|] == len;
    assert out[|b|..|c|] == ZIPC_TYPE;
    assert out[|c|..|e|] == payload;
    assert out[|b|..|e|] == ZIPC_TYPE + payload;
    assert out[|e|..|f|] == crc;
    assert out[|f|..] == png[SIZE_PNG_HEAD + SIZE_PNG_IHDR..];
  }

  /**
   * Lines 138-210: the output is the PNG signature and IHDR chunk copied from
   * the image, then a `ziPc` chunk whose big-endian length field is the
   * payload's length, whose data is the payload and whose big-endian CRC field
   * is the CRC-32 of its type and data and does not spell "PK\5\6", then the
   * rest of the image.
   */
  predicate ChunkLayout(png: seq<byte>, payload: seq<byte>, out: seq<byte>)
  {
    SIZE_PNG_HEAD + SIZE_PNG_IHDR <= |png| && |out| == |png| + |payload| + 12
    && out[..SIZE_PNG_HEAD + SIZE_PNG_IHDR] == png[..SIZE_PNG_HEAD + SIZE_PNG_IHDR]
    && BeInt32(out, SIZE_PNG_HEAD + SIZE_PNG_IHDR) == |payload|
    && out[OFFSET_ZIP - 4..OFFSET_ZIP] == ZIPC_TYPE
    && Carries(out, payload)
    && BeInt32(out, OFFSET_ZIP + |payload|) == Signed(Crc32(out[OFFSET_ZIP - 4..OFFSET_ZIP + |payload|]) as int)
    && out[OFFSET_ZIP + |payload|..OFFSET_ZIP + |payload| + 4] != EOCD_SIGNATURE_BYTES
    && out[OFFSET_ZIP + |payload| + 4..] == png[SIZE_PNG_HEAD + SIZE_PNG_IHDR..]
  }

  /** Lines 138-210 for any payload of a length an `int` can hold. */
  lemma ChunkFields(png: seq<byte>, ihdr: seq<byte>, n: int32, payload: seq<byte>, out: seq<byte>)
    requires SIZE_PNG_HEAD + SIZE_PNG_IHDR <= |png| && ihdr == png[SIZE_PNG_HEAD..SIZE_PNG_HEAD + SIZE_PNG_IHDR]
    requires n == |payload| && ChunkCrc(payload) != SIG_EOCD_REVERSED
    requires out == png[..SIZE_PNG_HEAD] + ihdr + BeBytes(n)
                    + ZIPC_TYPE + payload + BeBytes(ChunkCrc(payload)) + png[SIZE_PNG_HEAD + SIZE_PNG_IHDR..]
    ensures ChunkLayout(png, payload, out)
  {
    OutputPieces(png, ihdr, BeBytes(n), payload, BeBytes(ChunkCrc(payload)), out);
    LengthField(out, n);
    CrcField(out, payload);
  }

  /** Line 143: the length field, written big-endian, reads back as the length. */
  lemma LengthField(out: seq<byte>, n: int32)
    requires OFFSET_ZIP - 4 <= |out| && out[SIZE_PNG_HEAD + SIZE_PNG_IHDR..OFFSET_ZIP - 4] == BeBytes(n)
    ensures BeInt32(out, SIZE_PNG_HEAD + SIZE_PNG_IHDR) == n
  {
    BeRoundTrip(n);
    BeInt32Equal(out, SIZE_PNG_HEAD + SIZE_PNG_IHDR, BeBytes(n), 0);
  }

  /**
   * Lines 198-207: the CRC field, written big-endian after the chunk's type and
   * data, reads back as the CRC of those bytes and, having passed the check on
   * line 199, does not spell "PK\5\6".
   */
  lemma CrcField(out: seq<byte>, payload: seq<byte>)
    requires OFFSET_ZIP + |payload| + 4 <= |out| && ChunkCrc(payload) != SIG_EOCD_REVERSED
    requires out[OFFSET_ZIP - 4..OFFSET_ZIP + |payload|] == ZIPC_TYPE + payload
    requires out[OFFSET_ZIP + |payload|..OFFSET_ZIP + |payload| + 4] == BeBytes(ChunkCrc(payload))
    ensures BeInt32(out, OFFSET_ZIP + |payload|) == Signed(Crc32(out[OFFSET_ZIP - 4..OFFSET_ZIP + |payload|]) as int)
    ensures out[OFFSET_ZIP + |payload|..OFFSET_ZIP + |payload| + 4] != EOCD_SIGNATURE_BYTES
  {
    var crc := ChunkCrc(payload);
    BeRoundTrip(crc);
    BeInt32Equal(out, OFFSET_ZIP + |payload|, BeBytes(crc), 0);
    CrcNotSignature(crc);
  }

  /** Line 199: a CRC other than SIG_EOCD_REVERSED is not written as "PK\5\6". */
  lemma CrcNotSignature(crc: int32)
    requires crc != SIG_EOCD_REVERSED
    ensures BeBytes(crc) != EOCD_SIGNATURE_BYTES
  {
    SignatureSpellings();
    if BeBytes(crc) == EOCD_SIGNATURE_BYTES {
      BeBytesInjective(crc, SIG_EOCD_REVERSED);
    }
  }

  /**
   * Lines 74-211: a successful transform wraps the payload built from the
   * archive, which is the archive with its offsets moved (PayloadIsArchive),
   * in a `ziPc` chunk placed after the image's IHDR chunk (ChunkLayout).
   */
  lemma DisguiseLayout(zip: seq<byte>, png: seq<byte>, out: seq<byte>) returns (d: Directory, p: Payload)
    requires DisguiseSpec(zip, png) == Success(out)
    ensures LocateDirectory(zip) == Success(d) && BuildPayload(zip, d) == Success(p)
    ensures PayloadIsArchive(zip, d, p) && |p.bytes| == |zip|
    ensures ChunkLayout(png, p.bytes, out)
  {
    var ihdr;
    d, p, ihdr := DisguiseParts(zip, png, out);
    PayloadLaw(zip, d, p);
    assert |p.bytes| == |zip| by { assert PayloadLayout(zip, d, p); }
    ChunkFields(png, ihdr, |zip|, p.bytes, out);
  }

  /** The output holds the payload from OFFSET_ZIP on. */
  predicate Carries(out: seq<byte>, payload: seq<byte>)
  {
    OFFSET_ZIP + |payload| <= |out| && out[OFFSET_ZIP..OFFSET_ZIP + |payload|] == payload
  }

  /** The payload sits in the output OFFSET_ZIP bytes in, so each of its words reads the same there. */
  lemma ReadInOutput(out: seq<byte>, payload: seq<byte>, i: nat)
    requires Carries(out, payload) && i + 4 <= |payload|
    ensures LeInt32(out, OFFSET_ZIP + i) == LeInt32(payload, i)
  {
    var w := out[OFFSET_ZIP..OFFSET_ZIP + |payload|];
    assert out[OFFSET_ZIP + i] == w[i];
    assert out[OFFSET_ZIP + i + 1] == w[i + 1];
    assert out[OFFSET_ZIP + i + 2] == w[i + 2];
    assert out[OFFSET_ZIP + i + 3] == w[i + 3];
  }

  /** A word clear of every field the payload patches reads in the payload as in the archive. */
  lemma UnchangedWord(zip: seq<byte>, p: Payload, i: nat)
    requires UnchangedElsewhere(zip, p) && i + 4 <= |zip|
    requires forall k :: 0 <= k < |p.records| ==> p.records[k] + CENOFF + 4 <= i || i + 4 <= p.records[k] + CENOFF
    requires i + 4 <= p.eocdAt + ENDOFF || p.eocdAt + ENDOFF + 4 <= i
    ensures LeInt32(p.bytes, i) == LeInt32(zip, i)
  {
    forall j | i <= j < i + 4
      ensures p.bytes[j] == zip[j]
    {
      assert !InOffsetField(p.records, j);
    }
    assert p.bytes[i..i + 4] == zip[i..i + 4];
    LeInt32Equal(p.bytes, i, zip, i);
  }

  /**
   * What an archive reader finds OFFSET_ZIP bytes into the output: the CEN
   * signature at the archive's CEN offset; in every CEN record's offset field
   * the archive's value plus OFFSET_ZIP; and, when the CEN ends at or before
   * the EOCD, the EOCD signature at the archive's EOCD position, holding the
   * archive's CEN size and, as its CEN offset, the archive's plus OFFSET_ZIP.
   */
  predicate ReadsAsArchive(zip: seq<byte>, d: Directory, p: Payload, out: seq<byte>)
  {
    d.cen < d.eocd && d.eocd + SIZE_ZIP_EOCD <= |zip| && OFFSET_ZIP + |zip| <= |out|
    && LeInt32(out, OFFSET_ZIP + d.cen) == SIG_CEN
    && RecordsMovedInOutput(zip, p, out)
    && (d.cen + d.sizeOfCen <= d.eocd ==> EocdMovedInOutput(d, out))
  }

  /** Every CEN record's offset field, read in the output, holds the archive's value plus OFFSET_ZIP. */
  predicate RecordsMovedInOutput(zip: seq<byte>, p: Payload, out: seq<byte>)
  {
    forall k :: 0 <= k < |p.records| ==>
      p.records[k] + CENOFF + 4 <= |zip| && OFFSET_ZIP + p.records[k] + CENOFF + 4 <= |out|
      && LeInt32(out, OFFSET_ZIP + p.records[k] + CENOFF) == Wrap(LeInt32(zip, p.records[k] + CENOFF) + OFFSET_ZIP)
  }

  /** The EOCD record, read in the output OFFSET_ZIP bytes after the archive's. */
  predicate EocdMovedInOutput(d: Directory, out: seq<byte>)
  {
    var at := OFFSET_ZIP + d.eocd;
    at + SIZE_ZIP_EOCD <= |out|
    && IsEocdSignatureAt(out, at)
    && LeInt32(out, at + ENDSIZ) == d.sizeOfCen
    && LeInt32(out, at + ENDOFF) == Wrap(d.cen + OFFSET_ZIP)
  }

  /** The archive's CEN signature is still at the CEN offset of the payload. */
  lemma CenKept(zip: seq<byte>, d: Directory, p: Payload)
    requires PayloadIsArchive(zip, d, p) && d.cen < d.eocd
    ensures d.cen + 4 <= |p.bytes| && LeInt32(p.bytes, d.cen) == LeInt32(zip, d.cen)
  {
    assert PayloadLayout(zip, d, p);
    UnchangedWord(zip, p, d.cen);
  }

  /**
   * When the CEN ends at or before the EOCD, the payload carries the EOCD
   * record where the archive has it: its signature and CEN size unchanged, its
   * CEN offset moved.
   */
  lemma EocdKept(zip: seq<byte>, d: Directory, p: Payload)
    requires PayloadIsArchive(zip, d, p) && d.cen + d.sizeOfCen <= d.eocd
    ensures p.eocdAt == d.eocd && d.eocd + SIZE_ZIP_EOCD <= |p.bytes|
    ensures LeInt32(p.bytes, d.eocd) == LeInt32(zip, d.eocd)
    ensures LeInt32(p.bytes, d.eocd + ENDSIZ) == LeInt32(zip, d.eocd + ENDSIZ)
  {
    assert PayloadLayout(zip, d, p);
    UnchangedWord(zip, p, d.eocd);
    UnchangedWord(zip, p, d.eocd + ENDSIZ);
  }

  /** The moved CEN offset of the EOCD record, read where the archive has its EOCD. */
  lemma EocdOffsetAt(d: Directory, p: Payload)
    requires EocdOffsetMoved(d, p) && p.eocdAt == d.eocd
    ensures d.eocd + SIZE_ZIP_EOCD <= |p.bytes| && LeInt32(p.bytes, d.eocd + ENDOFF) == Wrap(d.cen + OFFSET_ZIP)
  {
  }

  /** Each record's patched offset field is read OFFSET_ZIP bytes later in the output. */
  lemma RecordsInOutput(zip: seq<byte>, p: Payload, out: seq<byte>)
    requires RecordOffsetsMoved(zip, p) && |p.bytes| == |zip|
    requires Carries(out, p.bytes)
    ensures RecordsMovedInOutput(zip, p, out)
  {
    forall k | 0 <= k < |p.records|
      ensures p.records[k] + CENOFF + 4 <= |zip| && OFFSET_ZIP + p.records[k] + CENOFF + 4 <= |out|
      ensures LeInt32(out, OFFSET_ZIP + p.records[k] + CENOFF) == Wrap(LeInt32(zip, p.records[k] + CENOFF) + OFFSET_ZIP)
    {
      ReadInOutput(out, p.bytes, p.records[k] + CENOFF);
    }
  }

  /** The EOCD record the payload carries, read OFFSET_ZIP bytes later in the output. */
  lemma EocdInOutput(d: Directory, payload: seq<byte>, out: seq<byte>)
    requires d.eocd + SIZE_ZIP_EOCD <= |payload|
    requires LeInt32(payload, d.eocd) == SIG_EOCD && LeInt32(payload, d.eocd + ENDSIZ) == d.sizeOfCen
    requires LeInt32(payload, d.eocd + ENDOFF) == Wrap(d.cen + OFFSET_ZIP)
    requires Carries(out, payload)
    ensures EocdMovedInOutput(d, out)
  {
    var at := OFFSET_ZIP + d.eocd;
    ReadInOutput(out, payload, d.eocd);
    ReadInOutput(out, payload, d.eocd + ENDSIZ);
    assert LeInt32(out, at + ENDSIZ) == d.sizeOfCen;
    ReadInOutput(out, payload, d.eocd + ENDOFF);
    assert LeInt32(out, at + ENDOFF) == Wrap(d.cen + OFFSET_ZIP);
  }

  /** What the payload keeps of the archive's directory, and where. */
  predicate DirectoryKept(zip: seq<byte>, d: Directory, p: Payload)
  {
    d.cen < d.eocd && d.eocd + SIZE_ZIP_EOCD <= |zip| && |p.bytes| == |zip|
    && LeInt32(p.bytes, d.cen) == SIG_CEN
    && RecordOffsetsMoved(zip, p)
    && (d.cen + d.sizeOfCen <= d.eocd ==>
          LeInt32(p.bytes, d.eocd) == SIG_EOCD && LeInt32(p.bytes, d.eocd + ENDSIZ) == d.sizeOfCen
          && LeInt32(p.bytes, d.eocd + ENDOFF) == Wrap(d.cen + OFFSET_ZIP))
  }

  /** A payload built from the archive keeps its directory. */
  lemma PayloadKeepsDirectory(zip: seq<byte>, d: Directory, p: Payload)
    requires PayloadIsArchive(zip, d, p)
    requires d.eocd + 20 <= |zip| && 0 <= d.cen < d.eocd && IsEocdSignatureAt(zip, d.eocd)
    requires LeInt32(zip, d.cen) == SIG_CEN && d.sizeOfCen == LeInt32(zip, d.eocd + ENDSIZ)
    ensures DirectoryKept(zip, d, p)
  {
    assert PayloadLayout(zip, d, p);
    CenKept(zip, d, p);
    if d.cen + d.sizeOfCen <= d.eocd {
      EocdKept(zip, d, p);
      EocdOffsetAt(d, p);
    }
  }

  /** ReadsAsArchive for any output that carries a payload keeping the archive's directory. */
  lemma ReadBack(zip: seq<byte>, d: Directory, p: Payload, out: seq<byte>)
    requires DirectoryKept(zip, d, p) && Carries(out, p.bytes)
    ensures ReadsAsArchive(zip, d, p, out)
  {
    ReadInOutput(out, p.bytes, d.cen);
    RecordsInOutput(zip, p, out);
    if d.cen + d.sizeOfCen <= d.eocd {
      EocdInOutput(d, p.bytes, out);
    }
  }

  /**
   * Lines 150-210 as an archive reader sees them: the payload's records are
   * every CEN record and the payload is the archive with its offsets moved
   * (PayloadIsArchive), and the output read from OFFSET_ZIP on holds the
   * archive's directory, moved (ReadsAsArchive).
   */
  lemma ArchiveInOutput(zip: seq<byte>, png: seq<byte>, out: seq<byte>) returns (d: Directory, p: Payload)
    requires DisguiseSpec(zip, png) == Success(out)
    ensures LocateDirectory(zip) == Success(d) && BuildPayload(zip, d) == Success(p)
    ensures PayloadIsArchive(zip, d, p)
    ensures ReadsAsArchive(zip, d, p, out)
  {
    d, p := DisguiseLayout(zip, png, out);
    LocatedDirectory(zip, d);
    PayloadKeepsDirectory(zip, d, p);
    assert ChunkLayout(png, p.bytes, out);
    ReadBack(zip, d, p, out);
  }
}
