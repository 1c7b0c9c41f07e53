# zip-as-png: disguising a ZIP archive as a PNG image

`ZipAsPng.disguise` makes one file that works both as a PNG image and as a ZIP
archive. It copies the PNG signature and the IHDR chunk of a base image. Next it
writes a private ancillary chunk of type `ziPc` whose data is the whole archive.
It ends with the rest of the image. The archive's absolute offsets are patched
so that a ZIP reader, which finds the archive from its end, still sees the same
archive 41 bytes (`OFFSET_ZIP`) further on:

- the local-header offset of every central directory (CEN) record;
- the CEN offset of the end-of-central-directory (EOCD) record.

The transform refuses, in the order the source checks:

- an archive longer than `Integer.MAX_VALUE`, then an image that long;
- an image shorter than the 16 bytes of the PNG signature and the IHDR length and type;
- an image that does not start with those 16 bytes;
- an image that contains the EOCD signature `PK\5\6` anywhere;
- an archive without an EOCD signature;
- an EOCD signature too close to the end of the archive for its CEN offset field to be read;
- a CEN offset that is not below the EOCD;
- a negative CEN offset, which cannot be read;
- an archive with no CEN signature at the CEN offset;
- an image shorter than the 33 bytes of its signature and IHDR chunk;
- a CEN record that does not fit in the archive, or trailing bytes it announces that do not fit or have a negative length;
- a CEN walk that does not end at the CEN offset plus the CEN size;
- an EOCD record that does not fit in the archive where the cursor stands after the CEN;
- a chunk CRC that, written big-endian, would itself spell `PK\5\6`.

The model has eight modules:

- `Wrappers`: the `Result` type.
- `JavaInt`: Java `int` values and their wrap-around.
- `ByteOrder`: the little-endian and big-endian `getInt`/`putInt` codecs.
- `ByteBuffers`: `ByteBuffer` as a class with content and a position, with
  `subBuffer`, `copyOf`, `putInt` and a channel that `write` appends to.
- `Checksum`: CRC-32 as java.util.zip.CRC32 computes it, and a class for the
  running checksum.
- `ZipAsPng`: the transform itself.
  - The pure functions state it step by step in the order the source performs it.
    `DisguiseSpec` maps the two file contents to the output content or to the
    first error.
  - The imperative methods do the work over cursors, scratch arrays, the running
    CRC and the output channel. Each is proved to compute its function.
- `ZipAsPngProperties`: what the payload is. Its records are every CEN
  record, and it is the archive with only its offset fields moved.
- `DisguiseProperties`: what the transform guarantees end to end.
  - It refuses exactly the inputs listed above, for the reasons given.
  - The output is laid out as PNG chunks with a correct length and CRC.
  - A reader of the output finds the archive's directory where it expects it.

All source paths below are in `src/main/java/net/the_blue_pla/net/zipaspng/ZipAsPng.java`.

## Model

| member | source | states |
|---|---|---|
| JavaInt.Wrap | src/main/java/net/the_blue_pla/net/zipaspng/ZipAsPng.java:161-173 | Java `int` addition: the result is congruent to the sum modulo 2^32, and is the sum when it fits in an `int` |
| ByteOrder.PutInt | src/main/java/net/the_blue_pla/net/zipaspng/ZipAsPng.java:161 | `putInt` on a little-endian buffer keeps its length, makes `getInt` at the index read the value, and leaves every other byte unchanged |
| ByteOrder.LeRoundTrip | src/main/java/net/the_blue_pla/net/zipaspng/ZipAsPng.java:160-161 | the four bytes `putInt` writes read back, little-endian, as the value written |
| ByteOrder.BeRoundTrip | src/main/java/net/the_blue_pla/net/zipaspng/ZipAsPng.java:269-275 | the four bytes `writeBigEndian` writes read back, big-endian, as the value written |
| ByteOrder.BeIsReversedLe | src/main/java/net/the_blue_pla/net/zipaspng/ZipAsPng.java:199 | the big-endian spelling of a value is its little-endian spelling reversed, which is why `Integer.reverseBytes(SIG_EOCD)` is the CRC to avoid |
| ByteOrder.BeBytesInjective | src/main/java/net/the_blue_pla/net/zipaspng/ZipAsPng.java:207 | distinct `int` values are written as distinct big-endian bytes |
| ByteBuffers.Slice | src/main/java/net/the_blue_pla/net/zipaspng/ZipAsPng.java:231-237 | `subBuffer` succeeds exactly when the length is non-negative and the new position is within the limit, and then yields the bytes from the position on; a negative length that stays within the buffer is told apart from one past the limit |
| ByteBuffers.GetInt | src/main/java/net/the_blue_pla/net/zipaspng/ZipAsPng.java:118-131 | absolute `getInt` succeeds exactly when the four bytes lie inside the buffer, reads them little-endian, and otherwise fails with an index error |
| ByteBuffers.ByteCursor.constructor | src/main/java/net/the_blue_pla/net/zipaspng/ZipAsPng.java:93-96 | a mapped file is a buffer over its content at position 0 |
| ByteBuffers.ByteCursor.Clear | src/main/java/net/the_blue_pla/net/zipaspng/ZipAsPng.java:133-134 | `clear` puts the position back at 0 |
| ByteBuffers.ByteCursor.SubBuffer | src/main/java/net/the_blue_pla/net/zipaspng/ZipAsPng.java:231-237 | returns what `Slice` specifies from the old position, and advances the position by the length exactly when it succeeds |
| ByteBuffers.ByteCursor.TakeRemaining | src/main/java/net/the_blue_pla/net/zipaspng/ZipAsPng.java:194-195 | writing a buffer out takes everything from its position to its limit, and leaves the position at the limit |
| ByteBuffers.CopyOf | src/main/java/net/the_blue_pla/net/zipaspng/ZipAsPng.java:250-255 | `copyOf` yields a new array holding exactly the bytes copied |
| ByteBuffers.PutIntArray | src/main/java/net/the_blue_pla/net/zipaspng/ZipAsPng.java:161 | `putInt` on the scratch copy changes it exactly as `PutInt` specifies |
| ByteBuffers.OutputChannel.constructor | src/main/java/net/the_blue_pla/net/zipaspng/ZipAsPng.java:90-91 | the output file is created empty |
| ByteBuffers.OutputChannel.Write | src/main/java/net/the_blue_pla/net/zipaspng/ZipAsPng.java:258-266 | `write` appends all of the buffer's remaining bytes to the file |
| Checksum.FeedAppend | src/main/java/net/the_blue_pla/net/zipaspng/ZipAsPng.java:147-194 | feeding the CRC piece by piece, as the successive `crc.update` calls do, gives the CRC of the concatenation |
| Checksum.Feed | src/main/java/net/the_blue_pla/net/zipaspng/ZipAsPng.java:147-194 | folding bytes into the CRC register, first byte first, with the reflected polynomial 0xEDB88320; `FeedAppend` states that feeding pieces in turn is feeding their concatenation |
| Checksum.Crc32 | src/main/java/net/the_blue_pla/net/zipaspng/ZipAsPng.java:198 | the CRC-32 of the bytes fed, with the register preset to and finally xored with 0xFFFFFFFF; `CrcField` states that the output's CRC field reads back as it |
| Checksum.Crc32Accumulator.constructor | src/main/java/net/the_blue_pla/net/zipaspng/ZipAsPng.java:135 | a new CRC32 has been fed nothing |
| Checksum.Crc32Accumulator.Update | src/main/java/net/the_blue_pla/net/zipaspng/ZipAsPng.java:147 | `update` extends the bytes fed so far by the buffer's bytes |
| ZipAsPng.LastIndexFrom | src/main/java/net/the_blue_pla/net/zipaspng/ZipAsPng.java:282-288 | the result is NOT_FOUND or a position at or below the start of the scan that holds the EOCD signature, and no later position up to that start holds one |
| ZipAsPng.LastEocdIndex | src/main/java/net/the_blue_pla/net/zipaspng/ZipAsPng.java:278-289 | the result `lastIndexOfSigneture` is specified to return: the scan from the last 4-byte window down; `LastIndexOfSignature` and `LastEocdIndexNotFound` state its meaning |
| ZipAsPng.LastIndexOfSignature | src/main/java/net/the_blue_pla/net/zipaspng/ZipAsPng.java:278-289 | the backwards scan returns NOT_FOUND exactly when no 4-byte window holds the EOCD signature, and otherwise the last window that does |
| ZipAsPng.LocateDirectory | src/main/java/net/the_blue_pla/net/zipaspng/ZipAsPng.java:110-131 | on success the CEN offset lies below the EOCD and the EOCD's CEN size field lies inside the archive |
| ZipAsPng.LocateDirectoryOf | src/main/java/net/the_blue_pla/net/zipaspng/ZipAsPng.java:110-131 | the imperative lookup of the EOCD, the CEN offset and the CEN size computes `LocateDirectory` |
| ZipAsPng.TrailingLength | src/main/java/net/the_blue_pla/net/zipaspng/ZipAsPng.java:167-169 | the length of a CEN record's trailing bytes as the source computes it, three 4-byte reads added in `int` arithmetic; `TrailingLengthValue` and `TrailingLengthIsFieldSum` state what it amounts to |
| ZipAsPng.PatchCen | src/main/java/net/the_blue_pla/net/zipaspng/ZipAsPng.java:159-161 | a CEN record with its local-header offset increased by OFFSET_ZIP; `PatchCenMeaning` states that only that field changes |
| ZipAsPng.CenEntry | src/main/java/net/the_blue_pla/net/zipaspng/ZipAsPng.java:159-172 | a CEN entry that is taken is a 46-byte record followed by trailing bytes that lie inside the archive |
| ZipAsPng.WalkCen | src/main/java/net/the_blue_pla/net/zipaspng/ZipAsPng.java:156-174 | a CEN walk that succeeds ends with the cursor between its start and the end of the archive |
| ZipAsPng.EocdTail | src/main/java/net/the_blue_pla/net/zipaspng/ZipAsPng.java:180-195 | the gap, the EOCD read at the cursor with its CEN offset moved, and the rest of the archive; `TailMeaning` states its meaning |
| ZipAsPng.BuildPayload | src/main/java/net/the_blue_pla/net/zipaspng/ZipAsPng.java:150-195 | the chunk data: the archive before the CEN, the walked CEN, which must end at the CEN offset plus the CEN size, and the tail; `PayloadLaw` states its meaning |
| ZipAsPng.ChunkCrc | src/main/java/net/the_blue_pla/net/zipaspng/ZipAsPng.java:198 | `(int) crc.getValue()` over the chunk type and data; `CrcField` and `CrcNotSignature` state how it is written |
| ZipAsPng.Assemble | src/main/java/net/the_blue_pla/net/zipaspng/ZipAsPng.java:138-210 | once both inputs are checked, the output or the first failure of the writing phase; `ArchiveChecks` and `DisguiseLayout` state its outcomes |
| ZipAsPng.DisguiseSpec | src/main/java/net/the_blue_pla/net/zipaspng/ZipAsPng.java:74-212 | the transform from the two file contents to the output or the first error; `InputChecks`, `ArchiveChecks` and `DisguiseSucceeds` state when it fails and why, `DisguiseLayout` and `ArchiveInOutput` what it outputs |
| ZipAsPng.CopyCenEntry | src/main/java/net/the_blue_pla/net/zipaspng/ZipAsPng.java:159-173 | copies the entry `CenEntry` specifies at the cursor, advances the cursor past it, and feeds it to the CRC and the output |
| ZipAsPng.CopyCenRecords | src/main/java/net/the_blue_pla/net/zipaspng/ZipAsPng.java:156-174 | the loop computes `WalkCen` from the cursor with the byte count starting at 0: its failure, or its bytes fed to the CRC and the output with the cursor left where the walk ends |
| ZipAsPng.WriteBigEndian | src/main/java/net/the_blue_pla/net/zipaspng/ZipAsPng.java:269-275 | `writeBigEndian` appends the value's four big-endian bytes to the output |
| ZipAsPng.WriteEocdTail | src/main/java/net/the_blue_pla/net/zipaspng/ZipAsPng.java:180-195 | the copying after the CEN computes `EocdTail` and feeds exactly its bytes to the CRC and the output |
| ZipAsPng.WritePayload | src/main/java/net/the_blue_pla/net/zipaspng/ZipAsPng.java:150-195 | the copying of the archive computes `BuildPayload` and feeds exactly the payload to the CRC and the output |
| ZipAsPng.WriteDisguised | src/main/java/net/the_blue_pla/net/zipaspng/ZipAsPng.java:133-210 | the writing phase computes `Assemble` and, on success, appends exactly its output to the file |
| ZipAsPng.Disguise | src/main/java/net/the_blue_pla/net/zipaspng/ZipAsPng.java:74-212 | `disguise` computes `DisguiseSpec`: the same verdict, and on success the file holds exactly the specified output |
| ZipAsPngProperties.SignatureSpellings | src/main/java/net/the_blue_pla/net/zipaspng/ZipAsPng.java:27-29 | SIG_EOCD read little-endian and its byte reversal written big-endian both spell `PK\5\6` |
| ZipAsPngProperties.EocdSignatureBytes | src/main/java/net/the_blue_pla/net/zipaspng/ZipAsPng.java:284-286 | the scan's test at a position holds exactly when the four bytes there are `PK\5\6` |
| ZipAsPngProperties.TrailingLengthValue | src/main/java/net/the_blue_pla/net/zipaspng/ZipAsPng.java:167-169 | the trailing length, read with three 4-byte reads, is the name, extra and comment lengths plus 65536 times the extra, comment and disk-number fields, wrapped to an `int` |
| ZipAsPngProperties.TrailingLengthIsFieldSum | src/main/java/net/the_blue_pla/net/zipaspng/ZipAsPng.java:167-169 | the trailing length is the sum of the three 2-byte lengths exactly when the extra, comment and disk-number fields add up to a multiple of 65536 |
| ZipAsPngProperties.TrailingLengthWithExtraField | src/main/java/net/the_blue_pla/net/zipaspng/ZipAsPng.java:167-170 | a record with an 8-byte name and a 24-byte extra field has a trailing length of 8 + 24 + 65536 * 24, not 32 |
| ZipAsPngProperties.PatchCenMeaning | src/main/java/net/the_blue_pla/net/zipaspng/ZipAsPng.java:159-161 | the patched record's offset field holds the old offset plus OFFSET_ZIP; the bytes before it and the trailing length are unchanged |
| ZipAsPngProperties.CenEntryMeaning | src/main/java/net/the_blue_pla/net/zipaspng/ZipAsPng.java:159-172 | an entry is taken exactly when the record fits and its trailing length is non-negative and fits after it; the entry is then the patched record and the archive's next trailing-length bytes |
| ZipAsPngProperties.WalkEntries | src/main/java/net/the_blue_pla/net/zipaspng/ZipAsPng.java:156-174 | a successful walk is a chain of entries, each the patched record at the position where the previous one ends and exactly as many trailing bytes as that record announces, with none exactly when the byte count starts at or above the CEN size |
| ZipAsPngProperties.LayChained | src/main/java/net/the_blue_pla/net/zipaspng/ZipAsPng.java:156-174 | entries laid one after another from a position are chained: each next record starts where the entry before it ends, as the record's lengths announce |
| ZipAsPngProperties.WalkChained | src/main/java/net/the_blue_pla/net/zipaspng/ZipAsPng.java:156-174 | the records a successful walk emits are every CEN record from where it starts to where it stops, none skipped |
| ZipAsPngProperties.ChainedUnique | src/main/java/net/the_blue_pla/net/zipaspng/ZipAsPng.java:156-174 | the chain of CEN records between two positions is determined by the archive: two such chains are the same list of records |
| ZipAsPngProperties.WalkLaw | src/main/java/net/the_blue_pla/net/zipaspng/ZipAsPng.java:156-174 | the walk emits as many bytes as it consumes, in records chained one after another as their lengths announce, none skipped, up to where it stops; each offset field is moved by OFFSET_ZIP and every other byte is the archive's |
| ZipAsPngProperties.PayloadParts | src/main/java/net/the_blue_pla/net/zipaspng/ZipAsPng.java:150-195 | a payload is the archive up to the CEN, the walk, which ends at the CEN offset plus the CEN size, and the tail after it |
| ZipAsPngProperties.PayloadChain | src/main/java/net/the_blue_pla/net/zipaspng/ZipAsPng.java:150-178 | the payload's records are every CEN record from the CEN offset to the CEN offset plus the CEN size, each where the entry before it ends |
| ZipAsPngProperties.TailMeaning | src/main/java/net/the_blue_pla/net/zipaspng/ZipAsPng.java:180-195 | the tail is the archive from the end of the CEN with only the CEN offset of the EOCD read there changed, to the CEN offset plus OFFSET_ZIP |
| ZipAsPngProperties.PayloadLaw | src/main/java/net/the_blue_pla/net/zipaspng/ZipAsPng.java:150-195 | the payload is as long as the archive; its records are every CEN record, chained from the CEN offset to the CEN offset plus the CEN size, with none exactly when the CEN size is 0; their offset fields and the EOCD's CEN offset are moved by OFFSET_ZIP; every other byte is the archive's |
| DisguiseProperties.LastEocdIndexNotFound | src/main/java/net/the_blue_pla/net/zipaspng/ZipAsPng.java:278-289 | the scan finds nothing exactly when no position holds the EOCD signature, and otherwise finds a position that holds it |
| DisguiseProperties.LocateDirectoryMeaning | src/main/java/net/the_blue_pla/net/zipaspng/ZipAsPng.java:110-131 | each outcome of the directory lookup, in both directions: no signature; a CEN offset field past the end or negative; the offset not below the EOCD; no CEN signature there; or the directory found |
| DisguiseProperties.LocatedDirectory | src/main/java/net/the_blue_pla/net/zipaspng/ZipAsPng.java:110-131 | a found directory is at the last EOCD signature, its CEN offset is the one the EOCD records and holds the CEN signature, and its CEN size is the EOCD's |
| DisguiseProperties.InputChecks | src/main/java/net/the_blue_pla/net/zipaspng/ZipAsPng.java:77-108 | the size limits, the check of an image too short for its header, the header check, and the refusal of an image containing `PK\5\6`, each in the source's order |
| DisguiseProperties.ArchiveChecks | src/main/java/net/the_blue_pla/net/zipaspng/ZipAsPng.java:110-207 | once the inputs pass: a directory lookup failure, an image shorter than its IHDR chunk, a payload failure, and, in both directions, a CRC equal to the reversed signature |
| DisguiseProperties.DisguiseSucceeds | src/main/java/net/the_blue_pla/net/zipaspng/ZipAsPng.java:74-212 | the transform succeeds exactly when every check passes |
| DisguiseProperties.CenSizeChecks | src/main/java/net/the_blue_pla/net/zipaspng/ZipAsPng.java:156-178 | a CEN size of 0 or less skips the loop; a negative one is then a size mismatch; a successful payload's walk ends at the CEN offset plus the CEN size |
| DisguiseProperties.DisguiseParts | src/main/java/net/the_blue_pla/net/zipaspng/ZipAsPng.java:74-210 | a successful output is the image's first 33 bytes, the archive length, `ziPc`, the payload, a CRC other than the reversed signature, and the rest of the image, with every check passed |
| DisguiseProperties.LengthField | src/main/java/net/the_blue_pla/net/zipaspng/ZipAsPng.java:143 | the chunk length, written big-endian, reads back as the archive length |
| DisguiseProperties.CrcField | src/main/java/net/the_blue_pla/net/zipaspng/ZipAsPng.java:198-207 | the CRC field reads back, big-endian, as the CRC-32 of the chunk type and data, as PNG requires |
| DisguiseProperties.CrcNotSignature | src/main/java/net/the_blue_pla/net/zipaspng/ZipAsPng.java:199-207 | a CRC other than the reversed signature is not written as `PK\5\6` |
| DisguiseProperties.ChunkFields | src/main/java/net/the_blue_pla/net/zipaspng/ZipAsPng.java:138-210 | the assembled output has the chunk layout: image head, length, type, payload, CRC over type and payload that does not spell `PK\5\6`, rest of the image |
| DisguiseProperties.DisguiseLayout | src/main/java/net/the_blue_pla/net/zipaspng/ZipAsPng.java:74-211 | a successful output has that chunk layout around a payload that is the archive with every CEN record's offset and the EOCD's CEN offset moved, and nothing else changed |
| DisguiseProperties.ReadInOutput | src/main/java/net/the_blue_pla/net/zipaspng/ZipAsPng.java:150-195 | a 4-byte field of the payload reads the same OFFSET_ZIP bytes further on in the output |
| DisguiseProperties.PayloadKeepsDirectory | src/main/java/net/the_blue_pla/net/zipaspng/ZipAsPng.java:150-195 | the payload keeps the CEN signature at the CEN offset, and the EOCD signature and CEN size at the EOCD, with the EOCD's CEN offset moved by OFFSET_ZIP |
| DisguiseProperties.ReadBack | src/main/java/net/the_blue_pla/net/zipaspng/ZipAsPng.java:150-210 | read from the output, the CEN signature is OFFSET_ZIP further on, every record's offset is the archive's plus OFFSET_ZIP, and the EOCD there records the CEN size and the moved CEN offset |
| DisguiseProperties.ArchiveInOutput | src/main/java/net/the_blue_pla/net/zipaspng/ZipAsPng.java:74-212 | every successful output carries the archive so a reader finds it there: the payload's records are every CEN record and only their offsets and the EOCD's CEN offset are moved; read from the output, the CEN, each record's moved offset, and the EOCD with the CEN size and the moved CEN offset |

## Left out

- Files, `Files.size` and `FileChannel`: the archive and the image are given as their contents, and the output file is the channel's written bytes. Opening with `CREATE_NEW`, which fails on an existing file, is I/O and is not modelled.
- Memory mapping and the byte order set on each mapping are not modelled. The archive is read little-endian. The image is compared, copied, and scanned for `PK\5\6` over its whole length; that scan reads little-endian, because `lastIndexOfSigneture` sets that order on its own view (line 280).
- `write` retries until the buffer is drained and throws on zero progress. Each call is modelled as appending all the remaining bytes, because partial writes depend on the operating system.
- `Checksum.Crc32Accumulator.Update`: the running CRC is modelled by the bytes fed so far, and `Value` is the CRC-32 of them. The native register updates of java.util.zip are not modelled, and the bitwise CRC-32 is not proved equal to them.
- `ByteBuffers.Slice`: a negative length whose end still lies inside the buffer fails with `NegativeLength`. Java instead moves the cursor backwards, so the CEN loop may revisit bytes or not end. The model stops there.
- The partial output file left behind when a check fails after writing has started is not modelled. `Disguise` states the written bytes only on success.
- Exception types and messages are not modelled. Each failure is an `Err` value naming the check.
- `DisguiseProperties.ArchiveInOutput`: the EOCD facts are stated only when the CEN ends at or before the EOCD. The model does not prove that the last `PK\5\6` in the output is the moved EOCD. Bytes of the image's rest, or a patched offset, could still form one across a field boundary.
- `ZipAsPng.TrailingLength`: the trailing bytes of a CEN record are measured as the source does, with 4-byte reads of 2-byte fields. The lemmas above say when this equals the sum of the file name, extra field and comment lengths.
- Only the first CEN record's signature is checked, as in the source. Later records are taken at face value.
- The unit test in `src/test/java/net/the_blue_pla/net/zipaspng/ZipAsPngTest.java` compares against a stored file and decodes images. Decoding images and reading archive entries are not part of this model.
