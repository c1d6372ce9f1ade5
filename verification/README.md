# viofo-fw in Dafny

A model of the `viofo-fw` firmware codec and of the AArch64 cross-reference tools that go with it, and proofs
about both.

**The codec.** An NVTPACK image is a fixed header, a partition table and a row of padded partitions, the whole
file summing to zero under the Novatek 16-bit checksum. Partitions may be CKSM containers (with a corrective
word of their own), U-Boot legacy uImages (with two CRC-32s), raw data with a build tag (size field and
corrective word) or plain raw data. `unpack` splits an image into files and a manifest, `pack` rebuilds an image
from them, `verify` counts failed checks. The main theorem is `RoundTrip.RoundTripIff`: in either mode, for any
number of partitions of any size, unpacking and packing again gives the same bytes exactly on the `Reproduced`
images, a byte-level condition on the image alone that covers every header size. `Canonical` images, whose header,
padding, alignment and containers have their documented shape, always survive, and once the table starts past the
corrective word (offset 0x26) no others do. Around it stand:

* the checksum algebra (the corrective word is unique, re-solving a valid region is the identity, solving an odd
  slot works exactly when the stored word's two bytes are equal),
* the three containers as inverse pairs, each with the exact condition under which rebuilding is byte-exact,
* recovery of the alignment, which may come out coarser than the one used and still gives the same layout,
* packed images as normal forms, nested checksums, edit locality, and what `verify` does and does not accept.

**The tools.** `allrefs.py` builds in one pass an index of the addresses that ADRP+ADD pairs compute, `xref.py`
answers the same question for one address by a windowed scan, and `dump_api_table.py` names a handler by two
bisections over such references. The index is characterised exactly and compared with the scan: they agree on
precisely described pairs, and what either lists without the other is characterised too. The bisected lookup is
proved equal to a linear search.

| file | models |
|---|---|
| `Bytes.dfy` | integers of fixed width, little- and big-endian fields, range writes |
| `Checksum.dfy`, `Crc32.dfy`, `CrcResidue.dfy` | the Novatek checksum; CRC-32, bit by bit, and its residue law |
| `Utf8.dfy`, `Utf8Encoding.dfy` | lossy UTF-8 decoding, and what it means in terms of encoded characters |
| `Cksm.dfy`, `UImage.dfy`, `BuildTag.dfy` | the three containers |
| `Header.dfy`, `Manifest.dfy`, `Layout.dfy` | header and table; manifest fields, integers and file names; padding and alignment |
| `Numerals.dfy` | exactly which texts are numbers, and how numbers and file names are written |
| `Unpack.dfy`, `Pack.dfy`, `Verify.dfy` | the three commands |
| `UnpackedFiles.dfy` | what unpacking leaves in the directory |
| `PackedImage.dfy` | what packing produces |
| `Rebuild.dfy`, `RoundTrip.dfy` | partitions rebuilt one by one; the round-trip theorem |
| `NormalForm.dfy`, `Overlap.dfy` | its consequences; images whose table overlaps the header |
| `Arm.dfy`, `AllRefs.dfy`, `CodeRefs.dfy`, `HandlerNames.dfy` | the decoders, the index, the scan, the name lookup |

The form follows the source. In-place buffers are arrays written by methods with loops, each proved equal to a
function of the old contents; what the source only computes is a function. A directory is a map from file names
to contents. A slice the source would take out of range is the outcome `Panic`.

Four places where the code and its documentation or apparent intent part ways, all kept as the code has them:

* Files are named by partition id, so two partitions with one id share a file, the later replacing the earlier.
  `Canonical` accounts for this; `NormalForm.SharedFileLost` and `SharedFileExample` show a well-formed image
  that does not survive.
* The slot given to `solve` is documented as 2-byte aligned, but a manifest's `nvt_tag_offset` is not checked for
  it. `Checksum.SolvedValidIff` says exactly when an unaligned slot still works and `OddSlotExample` gives one
  that does not.
* The manifest does not check `data_offset` or `header_size`. With a small `data_offset` the payload overwrites CKSM
  fields, and `CksmContainer.ParseBuiltIff` says when they still read back. With a small `header_size` the table
  overwrites header fields, and an image can survive the round trip although its total-size field does not read as
  its length (`Overlap.OverlapSurvives`).
* A uImage name is decoded lossily and cut to 31 bytes. `UImageContainer.NameFieldIff` gives the exact name fields
  that survive, including the corner where a cut-off replacement character restores the original bytes.

## Model

| member | source | states |
|---|---|---|
| Bytes.Rd32Iff | src/format.rs:53-55 | a little-endian read gives v exactly when the four bytes are v's encoding |
| Bytes.RdBe32Iff | src/format.rs:215-223 | the same for big-endian reads |
| Bytes.FieldValues | src/format.rs:53-55 | a field is worth its bytes times powers of 0x100, from the first byte up or from the last |
| Bytes.AsU32Wraps | src/main.rs:386 | the truncating cast drops whole multiples of 2^32 |
| Bytes.Put | src/format.rs:178-185 | a range write replaces exactly that range of the buffer |
| Checksum.NvtChksum | src/checksum.rs:21-29 | the wrapping 32-bit loop computes the unbounded sum of half-words and indices mod 0x10000, for every length |
| Checksum.Solve | src/checksum.rs:40-46 | in place, the slot becomes the corrective word and nothing else changes |
| Checksum.SolvedIs | src/checksum.rs:40-46 | at any slot, one word is written over it, and that word and the checksum of the region with zeros there sum to zero |
| Checksum.SolvedIsValid | src/checksum.rs:31-46 | solving an even slot makes the region sum to zero |
| Checksum.CorrectiveWordUnique | src/checksum.rs:36-46 | of all 16-bit words an even slot can hold, only the solved one makes the region valid |
| Checksum.SolveIdentity | src/checksum.rs:39-46 | solving is idempotent, and is the identity exactly on valid regions |
| Checksum.SolvedIgnoresSlot | src/checksum.rs:39-46 | the result does not depend on what stood in the slot |
| Checksum.SolvedValidIff | src/checksum.rs:36-46 | solving any slot works exactly when it is even or the two bytes of the stored word are equal (both zero when the second falls past the last half-word) |
| Checksum.SolveFixpoint | src/checksum.rs:36-46 | solving leaves a region alone exactly when it is valid, or, at an odd slot, when the slot holds what solving stores |
| Checksum.OddSlotExample | src/checksum.rs:36-46 | a concrete region and odd slot that stay invalid after solving |
| Checksum.OneWordEditDetected | src/checksum.rs:21-29 | two regions that differ in at most one aligned half-word have equal checksums only if they are equal |
| Checksum.SwapUndetected | src/checksum.rs:21-29 | swapping any two aligned half-words never changes the checksum, in spite of the index term |
| Checksum.ChkConcat | src/checksum.rs:21-29 | the checksum of a concatenation after an even prefix, from the two checksums and lengths |
| Checksum.ChkOfShort | src/checksum.rs:21-29 | a little-endian half-word is its own checksum and an odd last byte does not count, which with concatenation fixes every checksum |
| Checksum.ChkZeros | src/checksum.rs:60-64 | n zero half-words sum to n(n-1)/2 mod 0x10000 |
| Crc32.OneByteChangeDetected | src/format.rs:239-249 | CRC-32 (bitwise, reflected polynomial 0xEDB88320) differs for any two byte strings that differ in exactly one byte |
| Crc32.ShiftInjective | src/format.rs:239-249 | one shift of the CRC register loses no information |
| CrcResidue.Residue | src/format.rs:239-249 | any data followed by its own CRC has the CRC 0x2144DF1C, which tells this polynomial from others (CRC-32C gives 0x48674BC7) |
| CrcResidue.OfNothing | src/format.rs:239-249 | the CRC of nothing is zero |
| Utf8.LossySameIff | src/format.rs:228 | lossy decoding returns a byte string unchanged exactly when it is well-formed UTF-8 |
| Utf8.LossyPrefixIff | src/format.rs:228 | it keeps it as a prefix exactly when well-formed, or well-formed up to a final EF or EF BF |
| Utf8Encoding.ValidIff | src/format.rs:228 | a byte string counts as well-formed exactly when it encodes some sequence of characters |
| Utf8Encoding.MatchedIs | src/format.rs:228 | decoding takes a whole character off the front when there is one, and otherwise replaces the longest front that begins some character, or one byte |
| Utf8Encoding.ReplacementIs | src/format.rs:228 | what it is replaced with is the encoding of U+FFFD |
| CksmContainer.ParsesIff | src/format.rs:161-164 | recognised exactly when at least 0x40 bytes beginning with "CKSM" |
| CksmContainer.Build | src/format.rs:175-188 | the method's range writes and solve produce the specified blob, payload overlapping the fields when data_offset is small |
| CksmContainer.BuiltBytes | src/format.rs:175-188 | byte by byte, fields below 0x20, zeros up to the payload and the payload, but for the two bytes at 0x0C; the whole sums to zero |
| CksmContainer.ParseBuiltIff | src/format.rs:161-188 | for every header and payload `build` accepts, parse and slice give back every field and the payload exactly when the total is at least 0x40, the payload repeats the field bytes it covers and the corrective word spares the payload bytes it lands on |
| CksmContainer.ParseBuilt | src/format.rs:161-188 | in particular whenever the payload starts past the fields and the total is at least 0x40; the blob is valid |
| CksmContainer.RebuildIff | src/format.rs:161-188 | building from a parsed blob and any payload gives the blob exactly when offset plus length is the size, the payload and length field agree, spare header bytes are zero and the checksum is 0 |
| CksmContainer.FitsOwnPayload | src/main.rs:255-269 | with the blob's own payload: exactly when offset plus length is the size, the spare bytes are zero and the checksum is 0 |
| CksmContainer.BuiltIsCanonicalIff | src/format.rs:161-188 | a built blob is recognised and rebuilds from its own payload exactly when the total is at least 0x40 and the payload repeats the magic and data-offset bytes it covers |
| CksmContainer.BuiltIsCanonical | src/format.rs:161-188 | a built blob that reads back also has the documented shape |
| CksmContainer.LengthIsRecomputed | src/main.rs:382-390 | the stored data_length plays no part in building |
| UImageContainer.ParsesIff | src/format.rs:211-217 | recognised exactly when at least 0x40 bytes beginning with 27 05 19 56 |
| UImageContainer.Build | src/format.rs:232-253 | the method produces the specified header, its CRC taken with its own field zeroed, then the payload |
| UImageContainer.ParseBuilt | src/format.rs:211-253 | parse of build recovers all fields, name cut to 31 bytes, size field and payload, for a cut name that is NUL-free text |
| UImageContainer.ParseBuiltIff | src/format.rs:211-253 | a built container always parses, and recovers all fields exactly when the cut name is NUL-free and splits no character |
| UImageContainer.BuiltCrcsOk | src/main.rs:166-188 | both CRC checks of verify pass on every built container |
| UImageContainer.RebuildIff | src/format.rs:211-253 | building from a parsed blob and any payload gives the blob exactly when payload, size field, both CRCs and the name field fit |
| UImageContainer.FitsOwnPayload | src/main.rs:270-287 | with the blob's own payload: exactly when the size field covers the rest, both CRCs hold and the name field survives |
| UImageContainer.NameFieldIff | src/format.rs:218-246 | reading the name field as text and writing it back, cut to 31 bytes, restores it exactly when it is zero after its first NUL and well-formed (or 31 bytes ending in the start of a replacement character) |
| UImageContainer.NameIsCut | src/format.rs:244-246 | only the first 31 bytes of a name reach the header |
| UImageContainer.OneByteChangeFails | src/main.rs:166-186 | any one-byte change past the magic leaves the partition a uImage and fails the CRC that covers it |
| BuildTag.TagAtIff | src/format.rs:288-291 | a tag is where the size word is the length of the partition and the bytes 55 AA follow |
| BuildTag.TagTextIs | src/format.rs:293-303 | its three strings are bytes 0 to 7, 8 to 15 and 16 to 23, each cut at its first NUL |
| BuildTag.FindNvtTag | src/format.rs:283-306 | the scan returns the first 4-aligned offset whose size and magic match, with its strings, or nothing when there is none |
| BuildTag.FindTag | src/format.rs:283-306 | the least 4-aligned match; none means no window matches |
| BuildTag.FirstTagIsFound | src/format.rs:283-306 | an aligned match with none before it is the one returned |
| BuildTag.FixNvtTag | src/format.rs:309-317 | in place: error and no change when the tag does not fit, else size, magic and corrective word rewritten |
| BuildTag.FixedBytes | src/format.rs:309-317 | only the eight bytes from the size field on change, and the tag matches afterwards |
| BuildTag.FixedIsValid | src/format.rs:309-317 | at an even offset the repaired partition sums to zero and repairing again changes nothing |
| BuildTag.FixedValidIff | src/format.rs:309-317 | at any offset the repaired partition sums to zero exactly when the offset is even or the odd slot happens to work |
| BuildTag.FixIff | src/format.rs:309-317 | at any offset, a file repairs to a given tagged partition exactly when they differ only in the eight repaired bytes and the partition is valid (at an odd offset: holds the word stored there) |
| BuildTag.FixAtFoundTag | src/format.rs:283-317 | repairing at the found tag keeps it found, with its strings, and is the identity exactly on valid partitions |
| BuildTag.FixAnywhere | src/format.rs:283-317 | repairing any aligned offset after any resize gives a valid partition whose found tag is at or before it, equal unless an earlier window matches |
| Header.ParseHeader | src/format.rs:75-118 | the checks and the table loop compute the specified parse, error cases in order |
| Header.ParseIs | src/format.rs:75-109 | exactly which files parse and, for each error, exactly which files end in it, the first entry past the end being named |
| Header.ParsedFields | src/format.rs:86-118 | where each field and each entry is read |
| Header.GuidIs | src/format.rs:3-8 | the sixteen bytes are the documented identifier D6012E07-10BC-4F91-B28A-352F82261A50 |
| Header.ReadTable | src/format.rs:94-109 | the table is read whole, or the first entry that runs past the file is reported |
| Header.ParsedIsSafe | src/format.rs:86-109 | after a successful parse every partition slice is in bounds and no offset sum leaves 64 bits |
| Header.ParseWritten | src/format.rs:75-118 | a file carrying a written header and a fitting table parses as exactly those |
| Header.ParsedBytes | src/format.rs:75-123 | conversely the bytes of header and table are determined by what was parsed |
| Header.TableIff | src/main.rs:447-453 | a stretch of bytes is the written table exactly when it reads entry by entry as that table |
| ManifestModel.RejectsIff | src/manifest.rs:133-153 | accepted exactly when there is a partition, align is 2^k for some k and every container has its table; otherwise exactly which error |
| ManifestModel.PowerOfTwoIff | src/manifest.rs:138 | the test for a power of two meets exactly the numbers 2^k |
| ManifestModel.FirstWithoutTable | src/manifest.rs:141-151 | the first partition lacking its table is the one reported |
| ManifestModel.Hex32RoundTrip | src/manifest.rs:8-24 | every u32 printed as padded hexadecimal reads back |
| ManifestModel.Hex32OptRoundTrip | src/manifest.rs:26-50 | so does every optional u32 in the unpadded form |
| ManifestModel.ReadHex | src/manifest.rs:15-23 | hexadecimal reads back with any leading zeros and surrounding white space |
| ManifestModel.ReadDecimal | src/manifest.rs:20 | decimal text reads back |
| Numerals.ReadU32Iff | src/manifest.rs:15-23 | a text reads as v exactly when, white space around it aside, it is 0x or 0X and hexadecimal digits of either case, or decimal digits, a plus sign allowed before them, whose place-value sum is v and below 2^32 |
| Numerals.SpaceCodes | src/manifest.rs:17 | the white space dropped is exactly the 25 code points with that Unicode property |
| Numerals.ReadHex32OptIff | src/manifest.rs:35-50 | an optional number is absent, such a text, or an error |
| Numerals.ShowHex32Shape | src/manifest.rs:11-13 | a number is written as 0x and eight lower-case digits |
| Numerals.ShowHex32OptShape | src/manifest.rs:29-34 | an optional one as 0x and lower-case digits without leading zeros |
| ManifestModel.FileNameInjective | src/main.rs:237-239 | two partitions share a file only if they share an id, whatever the extensions |
| Numerals.FileNameIs | src/main.rs:237-239 | the file of a partition is its id in at least two digits, a dash, the name for the id and the extension |
| Layout.RoundUpIsDivCeil | src/main.rs:417-419 | the padding expression is the least whole number of alignment units that covers the offset |
| Layout.PlaceUnique | src/main.rs:416-420 | the padded start is the only aligned position within one unit of the current end |
| Layout.StartsOrdered | src/main.rs:376-435 | starts come in order, blobs are disjoint, gaps are shorter than the alignment |
| Layout.ResizeShifts | src/main.rs:416-420 | resizing one blob moves all later starts by one common multiple of the alignment |
| Layout.StockLayout | README.md:118-124 | the documented sizes of the stock image give the documented offsets |
| Layout.DeriveAlign | src/main.rs:342-355 | the halving loop terminates with the specified alignment |
| Layout.DerivedAlign | src/main.rs:342-355 | it is the largest power of two up to 0x40 dividing all relative offsets, or 1 |
| Layout.DerivedAlignIs | src/main.rs:342-355 | it is 2^k with k at most 6, all partitions start on its grid unless it is 1, and no larger such grid fits |
| Layout.DerivedAlignKeepsLayout | src/main.rs:230-232 | an image laid out with any power of two up to 0x40 is laid out identically with the derived, at least as large, alignment |
| Packer.BuildPartition | src/main.rs:376-414 | one partition's blob, by container, with the tag repaired for raw ones, or the error |
| Packer.Grow | src/main.rs:416-420 | zero padding up to the next aligned position measured from the first partition |
| Packer.PlaceBlob | src/main.rs:416-426 | pads to the next aligned start and appends there, or reports the 4 GiB limit |
| Packer.LayPartitions | src/main.rs:373-436 | the loop's image and table after all partitions, or the first error |
| Packer.WriteHeaderAndTable | src/main.rs:438-453 | header, then table entry by entry, over the laid-out image |
| Packer.CmdPack | src/main.rs:359-465 | the command computes the specified image or error |
| PackedImage.PackOkIff | src/main.rs:359-465 | packing succeeds exactly when there are partitions, align is 2^k, each partition has its table and file and builds, and the image is from 0x26 to 2^32-1 bytes long |
| PackedImage.PackRejects | src/manifest.rs:133-153 | a manifest without partitions, with an alignment that is no power of two, or with a container lacking its table is refused with the corresponding error, in this order |
| PackedImage.PackStopsAt | src/main.rs:376-426 | otherwise the first partition whose file is missing, that cannot be built, or that would end past 4 GiB stops it, with the corresponding error |
| PackedImage.PackGives | src/main.rs:359-465 | the bytes returned are the sealed image of the blobs the partitions build to |
| PackedImage.PackedBlobs | src/main.rs:376-435 | each blob is what its partition builds to and ends below 4 GiB |
| PackedImage.PackedLayout | src/main.rs:416-435 | starts are first offset plus multiples of the alignment, in order, gaps shorter than it, nothing after the last |
| PackedImage.PackedHolds | src/main.rs:416-455 | each blob stands unharmed in the sealed image with zeros before it |
| PackedImage.LaidUnique | src/main.rs:416-426 | any bytes with the blobs in place and zero gaps are the laid-out image |
| PackedImage.PackedParses | src/main.rs:438-453 | the packed header parses back to the manifest's fields and the computed table |
| PackedImage.SealedHeader | src/main.rs:438-455 | header and table stand as written and the rest of the header is zero |
| PackedImage.SealedIsValid | src/main.rs:455-456 | the debug assertion after the outer solve always holds |
| PackedImage.NestedChecksums | src/main.rs:408-455 | outer checksum, CKSM checksums and even-offset tag checksums all hold at once, and every blob is intact |
| PackedImage.RewriteOneFile | src/main.rs:376-414 | rewriting a file only one partition uses changes only what that partition builds to |
| PackedImage.EditLocality | src/main.rs:376-435 | replacing one blob by one of any length keeps earlier offsets and all other partitions' bytes, and moves later offsets by one common multiple of the alignment |
| Unpacker.SplitPartition | src/main.rs:235-293 | containers tried in priority order; entry and payload, or the past-the-partition error |
| Unpacker.PayloadIsSlice | src/main.rs:250-293 | every payload taken is a stretch of its own partition inside the image, with no sum leaving 64 bits |
| Unpacker.Collect | src/main.rs:234-306 | all splits when every one succeeds |
| Unpacker.CmdUnpack | src/main.rs:218-323 | the command computes the specified manifest and files or error |
| UnpackedFiles.EntryIs | src/main.rs:201-291 | byte by byte, the manifest entry of each kind of partition: file name and extension, fields kept, tag offset |
| UnpackedFiles.PayloadIs | src/main.rs:250-293 | the stretch of a partition that is taken, or that it does not lie inside |
| UnpackedFiles.PartitionUnpacked | src/main.rs:218-323 | after unpacking each partition has its entry, and its stretch in its file unless a later partition has the same file |
| UnpackedFiles.OtherFilesKept | src/main.rs:222-296 | every file that no partition is written to is there afterwards exactly as before |
| UnpackedFiles.UnpackRefuses | src/main.rs:218-229 | nothing is unpacked from a file that does not parse, or into a directory that is not empty without force |
| Unpacker.UnpackOkIff | src/main.rs:218-306 | a parsed image unpacks exactly when the directory may be written and every container's payload lies in its partition |
| Unpacker.UnpackFirstError | src/main.rs:266-286 | otherwise the first offending partition is reported |
| Rebuilding.RebuildIff | src/main.rs:376-414 | what pack builds from unpack's entry and a file is the partition exactly when the two fit byte by byte, for every container |
| Rebuilding.WriteAllLast | src/main.rs:295-296 | a file ends up with the payload of the last partition written to it |
| RoundTrip.SealIff | src/main.rs:438-455 | wherever the table falls, sealing a layout gives exactly the valid images that show table over header over layout away from the corrective word |
| RoundTrip.AssembleIff | src/main.rs:373-456 | packing gives a certain image exactly when every blob builds and the image is valid, below 4 GiB and shows those bytes |
| RoundTrip.ReproducedIff | src/main.rs:218-465 | for every header size, an image survives unpack and pack exactly when its partitions rebuild and total size, table and layout stand where nothing is written over them |
| RoundTrip.PackedIsCanonical | src/main.rs:359-465 | every packed image with alignment up to 0x40 and its table past the corrective word has a canonical header and layout |
| RoundTrip.RebuiltIff | src/main.rs:376-414 | pack rebuilds a partition from what its file holds exactly when the partition is canonical |
| RoundTrip.CanonicalRoundTrips | src/main.rs:218-465 | canonical images of any header size survive unpack and pack byte for byte |
| RoundTrip.RoundTripIsCanonical | src/main.rs:218-465 | with the table past the corrective word, only canonical images do |
| RoundTrip.RoundTripIff | src/main.rs:218-465 | raw or stripped, any number of partitions, shared files included: exactly the reproduced images survive, canonical ones always, and from header size 0x26 on only those |
| RoundTrip.CanonicalButTotalIsReproduced | src/main.rs:443-455 | a total-size field hidden under the table does not matter |
| Overlap.OverlapSurvives | src/main.rs:443-455 | an image with header size 0x1C survives although its total-size field does not read as its length |
| Overlap.OverlapExists | src/main.rs:443-455 | there is such an image |
| NormalForm.OwnPayloadFits | src/main.rs:250-293 | a partition fits its own payload exactly when it has its container's shape |
| NormalForm.DistinctRoundTripIff | src/main.rs:218-465 | with distinct ids an image survives if header and layout are canonical and every partition has its container's shape, and from header size 0x26 on only then |
| NormalForm.SharedFileLost | src/main.rs:237-239 | two partitions of different sizes under one id never survive a raw round trip, the table lying past the corrective word |
| NormalForm.SharedFileExample | src/main.rs:237-296 | the program itself packs such an image |
| NormalForm.PartRecovers | src/main.rs:241-293 | unpacking a built partition recovers kind, header fields, name as stored, and payload |
| NormalForm.PackedIsNormalForm | src/main.rs:218-465 | unpack of a packed image recovers every partition and packing again gives the same image, whatever tag offset is found |
| Verifier.CmdVerify | src/main.rs:128-195 | the command counts exactly the specified failures |
| Verifier.VerifyParts | src/main.rs:148-188 | the loop adds up every partition's failures |
| Verifier.VerifySlot | src/main.rs:151-165 | one failure exactly for a partition that has a slot and does not sum to zero |
| Verifier.VerifyCrcs | src/main.rs:166-187 | one failure for each uImage CRC that does not match |
| Verifier.VerifyOkIff | src/main.rs:128-195 | a clean report means exactly: parsed, size right, file sum zero, every partition that begins with "CKSM" or carries a tag sums to zero, every uImage has both CRCs right |
| Verifier.VerifyCounts | src/main.rs:128-192 | the number of failed checks reported is the size of the set of checks that fail |
| Verifier.HasSlotIff | src/main.rs:154 | a partition has a corrective word exactly when it is a CKSM container or has a tag at some multiple of four |
| Verifier.OneWordChangeFails | src/main.rs:140-146 | changing any one aligned half-word of a clean image is reported |
| Verifier.RepairedEditFails | src/main.rs:140-187 | re-solving the outer word does not hide a one-byte edit inside a uImage partition |
| Verifier.SlottedEditFails | src/main.rs:140-165 | nor does it hide the edit of a half-word in a partition with a corrective word of its own, what that is recognised by left alone |
| Verifier.PackedVerifyIff | src/main.rs:128-195 | a packed image verifies exactly when no blob accidentally looks slotted or uImage-like and fails |
| Verifier.RecoverableIsSound | src/main.rs:148-187 | a built recoverable partition fails no check, a uImage provided it does not also look tagged |
| Verifier.PackedVerifies | src/main.rs:128-195 | so a packed image of such partitions verifies clean |
| Arm.AdrpRoundTrip | tools/re/xref.py:58-66 | decoding inverts encoding for every signed page count and register |
| Arm.AddImmRoundTrip | tools/re/xref.py:68-74 | likewise for ADD immediate, shifted or not |
| Arm.AdrpEncoded | tools/re/xref.py:58-66 | every word that decodes as ADRP is the encoding of what it decodes to |
| Arm.AddImmEncoded | tools/re/xref.py:68-74 | and likewise for ADD immediate |
| Arm.BlEncoded | tools/re/allrefs.py:30 | the words passed over as calls are exactly the encodings of BL |
| Arm.BlIff | tools/re/allrefs.py:30 | these are the words from 0x94000000 up to 0x98000000 |
| Arm.AdrpIsNotAdd | tools/re/allrefs.py:15-19 | no word decodes as both |
| AllRefs.Step | tools/re/allrefs.py:13-31 | the loop body's effect on tracked pages and on the index |
| AllRefs.Build | tools/re/allrefs.py:8-32 | the pass lists, for every target, exactly the loads of its pairs, in order |
| AllRefs.Source | tools/re/allrefs.py:15-31 | at most one load is live for a register, and it is the one tracked |
| AllRefs.PairsAre | tools/re/allrefs.py:13-31 | the listed pairs are exactly load, register live by the tool's rules, addition with the right sum; ordered by addition, each once |
| AllRefs.IndexIff | tools/re/allrefs.py:8-32 | a pc is listed under a target exactly when some addition makes them a pair |
| AllRefs.EndsIff | tools/re/allrefs.py:15-31 | a register stops being tracked at a word whose low five bits name it, unless that is a call or an addition to the register itself |
| AllRefs.IndexIs | tools/re/allrefs.py:8-32 | what is listed, in terms of the words alone: opcodes, registers, distances and the sum |
| AllRefs.IndexLists | tools/re/allrefs.py:8-32 | the list under a target has one entry for each pair, in the order of the additions |
| AllRefs.CallsKeepPages | tools/re/allrefs.py:28-31 | a load and an addition with nothing but calls in between are listed |
| CodeRefs.Scan | tools/re/xref.py:86-95 | the windowed inner loop finds the addition exactly when one is reachable |
| CodeRefs.FindRefs | tools/re/xref.py:76-96 | the scan returns the specified hits |
| CodeRefs.HitsAre | tools/re/xref.py:76-96 | each load once, in address order, exactly when it reaches the target |
| CodeRefs.HitsIs | tools/re/xref.py:76-96 | what is found, in terms of the words alone, within eleven instructions |
| CodeRefs.AgreeIff | tools/re/xref.py:86-95 | index and scan accept the same pairs once cut to the window and unshifted additions, and to registers nothing ends in between |
| CodeRefs.IndexedIsScanned | tools/re/xref.py:76-96 | an index entry whose unshifted addition is at most 11 instructions away is found by the scan |
| CodeRefs.ScannedIsIndexed | tools/re/allrefs.py:8-32 | a scan hit with nothing ending its register in between is indexed |
| CodeRefs.HitIff | tools/re/xref.py:76-96 | the scan lists a load exactly when it has a near unshifted pair, or a stale one whose register the index's rules end in between |
| CodeRefs.IndexOnlyIff | tools/re/allrefs.py:8-32 | an indexed load is missing from the scan exactly when all additions pairing with it are 12 or more instructions away or at least 0x1000, and no stale one stands in |
| CodeRefs.ScanOnlyIff | tools/re/xref.py:76-96 | a scanned load is missing from the index exactly when it has stale pairs only |
| CodeRefs.OverwrittenIsScanOnly | tools/re/xref.py:94-95 | example: a load, an overwrite of its register and an addition are scanned and not indexed |
| CodeRefs.ScanOnly | tools/re/xref.py:94-95 | example: a concrete text of that kind |
| CodeRefs.FarIsIndexOnly | tools/re/xref.py:86 | example: an addition just past the window is indexed and not scanned |
| CodeRefs.ShiftedIsIndexOnly | tools/re/xref.py:68-74 | example: a concrete text whose shifted addition is indexed and not scanned |
| HandlerNames.BisectRight | tools/re/dump_api_table.py:103 | splits the starts at the first one above the address |
| HandlerNames.BisectLeft | tools/re/dump_api_table.py:105 | splits the sorted sites at the first one at or after the address |
| HandlerNames.Lookup | tools/re/dump_api_table.py:101-110 | two bisections and a bounded walk find what a full linear search finds |
| HandlerNames.NameOfIff | tools/re/dump_api_table.py:101-110 | the name is the text of the first site inside the span that belongs to a family |
| HandlerNames.EndOfIs | tools/re/dump_api_table.py:103-104 | the span ends at the least start above the function, or 0x800 bytes on when there is none |
| HandlerNames.InFamilyIff | tools/re/dump_api_table.py:42 | the seven prefixes that are accepted |
| HandlerNames.TieGoesToLeast | tools/re/dump_api_table.py:67-108 | of several texts at one address the least gives the name |
| HandlerNames.StringLessIff | tools/re/dump_api_table.py:67 | texts compare at their first difference, a proper prefix coming first |
| HandlerNames.IsPrologueIff | tools/re/dump_api_table.py:96-97 | prologues are the 128 words that store x29 and x30 below the stack pointer |
| HandlerNames.SpanStopsAtPrologue | tools/re/dump_api_table.py:91-104 | no span reaches past a later prologue |
| HandlerNames.EndBeforeNextStart | tools/re/dump_api_table.py:91-104 | a function's span ends at or before every later start |
| HandlerNames.HandlersShareNoSite | tools/re/dump_api_table.py:91-110 | two distinct handlers never draw on the same site |

## Left out

- File system access, the command line, printing, `describe` and `cmd_info`, error texts. Errors keep their kind and the index of the partition.
- The TOML library and `manifest.toml` itself: a manifest is passed from unpack to pack as a value, its informational `source` field left out; the codecs of its hexadecimal fields are modelled.
- UnpackedFiles.OtherFilesKept: `manifest.toml`, which unpack also writes, is not among the model's files; a file of that name is the manifest value.
- Files left behind by an unpack that fails part way: the result is then only the error.
- RoundTrip.RoundTripIff: for a table below 0x26 the exact condition compares the table and layout with those of the rebuilt partitions (`Reproduced`) instead of reading off the image's own (`Canonical`).
- NormalForm.DistinctRoundTripIff: for a table below 0x26 it gives the sufficient half; `RoundTrip.ReproducedIff` has the exact condition.
- NormalForm.SharedFileLost: stated for a table at or past 0x26; below it the size entry itself can be overwritten.
- NormalForm.PackedIsNormalForm: stated for a table at or past 0x26 and alignments up to 0x40, the largest unpack can recover; larger ones pack and lay out as proved, but unpack derives a smaller alignment.
- NormalForm.PackedIsNormalForm: assumes distinct ids and, per partition, that the built blob is recognised as what it is (`Recoverable`); without these unpack reads a different container.
- Memory exhaustion: an alignment so large that the padded image cannot be allocated is reported like an image past 4 GiB.
- `usize` is taken to be 64 bits wide.
- BuildTag.FindNvtTag: the tag strings are returned as the bytes up to the first NUL; decoding and trimming them only matters for printing.
- `Vec<u8>` values that only grow by appending are sequences held in local variables; buffers written in place are arrays.
- The internals of `crc32fast`: CRC-32 is defined bit by bit.
- Verifier.RepairedEditFails: says nothing about changes to the table, which lead verify to other slices.
- The regular expression and string checks of `ident_sites`, the walk over the command tables and the JSON output in `dump_api_table.py`: the lookup takes the sorted sites, the starts and the handlers as given.
- Python's `bisect` and `sorted` are the standard library's: bisection is modelled as a binary search, the sorted starts by their defining property.
- What AArch64 instructions do to registers when executed: the index is approximate by design, and what is proved is its own bookkeeping.
- `sections`, `cstr`, `ptr_refs`, `bl_refs`, `plt.py`, `mkelf.py`, `gen_table.py`, `gen_schema_json.py`, `cfgapply.c`, the pickle cache, the Docker and shell scripts: they would add only easy members.
