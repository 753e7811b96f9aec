# Verified models of libssl

A model of the parts of LibreSSL's libssl where the code reaches a simple result by a hard route, with
machine-checked proofs that it does. Everything is Dafny; `dafny verify dfyconfig.toml` checks the project.

* **CBC records** (`ConstantTime`, `CbcPadding`, `CbcMac`, `HmacSpec`, `CbcDigest`). Padding removal, MAC extraction
  and record MAC computed under masks, against section 6.2.3.2 of RFC 5246, section 2 of RFC 2104 and section 5.1 of
  FIPS 180-4. The compression function of the hash is a parameter.
* **Builder, parser and BER converter** (`Encoding`, `ByteBuilder`, `BuilderRuns`, `BuiltTrees`, `ByteParser`,
  `ByteCursor`, `TreeCodec`, `DerInteger`, `IntegerBuilder`, `ExactCalls`, `BerConvert`, `BerTrees`, `BerRewriter`,
  `BerWrapper`). Nested builders that patch lengths in one shared buffer produce the bytes of a pure encoder of the
  tree; the parser recovers the tree of any run; DER is canonical; indefinite lengths become definite ones.
* **Sessions** (`SessionCodec`, `SessionLayout`, `SessionRoundTrip`, `SessionWriter`, `SessionStore`). The ASN.1 form
  of a session, written through the builder's calls and read through the parser.
* **DTLS handshake transport** (`DtlsHeader`, `DtlsWriter`, `Reassembly`, `DtlsFragment`, `DtlsInbound`,
  `DtlsStore`, `DtlsProgress`, `DtlsReceiver`, `PriorityQueue`, `DtlsRetransmit`, `DtlsFlight`, `DtlsTransport`,
  `DtlsNetwork`). Fragments cut in place, bitmap reassembly in a linked queue, delivery in order and when it is sure, a
  flight numbered, kept, sent and sent again in its original order, and transcripts that agree at both ends.
* **DTLS replay window** (`ReplayWindow`). A saturating subtraction and a shifting bitmap refine the set of record
  numbers received.
* **Cipher order** (`CipherRules`, `StableOrder`, `CipherPreference`, `CipherList`, `CipherCommands`,
  `CipherArrange`). A doubly linked list relinked while it is traversed implements stable partitions, and the fixed
  rules implement a stable lexicographic sort.
* **Client handshake** (`ClientHandshake`, `ClientCompletion`). `ssl3_connect` as a state machine, for every behaviour
  of the outside, and the handshakes it completes when nothing fails.

Code that changes things in place is modelled by classes, arrays and loops, each proved against a function or
predicate on values; the main theorems are about those. `Arith` holds division facts.

Seven results say when the code meets a property and when not:

* the constant-time comparators are right exactly when the difference of the operands lies from -2^31 up to, but not
  including, 2^31 (`ConstantTime.LtExact`);
* the division spoiler leaves the rotate offset right exactly for even digest sizes and for 1 (`CbcMac.SpoilerExact`);
* the walk that decides whether BER has to be converted overlooks indefinite lengths that stand only inside definite
  elements, because a nested result is overwritten (bs_ber.c:80); the caller goes on with the definite encoding exactly
  when some element is indefinite at the top or none is anywhere (`BerWrapper.InHandExact`);
* a DTLS fragment that is put straight into the message buffer makes a transcript that does not depend on what the
  buffer held exactly when it is whole (`DtlsReceiver.DirectExact`). The guard in front of it also lets an empty
  fragment of a longer message through: the caller gets an empty body and the transcript the old contents of the buffer
  (`DtlsReceiver.EmptyComesUp`), which the caller gets too when the message is handed up again
  (`DtlsReceiver.HandUpAgain`), so transcripts agree for senders that, like `dtls1_do_write`, never cut such fragments;
* a DTLS message that is handed up without the queue while a part of it waits there leaves that part at the head of the
  queue, and behind it no message that comes in pieces is handed up (`DtlsProgress.LeftExact`,
  `DtlsTransport.LeftBehind`). A flight comes up as a whole when of each message one sending arrives and no message is
  cut in one sending and whole in the other (`DtlsNetwork.Across`);
* the converter accepts well-formed BER exactly when it nests no deeper than kMaxDepth (`BerTrees.DepthExact`);
* sixteen bits of a retransmission priority keep it exactly for numbers below 2^15 and for a change cipher spec of
  number 2^15, but not for a change cipher spec of number 0 (`DtlsRetransmit.PriorityKept`).

## Model

| member | source | states |
|---|---|---|
| `ConstantTime.LtExact` | src/lib/libssl/s3_cbc.c:80-86 | The masked less-than equals the comparison exactly when -2^31 <= a - b < 2^31 (both directions). |
| `ConstantTime.GeExact` | src/lib/libssl/s3_cbc.c:88-93 | The same condition for greater-or-equal. |
| `ConstantTime.Eq8Exact` | src/lib/libssl/s3_cbc.c:95-102 | The 8-bit equality mask is right exactly when the exclusive or of the operands is at most 2^31. |
| `CbcPadding.ScanPadding` | src/lib/libssl/s3_cbc.c:135-166 | The accumulated mask is all ones exactly when the last p+1 bytes all equal p and p+1 plus the MAC fits, else zero, whatever the record holds. |
| `CbcPadding.RemovePadding` | src/lib/libssl/s3_cbc.c:115-173 | 0 iff the record is too short (and nothing changes), 1 iff it is well padded, -1 otherwise; the length drops by the padding or by nothing, the IV is skipped, and no byte of the fragment changes. |
| `CbcPadding.PaddingMeans` | src/lib/libssl/s3_cbc.c:135-166 | A record is well padded exactly when it is something at least as long as the MAC with p+1 bytes of value p behind it (section 6.2.3.2 of RFC 5246). |
| `CbcMac.SpoilerHarmless` | src/lib/libssl/s3_cbc.c:225-234 | For every even digest size up to 64 the division spoiler leaves the rotate offset equal to the start of the MAC modulo the digest size. |
| `CbcMac.SpoilerExact` | src/lib/libssl/s3_cbc.c:225-234 | For every digest size up to 64 and every position of the MAC, the rotate offset computed with the division spoiler is right exactly when the size is even or 1. |
| `CbcMac.Gather` | src/lib/libssl/s3_cbc.c:236-243 | The scan fills every residue of the rotated buffer once, with the MAC rotated by its start. |
| `CbcMac.RotateInPlace` | src/lib/libssl/s3_cbc.c:245-253 | Rotation by index recovers the MAC and touches nothing beyond it. |
| `CbcMac.RotateByMasks` | src/lib/libssl/s3_cbc.c:254-264 | The rotation by masks, which reads no secret index, recovers the same MAC. |
| `CbcMac.CopyMac` | src/lib/libssl/s3_cbc.c:194-265 | The output is data[length - md_size .. length) for every even size up to 64 and every original length up to 256 bytes longer; the scan start never cuts the MAC; both rotations. |
| `HmacSpec.PaddedMeans` | src/lib/libssl/s3_cbc.c:507-547 | The padded message by index: the message, 0x80, fewer zeros than a block, and byte i of the number of bits at place i from the end, or from the start of the field when the hash is little-endian; with what was hashed before it fills whole blocks. |
| `HmacSpec.DigestMeans` | src/lib/libssl/s3_cbc.c:549-608 | The digest is the finished last state of any chain that starts at the initial state and takes the padded message block by block. |
| `HmacSpec.HmacMeans` | src/lib/libssl/s3_cbc.c:525-533 | HMAC by index: the key, or the digest of a longer one, filled up with zeros and combined byte by byte with 0x36 before the text and with 0x5c before the inner digest (section 2 of RFC 2104). |
| `CbcDigest.SixBlocksSuffice` | src/lib/libssl/s3_cbc.c:473-523 | With at most 256 bytes of padding removed the public prefix never reaches past the message and the final block lies within the six varying blocks, for both hash shapes. |
| `CbcDigest.PaddedLength` | src/lib/libssl/s3_cbc.c:507-516 | The final block index is that of the last block of the padded message. |
| `CbcDigest.MaskedIsPadded` | src/lib/libssl/s3_cbc.c:564-599 | Each masked byte of a block up to the final one is the byte of the padded message (section 5.1 of FIPS 180-4) at that place. |
| `CbcDigest.BlockMatches` | src/lib/libssl/s3_cbc.c:564-599 | A whole masked block is the next block of the padded message, and the final one ends it. |
| `CbcDigest.BuildBlock` | src/lib/libssl/s3_cbc.c:565-599 | The loop that masks byte by byte computes the masked bytes and advances the offset by a block. |
| `CbcDigest.LengthBytes` | src/lib/libssl/s3_cbc.c:535-547 | Byte i of the number of bits stands at place i from the end of the field for a big-endian hash and at place i from its start for a little-endian one. |
| `CbcDigest.HashPrefix` | src/lib/libssl/s3_cbc.c:549-556 | Hashing the public blocks leaves the rest of the padded message to be absorbed. |
| `CbcDigest.HashTail` | src/lib/libssl/s3_cbc.c:558-608 | The selected block digest is the digest of the padded rest, although every one of the varying blocks is hashed. |
| `CbcDigest.InnerMac` | src/lib/libssl/s3_cbc.c:525-608 | The masked computation equals the hash of inner pad, header and data without MAC and padding. |
| `CbcDigest.DigestRecord` | src/lib/libssl/s3_cbc.c:379-628 | The record digest equals HMAC (section 2 of RFC 2104) of the header and data[0 .. data_plus_mac_size - md_size), for every hash of a supported shape. |
| `ReplayWindow.BorrowChain` | src/lib/libssl/d1_pkt.c:158-173 | The byte loop's borrow and saturation flag, tied to the difference of the leading seven bytes. |
| `ReplayWindow.Satsub64be` | src/lib/libssl/d1_pkt.c:131-180 | Exact for differences in [-128, 127]; beyond, of the right sign and at least 128 in magnitude, and clamped whenever the top bytes are equal. |
| `ReplayWindow.NativeExact` | src/lib/libssl/d1_pkt.c:136-156 | The native branch clamps exactly when the difference fits 63 bits and has the wrong sign otherwise. |
| `ReplayWindow.NativeAgrees` | src/lib/libssl/d1_pkt.c:131-180 | Both branches agree on 48-bit record numbers, and never agree when the difference overflows. |
| `ReplayWindow.Bitmap.ReplayCheck` | src/lib/libssl/d1_pkt.c:1046-1063 | A number is accepted iff it exceeds the stored maximum or lies less than the width of the map below it and was never marked, written out over the marked numbers and the stored bytes. |
| `ReplayWindow.Bitmap.BitmapUpdate` | src/lib/libssl/d1_pkt.c:1065-1085 | The shifted bitmap still stands for the set of all marked numbers, with the new one added. |
| `ReplayWindow.Run` | src/lib/libssl/d1_pkt.c:1046-1085 | Any interleaving of checks and updates gives the verdicts of the set-based window; from a fresh bitmap every one of them is right in the sense of the next row. |
| `ReplayWindow.VerdictsExact` | src/lib/libssl/d1_pkt.c:1046-1085 | From a fresh bitmap the verdicts of a run are the only ones by which a record is accepted exactly if its number is beyond the largest one accepted and marked before it (0 if none), or less than the width below and not accepted and marked before (section 4.1.2.6 of RFC 6347). |
| `ReplayWindow.LargestMeans` | src/lib/libssl/d1_pkt.c:1072-1079 | That largest number bounds all accepted and marked ones and is one of them, or 0. |
| `ReplayWindow.MarkedStays` | src/lib/libssl/d1_pkt.c:1046-1085 | A marked number is rejected for ever after. |
| `ReplayWindow.NeverAcceptedTwice` | src/lib/libssl/d1_pkt.c:1046-1085 | In no run is a number accepted again after it was accepted and marked (section 4.1.2.6 of RFC 6347). |
| `ByteBuilder.Buffer.Add` | src/lib/libssl/bs_cbb.c:91-127 | Growing keeps the bytes written; it fails exactly on overflow or when a fixed buffer is full. |
| `ByteBuilder.PatchRaw` | src/lib/libssl/bs_cbb.c:254-265 | A fixed-width prefix is filled in exactly when the length fits it. |
| `ByteBuilder.PatchAsn1` | src/lib/libssl/bs_cbb.c:205-252 | A long-form DER length moves the contents up and is minimal; it succeeds exactly when length and buffer allow. |
| `Encoding.DerLengthMeans` | src/lib/libssl/bs_cbb.c:205-252 | A length below 128 is its own octet; any other says how many octets follow, which hold it and of which the first is not zero. |
| `ByteBuilder.PatchChild` | src/lib/libssl/bs_cbb.c:186-274 | Closing the innermost child turns its pending prefix and contents into its element, whatever was already written before it. |
| `ByteBuilder.Flush` | src/lib/libssl/bs_cbb.c:186-274 | Closes all levels nested in a builder, innermost first, or fails where the first length does not fit. |
| `ByteBuilder.AddBytes` | src/lib/libssl/bs_cbb.c:368-378 | Appends bytes after closing the children of the builder used. |
| `ByteBuilder.AddUint` | src/lib/libssl/bs_cbb.c:129-149 | Appends n bytes, most significant first; values that do not fit are refused. |
| `Encoding.BigEndianAt` | src/lib/libssl/bs_cbb.c:129-149 | Byte i from the end of what is written for a number is its byte i. |
| `ByteBuilder.OpenChild` | src/lib/libssl/bs_cbb.c:291-366 | Opens a length-prefixed or tagged child; long-form tags are refused. |
| `ByteBuilder.Finish` | src/lib/libssl/bs_cbb.c:151-184 | Only the outermost builder finishes; the bytes are the pure encoding of the tree. |
| `ByteBuilder.Init` | src/lib/libssl/bs_cbb.c:26-77 | An empty builder, growing or of fixed size. |
| `BuilderRuns.Build` | src/lib/libssl/bs_cbb.c:91-378 | Any sequence of calls on any open builders gives exactly the bytes of the pure encoder of the tree they describe, and gives bytes exactly when every length and the limit are kept. |
| `BuilderRuns.Continue` | src/lib/libssl/bs_cbb.c:186-274 | The same from any state in the middle of a run. |
| `BuiltTrees.TreeWritable` | src/lib/libssl/bs_cbb.c:91-378 | The tree of every successful run of well-formed calls is one that the encoder can write: every tag in the short form and every contents within its length field. |
| `BuiltTrees.BuiltIsParsed` | src/lib/libssl/bs_cbs.c:244-253 | Whatever calls built it, with whatever limit, the parser recovers the tree of the run from the bytes and leaves what follows. |
| `BuiltTrees.BuildAndParse` | src/lib/libssl/bs_cbb.c:91-378 | Running any well-formed calls on a real builder and parsing the bytes: bytes come out exactly when the run has a tree, and then the parse is that tree. |
| `TreeCodec.ParseAllOfEncoding` | src/lib/libssl/bs_cbs.c:244-253 | The parser, told the shape, recovers every encodable tree and leaves what follows. |
| `TreeCodec.ProgramBuildsTree` | src/lib/libssl/bs_cbb.c:291-378 | Every encodable tree is what its own builder calls build. |
| `IntegerBuilder.WrittenStep` | src/lib/libssl/bs_cbb.c:448-483 | One byte of the loop extends the encoding of the leading bytes: zeros skipped, a top bit padded. |
| `IntegerBuilder.IntNodeBytes` | src/lib/libssl/bs_cbb.c:439-490 | The element written byte by byte is the DER encoding of the number. |
| `IntegerBuilder.AddAsn1Uint64` | src/lib/libssl/bs_cbb.c:439-490 | The loop over the eight bytes appends exactly that element to the builder used, and succeeds exactly when it fits. |
| `ByteParser.PrefixedExact` | src/lib/libssl/bs_cbs.c:244-253 | A length-prefixed string is read as c iff the bytes are the builder's for c. |
| `ByteParser.ElementAccepted` | src/lib/libssl/bs_cbs.c:357-441 | Every element the builder emits is accepted, strictly or not. |
| `ByteParser.ElementCanonical` | src/lib/libssl/bs_cbs.c:357-441 | The strict parser accepts nothing else: the header is the minimal one of the contents. |
| `ByteParser.Asn1Exact` | src/lib/libssl/bs_cbs.c:443-461 | For contents below 2^32-1 bytes a tagged element is read as c iff the bytes are the builder's for that tag and c. |
| `ByteParser.ElementLoose` | src/lib/libssl/bs_cbs.c:357-441 | Non-strict parsing reads the same elements and, besides, the two octets of an indefinite header by themselves, if the element is constructed. |
| `DerInteger.ContentMeans` | src/lib/libssl/bs_cbb.c:439-490 | The contents octets of a number have its value, a clear top bit and no superfluous zero. |
| `DerInteger.DecodeExact` | src/lib/libssl/bs_cbs.c:491-528 | Contents octets decode to v iff they are the encoding of v; every other form is rejected. |
| `DerInteger.Uint64Exact` | src/lib/libssl/bs_cbs.c:491-528 | Encoder and decoder of 64-bit INTEGERs are mutual inverses. |
| `ByteCursor.Cbs.Get` | src/lib/libssl/bs_cbs.c:39-49 | Takes n bytes and advances, or fails and stays. |
| `ByteCursor.Cbs.GetU` | src/lib/libssl/bs_cbs.c:147-166 | The accumulating loop reads the big-endian number. |
| `ByteCursor.Cbs.GetLengthPrefixed` | src/lib/libssl/bs_cbs.c:244-253 | Refines the specification of length-prefixed strings. |
| `ByteCursor.Cbs.GetAnyElement` | src/lib/libssl/bs_cbs.c:357-441 | Refines the element parser; on failure the cursor has not moved. |
| `ByteCursor.Cbs.GetAsn1Contents` | src/lib/libssl/bs_cbs.c:443-467 | Refines the tagged getter. |
| `ByteCursor.Cbs.GetAsn1Uint64` | src/lib/libssl/bs_cbs.c:491-528 | The shift-and-check loop accepts exactly the 64-bit encodings. |
| `BerConvert.OutputBound` | src/lib/libssl/bs_ber.c:120-240 | The output is at most three times what was consumed. |
| `BerConvert.OutputWalks` | src/lib/libssl/bs_ber.c:120-240 | Whenever a top-level conversion succeeds, on any input, its output re-walks completely under the strict parser at every constructed level. |
| `BerConvert.DefiniteUnchanged` | src/lib/libssl/bs_ber.c:120-240 | On definite input without end-of-contents elements, within the depth limit, the conversion is the identity. |
| `BerTrees.ConvertTrees` | src/lib/libssl/bs_ber.c:120-240 | Inside any nesting, joined or not, trees are converted up to their end-of-contents and the rest is left. |
| `BerTrees.ConvertMeansDer` | src/lib/libssl/bs_ber.c:120-240 | Every forest of elements of any class with short tags, primitive, definite or indefinite, within kMaxDepth becomes its definite encoding (X.690 sections 8.1.3 and 10.1): indefinite elements keep their tag around the encodings of their children, and those that hold the fragments of a string get the primitive tag around the joined contents. |
| `BerTrees.ContextSpecificMeans` | src/lib/libssl/bs_ber.c:155-186 | An indefinite element with a context-specific tag is taken for an implicitly tagged string, with its fragments joined under the primitive tag, exactly when its first element is definite, not empty, universal and neither SEQUENCE nor SET; otherwise it keeps its tag around the definite encodings of its elements. |
| `BerTrees.DepthExact` | src/lib/libssl/bs_ber.c:120-126 | Well-formed trees of any depth are converted exactly when they nest no deeper than kMaxDepth. |
| `BerTrees.StrayEnd` | src/lib/libssl/bs_ber.c:143-145 | End-of-contents with nothing to end, or none where one is due, fails behind any well-formed trees. |
| `BerRewriter.Rewrite` | src/lib/libssl/bs_ber.c:120-240 | The recursive loop on cursor and builder does what the specification of the conversion says, success and failure alike; the rows on trees say what that is for elements of every class. |
| `BerRewriter.ToDefinite` | src/lib/libssl/bs_ber.c:263-269 | The conversion run on a fresh builder hands over the converted bytes or fails, as the specification says whose meaning on trees the rows above state. |
| `BerWrapper.FindIndefinite` | src/lib/libssl/bs_ber.c:46-82 | The walk on cursors, nested calls included, gives the answer of the scanning function: what nested calls find is overwritten, only their failure counts. |
| `BerWrapper.ScanFinds` | src/lib/libssl/bs_ber.c:46-82 | On every well-formed forest within the depth limit the walk answers whether some element is indefinite at the top, whatever lies below. |
| `BerWrapper.IndefiniteToDefinite` | src/lib/libssl/bs_ber.c:242-270 | The whole call: failure of the walk, a null pointer when it finds nothing, else the conversion. |
| `BerWrapper.InHandExact` | src/lib/libssl/bs_ber.c:242-270 | For every well-formed forest the call succeeds, and the bytes the caller goes on with are the definite encoding exactly when some element is indefinite at the top or none is at any level. |
| `BerWrapper.Overlooked` | src/lib/libssl/bs_ber.c:73-82 | A SEQUENCE around an indefinite one shows the failing case: no conversion is asked for. |
| `SessionRoundTrip.FieldBack` | src/lib/libssl/ssl_asn1.c:264-390 | Each field is read back from its own bytes whatever follows, provided the next element does not carry its tag. |
| `SessionRoundTrip.TailSeparate` | src/lib/libssl/ssl_asn1.c:90-170 | What is written after an optional field never starts with that field's tag, for every combination of absent fields. |
| `SessionRoundTrip.OptionalUintBack` | src/lib/libssl/bs_cbs.c:567-585 | An optional number that is left out when zero is read back, default included. |
| `SessionRoundTrip.OptionalOctetsBack` | src/lib/libssl/bs_cbs.c:544-565 | An optional octet string is read back. |
| `SessionRoundTrip.RoundTrip` | src/lib/libssl/ssl_asn1.c:46-410 | Decoding the encoding of any session in range returns the same fields, written out one by one: a zero time becomes the present and a zero timeout 3, an empty ticket becomes absent, the ticket form drops only the identifier. |
| `SessionLayout.SessionLaid` | src/lib/libssl/ssl_asn1.c:26-186 | The octets of a stored session in order: SEQUENCE, version 1, protocol, cipher suite in two octets, identifier, key, then under the tags 0xa0 + k the time (1), timeout (2), certificate (3), context (4), verify result (5), host name (6), lifetime (9) and ticket (10), each left out as the source leaves it out. |
| `ExactCalls.AddNodesExact` | src/lib/libssl/bs_cbb.c:91-378 | Several nodes added one after the other succeed exactly when all of them can be written and together fit the limit, and leave just them. |
| `ExactCalls.WrapExact` | src/lib/libssl/bs_cbb.c:186-366 | Opening an element, filling it and closing it succeeds exactly when adding the finished node would, whatever step fails, and gives the same. |
| `ExactCalls.PutElement` | src/lib/libssl/bs_cbb.c:319-378 | The calls on a handle that open an element and put bytes, a number or a nested element inside leave, once closed, the levels with that node added, or fail exactly when it cannot be added. |
| `SessionWriter.PutMandatory` | src/lib/libssl/ssl_asn1.c:60-93 | Each of the five leading fields, through the source's own calls, adds its node or fails exactly when that cannot be done. |
| `SessionWriter.PutNumber` | src/lib/libssl/ssl_asn1.c:96-165 | An optional number adds its tagged INTEGER, nothing when zero, and fails when negative or too large for the buffer. |
| `SessionWriter.PutString` | src/lib/libssl/ssl_asn1.c:108-175 | An optional string adds its tagged octets, wrapped or bare, or nothing when absent. |
| `SessionWriter.TakenExact` | src/lib/libssl/ssl_asn1.c:46-186 | With no negative number, writing field after field comes to adding the nodes of the session, and fails exactly when one of them cannot be added. |
| `SessionWriter.OneRefused` | src/lib/libssl/ssl_asn1.c:66-137 | A negative version, time, timeout or verify result, or a certificate of no bytes, fails the whole encoding, wherever it stands. |
| `SessionWriter.EncodeSession` | src/lib/libssl/ssl_asn1.c:46-186 | The builder calls, field by field, return the encoding of the session tree exactly when no number is negative, the certificate is not empty and every length and the whole fit, and nothing otherwise. |
| `SessionStore.ReadOptional` | src/lib/libssl/bs_cbs.c:530-542 | Refines the optional getter. |
| `SessionStore.ReadOptionalOctets` | src/lib/libssl/bs_cbs.c:544-565 | Refines the optional octet string getter. |
| `SessionStore.ReadOptionalUint` | src/lib/libssl/bs_cbs.c:567-585 | Refines the optional number getter. |
| `SessionStore.ReadOne` | src/lib/libssl/ssl_asn1.c:264-390 | Each step of the decoder fills its field or fails as specified. |
| `SessionStore.DecodeSession` | src/lib/libssl/ssl_asn1.c:238-410 | The decoder on a cursor refines the decoding function. |
| `SessionStore.StoreAndLoad` | src/lib/libssl/ssl_asn1.c:46-410 | Storing a session through the builder and loading it through the cursor returns the normalised session. |
| `SessionStore.ReadMandatory` | src/lib/libssl/ssl_asn1.c:264-297 | The five leading fields, with their bounds. |
| `SessionStore.ReadNumber` | src/lib/libssl/ssl_asn1.c:299-379 | The optional numbers, with their bounds and defaults. |
| `SessionStore.ReadString` | src/lib/libssl/ssl_asn1.c:319-390 | The optional strings and the certificate. |
| `DtlsHeader.HeaderRoundTrip` | src/lib/libssl/d1_both.c:1120-1198 | Every header is read back as written; the next rows say where its fields stand. |
| `DtlsHeader.HeaderExact` | src/lib/libssl/d1_both.c:1171-1198 | Every header that is accepted is the one that would be written. |
| `DtlsHeader.HeaderLayout` | src/lib/libssl/d1_both.c:1120-1147 | Bytes begin with what is written for a header exactly when octet 0 is the type, octets 1 to 3 the length of the message, 4 and 5 its number, 6 to 8 the offset and 9 to 11 the length of the fragment, most significant first (section 4.2.2 of RFC 6347). |
| `DtlsHeader.HeaderRead` | src/lib/libssl/d1_both.c:1171-1198 | Any twelve octets are read, as the header they lay out in those places, and what follows is left. |
| `DtlsHeader.UnfragmentedLayout` | src/lib/libssl/d1_both.c:315-341 | The transcript of a message lays out offset 0 and the whole length in those places, and then the body. |
| `DtlsWriter.Writer.NextFragment` | src/lib/libssl/d1_both.c:247-287 | The next header is written over bytes already sent; the record is that header and the next slice of the body, as long as the MTU allows. |
| `DtlsWriter.Writer.RecordTranscript` | src/lib/libssl/d1_both.c:315-341 | The first fragment is recorded with the header of the whole message, later ones without theirs. |
| `DtlsWriter.Writer.DoWrite` | src/lib/libssl/d1_both.c:210-361 | For any sequence of usable MTUs the records are consecutive fragments covering the message, none longer than the MTU leaves, each with the octets of its header in their places and its own offset and length; the transcript grows by the unfragmented message, or by nothing when retransmitting. |
| `DtlsWriter.FragmentLaid` | src/lib/libssl/d1_both.c:247-287 | Record i lays out, octet by octet, a fragment that starts where the bodies of the records before it end, as long as its own body, which is that part of the message. |
| `DtlsWriter.FragmentsJoin` | src/lib/libssl/d1_both.c:247-361 | Dropping the headers of the records gives the body back. |
| `DtlsWriter.Writer.UseEpoch` | src/lib/libssl/tls12_record_layer.c:307-324 | Succeeds exactly for the current, the newest and the kept previous epoch. |
| `DtlsWriter.Writer.PutHeader` | src/lib/libssl/d1_both.c:1120-1147 | Twelve octets of header, laid out as `DtlsHeader.HeaderLayout` says, nothing else touched. |
| `Reassembly.MarkWholeBytes` | src/lib/libssl/d1_both.c:132-142 | Marking a range by start, full and end bytes sets exactly its bits. |
| `Reassembly.Mark` | src/lib/libssl/d1_both.c:132-142 | Both ways of marking set exactly the bits of the range and change no other. |
| `Reassembly.IsComplete` | src/lib/libssl/d1_both.c:144-151 | The comparison with the end table and 0xff finds exactly the masks with every bit set. |
| `DtlsFragment.Fragment.Arrived` | src/lib/libssl/d1_both.c:611-626 | Reading, marking and testing keep buffer and mask equal to bytes and set of the specification; a complete message stays as it is. |
| `DtlsFragment.ReassemblyExact` | src/lib/libssl/d1_both.c:553-649 | Slices of a message fed in any order, with repeats and overlaps, complete it exactly when every byte has arrived, and then the buffer is the message. |
| `DtlsFragment.FeedAll` | src/lib/libssl/d1_both.c:596-626 | The same for a fragment object fed slice by slice: its mask goes away exactly when every byte has arrived, and then its buffer is the message. |
| `DtlsFragment.Fragment.CopyIn` | src/lib/libssl/d1_both.c:611-616 | The body goes to its place and nowhere else. |
| `DtlsInbound.ReassembleOrderly` | src/lib/libssl/d1_both.c:553-649 | Whatever arrives, the queue of waiting messages stays strictly ascending and well kept. |
| `DtlsInbound.OutOfSequenceOrderly` | src/lib/libssl/d1_both.c:652-737 | The same for messages ahead of their turn. |
| `DtlsInbound.ReassembleGenuine` | src/lib/libssl/d1_both.c:553-649 | Genuine fragments only add right parts of the messages sent. |
| `DtlsInbound.OutOfSequenceGenuine` | src/lib/libssl/d1_both.c:652-737 | The same for messages ahead of their turn, buffered whole or in parts. |
| `DtlsInbound.ReassembleNear` | src/lib/libssl/d1_both.c:553-649 | Reassembly of the message that is due keeps everything that waits within ten of what has been handed up. |
| `DtlsInbound.OutOfSequenceNear` | src/lib/libssl/d1_both.c:652-737 | Whatever arrives ahead of its turn, nothing further than ten ahead is kept, and before the first message no later Finished. |
| `DtlsReceiver.DirectExact` | src/lib/libssl/d1_both.c:784-838 | Behind the guard of the direct read, what is put into the buffer, and so into the transcript, does not depend on what the buffer held before iff the fragment is the whole message; the part as long as the fragment, which is what the caller first gets as body, never does. |
| `DtlsStore.Store.Insert` | src/lib/libssl/d1_both.c:628-640 | A new fragment object enters the linked queue at the place of its number; all others keep their place, bytes and masks. |
| `DtlsStore.Store.Extend` | src/lib/libssl/d1_both.c:583-626 | A fragment written and marked in place in its object changes the waiting message it belongs to and no other. |
| `DtlsStore.Store.Locate` | src/lib/libssl/d1_both.c:570-576 | Finds in the linked queue the entry of the message with that number, or reports that none waits. |
| `DtlsStore.Store.TakeHead` | src/lib/libssl/d1_both.c:483-534 | Hands over header and bytes of the first waiting message and leaves the others as they were. |
| `DtlsStore.Store.ReassembleFragment` | src/lib/libssl/d1_both.c:552-649 | Find, allocate, copy, mark, test and insert on the linked queue of objects do to the waiting messages what the function that the order and delivery theorems are about does to values, failures included. |
| `DtlsStore.Store.ProcessOutOfSequence` | src/lib/libssl/d1_both.c:652-737 | The same for messages that are not due: stale, too far ahead, already there or a Finished before everything are dropped; whole ones are queued and parts reassembled. |
| `DtlsReceiver.Receiver.RetrieveBuffered` | src/lib/libssl/d1_both.c:483-534 | The head of the queue is taken exactly if it is whole and due; it is handed over, with its bytes and their number, exactly if it is not too long, and the rest of the queue stays. |
| `DtlsReceiver.Receiver.ReadDirect` | src/lib/libssl/d1_both.c:817-855 | A genuine message in one piece is put into the buffer as it was sent. |
| `DtlsReceiver.Receiver.GetFragment` | src/lib/libssl/d1_both.c:739-863 | A message that is ready carries the number that is due, with as many bytes of body as its last fragment had, and from genuine arrivals that is the body sent under it. A due message that is on its way, in whatever pieces, comes nearer with each arrival and never fails. Behind a message left at the head of the queue nothing that comes in pieces gets ready. |
| `DtlsReceiver.Receiver.HandUp` | src/lib/libssl/d1_both.c:406-428 | Records the unfragmented message and moves on to the next number. |
| `DtlsReceiver.Receiver.GetMessage` | src/lib/libssl/d1_both.c:371-432 | New messages carry the numbers 0, 1, 2, ... without gap, repeat or reordering, whatever arrives; from genuine arrivals they are the messages sent, in full length, and the transcript grows by exactly them; a due message that is on its way does come up. One that is read straight into the buffer comes up with as many bytes as its fragment had, while the transcript takes all of the buffer; asked for again it has the full length. |
| `DtlsReceiver.EmptyComesUp` | src/lib/libssl/d1_both.c:784-855 | An empty fragment of a longer message that is due comes up with a body of no bytes, and the transcript takes the old contents of the buffer. |
| `DtlsReceiver.HandUpAgain` | src/lib/libssl/d1_both.c:383-393 | A message handed up and put back comes up the second time as the transcript recorded it; that is what came up the first time exactly when the last fragment was the whole message. |
| `DtlsProgress.OneMoreQueued` | src/lib/libssl/d1_both.c:552-737 | While the messages of a stretch are on their way, any genuine arrival that is queued or dropped leaves them so, for every byte of every message, and is never an error. |
| `DtlsProgress.HeadUp` | src/lib/libssl/d1_both.c:483-534 | The due message, once whole, stands at the head of the queue, and behind it the rest of the stretch is still on its way. |
| `DtlsProgress.ReadUp` | src/lib/libssl/d1_both.c:784-838 | The same when it arrives in one piece, because then no part of it is waiting. |
| `DtlsProgress.BlockedStays` | src/lib/libssl/d1_both.c:552-737 | A message at the head of the queue whose number is over stays there, whatever arrives. |
| `DtlsProgress.LeftExact` | src/lib/libssl/d1_both.c:483-534 | Once the due message has been handed up without the queue, something is left behind exactly when a part of it was waiting. |
| `DtlsNetwork.RecordArrives` | src/lib/libssl/d1_both.c:247-361 | Every record the sender cuts is read as a genuine fragment, and it is shorter than the message exactly when the message was cut in several. |
| `DtlsTransport.Receive` | src/lib/libssl/d1_both.c:371-432 | Over any number of calls and any loss, repetition, order and fragmentation of genuine records, the receiver's transcript is that of the messages handed up; with enough calls all messages come up that are on their way. |
| `DtlsNetwork.TextsAreTranscript` | src/lib/libssl/d1_both.c:210-361 | What the sender of a flight hashes is that same function of the messages, whatever the MTUs. |
| `DtlsTransport.LeftBehind` | src/lib/libssl/d1_both.c:483-534 | When a part of the due message waits and the message then comes in one piece, it is handed up, the part stays at the head of the queue, and the next message is not handed up, however many of its pieces arrive. |
| `DtlsTransport.LeavesBehind` | src/lib/libssl/d1_both.c:483-863 | A new receiver comes to that with the arrivals a retransmission under a larger MTU brings. |
| `DtlsNetwork.FlightFlows` | src/lib/libssl/d1_both.c:247-361 | A flight is on its way to the receiver when of each message one sending is let through whole, no message is cut in one sending and whole in the other, and none is too long or too far ahead. |
| `DtlsNetwork.Across` | src/lib/libssl/d1_both.c:210-1096 | From end to end: a flight sent and sent again under any MTUs, any of the records of both delivered in any order and number, any calls to receive. The receiver's transcript is that of the messages it handed up and a prefix of the sender's; under the condition above all of the flight comes up and the transcripts are equal. |
| `PriorityQueue.MemcmpNumeric` | src/lib/libssl/pqueue.c:116-120 | Comparing the bytes compares the numbers. |
| `PriorityQueue.InsertedOnce` | src/lib/libssl/pqueue.c:104-137 | The queue stays strictly ascending; exactly the new entry is added, or nothing when its priority is taken. |
| `PriorityQueue.Queue.Insert` | src/lib/libssl/pqueue.c:104-137 | Splicing into the linked list refines that function and reports a duplicate. |
| `PriorityQueue.Queue.Peek` | src/lib/libssl/pqueue.c:139-143 | The head is the smallest entry. |
| `PriorityQueue.Queue.Pop` | src/lib/libssl/pqueue.c:145-154 | Removes the smallest entry and nothing else. |
| `PriorityQueue.Queue.Find` | src/lib/libssl/pqueue.c:156-167 | Finds an entry iff its priority is there. |
| `PriorityQueue.Queue.Size` | src/lib/libssl/pqueue.c:190-201 | Counts the entries. |
| `DtlsRetransmit.PriorityKept` | src/lib/libssl/d1_both.c:893-908 | The sixteen bits of a priority that reach the queue are the priority exactly for numbers below 2^15 (or a change cipher spec of 2^15) and not for a change cipher spec of number 0. |
| `DtlsRetransmit.PriorityOrder` | src/lib/libssl/d1_both.c:893-908 | Within that range priorities follow the order of sending (both directions). |
| `DtlsRetransmit.FlightKeepsOrder` | src/lib/libssl/d1_both.c:938-988 | Buffering a flight in sending order refuses nothing and changes no place. |
| `DtlsRetransmit.BufferMessage` | src/lib/libssl/d1_both.c:938-988 | Keeps a copy of the message with its epoch and session under its priority. |
| `DtlsRetransmit.Resend` | src/lib/libssl/d1_both.c:1022-1061 | A message leaves under its own epoch and session, which are then restored; it fails exactly when the keys are gone. |
| `DtlsRetransmit.RetransmitMessage` | src/lib/libssl/d1_both.c:991-1063 | Finds the message by its priority or reports that it is not there. |
| `DtlsRetransmit.RetransmitBuffered` | src/lib/libssl/d1_both.c:910-936 | Every message of the queue is resent once, in order; it succeeds exactly when all epochs can be used. |
| `DtlsRetransmit.RetransmitFlight` | src/lib/libssl/d1_both.c:893-1063 | A flight buffered since the last clear and in sending order is resent message by message in that order under the saved epochs; it succeeds exactly when those can be used, epoch and session are restored and the transcript does not grow (section 4.2.4 of RFC 6347). |
| `DtlsRetransmit.ClearRecordBuffer` | src/lib/libssl/d1_both.c:1066-1081 | Empties the queue; the previous epoch goes, and the current one is used, exactly when one of the messages was a change cipher spec sent under it. |
| `DtlsFlight.SendMessage` | src/lib/libssl/d1_both.c:938-988 | A message is kept with the epoch and session it is sent under and written in its own records; after a change cipher spec the next epoch is current and this one is the previous. |
| `DtlsFlight.SendFlight` | src/lib/libssl/d1_both.c:1083-1096 | Every message gets the next number, a change cipher spec the number of the message after it; each is kept and written, the transcript grows by the unfragmented messages and the epochs advance once for each change. |
| `DtlsFlight.NumbersMean` | src/lib/libssl/d1_both.c:1083-1096 | A message has as its number the number of handshake messages sent before it, in sixteen bits, and as its epoch the number of change cipher specs sent before it, each counted from the start. |
| `DtlsFlight.FlightInOrder` | src/lib/libssl/d1_both.c:893-908 | Messages numbered that way are in sending order, so their priorities are: with at most one change cipher spec, not the first message of a handshake, and numbers below 2^15. |
| `DtlsFlight.FlightReachable` | src/lib/libssl/tls12_record_layer.c:307-324 | Every epoch such a flight was sent under is the current one or the previous one that is kept. |
| `DtlsFlight.FlightTwice` | src/lib/libssl/d1_both.c:893-1096 | Clear, send a flight, and retransmit: the second time the same messages go out, each once, in the same order, with the numbers, epochs and sessions of the first; epoch and session are restored and the transcript has grown once. |
| `CipherCommands.NothingAppears` | src/lib/libssl/ssl_ciph.c:863-1090 | No sequence of rules and strength sorts brings in a cipher that was not there. |
| `CipherCommands.KilledStaysAway` | src/lib/libssl/ssl_ciph.c:713-814 | A killed cipher never reappears, whatever rules and strength sorts follow. |
| `CipherCommands.StrengthMeans` | src/lib/libssl/ssl_ciph.c:816-861 | A strength sort of any list leaves the inactive entries in front in their old order and the active ones behind, stably sorted by descending strength. |
| `CipherRules.ApplyPermutes` | src/lib/libssl/ssl_ciph.c:713-814 | ADD, ORD and DEL only reorder. |
| `CipherRules.RuleMeans` | src/lib/libssl/ssl_ciph.c:713-814 | For any criteria, several masks, strength class, strength in bits and suite value together: a rule goes for the entries that have the value and the strength, or else a bit of every mask given; ADD activates the inactive ones of them at the end, ORD moves the active ones to the end, DEL deactivates those at the front, KILL drops all, and order is kept among them and among the rest. |
| `CipherList.Order.AppendTail` | src/lib/libssl/ssl_ciph.c:543-559 | Relinking an entry at the tail keeps the list well formed and the others in order. |
| `CipherList.Order.AppendHead` | src/lib/libssl/ssl_ciph.c:561-577 | The same at the head. |
| `CipherList.Order.Remove` | src/lib/libssl/ssl_ciph.c:794-808 | A killed entry leaves the list, which stays well formed. |
| `CipherList.Order.ApplyForward` | src/lib/libssl/ssl_ciph.c:738-810 | Although entries move while the list is traversed, ADD, ORD and KILL equal the stable partition. |
| `CipherList.Order.ApplyBackward` | src/lib/libssl/ssl_ciph.c:738-810 | The reverse traversal of DEL equals the stable partition with the matches in front. |
| `CipherList.Order.ApplyRule` | src/lib/libssl/ssl_ciph.c:713-814 | Every rule on the doubly linked list keeps it well formed and equals the function on sequences. |
| `CipherList.Order.Visit` | src/lib/libssl/ssl_ciph.c:745-809 | One visit moves, drops or leaves the entry and sets its flag as the rule says. |
| `CipherArrange.CollectCiphers` | src/lib/libssl/ssl_ciph.c:579-645 | The list holds the available ciphers of the table, last first, all inactive. |
| `CipherArrange.CollectedSnoc` | src/lib/libssl/ssl_ciph.c:579-645 | One more cipher in the table is one more in front of the list, if it is available. |
| `CipherArrange.StrengthSort` | src/lib/libssl/ssl_ciph.c:816-861 | Counting strengths and moving only those in use equals moving every strength in turn. |
| `CipherArrange.CreateOrder` | src/lib/libssl/ssl_ciph.c:1162-1225 | For any table, the list before the rule string is a permutation of the collected ciphers in stable lexicographic order: TLSv1.3 first, strength descending, non-RC4, non-kRSA, authenticated, non-MD5, bulk cipher, ECDHE. |
| `CipherArrange.ApplyCommands` | src/lib/libssl/ssl_ciph.c:1072-1103 | The commands of a rule string, ordering rules and strength sorts in any mixture, act on the linked list as on the sequence. |
| `CipherArrange.FindMaxStrength` | src/lib/libssl/ssl_ciph.c:822-833 | The largest strength among active entries. |
| `CipherArrange.CountStrengths` | src/lib/libssl/ssl_ciph.c:835-849 | The counts of active entries by strength. |
| `CipherPreference.StrengthStage` | src/lib/libssl/ssl_ciph.c:816-861 | Sorting by strength is the stable sort, strongest first. |
| `CipherPreference.ArrangedStably` | src/lib/libssl/ssl_ciph.c:1172-1225 | The fixed rules and the strength sort yield the stable order of preference, a permutation of the table. |
| `StableOrder.SortByOneMore` | src/lib/libssl/ssl_ciph.c:1201-1225 | Sorting stably by one key puts that key in front of the keys sorted by before. |
| `StableOrder.StableSortPermutes` | src/lib/libssl/ssl_ciph.c:1172-1225 | A stable sort is a permutation. |
| `ClientHandshake.Client.ReadCcs` | src/lib/libssl/ssl_pkt.c:767-828 | Change cipher spec is accepted only while one is expected. |
| `ClientHandshake.Client.CertificateTurn` | src/lib/libssl/ssl_clnt.c:343-372 | A Finished or a ticket in place of the certificate turns the handshake into a resumed one. |
| `ClientHandshake.Client.GetServerFinished` | src/lib/libssl/ssl_clnt.c:2404-2456 | The server's Finished counts only after change cipher spec and with the right digest; in a full handshake that change cipher spec was read after the client's keys were sent. |
| `ClientHandshake.Client.FinishTurn` | src/lib/libssl/ssl_clnt.c:496-520 | After the client's Finished the handshake goes on to the server's, or is done when resumed. |
| `ClientHandshake.Client.FlushTurn` | src/lib/libssl/ssl_clnt.c:559-574 | Flushing goes to the state that was set, also on a fatal write error over DTLS. |
| `ClientHandshake.Client.Turn` | src/lib/libssl/ssl_clnt.c:204-621 | In every state, for every behaviour of the outside, the state after a turn, the step logged and whether the loop goes on are those of the single turns below, and the steps taken so far stay in the order of section 7.3 of RFC 5246. |
| `ClientHandshake.Client.Connect` | src/lib/libssl/ssl_clnt.c:191-632 | Every call, for any behaviour of the outside, is the run of those turns from the entry on: state, log and result are told; the order is kept and success reported only when established. |
| `ClientCompletion.Completes` | src/lib/libssl/ssl_clnt.c:191-632 | A new client against an outside in which nothing fails that it is asked for is established within 23 turns and returns 1, with exactly the steps of the full or resumed handshake the outside has in store: with or without client certificate, verify, certificate status, ticket and DTLS cookie, and resumed by a known session or by a ticket in place of the certificate. |
| `ClientCompletion.LoopConcludes` | src/lib/libssl/ssl_clnt.c:204-612 | The same from any point of a handshake that has gone as planned so far. |
| `ClientCompletion.TurnAdvances` | src/lib/libssl/ssl_clnt.c:204-612 | Each turn in which nothing fails takes the planned step and leaves fewer turns. |
| `ClientCompletion.SteadyObliges` | src/lib/libssl/ssl_clnt.c:204-612 | Every plan can be carried out: an outside that succeeds in every turn and asks for a cookie in the first round, if at all, is such an outside. |
| `ClientHandshake.Run` | src/lib/libssl/ssl_clnt.c:191-632 | So does every run of calls and renegotiations. |
| `ClientHandshake.FinishedInOrder` | src/lib/libssl/ssl_clnt.c:496-557 | In a full handshake the client's Finished comes once and before the server's, which comes once. |
| `ClientHandshake.ResumedInOrder` | src/lib/libssl/ssl_clnt.c:496-557 | In a resumed handshake the server's comes first. |
| `ClientHandshake.Course` | src/lib/libssl/ssl_clnt.c:204-621 | Every log of steps that is not astray is a beginning of one of the two handshakes of section 7.3 of RFC 5246; a server's Finished that was not matched, or came without change cipher spec, is astray. |
| `ClientHandshake.EstablishedMeans` | src/lib/libssl/ssl_clnt.c:576-612 | Arrival at SSL_ST_OK means that in this handshake both Finished messages were exchanged, the client first exactly when not resumed, and that the server's was matched while change cipher spec was set; in a full handshake that one was read after the client's key exchange, in a resumed one in this handshake unless it was still set when the handshake began. |
| `ClientHandshake.StaleCcsSuffices` | src/lib/libssl/ssl_clnt.c:208-274 | That exception is real: with change cipher spec still set at a renegotiation, a resumed handshake is established without reading one. |
| `ClientHandshake.StaleCcsReached` | src/lib/libssl/ssl_clnt.c:496-520 | And it is reached: a new TLS client that resumes a session still expects change cipher spec afterwards, takes one, and resumes again in a renegotiation that reads none. |
| `ClientHandshake.Client.Clear` | src/lib/libssl/ssl_lib.c:164-214 | Clearing before a new handshake forgets the session hit; it may refuse and then leaves the state. |
| `ClientHandshake.Client.Start` | src/lib/libssl/ssl_clnt.c:208-274 | A new handshake starts with no step taken; a renegotiation that cannot be set up keeps the session hit and is left where the next call does not clear it. |
| `ClientHandshake.Client.SendHello` | src/lib/libssl/ssl_clnt.c:276-303 | The client's hello is logged before the server's is awaited, also through a flush after a cookie. |
| `ClientHandshake.Client.GetServerHello` | src/lib/libssl/ssl_clnt.c:814-1018 | The server's hello may set the session hit, also when the call fails afterwards; nothing else of the order changes. |
| `ClientHandshake.Client.ServerHelloTurn` | src/lib/libssl/ssl_clnt.c:305-328 | A hit leads to the ticket or the server's Finished, a miss to the certificate, with the steps of that path. |
| `ClientHandshake.Client.HelloVerifyTurn` | src/lib/libssl/ssl_clnt.c:330-341 | A cookie request goes back to the client's hello, anything else on to the certificate. |
| `ClientHandshake.Client.StatusTurn` | src/lib/libssl/ssl_clnt.c:531-538 | The certificate status comes after the certificate. |
| `ClientHandshake.Client.ServerKeyTurn` | src/lib/libssl/ssl_clnt.c:374-390 | The server's key exchange comes next, also when the check after it fails. |
| `ClientHandshake.Client.RequestTurn` | src/lib/libssl/ssl_clnt.c:392-399 | Then the certificate request. |
| `ClientHandshake.Client.DoneTurn` | src/lib/libssl/ssl_clnt.c:401-414 | The server's flight ends; the client's certificate follows exactly when one was requested. |
| `ClientHandshake.Client.ClientCertTurn` | src/lib/libssl/ssl_clnt.c:416-427 | The client's certificate is logged before its key exchange. |
| `ClientHandshake.Client.ClientKeyTurn` | src/lib/libssl/ssl_clnt.c:429-460 | A verify follows only a certificate that was sent; otherwise change cipher spec is due and an earlier one no longer counts. |
| `ClientHandshake.Client.VerifyTurn` | src/lib/libssl/ssl_clnt.c:462-472 | After the verify an earlier change cipher spec no longer counts. |
| `ClientHandshake.Client.ChangeTurn` | src/lib/libssl/ssl_clnt.c:474-494 | The client's change cipher spec comes before its Finished, on both paths. |
| `ClientHandshake.Client.TicketTurn` | src/lib/libssl/ssl_clnt.c:522-529 | A new ticket comes before the server's Finished, on both paths. |
| `ClientHandshake.Client.ServerFinishTurn` | src/lib/libssl/ssl_clnt.c:540-557 | A matched Finished after change cipher spec establishes a full handshake and lets a resumed one go on. |

## Left out

- Hash compression functions, EVP, X.509, key exchange and signatures: parameters or arbitrary results; a peer certificate is its bytes and a predicate that says which bytes parse.
- Timing: only the functional results of the constant-time code are stated.
- BIO, sockets, timers, callbacks, locks, error queues and allocation failure.
- BerWrapper.InHandExact: speaks of well-formed forests, with tags in the short form and lengths the builder can write; for other input only the refinement of the call is stated.
- CBB_discard_child, CBB_add_space, CBB_add_u64, and the state of a builder after a failed call.
- ByteBuilder.Buffer.Add: the buffer is the sequence of used bytes with a capacity, not an allocated array; old contents beyond the used part are not modelled.
- BerRewriter.Rewrite: asks for room for three times the input, which a resizable buffer always has; what a full fixed buffer does is not modelled.
- CbcPadding.RemovePadding: lengths stay below 2^31, the range in which the comparators are right.
- Writes that fail or exceed the MTU inside dtls1_do_write, and reads that return part of a fragment body; the usable room for each record is a parameter and larger than a header.
- DtlsNetwork.Across: all of a flight comes up if it has at most eleven messages, with no Finished behind the first message of a handshake, no message longer than the receiver takes and a receiver with nothing waiting; what comes up otherwise is only stated to be a beginning. Listen mode is not modelled.
- DtlsStore.Store.ReassembleFragment: a body is read whole or not at all; a short read that leaves unmarked bytes behind is not modelled.
- DtlsFlight.FlightTwice: for a flight with at most one change cipher spec, which has not number 0, and numbers below 2^15; DtlsRetransmit.PriorityKept says what happens to priorities outside that range. Epochs do not wrap.
- The next-epoch buffering path of dtls1_get_record and the tie between marking and MAC checks; replay claims are about one bitmap.
- ReplayWindow.Satsub64be: beyond [-128, 127] only sign and magnitude are stated when the top bytes differ, which is all the callers use.
- SessionStore.DecodeSession: what a failed decoding leaves in the session is not modelled.
- The text of rule strings, cipher aliases, @SECLEVEL, the static cipher table and the separate TLSv1.3 list; a rule string is a sequence of commands.
- ClientCompletion.Completes: one call in which no turn fails; that a handshake also completes over several calls with retries in between is not stated.
- ClientHandshake.Client.Turn: the A and B variants of a state are one, and messages are steps without contents; what the transcript holds and which certificate is present are left to the outside.
- The server side, TLS 1.3 and the record layer beyond its write epochs.
