# Codecs, locks and atomics of an Erlang/OTP release, verified

Dafny models of the C code in an Erlang/OTP 20 release tree that holds real algorithms, and
proofs of what that code is for.  `dafny verify dfyconfig.toml` checks everything.

**BER** (`Ber*.dfy`).  The ASN.1 NIF decodes and encodes tag-length-value messages (ITU-T
X.690).  `Ber` describes both directions as recursive functions.  The decoder and the encoder
are then written as they run: `BerReader` moves one index over the buffer through recursive
calls and loops, `BerWriter` writes octets from the back into linked memory chunks and copies
the used parts together at the end.  Both are proved equal to the functions, errors and error
positions included.  `BerRoom` is the arithmetic of the room in those chunks.  `BerLengths`,
`BerTheorems`, `BerForms` and `BerNesting` prove what the two functions promise about each
other: round trip in any buffer, self-delimitation, the length loop, the indefinite form,
re-encoding as a normal form, and when announced lengths are kept.  `BerMeaning` and `BerErrors`
say on the octets alone what they mean and why they fail, and that the two functions do just
that.

**PER** (`Per*.dfy`).  The completion step interprets a stream of opcodes and packs bits into
octets with shifts and ors.  `PerStream` says which list of bits a stream means, and which
surplus bits of its operands get through besides; `PerComplete` is the interpreter with its
write position and count of free bits, proved to produce exactly that.  `PerTheorems` says
when this is what section 11.1 of ITU-T X.691 requires, and `PerCapacity` for which streams
the accounting of the output buffer keeps every write inside.  `PerMeaning` says the same in
digits of octets and gives the octets of every instruction.  `PerBits` and `PerSheets` relate
shifting and or-ing octets to lists of bits.

**Reader/writer spinlock** (`RwSpinlock.dfy`).  A machine that interleaves the atomic operations
of any number of threads, fewer than 2^30 as the flag bit demands.

**Atomics** (`CasLoops.dfy`, `Emulated32.dfy`, `Barriers.dfy`).  Retry loops around a
compare-and-exchange, interleaved with arbitrary other writers; 32-bit atomics in a 64-bit
cell; and the derivation of every barrier variant from whichever native variants exist.

**Request references and dispatch tables** (`IcRefs.dfy`, `IcMaps.dfy`).  The three-word
reference counter of the C backend of the IDL compiler, and its merged operation tables.

Seven findings follow from the code as it stands.

- A comment (asn1_erl_nif.c:830-831) promises tag numbers up to 65535.  The encoder writes
  them (`WrittenButRejected`), the decoder refuses any number above 16383.
  `RoundTripExactly` gives the exact domain of the round trip.
- The length octet of an empty list is written without asking for room, which counts on the
  element written before to have left some.  A number above 16383 takes four identifier
  octets where three were asked for, so the encoder can leave its chunk: `OutsideExample`.
  `NeighboursExactly`, `InsideIffWalk` and `OutsideInSomeMessage` say for which terms.  All
  others, among them all that the decoder returns, are encoded correctly.
- The indefinite form cannot carry every list: an element with tag 0 and no contents is
  encoded as two zero octets, which end the list (`LookalikeExample`).
  `IndefiniteMeansDefinite` says that nothing else goes wrong.
- The last element of a definite-length list may run past the end its parent announced, since
  elements are checked against the buffer and not against that end: `OverrunExample`.
  `ExactLengthsIffNested` says exactly for which messages that does not happen.
- The PER step does not mask the surplus bits of an operand, although its comments say they
  are dropped: `SurplusExample`.  `CompleteIffHarmless` says exactly when that matters.
- The PER helpers leave octets out of the counts they return (lines 689 and 716), so that the
  code believes memory saved that was not, and does not ask for more before it pads:
  `CapacityExample`.  Without padding, or with all padding in front of such octets, every
  write stays inside (`PerComplete.Complete`, `WholeStreamInside`).
- A 64-bit cell that stands for a 32-bit atomic leaves the 32-bit range exactly when a native
  addition overflows.  All results stay right; what goes wrong is that a later exchange
  against the right value is not made (`OverflowBlocksCmpXchg`).
  `FollowsIffNoLostExchange` says that nothing else goes wrong.

## Model

| member | source | states |
|---|---|---|
| Ber.Decode | lib/asn1-5.0.4/c_src/asn1_erl_nif.c:861-887 | On every byte string: success consumes at least two octets and stays inside the buffer; an error position is between the start and the end of the buffer |
| Ber.DecodeTag | lib/asn1-5.0.4/c_src/asn1_erl_nif.c:893-937 | Progress and bounds of the identifier octets |
| Ber.DecodeLength | lib/asn1-5.0.4/c_src/asn1_erl_nif.c:973-988 | An accepted length never announces contents beyond the buffer |
| Ber.DecodeValue | lib/asn1-5.0.4/c_src/asn1_erl_nif.c:944-1010 | Progress and bounds; the value is a list exactly for the constructed form |
| Ber.DecodeDefinite | lib/asn1-5.0.4/c_src/asn1_erl_nif.c:993-999 | Stops at or behind the announced end, never before it |
| Ber.DecodeIndefinite | lib/asn1-5.0.4/c_src/asn1_erl_nif.c:960-971 | Progress and bounds of the list up to the two zero octets |
| BerLengths.LengthLoop | lib/asn1-5.0.4/c_src/asn1_erl_nif.c:975-984 | The long-form loop succeeds if and only if the big-endian number, leading zeros allowed, is below 2^32, and then yields it: the guard prevents every overflow and rejects nothing else |
| BerLengths.LengthAccepted | lib/asn1-5.0.4/c_src/asn1_erl_nif.c:952-987 | A complete definite length field is accepted if and only if the contents it announces are in the buffer; the result is the denoted size and the index behind the field |
| BerLengths.LengthOctetsDenote | lib/asn1-5.0.4/c_src/asn1_erl_nif.c:1129-1155 | The emitted field denotes the size, in at most five octets |
| BerLengths.LengthOctetsShortest | lib/asn1-5.0.4/c_src/asn1_erl_nif.c:1129-1155 | No field that denotes the size is shorter than the emitted one |
| BerLengths.LengthRoundTrip | lib/asn1-5.0.4/c_src/asn1_erl_nif.c:973-1155 | Emitted length octets are read back as the same size, wherever they stand |
| BerMeaning.EncoderIdentifies | lib/asn1-5.0.4/c_src/asn1_erl_nif.c:1094-1127 | For every tag and form, whatever its size, the identifier octets written are those of X.690: class and form in the first octet, and either the number below 31 or 31 followed by octets with the high bit set in all but the last, whose low seven bits in base 128 are the number modulo 65536, without a leading zero |
| BerMeaning.DecoderIdentifies | lib/asn1-5.0.4/c_src/asn1_erl_nif.c:893-937 | The decoder reads as an identifier of a class and number exactly such octets, shortest or not, of which there are at most three |
| BerMeaning.DecodesWhatReads | lib/asn1-5.0.4/c_src/asn1_erl_nif.c:861-1010 | The decoder accepts exactly the octets that read as a term (identifier, any length field that denotes the size, contents; or the end mark), gives that term, and ends where its octets end |
| BerMeaning.EncodedReads | lib/asn1-5.0.4/c_src/asn1_erl_nif.c:1019-1155 | What the encoder writes reads as the term, for tags of any size, in the same sense |
| BerErrors.FailsExactly | lib/asn1-5.0.4/c_src/asn1_erl_nif.c:861-1010 | Which error is answered for an arbitrary buffer, and where, if and only if which octets are wrong: a cut or overlong identifier, a missing length, missing octets of it or contents, a number of 2^32 or more, an end mark without list or room, in the header of the first element that fails |
| BerErrors.LengthFails | lib/asn1-5.0.4/c_src/asn1_erl_nif.c:973-987 | A step: how a definite length field fails, in terms of its octets |
| BerErrors.CutMessage | lib/asn1-5.0.4/c_src/asn1_erl_nif.c:861-1010 | What every message cut off anywhere is answered with: which error and where, for each way its first identifier, length and contents can be cut |
| BerTheorems.TagRoundTrip | lib/asn1-5.0.4/c_src/asn1_erl_nif.c:893-1127 | Class, form and number up to 16383 come back from the identifier octets, for one, two and three of them |
| BerTheorems.RoundTrip | lib/asn1-5.0.4/c_src/asn1_erl_nif.c:839-1155 | An encoding at any place of any buffer decodes to the encoded term, and the index ends right behind it |
| BerTheorems.DecodeEncoded | lib/asn1-5.0.4/c_src/asn1_erl_nif.c:839-1155 | A message followed by arbitrary bytes decodes to the term and leaves exactly those bytes |
| BerTheorems.EncodePrefixFree | lib/asn1-5.0.4/c_src/asn1_erl_nif.c:1019-1155 | No encoding begins the encoding of another term; so the encoder is injective |
| BerTheorems.SelfDelimiting | lib/asn1-5.0.4/c_src/asn1_erl_nif.c:861-1010 | For arbitrary accepted input, canonical or not: any buffer with the same consumed octets decodes to the same term and stops at the same index |
| BerTheorems.TrailingBytesIrrelevant | lib/asn1-5.0.4/c_src/asn1_erl_nif.c:839-1010 | Replacing what follows a decoded term changes neither the term nor its size; the replacement is the rest |
| BerTheorems.AcceptedPrefixFree | lib/asn1-5.0.4/c_src/asn1_erl_nif.c:839-1010 | No exactly consumed input is a proper prefix of another |
| BerForms.IndefiniteDecodes | lib/asn1-5.0.4/c_src/asn1_erl_nif.c:954-972 | For every list: the indefinite form decodes to the elements in front of the first one that looks like the end mark, and stops behind that mark |
| BerForms.IndefiniteMeansDefinite | lib/asn1-5.0.4/c_src/asn1_erl_nif.c:952-1001 | Definite and indefinite form give the same term and the same rest if and only if no element has tag 0 and no contents |
| BerNesting.ExactLengthsIffNested | lib/asn1-5.0.4/c_src/asn1_erl_nif.c:861-1010 | In an accepted message all definite-length lists, at every depth, end where their lengths say if and only if, by headers alone, every element ends within the innermost definite-length list around it, the comparison the code does not make; then the message ends where its own header says |
| BerNesting.OverrunExample | lib/asn1-5.0.4/c_src/asn1_erl_nif.c:993-996 | A list of announced length 2 with an element of three octets is accepted, so arbitrary input need not end as announced |
| BerNesting.CutDecides | lib/asn1-5.0.4/c_src/asn1_erl_nif.c:988-1000 | A step for one list: its elements end exactly at its end if and only if they decode from the buffer cut off there, and then to the same terms |
| BerNesting.EncoderNests | lib/asn1-5.0.4/c_src/asn1_erl_nif.c:993-1155 | In everything the encoder writes all lists end as announced |
| BerForms.LookalikeExample | lib/asn1-5.0.4/c_src/asn1_erl_nif.c:959-971 | A list whose one element has tag 0 and no contents comes back empty from the indefinite form, two octets too early, but intact from the definite form |
| BerForms.DecodedGood | lib/asn1-5.0.4/c_src/asn1_erl_nif.c:861-1010 | Whatever is accepted, every tag of the term is a class and a number up to 16383 |
| BerForms.RoundTripExactly | lib/asn1-5.0.4/c_src/asn1_erl_nif.c:815-1155 | A term with any tags comes back if and only if each is a class (two bits) and a number up to 16383 |
| BerForms.LongTagRejected | lib/asn1-5.0.4/c_src/asn1_erl_nif.c:910-932 | The encoding of a term whose tag number is above 16383 is refused as a bad tag at its third octet |
| BerForms.WrittenButRejected | lib/asn1-5.0.4/c_src/asn1_erl_nif.c:830-1127 | For every such term whose lists have room (below) the running writer reaches its end, so the decoder refuses what the encoder wrote |
| BerForms.ReencodingIsNormal | lib/asn1-5.0.4/c_src/asn1_erl_nif.c:839-1155 | Re-encoding any accepted input (long lengths, indefinite lengths, overrunning elements) and decoding that gives the same term and no rest |
| BerForms.ReencodingFits | lib/asn1-5.0.4/c_src/asn1_erl_nif.c:839-1155 | The re-encoding is at most three times as long as the consumed input, so the condition of the normal form holds for input up to a third of the largest `int` |
| BerReader.Reader.DecodeBegin | lib/asn1-5.0.4/c_src/asn1_erl_nif.c:839-859 | The term and the bytes behind it, or the error and its position, as `Ber.Decode` says |
| BerReader.Reader.Decode | lib/asn1-5.0.4/c_src/asn1_erl_nif.c:861-887 | Result, error and final index are those of `Ber.Decode`, on every buffer |
| BerReader.Reader.DecodeTag | lib/asn1-5.0.4/c_src/asn1_erl_nif.c:893-937 | Result, error and final index are those of `Ber.DecodeTag` |
| BerReader.Reader.DecodeValue | lib/asn1-5.0.4/c_src/asn1_erl_nif.c:944-1010 | Result, error and final index are those of `Ber.DecodeValue`; both second length checks of the source can never fail |
| BerReader.Reader.DecodeLength | lib/asn1-5.0.4/c_src/asn1_erl_nif.c:973-988 | Loop with the 24-bit guard: result, error and final index are those of `Ber.DecodeLength`, and the length stays below 2^32 |
| BerReader.Reader.DefiniteElems | lib/asn1-5.0.4/c_src/asn1_erl_nif.c:992-1000 | The loop that conses onto a reversed list gives the elements in order |
| BerReader.Reader.IndefiniteElems | lib/asn1-5.0.4/c_src/asn1_erl_nif.c:956-971 | Likewise for the loop up to the end mark, with its check after every element |
| BerWriter.MemChunk.Write | lib/asn1-5.0.4/c_src/asn1_erl_nif.c:1039-1040 | Octets land in front of the used part of the chunk, inside it, and leave the used part as it was |
| BerWriter.Writer.CheckMemory | lib/asn1-5.0.4/c_src/asn1_erl_nif.c:1182-1192 | Afterwards there is room, with or without a new chunk of the doubled or extended length; what was written is unchanged |
| BerWriter.Writer.LinkChunk | lib/asn1-5.0.4/c_src/asn1_erl_nif.c:1157-1191 | A fresh empty chunk becomes the head of the list and the old head its successor |
| BerWriter.Writer.EncodeLength | lib/asn1-5.0.4/c_src/asn1_erl_nif.c:1129-1155 | The length octets are put in front of what was written, all inside one chunk, and counted exactly |
| BerWriter.Writer.PutTagNumber | lib/asn1-5.0.4/c_src/asn1_erl_nif.c:1108-1118 | The base-128 digits of any tag number up to 65535, one to three octets, written last digit first |
| BerWriter.Writer.EncodeTag | lib/asn1-5.0.4/c_src/asn1_erl_nif.c:1094-1127 | The one to four identifier octets are put in front, for every class and number; fails if and only if the tag is no unsigned int |
| BerWriter.Writer.EncodeContents | lib/asn1-5.0.4/c_src/asn1_erl_nif.c:1030-1083 | Contents and length octets are put in front and counted exactly; where the unchecked length octet of an empty list meets a full chunk, and only there, it ends with `LeftChunk` |
| BerWriter.Writer.EncodeElems | lib/asn1-5.0.4/c_src/asn1_erl_nif.c:1051-1073 | Visiting the elements last to first puts their encodings in front in the right order, up to the first bad tag or write outside |
| BerWriter.Writer.Encode | lib/asn1-5.0.4/c_src/asn1_erl_nif.c:1019-1092 | For every tree and every chunk state: how it ends (finished, at a bad tag, outside the chunk) is what the arithmetic of `BerRoom` says; if finished, the recursive encoding is put in front of what was written, the count is its size, every write was inside its chunk, and the room left is as computed |
| BerWriter.Concatenate | lib/asn1-5.0.4/c_src/asn1_erl_nif.c:1288-1300 | Walking the chunks newest to oldest fills the output exactly with the used parts in that order |
| BerWriter.EncodeBerTlv | lib/asn1-5.0.4/c_src/asn1_erl_nif.c:1268-1303 | For every tree: the result is the recursive encoding, or the encoder is stopped by a tag that is no unsigned int, or it leaves its chunk, exactly as the walk from the first chunk says |
| BerWriter.Writer.LengthsAreInts | lib/asn1-5.0.4/c_src/asn1_erl_nif.c:1157-1192 | For messages up to 2^29 - 5 octets no chunk length overflows an `int` |
| BerRoom.InsideIffWalk | lib/asn1-5.0.4/c_src/asn1_erl_nif.c:1019-1192 | Exactly which terms are written inside their chunks from every chunk with enough room: those for which one walk with the least room says so. If it does not, some chunk makes the encoder write outside |
| BerRoom.OutsideInSomeMessage | lib/asn1-5.0.4/c_src/asn1_erl_nif.c:1019-1303 | Exactly which terms make the encoder write outside in some whole message, behind elements that themselves are written inside: those for which the walk with the least room says so |
| BerRoom.NeighboursExactly | lib/asn1-5.0.4/c_src/asn1_erl_nif.c:1051-1092 | Of two neighbouring elements, some chunk makes the encoder write outside if and only if the front one starts with an unchecked octet and the other has a number above 16383 and at most 127 or at least 2^24 contents octets (at most 4 if it is a list) |
| BerRoom.ShapeSufficesFromStart | lib/asn1-5.0.4/c_src/asn1_erl_nif.c:1019-1192 | A message without such neighbours is written inside its chunks |
| BerRoom.OutsideExample | lib/asn1-5.0.4/c_src/asn1_erl_nif.c:1051-1055 | An empty list in front of 35 octets with tag number 16384: its length octet falls outside the first chunk |
| BerRoom.ContentsComeFirst | lib/asn1-5.0.4/c_src/asn1_erl_nif.c:1019-1100 | A bad tag is noticed only after the contents were written, so it cannot hide a write outside nor an error in them |
| BerRoom.OnlyTagsStop | lib/asn1-5.0.4/c_src/asn1_erl_nif.c:1019-1127 | As long as it stays inside, the encoder stops if and only if some tag is no unsigned int |
| BerRoom.GoodTagsHaveRoom | lib/asn1-5.0.4/c_src/asn1_erl_nif.c:1019-1192 | Everything the decoder can return satisfies the conditions of the encoder |
| PerMeaning.BitStream | lib/asn1-5.0.4/c_src/asn1_erl_nif.c:152-174 | A stream of octets 0 and 1 means as many bits, and the k-th is one if and only if octet k is 1 |
| PerMeaning.PrintParses | lib/asn1-5.0.4/c_src/asn1_erl_nif.c:148-475 | Every instruction each opcode can carry is read back from its octets (opcode, operand and size in one or two octets, high one first, payload), whatever follows; with less input left it is an error |
| PerMeaning.MeanPrinted | lib/asn1-5.0.4/c_src/asn1_erl_nif.c:146-482 | What a stream means that begins with an instruction: an error exactly if it fails or is cut; otherwise what the octets behind those passed over mean, with all octets of the instruction counted |
| PerMeaning.UnknownOpcode | lib/asn1-5.0.4/c_src/asn1_erl_nif.c:478-480 | Any other octet in the place of an opcode is an error |
| PerMeaning.MeantByPlace | lib/asn1-5.0.4/c_src/asn1_erl_nif.c:148-787 | What every instruction means, in digits of its operands: when it fails, how many bits it adds, which ones, and that it changes none before |
| PerMeaning.ExtraByPlace | lib/asn1-5.0.4/c_src/asn1_erl_nif.c:506-787 | Which surplus ones of an instruction get through, place by place in digits of its operands, and which earlier ones are stored over |
| PerMeaning.OutputDigits | lib/asn1-5.0.4/c_src/asn1_erl_nif.c:483-490 | The digits of the output octets are exactly the bits meant, zeros behind them, and the surplus ones; there are max(1, ceil(B / 8)) octets |
| PerBits.BitsInjective | lib/asn1-5.0.4/c_src/asn1_erl_nif.c:117-491 | Octet strings are determined by their bits |
| PerComplete.Assembler.PutBit | lib/asn1-5.0.4/c_src/asn1_erl_nif.c:152-174 | Exactly one bit is appended, whether or not it completes the octet |
| PerComplete.Assembler.PadBits | lib/asn1-5.0.4/c_src/asn1_erl_nif.c:556-571 | Exactly n zeros are appended |
| PerComplete.Assembler.AlignOctet | lib/asn1-5.0.4/c_src/asn1_erl_nif.c:175-183 | Zeros up to the next octet boundary, none when already there |
| PerComplete.Assembler.InsertMostSignBits | lib/asn1-5.0.4/c_src/asn1_erl_nif.c:506-525 | The high n bits of any octet are appended, in all three positions relative to the octet boundary, and exactly those surplus ones that the missing mask lets through are noted behind them |
| PerComplete.Assembler.InsertLeastSignBits | lib/asn1-5.0.4/c_src/asn1_erl_nif.c:527-551 | A number in n binary places, zeros in front if n exceeds 8, is appended in all three positions; surplus ones change bits put out before, exactly those noted; the count returned is the number of octets begun |
| PerComplete.Assembler.InsertOctets | lib/asn1-5.0.4/c_src/asn1_erl_nif.c:697-717 | Alignment, then the bits of n input octets, stored over surplus ones that stand there |
| PerComplete.Assembler.InsertOctetsUnaligned | lib/asn1-5.0.4/c_src/asn1_erl_nif.c:722-744 | The bits of n input octets across octet boundaries; the free places are as many as before |
| PerComplete.Assembler.InsertOctetsExceptUnused | lib/asn1-5.0.4/c_src/asn1_erl_nif.c:746-787 | All bits but the unused ones of the last octet, with the surplus ones that get through; an error if and only if there are unused bits and no octet |
| PerComplete.Assembler.InsertOctetsAsBits | lib/asn1-5.0.4/c_src/asn1_erl_nif.c:657-691 | One bit per octet; an error if and only if an octet is neither 0 nor 1 |
| PerComplete.Assembler.InsertOctetsAsBitsExactLen | lib/asn1-5.0.4/c_src/asn1_erl_nif.c:619-649 | That list cut or zero-padded to the desired length; the input is consumed entirely in each case |
| PerComplete.Assembler.InsertBitsAsBits | lib/asn1-5.0.4/c_src/asn1_erl_nif.c:579-616 | The bits of the input octets cut or zero-padded to the desired number, with the surplus ones that get through; of a cut string only the octets up to the last used bit are taken from the input |
| PerComplete.Assembler.ReadOperands | lib/asn1-5.0.4/c_src/asn1_erl_nif.c:199-475 | One- and two-octet operands as the layout of each opcode says |
| PerComplete.Assembler.Reallocate | lib/asn1-5.0.4/c_src/asn1_erl_nif.c:282-292 | The buffer grows by what is needed exactly when the code believes less was saved, in the two ways the opcodes ask |
| PerComplete.Assembler.Step | lib/asn1-5.0.4/c_src/asn1_erl_nif.c:148-482 | One instruction with any operands: the sheet it denotes, how far the read position moves, the count of input left, and the account of the buffer; an error if and only if the instruction has no meaning |
| PerComplete.Complete | lib/asn1-5.0.4/c_src/asn1_erl_nif.c:117-491 | For every stream the output is exactly the bits meant, padded to whole octets, with exactly the noted surplus ones; an error if and only if the stream has no meaning; all octets are begun inside the buffer if and only if the walk of `PerCapacity` says so, and always if no padding stands behind octets the code does not count |
| PerCapacity.NeededLaw | lib/asn1-5.0.4/c_src/asn1_erl_nif.c:282-460 | What is asked for before padding is the least number of octets for the bits behind the octet begun, in the two ways the opcodes reckon, with what the macro makes of numbers below one |
| PerCapacity.CountedLaw | lib/asn1-5.0.4/c_src/asn1_erl_nif.c:506-787 | What each helper returns against what it begins: exactly that, but none of the octets of opcodes 20 and 21 and none of those of bits given as octets |
| PerCapacity.WholeStreamInside | lib/asn1-5.0.4/c_src/asn1_erl_nif.c:146-717 | The walk stays inside for every stream in which no instruction that pads stands behind one whose octets the helpers leave out of their counts, whatever else it contains and however often memory is asked for |
| PerCapacity.CapacityExample | lib/asn1-5.0.4/c_src/asn1_erl_nif.c:697-717 | Three uncounted octets, then 56 bits of padding: eleven octets are begun in a buffer of nine |
| PerComplete.OutputOctets | lib/asn1-5.0.4/c_src/asn1_erl_nif.c:483-490 | The output has max(1, ceil(B / 8)) octets for B bits |
| PerTheorems.CompleteIffHarmless | lib/asn1-5.0.4/c_src/asn1_erl_nif.c:506-787 | The output is the complete encoding of the bits meant if and only if every surplus one falls on a place that is one anyway or lies behind the output |
| PerTheorems.TidyIsComplete | lib/asn1-5.0.4/c_src/asn1_erl_nif.c:117-787 | A stream whose operands have no surplus bits or octets, as the comments ask for, always gives the complete encoding |
| PerTheorems.SurplusExample | lib/asn1-5.0.4/c_src/asn1_erl_nif.c:746-787 | Four bits of 255 and a zero bit come out as eight ones |
| PerTheorems.MeanAppend | lib/asn1-5.0.4/c_src/asn1_erl_nif.c:146-482 | Streams compose: appending a stream continues with the bits, the alignment and the surplus ones of the first, if that takes all its payloads from the input |
| PerTheorems.TidyAppend | lib/asn1-5.0.4/c_src/asn1_erl_nif.c:146-482 | Streams without surplus compose |
| PerTheorems.CompleteUnique | lib/asn1-5.0.4/c_src/asn1_erl_nif.c:483-490 | The output is determined by the bits, and the bits by the output and their number |
| RwSpinlock.StepInv | erts-9.2/include/internal/ethr_optimized_fallbacks.h:169-223 | Every step of every thread keeps: the word is the number of readers plus the flag if and only if some thread owns it, at most one owner, no reader beside a writer, no stale value with the flag |
| RwSpinlock.RunInv | erts-9.2/include/internal/ethr_optimized_fallbacks.h:157-223 | That invariant at every moment of every run of any number of threads below 2^30 |
| RwSpinlock.Exclusion | erts-9.2/include/internal/ethr_optimized_fallbacks.h:176-223 | A writer excludes every reader and every other writer, also when it skipped the drain loop; the flag never has two owners |
| RwSpinlock.UnlockAssertions | erts-9.2/include/internal/ethr_optimized_fallbacks.h:169-199 | The unlocks' assertions hold, and the writer's plain store of 0 discards no reader |
| RwSpinlock.DrainCounts | erts-9.2/include/internal/ethr_optimized_fallbacks.h:176-223 | Over any stretch in which a thread owns the flag the number of readers falls by exactly the number of read unlocks: nobody is admitted |
| RwSpinlock.DrainEnds | erts-9.2/include/internal/ethr_optimized_fallbacks.h:216-221 | The owner's next read ends the drain loop if and only if no reader is left |
| RwSpinlock.CallsStart | erts-9.2/include/internal/ethr_optimized_fallbacks.h:176-203 | An idle thread can call either lock, with 0 as the value it expects; nothing else starts |
| RwSpinlock.CallKeepsKind | erts-9.2/include/internal/ethr_optimized_fallbacks.h:169-223 | In every run a call keeps its kind until its unlock: a read lock ends as a reader, a write lock as a writer |
| RwSpinlock.LeavesFromLock | erts-9.2/include/internal/ethr_optimized_fallbacks.h:169-199 | A thread becomes idle only by its own unlock of a lock it holds |
| RwSpinlock.WaitsWhileOwned | erts-9.2/include/internal/ethr_optimized_fallbacks.h:176-213 | While the flag stays owned a call only waits |
| RwSpinlock.OneOperation | erts-9.2/include/internal/ethr_optimized_fallbacks.h:169-223 | What each operation does to the word, in numbers: plus or minus 1 or 2^30, or nothing; and what a failed one goes on with: waiting if it saw the flag, else a try with the word it saw |
| RwSpinlock.Uncontended | erts-9.2/include/internal/ethr_optimized_fallbacks.h:176-223 | On a free lock the first operation of a call takes it |
| RwSpinlock.AloneAcquires | erts-9.2/include/internal/ethr_optimized_fallbacks.h:176-223 | Once nobody owns the flag, a thread left alone gets in whatever stale value it holds: a reader after two operations; a writer owns the flag after two and has the lock after three if and only if there are no readers |
| CasLoops.StepInv | erts-9.2/include/internal/ethr_atomics.h:3420-3465 | Every step, of loops and of other writers, keeps the log a legal sequential history that explains the contents |
| CasLoops.RunLinearized | erts-9.2/include/internal/ethr_atomics.h:3420-4483 | Linearizability over every run: each completed xchg, add_read, read_band, read_bor, set or read took effect exactly once, in one step between its invocation and its response, with the result of that step |
| CasLoops.StepIsLawful | erts-9.2/include/internal/ethr_atomics.h:3644-4483 | In every run each step that takes effect does, in numbers and bits, what its operation is for: add_read leaves and returns the sum wrapped to 64 bits, xchg, band and bor return the contents before, set returns nothing, a read leaves the contents; likewise for 32-bit atomics |
| CasLoops.NeverStuck | erts-9.2/include/internal/ethr_atomics.h:3453-3465 | Any operation can be invoked, and a thread within one always has a next step |
| CasLoops.Expects | erts-9.2/include/internal/ethr_atomics.h:3420-3465 | A loop expects what a native read found or zero, and after a failure the contents at that moment |
| CasLoops.AloneFinishes | erts-9.2/include/internal/ethr_atomics.h:3453-3465 | A loop left alone ends within two cmpxchg operations, with the first one if it expects the contents |
| CasLoops.AfterNativeRead | erts-9.2/include/internal/ethr_atomics.h:3420-3465 | Behind a native read one is enough |
| CasLoops.RealTimeOrder | erts-9.2/include/internal/ethr_atomics.h:3453-3465 | An operation completed before another was invoked comes first in the sequential history |
| CasLoops.EffectIsLogged | erts-9.2/include/internal/ethr_atomics.h:3453-3465 | A step either leaves the contents (failed attempts do) or is exactly one operation of the history |
| CasLoops.FailureMeansProgress | erts-9.2/include/internal/ethr_atomics.h:3453-3465 | A cmpxchg on a value that was read, not guessed, fails only if an operation took effect since: of competing loops some loop gets ahead |
| CasLoops.ReadByCmpXchgInv | erts-9.2/include/internal/ethr_atomics.h:4464-4483 | Reading by a cmpxchg with equal operands is a read: contents untouched, current value returned |
| Emulated32.AndBits | erts-9.2/include/internal/ethr_atomics.h:8652-8941 | The `and` used is the bitwise one, at every bit position |
| Emulated32.OrBits | erts-9.2/include/internal/ethr_atomics.h:8652-8941 | The `or` used is the bitwise one, at every bit position |
| Emulated32.True32IsLawful | erts-9.2/include/internal/ethr_atomics.h:6699-8941 | The 32-bit atomic compared with is one, in numbers and bits: sums wrap modulo 2^32 into the signed range, results are the value before, of add_read the value after |
| Emulated32.Ranges | erts-9.2/include/internal/ethr_atomics.h:196-208 | The ranges in numbers, and that narrowing keeps a number modulo 2^32 |
| Emulated32.NativeEmulates | erts-9.2/include/internal/ethr_atomics.h:6728-8941 | A native 64-bit operation returns what a 32-bit atomic returns, and leaves the same contents if and only if it is no overflowing addition |
| Emulated32.LoopEmulates | erts-9.2/include/internal/ethr_atomics.h:6699-6716 | The retry loop narrows, computes and widens: it emulates a 32-bit atomic without condition and even repairs a cell an overflow has spoilt |
| Emulated32.OverflowBlocksCmpXchg | erts-9.2/include/internal/ethr_atomics.h:6728-7482 | After an overflowing native addition, exchanging against the value just read fails although nobody interferes |
| Emulated32.SameIffNoOverflow | erts-9.2/include/internal/ethr_atomics.h:196-208 | Over any sequence of operations: at every moment the cell is the sign extension of the 32-bit contents and the results agree, if and only if no native addition overflows on the way |
| Emulated32.NativeOnAnyCell | erts-9.2/include/internal/ethr_atomics.h:6728-8941 | On every 64-bit cell, spoilt or not, a native operation returns what the 32-bit atomic returns, and the cell goes on standing for its contents if and only if no exchange is lost |
| Emulated32.FollowsIffNoLostExchange | erts-9.2/include/internal/ethr_atomics.h:196-8941 | Over any sequence of operations, overflows included: results and the value stood for follow the 32-bit atomic if and only if no cmpxchg meets a cell out of range that stands for the value it expects and is to change it |
| CasLoops.Run32 | erts-9.2/include/internal/ethr_atomics.h:6699-6716 | The 32-in-64 retry loops under any interleaving, with other writers of 32-bit values: the cell holds the sign-extended contents at every moment, and the history is one of a 32-bit atomic |
| Barriers.FrontBarrier | erts-9.2/include/internal/ethr_atomics.h:3481-4190 | The emitted barrier in front, together with what the native variant already orders, keeps all earlier accesses in front of the whole operation |
| Barriers.BackBarrier | erts-9.2/include/internal/ethr_atomics.h:3481-4190 | Likewise behind |
| Barriers.DerivedSuffices | erts-9.2/include/internal/ethr_atomics.h:65-133 | For every nonempty set of native variants, every program around it and every order the barriers allow, the derived variant orders all it is documented to order |
| Barriers.PromiseInWords | erts-9.2/include/internal/ethr_atomics.h:65-133 | What each variant promises about two accesses, as the documentation words it |
| Barriers.FrontIsNeeded | erts-9.2/include/internal/ethr_atomics.h:3481-4190 | No barrier in front can lack any ordering it has: some program could then run in an order that breaks the promise |
| Barriers.BackIsNeeded | erts-9.2/include/internal/ethr_atomics.h:3481-4190 | Likewise behind; so the emitted barriers are exactly what is needed |
| Barriers.ChoiceLaw | erts-9.2/include/internal/ethr_atomics.h:3481-4612 | Which native variant is taken, for every set of them |
| Barriers.SourceLaw | erts-9.2/include/internal/ethr_atomics.h:3644-4612 | Which operation each falls back on |
| Barriers.OneCmpXchgSuffices | erts-9.2/include/internal/ethr_atomics.h:3410-4612 | With a native cmpxchg of any variant, every variant of every operation has a source and orders what it promises, whichever of set, xchg and cmpxchg it falls back on |
| IcRefs.Environment.InitRef | lib/ic-4.4.3/c_src/ic.c:149-166 | The three words, taken as one number, advance by one modulo 2^82; the reference carries the new words |
| IcRefs.PeriodInNumbers | lib/ic-4.4.3/c_src/ic.c:145-147 | The first word counts to 2^18, the others to 2^32, all three to 2^82 |
| IcRefs.CompareRefs | lib/ic-4.4.3/c_src/ic.c:169-184 | 0 if and only if node and all words agree, otherwise -1 |
| IcRefs.InitRefs | lib/ic-4.4.3/c_src/ic.c:149-166 | Any number of calls gives the series of successive numbers |
| IcRefs.EqualWordsIffPeriod | lib/ic-4.4.3/c_src/ic.c:145-166 | Two calls give equal words if and only if their distance is a multiple of 2^82 |
| IcRefs.FreshWithinPeriod | lib/ic-4.4.3/c_src/ic.c:145-184 | Among any 2^82 consecutive references no two have equal words |
| IcMaps.MergeMaps | lib/ic-4.4.3/c_src/ic.c:336-367 | No table for no input; otherwise a new table that is the concatenation of all tables in order |
| IcMaps.ExecSwitch | lib/ic-4.4.3/c_src/ic.c:308-327 | The loop calls the function at the first index with that name, and reports a bad operation if and only if there is none |
| IcMaps.LookupByIndex | lib/ic-4.4.3/c_src/ic.c:308-322 | The function called is that of the first index with the name, and a bad operation is reported if and only if there is none |
| IcMaps.ConcatByIndex | lib/ic-4.4.3/c_src/ic.c:361-365 | Where every operation of every table stands in the merged one |
| IcMaps.ConcatLength | lib/ic-4.4.3/c_src/ic.c:347-349 | The merged table has as many operations as the tables together |
| IcMaps.MergedLookup | lib/ic-4.4.3/c_src/ic.c:308-367 | Looking a name up in the merged table finds what searching the tables one after the other finds, the first match winning |
| IcMaps.NestedMerge | lib/ic-4.4.3/c_src/ic.c:336-367 | A table that was itself merged serves like its parts in its place |

## Left out

- BerWriter.Writer.Encode: ends where the source would store in front of its chunk; what the source does after that is undefined.
- BerWriter.Writer.CheckMemory: chunk lengths are unbounded integers here; for messages above 2^29 - 5 octets, where doubling an `int` can overflow, nothing is said about them.
- BerForms.ReencodingFits: the factor three is not the best possible one.
- PerComplete.Complete: three kinds of operands are not covered: operands behind the end of the input, where the source reads what it does not own; a count in opcode 10 that leaves no free place in the octet after the one begun, a case the code does not have and whose later shifts are undefined; and more than 8 unused bits in opcodes 30 and 31, by which it takes bits back. An empty input never reaches it.
- PerComplete.Assembler.InsertLeastSignBits: such counts, as above.
- PerComplete.Assembler.InsertOctetsExceptUnused: more than 8 unused bits, as above.
- PerComplete.Assembler.Step: such operands, as above.
- PerTheorems.MeanAppend: a first stream with surplus octets in a cut bit string, of which the source takes too few, so that it reads the rest as instructions, is left to `Mean`.
- PerComplete.Assembler.ReadOperands: the arms of the source's switch differ in the widths of their operands only and are one method here.
- PER memory: the output is a growing sequence beside an account of the buffer's size and of the space the code believes left; reallocation itself cannot fail here.
- Signed overflow: `aval += val` on a signed type is undefined in C when it overflows. `CasLoops` and `Emulated32.True32` wrap, as the native operations do; what is said of a retry loop that overflows holds for a compiler that wraps.
- PER error codes: all are one error.
- Foreign terms: BER terms are well formed by type; improper lists, non-tuples and other Erlang terms that the encoder answers with an error do not exist here, nor do allocation failures, library loading and the construction of error tuples.
- Lock and retry loops are machines over their atomic operations, on values and not as methods with loops, because other threads act between any two of them; spinning has no step of its own.
- Fairness and termination of the lock: nothing is said about threads that are never scheduled or about starvation.
- Memory order in `RwSpinlock` and `CasLoops`: atomic operations are interleaved one at a time; what the barriers of the variants order is the subject of `Barriers` alone.
- The plain spinlock (`ethr_native_spin_lock`), `inc`, `dec`, `add` and their reading forms: special cases of what is proved.
- Barriers: the data-dependency variants (`ddrb`), compiler barriers, inline assembly and the `#if` selection that decides which native variants exist.
- `ethr_mutex.h`, `ethread.h` and the fallbacks with mutexes: the slow paths of the mutexes are not in the tree.
- IcRefs.CompareRefs: the creation number is not compared, as in the source.
- `ic.c` otherwise: sending, receiving, encoding and decoding of requests, `oe_prepare_request_decoding`, memory sizes and a failing `malloc` in `oe_merge_maps`.
