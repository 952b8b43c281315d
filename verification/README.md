# LeekWallet, modelled and proved

LeekWallet is firmware for a hardware wallet whose claim is "what you see is what you
sign". That claim rests on hand-written codecs and on a few state machines. This project
models them in Dafny, branch by branch, and proves what they are for.

Where the firmware changes a buffer, a struct or stored keys step by step, the model is a
class or a method over arrays with the same loops, proved against a specification function;
the properties are then lemmas about those functions. Interleavings of tasks are state
machines over their atomic steps. What standards fix - tables, orders, byte layouts,
spellings - is written down a second time, apart from the model, in `QrStandard`,
`EthTxStandard`, `AbiStandard`, `Eip712Standard`, `Eip712Written`, `CableRequest`,
`Eip4527Request` and `Eip4527Signature`, and proved to be what the model computes.
Cryptographic functions (keccak and what it is used for) are function-valued parameters:
nothing is assumed of them.

| component | modules |
|---|---|
| QR symbols (`src/qrcode.c`, ISO/IEC 18004:2015) | `Arith`, `Gf256`, `ReedSolomon`, `QrBits`, `QrTables`, `QrText`, `QrInterleave`, `QrPatterns`, `QrZigzag`, `QrRoom`, `QrMask`, `QrCode`, `QrStandard` |
| CBOR (`src/cbor.c`, RFC 8949 section 3) | `Bytes`, `Buffers`, `Cbor`, `CborIo` |
| transactions (`src/eth-tx.c`, `src/eth-tx-rlp.c`) | `EthTx`, `EthTxIo`, `EthTxStandard`, `Decimal` |
| typed data (`src/eip712.c`, EIP-712) | `Eip712Types`, `Eip712Walk`, `Eip712`, `Eip712Order`, `Eip712Text`, `Eip712Io`, `Eip712Standard`, `Eip712Written` |
| calldata (`src/eth-decode.c`) | `AbiWords`, `AbiCalls`, `AquaProgram`, `AbiDecode`, `AbiStatic`, `AbiSignature`, `AbiDispatch`, `AbiRender`, `AbiStandard` |
| signing (`src/protocol.c`, `src/airgap.c`) | `SigningSlot`, `SigningEntrances`, `CableRequest`, `Airgap` |
| PIN and wipe (`src/pin.c`, `src/device-wipe.c`, `src/main.c`) | `PinWipe` |
| transports (`src/protocol.c`, `src/ble-chunk.c`) | `Framing`, `BleChunk` |
| word entry (`src/mnemonic-entry.c`) | `Mnemonic`, `MnemonicRules` |
| air-gap documents (`src/eip4527.c`, `src/eip4527-encode.c`, EIP-4527) | `Eip4527`, `Eip4527Order`, `Eip4527Path`, `Eip4527Io`, `Eip4527Request`, `Eip4527Signature` |

`dafny verify dfyconfig.toml` checks the whole project.

## What came out differently

Five statements one might expect turned out to need a condition. Each is in the table below
with the exact condition.

- A transaction is read back exactly when its quantities are minimal
  (`EthTx.ReaderInvertsTheEncoder`). It is encoded exactly when its fields together fit the
  body buffer (`EthTx.EncodedExactlyWhenItFits`), which the largest transaction the structure
  can hold does not (`EthTx.WorstCaseIsRefused`).
- Well-formed frames survive every way of cutting their bytes into reads of at most 64 bytes
  exactly when each of them is at most 961 bytes on the wire, or fits the receive buffer
  together with everything behind it (`Framing.DeliveredHoweverCut`).
  `Framing.OverrunIsPossible` is a stream of two frames, of 962 and 64 bytes, with a cutting
  that delivers both and one that loses the first.
- The order of an EIP-4527 map's pairs changes nothing while every pair is valid, not even the
  reason for a refusal (`Eip4527Order.PairOrderDoesNotMatter`). With ill-formed pairs the
  reason reported is independent of the order exactly when `Eip4527Order.ReasonIsFixed` says.
- At most three PIN comparisons are made between successes or wipes, and one more for each
  time flash refused the attempt counter, because the firmware goes on when that write fails
  (`PinWipe.LiveThrough`, `PinWipe.RefusedSpendsAreFree`). A wipe whose marker flash refused
  goes on too; cut short, it can leave mnemonics without a verifier
  (`PinWipe.UnmarkedWipeOrphans`) or a retired verifier with new attempts
  (`PinWipe.UnmarkedWipeRefills`).
- Skipping a CBOR value consumes exactly its bytes when its nesting stays within the limit,
  and is refused for every other value (`Cbor.SkipConsumesTheValue`).

## Model

| member | source | states |
|---|---|---|
| `Gf256.RsMultiply` | src/qrcode.c:171-178 | the shift-and-add loop returns the field product of GF(2^8) modulo 0x11D, and its accumulator never leaves eight bits |
| `Gf256.MulDistributes` | src/qrcode.c:171-178 | that product distributes over addition on both sides |
| `Gf256.MulCommutes` | src/qrcode.c:171-178 | it is commutative |
| `Gf256.MulAssociates` | src/qrcode.c:171-178 | it is associative |
| `Gf256.MulOne` | src/qrcode.c:171-178 | one is its unit |
| `Gf256.XIsARootOfTheModulus` | src/qrcode.c:171-178 | the element 0x02 is a root of x^8+x^4+x^3+x^2+1, so the code works in the field it names |
| `ReedSolomon.RsInit` | src/qrcode.c:180-191 | the in-place loop leaves the coefficients of the generator of the given degree |
| `ReedSolomon.GeneratorIsTheProduct` | src/qrcode.c:180-191 | evaluated anywhere, the generator is the product of (x - alpha^i) over i below the degree |
| `ReedSolomon.GeneratorRoots` | src/qrcode.c:180-191 | alpha^0 .. alpha^(degree-1) are roots of it |
| `ReedSolomon.RsGetRemainder` | src/qrcode.c:193-205 | the strided in-place division leaves the check codewords of the block on the stride and every other byte as it was |
| `ReedSolomon.RemainderKeepsRoot` | src/qrcode.c:193-205 | a root of the divisor is a root of the data followed by the remainder |
| `ReedSolomon.BlockIsACodeword` | src/qrcode.c:180-205 | for every degree from 1 and every block, the block followed by its check codewords vanishes at alpha^0 .. alpha^(degree-1) |
| `QrInterleave.PositionIsInverse` | src/qrcode.c:497-545 | for any valid geometry every data and check codeword has exactly one interleaved position and every position exactly one codeword |
| `QrInterleave.DataComesBack` | src/qrcode.c:497-545 | reading the blocks back from the interleaved sequence yields the data |
| `QrInterleave.ReadBlockIsACodeword` | src/qrcode.c:497-545 | every block read back with its check codewords is a Reed-Solomon codeword |
| `QrInterleave.Interleave` | src/qrcode.c:497-545 | the loops place every codeword at its interleaved index, in place of the data |
| `QrTables.ColumnsAreSound` | src/qrcode.c:19-37 | in every column of the tables the blocks share the check codewords evenly, each has data, and none outgrows a byte |
| `QrTables.RawModulesIsTheRest` | src/qrcode.c:19-37 | the table of raw data modules is the area of the symbol less its function patterns, for every version |
| `QrZigzag.StepVisitsItsCell` | src/qrcode.c:352-372 | for every size each step of the placement walk lands inside the symbol and off column 6, on a module whose step it is |
| `QrZigzag.CellIsVisited` | src/qrcode.c:352-372 | each module off column 6 is visited, once |
| `QrZigzag.DrawnKeepsFunctionModules` | src/qrcode.c:352-372 | the walk leaves function modules and column 6 alone |
| `QrZigzag.ReadingReturnsTheBits` | src/qrcode.c:352-372 | reading along the walk returns the bits drawn along it |
| `QrZigzag.DrawCodewords` | src/qrcode.c:352-372 | the nested loops draw the codewords exactly as the walk says |
| `QrRoom.MarksAreFunctionModules` | src/qrcode.c:208-328 | the modules the drawing marks are exactly the function modules of the version, region by region |
| `QrRoom.RoomForAllCodewords` | src/qrcode.c:284-372 | the walk has a free module for every codeword bit of the version |
| `QrPatterns.DrawFormatBits` | src/qrcode.c:237-264 | both copies of the format word and the module that is always dark are painted, and nothing else changes |
| `QrPatterns.FormatWordIsAMultiple` | src/qrcode.c:237-245 | unmasked, the format word is a multiple of 0x537 over GF(2) with level and mask as its high five bits |
| `QrPatterns.DrawVersion` | src/qrcode.c:266-282 | both copies of the version word are painted from version 7 on |
| `QrPatterns.VersionWordIsAMultiple` | src/qrcode.c:266-274 | the version word is a multiple of 0x1F25 over GF(2) with the version as its high six bits |
| `QrPatterns.DrawFunctionPatterns` | src/qrcode.c:284-328 | timing, finders, alignment patterns, format and version areas are painted and marked, and nothing else |
| `QrMask.MaskingTwice` | src/qrcode.c:330-350 | masking twice restores every module |
| `QrMask.ApplyMask` | src/qrcode.c:330-350 | the loops invert exactly the unmarked modules at the places the standard names for the mask, by conditions of their own for each of the eight |
| `QrMask.MasksInvertThere` | src/qrcode.c:330-350 | for each of the eight masks, the places inverted are those of table 10 of the standard: parities and multiples of column and row |
| `QrMask.GetPenaltyScore` | src/qrcode.c:379-442 | the one-pass loops compute the sum of the four penalty rules as stated for runs, blocks, finder-like patterns and balance |
| `QrMask.MaximalRun` | src/qrcode.c:379-442 | a maximal run of L equal modules, at the start of a line or inside it, costs L - 2 from five on and nothing below |
| `QrMask.RegisterIsTheTail` | src/qrcode.c:379-442 | the eleven-bit shift register holds the last eleven modules of the line |
| `QrText.TextRoundTrip` | src/qrcode.c:444-495 | a reference reader of mode, count and characters returns the text from the numeric, alphanumeric or byte stream, whatever follows it |
| `QrText.EncodeDataCodewords` | src/qrcode.c:444-495 | the writer appends exactly that stream, or marks the bucket when it does not fit |
| `QrText.CountFits` | src/qrcode.c:444-495 | no text that fits a symbol overruns its count field |
| `QrText.AlphanumericRoundTrip` | src/qrcode.c:129-144 | the 45 characters and their codes are one-to-one |
| `QrText.GetModeBits` | src/qrcode.c:161-168 | the width of the count field, unpacked from the table of three-bit entries |
| `QrBits.BitBucket.AppendBits` | src/qrcode.c:90-100 | the bits are appended most significant first, or the bucket is marked when they do not fit |
| `QrBits.BitBucket.SetBit` | src/qrcode.c:102-110 | one module is set and every other one is kept |
| `QrBits.BitBucket.InvertBit` | src/qrcode.c:117-126 | one module is inverted on request and every other one is kept |
| `QrCode.PerformErrorCorrection` | src/qrcode.c:497-545 | for every version and level the geometry is valid and the buffer then holds the interleaved codewords |
| `QrCode.ChooseMask` | src/qrcode.c:603-618 | the eight in-place trials restore every data module and leave the first mask of least penalty applied |
| `QrCode.BestMaskIsKept` | src/qrcode.c:603-618 | no other mask gives the finished symbol a lower penalty, and none before it the same |
| `QrCode.SymbolShowsFunctionPatterns` | src/qrcode.c:284-328 | the finished symbol shows the function patterns that were drawn, whatever the mask |
| `QrCode.SymbolReadsBack` | src/qrcode.c:330-350 | whatever the mask and the canvas, a symbol that carries a padded text is read as that text |
| `QrCode.QRCode.InitText` | src/qrcode.c:553-621 | returns 0 exactly when the text fits, and then a reference decoder that reads the format, unmasks, walks, de-interleaves and parses recovers exactly the text |
| `QrStandard.FirstBitIsMostSignificant` | src/qrcode.c:90-126 | the first bit of a codeword is its most significant |
| `QrStandard.NumbersAreMostSignificantFirst` | src/qrcode.c:90-100 | numbers are written with their most significant bit first |
| `QrStandard.AlphanumericTable` | src/qrcode.c:129-144 | the 45 characters have the values of table 5 |
| `QrStandard.ModesOfTheStandard` | src/qrcode.c:146-159 | digits alone are numeric, those 45 characters alphanumeric, anything else bytes |
| `QrStandard.ModeIndicators` | src/qrcode.c:444-495 | the streams begin with the mode indicators of table 2 |
| `QrStandard.WalkOfTheStandard` | src/qrcode.c:352-372 | step 2(size p + row) + side is the right or left module of that row of pair p: pairs from the right edge, over column 6, up and down in turn, right before left |
| `QrStandard.FormatPlaces` | src/qrcode.c:237-264 | bit i of the format information stands in its two places of figure 25 |
| `QrStandard.OnlyFormatPlaces` | src/qrcode.c:237-264 | and no other module belongs to it |
| `QrStandard.VersionPlaces` | src/qrcode.c:266-282 | bit i of the version information stands in its two places of figure 27 |
| `QrStandard.FinderRings` | src/qrcode.c:214-226 | a finder is a dark square in a light, a dark and a light ring |
| `QrStandard.AlignmentRings` | src/qrcode.c:228-235 | an alignment pattern is a dark module in a light and a dark ring |
| `QrStandard.TimingAlternates` | src/qrcode.c:284-328 | timing modules alternate beginning dark, and the finders are at three corners |
| `QrStandard.AlignmentCentres` | src/qrcode.c:284-328 | the alignment centres are those of table E.1, for every version |
| `QrStandard.OrderOfCodewords` | src/qrcode.c:497-545 | codewords come round by round, block by block, data before check |
| `QrStandard.BlocksInTurn` | src/qrcode.c:497-545 | blocks are cut from the data in turn, the shorter ones first |
| `QrStandard.PaddingOfTheStandard` | src/qrcode.c:553-621 | behind the text stand up to four zeros, zeros to the byte, then 11101100 and 00010001 in turn |
| `QrStandard.PenaltyOfTheStandard` | src/qrcode.c:379-442 | the penalty is that of the standard: runs, two-by-two blocks, finder-like patterns on either side and the share of dark modules, each by its own definition |
| `QrStandard.CheckCodewordsOfTheStandard` | src/qrcode.c:19-37 | each block has the number of check codewords of table 9, for every version and level |
| `QrStandard.GridFitsItsBuffer` | src/qrcode.c:549-551 | the buffer asked for is as many bytes as the modules need, and no more |
| `Cbor.SkipConsumesTheValue` | src/cbor.c:212-243 | skipping an encoded value consumes exactly its bytes when its nesting is within the limit, and is refused otherwise |
| `Cbor.ReadingReturnsTheTree` | src/cbor.c:168-209 | reading a written value gives the value tree back and ends where it ends |
| `Cbor.EncodingIsInjective` | src/cbor.c:46-107 | two different values are never written alike |
| `Cbor.HeadReadsBack` | src/cbor.c:46-66 | an initial byte and argument in shortest form are read as written, for every 32-bit argument |
| `Cbor.MapFindFindsTheFirst` | src/cbor.c:245-275 | looking a key up in a written map finds the first value under it |
| `Cbor.LookupIsMembership` | src/cbor.c:245-275 | with distinct keys within the nesting limit, lookup is membership, so the order of the pairs does not matter |
| `CborIo.Head` | src/cbor.c:46-66 | the shortest form is written into the bounded buffer |
| `CborIo.WriteInt` | src/cbor.c:73-80 | a signed 32-bit number is written as major type 0 or 1 |
| `CborIo.CborReader.ReadArgument` | src/cbor.c:135-166 | 1-, 2- and 4-byte arguments are read and all other forms refused |
| `CborIo.CborReader.Read` | src/cbor.c:168-209 | one item is read and the position ends behind it |
| `CborIo.CborReader.SkipItem` | src/cbor.c:212-235 | terminates on every input: items taken never outnumber bytes consumed, whatever count is declared |
| `CborIo.CborMapFind` | src/cbor.c:245-275 | the loop finds what the specification of lookup finds |
| `Buffers.BoundedBuffer.Put` | src/cbor.c:35-42 | the overflow flag is raised exactly when more was written than fits |
| `Buffers.WrittenInFull` | src/cbor.c:30-42 | without overflow the buffer holds everything that was written |
| `EthTx.ReaderInvertsTheEncoder` | src/eth-tx-rlp.c:69-143 | reading an encoding returns the transaction exactly when its quantities are minimal |
| `EthTx.ReaderAcceptsExactlyTheImage` | src/eth-tx-rlp.c:69-143 | the reader accepts exactly the encodings of transactions with minimal quantities |
| `EthTx.EncodingIsInjective` | src/eth-tx.c:119-161 | no two such transactions are hashed from the same bytes |
| `EthTx.EncodedExactlyWhenItFits` | src/eth-tx.c:119-161 | encoding succeeds if and only if the sizes of the fields add up to at most the body buffer, and body, list header and type byte to at most the output |
| `EthTx.OnlyTheBodyLimits` | src/eth-tx.c:163-179 | for the buffer that is hashed from, the body alone decides |
| `EthTx.WorstCaseIsRefused` | src/eth-tx.c:119-161 | so a transaction whose fields are all as long as they can be is never encoded, whatever the output can take |
| `EthTx.ItemAt` | src/eth-tx-rlp.c:24-58 | an item never reaches past the bytes that are there |
| `EthTx.FieldReadsBack` | src/eth-tx-rlp.c:24-58 | a string with its prefix is read as itself, wherever it stands |
| `EthTx.ChainRoundTrip` | src/eth-tx-rlp.c:69-143 | the chain identifier survives its minimal bytes |
| `EthTxStandard.EncodedIsTheStandardPayload` | src/eth-tx.c:119-161 | the payload is 0x02 and the RLP list of the nine fields in the order of EIP-1559, by the definition in appendix B of the Yellow Paper |
| `EthTxStandard.ReadIsTheStandardPayload` | src/eth-tx-rlp.c:69-143 | what is read is such a payload of the transaction read |
| `EthTxIo.QuantitySet` | src/eth-tx.c:15-42 | leading zeros are dropped and more than 32 remaining bytes refused |
| `EthTxIo.QuantitySetU64` | src/eth-tx.c:44-52 | the minimal bytes of a 64-bit number |
| `EthTxIo.RlpHeader` | src/eth-tx.c:80-98 | short and long length prefixes as the Yellow Paper has them |
| `EthTxIo.TxEncode` | src/eth-tx.c:119-161 | writes exactly the specified encoding, or returns 0 exactly when a buffer is too small |
| `EthTxIo.Cursor.Next` | src/eth-tx-rlp.c:24-58 | the cursor takes the item at its position and ends behind it |
| `EthTxIo.Cursor.TakeQuantity` | src/eth-tx-rlp.c:60-67 | a quantity is taken only in minimal form |
| `EthTxIo.TxFromRlp` | src/eth-tx-rlp.c:69-143 | returns exactly the specified reading, the re-encoding check included |
| `Decimal.DivmodSmall` | src/eth-tx.c:244-253 | long division in place: quotient left in the bytes, remainder returned |
| `Decimal.RoomForDigits` | src/eth-tx.c:263-292 | 80 digits are room for every 32-byte number, so the scratch never fills up |
| `Decimal.ScratchDigits` | src/eth-tx.c:263-292 | the loop leaves the digits of the number, last first |
| `Decimal.FormatInteger` | src/eth-tx.c:263-292 | prints the exact decimal number without leading zeros, or nothing |
| `Decimal.DigitsSpell` | src/eth-tx.c:263-292 | the digits spell the number and have no leading zero |
| `Decimal.DigitsAreInjective` | src/eth-tx.c:263-292 | two numbers are never shown alike |
| `Decimal.FormatValue` | src/eth-tx.c:294-357 | succeeds exactly when the whole text fits, and then prints that text: never a part of it |
| `Decimal.ValueTextIsExact` | src/eth-tx.c:294-357 | the text is floor(value / 10^(18-d)) / 10^d, trailing zeros trimmed |
| `Eip712.ScreenDeterminesMessage` | src/eip712.c:551-582 | for one type table and primary type, two requests that both come out OK with equal pages have equal message hashes |
| `Eip712Written.TypedDataDigest` | src/eip712.c:820-898 | a document written from its types, primary type, domain and message is answered with the digest EIP-712 defines over its tree: keccak(0x1901, hashStruct(domain), hashStruct(message)), by a reference hashStruct; it is refused exactly when it is too large, unhashable exactly when one of the two hashes is undefined, and shows the values below the message in order |
| `Eip712Written.StructIsHashed` | src/eip712.c:725-771 | the walk over the bytes of a written value computes hashStruct of its tree, and hands out the values below it in declared order |
| `Eip712Written.DocumentIsRead` | src/eip712.c:820-850 | such a document is read as its parts, exactly when it has at most eight types of at most twelve fields and a primary type of at most 31 letters |
| `Eip712.SignedBytes` | src/eip712.c:875-897 | whatever has a digest has it over 0x19, 0x01, the hash of the domain and then that of the message, and nothing more |
| `Eip712Standard.SpellingIsRead` | src/eip712.c:396-446 | every elementary type is read from its spelling |
| `Eip712Standard.OnlySpellingsAreRead` | src/eip712.c:396-446 | and nothing else is, but for zeros in front of the number |
| `Eip712Standard.NamesLeftToStructs` | src/eip712.c:415-446 | every other name may be a struct; arrays are refused |
| `Eip712Standard.NumberWord` | src/eip712.c:459-480 | uintN and intN: accepted exactly below 2^N, in either spelling, as 32 bytes big-endian |
| `Eip712Standard.OtherWords` | src/eip712.c:596-695 | addresses and truth values stand on the right of their word, bytesN on the left, string and bytes as their hash |
| `Eip712Standard.AddressAsEip55` | src/eth-tx.c:359-397 | the case of every letter of an address is that of EIP-55 |
| `Eip712Standard.BytesAsText` | src/eip712.c:531-545 | 0x and every byte in two digits, exactly when a row holds them |
| `Eip712Standard.NumberAsText` | src/eip712.c:643-649 | a number is shown by its decimal digits, which a row always holds |
| `Eip712Standard.OtherTexts` | src/eip712.c:618-669 | a string is shown as it is, exactly when it is printable and fits a row; a truth value by its name |
| `Eip712Standard.PageOfTheStandard` | src/eip712.c:551-582 | a value takes a page exactly while fewer than six are taken and its dotted label is shorter than 21; the page holds its text, its address, and the warnings for deadlines and for half the range of an unsigned type of 64 bits or more |
| `Eip712Standard.PrintedPart` | src/eip712.c:564-570 | a name is printed up to its first zero byte |
| `Eip712Walk.ScreenDeterminesStructHash` | src/eip712.c:596-771 | at any depth of the traversal, equal pages mean equal struct hashes |
| `Eip712Walk.TextDeterminesWord` | src/eip712.c:596-723 | two values of one type that are shown alike are hashed alike, whatever spelling each came in |
| `Eip712Walk.HexIsInjective` | src/eip712.c:531-545 | hexadecimal text determines the bytes |
| `Eip712Walk.AddressTextIsInjective` | src/eth-tx.c:359-397 | checksummed address text determines the address, whatever the checksum |
| `Eip712Walk.NoOverflowShowsAll` | src/eip712.c:551-582 | without overflow every leaf of the traversal has its page, in order |
| `Eip712.OkShowsEveryLeaf` | src/eip712.c:820-898 | an OK result means that every leaf of the message has its page, between one and the number of pages there is room for |
| `Eip712Types.RefsAreTheClosure` | src/eip712.c:264-291 | the types collected are exactly the transitive references, the root excluded, each once |
| `Eip712Types.EncodeTypeIsTheOrderedClosure` | src/eip712.c:315-331 | encodeType, when it succeeds, is the struct followed by exactly its transitive references, each once and in bytewise name order |
| `Eip712Types.OnlyOneOrderedClosure` | src/eip712.c:297-331 | any list of exactly the reachable types in name order gives the same string, so the order of discovery does not matter |
| `Eip712Standard.TypeTextOfTheStandard` | src/eip712.c:315-331 | encodeType is "Name(type name,...)" of the struct and then of every type it reaches, each once, ordered at the first differing byte, shorter than 512 |
| `Eip712Standard.TypeTextIsFound` | src/eip712.c:264-331 | types without arrays whose references are at most three deep have one, exactly when it is that short |
| `Eip712Types.SortedAscends` | src/eip712.c:297-313 | the sort ascends strictly on distinct names |
| `Eip712.FirstDefinitionCounts` | src/eip712.c:179-188 | of two definitions with one name the first is the one used |
| `Eip712Order.KeyOrderDoesNotMatter` | src/eip712.c:820-898 | well-formed requests equal but for the order of their map keys, at any depth, have the same result, digest and screen |
| `Eip712Order.ShufflingDoesNotMatter` | src/eip712.c:84-177 | in particular the keys of types, domain and message may be permuted |
| `Eip712Order.LookupsAgree` | src/eip712.c:84-110 | a key leads to the same value in both documents |
| `Eip712Order.DefinitionsAgree` | src/eip712.c:129-177 | the type tables read from them are one and the same |
| `Eip712Io.ParseTypes` | src/eip712.c:129-177 | the loop reads exactly the specified table, or refuses |
| `Eip712Io.FindType` | src/eip712.c:179-188 | finds the first entry with the name |
| `Eip712Io.TypeField` | src/eip712.c:197-224 | reads the i-th declared field of an entry |
| `Eip712Io.CollectRefs` | src/eip712.c:264-291 | the recursive search with its in-place list adds exactly the specified references |
| `Eip712Io.SortTypes` | src/eip712.c:297-313 | the in-place insertion sort leaves the sorted entries and the rest of the array as it was |
| `Eip712Io.SortedIdsNames` | src/eip712.c:297-313 | the names of the sorted entries are the sorted names |
| `Eip712Io.EncodeTypeAt` | src/eip712.c:315-331 | fills the buffer with exactly the specified string, or refuses when it does not fit |
| `Eip712Io.TypeHash` | src/eip712.c:357-369 | the hash of that string |
| `Eip712Io.ClassifyType` | src/eip712.c:415-446 | elementary types by spelling, struct types by table, anything else unsupported |
| `Eip712Io.WordOf` | src/eip712.c:459-480 | a number in either spelling becomes its 32-byte word, or is refused as too wide |
| `Eip712Io.ShowLeaf` | src/eip712.c:551-582 | claims the next page or marks the document unshowable, and the mark stays |
| `Eip712Text.RenderLeaf` | src/eip712.c:596-693 | the row is filled with exactly the specified text of the value, or the value does not fit |
| `Eip712Text.FormatAddress` | src/eth-tx.c:359-397 | the two loops write the address with the case of its checksum |
| `Eip712Text.HexInto` | src/eip712.c:531-545 | the loop writes the bytes in hexadecimal, or refuses a row that cannot hold them |
| `Eip712Io.EncodeField` | src/eip712.c:596-723 | one field: the specified word into the hash and the specified pages onto the screen |
| `Eip712Io.HashStruct` | src/eip712.c:725-771 | a struct: the specified hash and pages, within the nesting limit |
| `Eip712Io.Prepare` | src/eip712.c:820-898 | the whole preparation returns exactly the specified result, digest and pages; every digest is keccak of 0x19, 0x01, the domain's hash and the message's |
| `AbiCalls.DisperseIsExact` | src/eth-decode.c:738-777 | disperseToken is decoded exactly from the canonical encoding of its arguments |
| `AbiCalls.DockIsExact` | src/eth-decode.c:999-1033 | dock is decoded exactly from the canonical encoding of its arguments |
| `AbiCalls.StringsAreExact` | src/eth-decode.c:864-914 | two strings are decoded exactly from the canonical encoding of two drawable strings within their bounds |
| `AbiCalls.ShipIsExact` | src/eth-decode.c:917-996 | ship is decoded exactly from the canonical encoding of its arguments |
| `AbiStandard.DisperseIsATuple` | src/eth-decode.c:738-777 | that encoding is the tuple of the contract ABI: heads with offsets from its start, then the tails |
| `AbiStandard.DockIsATuple` | src/eth-decode.c:999-1033 | likewise |
| `AbiStandard.StringsAreATuple` | src/eth-decode.c:864-914 | likewise |
| `AbiStandard.ShipIsATuple` | src/eth-decode.c:916-997 | likewise |
| `AbiStandard.ReadIsShowable` | src/eth-decode.c:738-1033 | what is read has at most nine recipients or four tokens, and its strings are printable, of at most 64 and 12 characters, with no space at either end |
| `AbiWords.SizeIsExact` | src/eth-decode.c:498-508 | a length or offset is read only from its one canonical word |
| `AbiStandard.SizesAreNumbers` | src/eth-decode.c:498-508 | that word is the number in 32 bytes |
| `AbiWords.CountedIsExact` | src/eth-decode.c:511-517 | a byte string is read only with its zero padding |
| `AbiWords.AddressArrayIsExact` | src/eth-decode.c:738-777 | an address array is read only from its canonical form |
| `AbiDecode.DecodeDisperse` | src/eth-decode.c:738-777 | the method accepts as specified and records where every recipient and amount stands |
| `AbiDecode.DecodeTwoStrings` | src/eth-decode.c:864-914 | the offsets recorded hold the two strings |
| `AbiDecode.ReadString` | src/eth-decode.c:804-825 | a row takes the recorded string with a zero behind it when there is one and it fits, and is left empty otherwise |
| `AbiDecode.StringsReadBack` | src/eth-decode.c:804-825 | over the offsets recorded, the accessor finds both strings as they were encoded, none longer than its row and none with a zero inside |
| `AbiDecode.DecodeDock` | src/eth-decode.c:999-1033 | accepts as specified and records where every token stands |
| `AbiDecode.DecodeShip` | src/eth-decode.c:917-996 | accepts as specified and records tokens, amounts and the program of a router strategy |
| `AbiDecode.SwapvmProgram` | src/eth-decode.c:685-718 | finds and walks the program inside a strategy |
| `AbiStandard.StrategyLayout` | src/eth-decode.c:685-718 | the maker stands in the second word, the program in the data from the place that bytes 4 and 5 of the traits name; for the router such a strategy is accepted exactly when that program is |
| `AbiStandard.AcceptedIsLaidOut` | src/eth-decode.c:685-718 | a router strategy is accepted in no other layout |
| `AbiStandard.MakerIsTheSecondWord` | src/eth-decode.c:536-546 | for any application the maker is named in the second word, behind the offset of a tuple, exactly then |
| `AbiStandard.RouterAddress` | src/eth-decode.c:555-558 | the router is one contract address |
| `AbiDecode.DisperseReadsBack` | src/eth-decode.c:779-800 | over the offsets a disperse records, the accessors return entry by entry the recipient and the amount that were encoded, and nothing for any other index |
| `AbiDecode.ShipReadsBack` | src/eth-decode.c:1337-1381 | over the offsets a ship records, the accessors return every token and amount that was encoded, and nothing for any other index |
| `AbiDecode.ReadToken` | src/eth-decode.c:1359-1371 | the token at a recorded offset is read from the buffer at hand and must still be an address |
| `AbiDecode.DockReadsBack` | src/eth-decode.c:1337-1371 | over the offsets a dock records, the accessor returns every token that was encoded, and nothing for any other index |
| `AquaProgram.AcceptsExactlyPrograms` | src/eth-decode.c:626-668 | the walk accepts exactly the code of 1 to 16 allowed instructions of the required widths |
| `AbiStandard.ClosedList` | src/eth-decode.c:578-612 | the allowed instructions are eleven opcodes with these argument sizes, salt with any; jumps and extruction are not among them |
| `AquaProgram.CodeIsUnique` | src/eth-decode.c:626-668 | code is read in one way only |
| `AquaProgram.OffsetsTile` | src/eth-decode.c:626-668 | the recorded offsets tile the program with no gap or overlap |
| `AquaProgram.ProgramWalk` | src/eth-decode.c:626-668 | the loop accepts as specified and records the offsets |
| `AquaProgram.LookupFindsTheProgram` | src/eth-decode.c:1388-1411 | looked up at the offsets the walk recorded, each instruction is found with its own opcode, and no further one is |
| `AquaProgram.RecordedIsFound` | src/eth-decode.c:1388-1411 | every recorded instruction is found again on the same bytes, with its arguments |
| `AbiStatic.WordMatchesType` | src/eth-decode.c:430-470 | a word is accepted exactly when it is the encoding of some value of the type: zero-extended, two's complement or left-aligned |
| `AbiStatic.MatchedIsEncoded` | src/eth-decode.c:430-470 | a word that matches encodes the value it stands for, which is in the range of the type |
| `AbiStatic.EncodedIsMatched` | src/eth-decode.c:430-470 | the encoding of a value matches and stands for that value and no other |
| `AbiStandard.WordsAreNumbers` | src/eth-decode.c:430-470 | the encoding of a value is its number in 32 bytes, modulo 2^256 when negative, and bytesN on the left |
| `AbiStatic.AcceptedIsEncoded` | src/eth-decode.c:1114-1137 | calldata of one-word arguments that is accepted is the selector and the encoding of the values drawn |
| `AbiStatic.EncodedIsAccepted` | src/eth-decode.c:1114-1137 | the encoding of any values is accepted and those values are drawn |
| `AbiSignature.ParseArgType` | src/eth-decode.c:265-322 | the digit loop reads exactly the one-word types; dynamic types and impossible widths are refused |
| `AbiSignature.NameIsParsed` | src/eth-decode.c:265-322 | every type is read back from its name |
| `AbiSignature.ParseSignatureArgs` | src/eth-decode.c:338-375 | the loop over the signature reads exactly the specified list of types |
| `AbiSignature.SignatureIsParsed` | src/eth-decode.c:338-375 | a name and at most six types of one word, with commas and parentheses, are read as those types |
| `AbiSignature.ParsedIsASignature` | src/eth-decode.c:338-375 | nothing else is read |
| `AbiDispatch.ArgumentsAreExact` | src/eth-decode.c:1045-1197 | a row of any shape reads arguments exactly when their canonical encoding is all that stands behind the selector |
| `AbiDispatch.UnderstoodIsSent` | src/eth-decode.c:1045-1197 | what is understood is what is sent: the selector of the row shown and the encoding of the arguments shown |
| `AbiDispatch.MeaningDeterminesSent` | src/eth-decode.c:1045-1197 | two calls understood as the same row with the same argument values are the same bytes |
| `AbiDispatch.SentIsUnderstood` | src/eth-decode.c:1045-1197 | every encoding a row can take is understood as that row, unless an earlier row hashes to the same selector |
| `AbiDispatch.ShapesAgreeWithSignatures` | src/eth-decode.c:377-388 | a shape written out in the table is what reading its signature gives |
| `AbiDispatch.SignatureRowsReadTheirTypes` | src/eth-decode.c:1045-1197 | every other plain row is read by the types that its own signature names |
| `AbiDispatch.DecodeCall` | src/eth-decode.c:1045-1197 | the decoder picks the first row whose signature hashes to the selector and hands out offsets of exactly the arguments understood |
| `AbiRender.ShownIsDrawn` | src/eth-decode.c:1274-1314 | what the accessors of a generic call return of an argument is its decoded value: an address, a bool word, or the number that stands in the word |
| `AbiRender.ShownDeterminesWords` | src/eth-decode.c:1274-1314 | accepted calldata of one signature for which the accessors return the same, argument by argument, is the same behind its selector |
| `AbiRender.ArgAddress` | src/eth-decode.c:1291-1300 | for an address argument within the buffer at hand the accessor returns the address shown, and nothing otherwise |
| `AbiRender.ArgQuantity` | src/eth-decode.c:1302-1314 | for an argument that is neither an address nor a bool, within the buffer at hand, the accessor returns the number shown, and nothing otherwise |
| `AbiRender.ArgUnlimited` | src/eth-decode.c:1316-1333 | the warning appears exactly for unsigned types of at least 64 bits whose value is half their range or more |
| `AbiRender.RecordedFigure` | src/eth-decode.c:1428-1485 | over a program that was walked, the page for an instruction reads that instruction, its argument bytes included |
| `AbiRender.InstrFigure` | src/eth-decode.c:1428-1485 | the figure drawn is that of the instruction at the recorded offset, and none where the buffer is too short |
| `AbiWords.ReadSize` | src/eth-decode.c:498-508 | the byte loop reads exactly the specified lengths and offsets |
| `AbiWords.ReadCounted` | src/eth-decode.c:864-914 | the padding loop reads exactly the specified byte strings |
| `SigningSlot.OneOwnerAlways` | src/protocol.c:659-677 | in every interleaving of any number of tasks at most one owns the transaction slot, and it is busy exactly while one does |
| `SigningSlot.SlotUnchangedWhileShown` | src/protocol.c:688-766 | from display to hashing the slot holds what was displayed, whatever the other tasks do |
| `SigningSlot.SignaturesMatchApprovals` | src/protocol.c:688-766 | every signature is over the encoding of a transaction the user approved, at the path approved, and no approval is used twice |
| `SigningSlot.ReadIsHashed` | src/protocol.c:858-950 | what the air-gap entrance read from bytes is hashed as those very bytes |
| `SigningEntrances.SignTransaction` | src/protocol.c:1117-1202 | whichever return the cable request takes, what it claimed it gave back, once and cleared, and a busy slot is left alone; it signs exactly when every condition holds; a signature is of keccak over the payload of the transaction described, answers an approval, with the same address before and after, and no unanswered or rejected prompt is approved or signed |
| `SigningEntrances.AirgapSign` | src/protocol.c:858-950 | the same for a scanned request: a signature is of keccak over the very bytes scanned, at the path named, for the address named, and answers an approval; an unanswered prompt is refused as timed out, a rejected one as declined |
| `SigningEntrances.SignOwnedTx` | src/protocol.c:688-766 | shown, approved, hashed and signed is the one transaction in the slot; a signature answers an approval of it at the same path, and is given only when the user approved, the address is derived and unchanged, and the transaction can be explained or blind signing is on |
| `SigningEntrances.Confirm` | src/protocol.c:688-750 | the prompt: every reason to go no further, in its order, and an approval recorded only after an approving answer |
| `CableRequest.CableRequestIsRead` | src/protocol.c:1137-1185 | a written request gives the transaction that its eight keys describe, and is refused exactly without a chain, for a value of more than 32 bytes, or for calldata longer than 768 |
| `CableRequest.SignedPayload` | src/eth-tx.c:163-179 | the digest is keccak of 0x02 and the RLP list of its nine fields |
| `SigningEntrances.FillFromCable` | src/protocol.c:1139-1185 | the slot is filled field by field from the request, with the refusals of a missing chain, too large a value and too much calldata |
| `SigningEntrances.KeypathToHdpath` | src/protocol.c:833-856 | exactly the paths of one shape, in range, are accepted |
| `SigningEntrances.OneShapeOnly` | src/protocol.c:833-856 | m/44'/60'/account'/0/index with both numbers below 2^31 is accepted, and no other path |
| `SigningEntrances.AdmittedMeans` | src/protocol.c:858-915 | a scanned request is admitted exactly when the device is unlocked and it has an id, the type of a transaction, such a path, the fingerprint of this seed if it names one, and the address derived here |
| `SigningEntrances.SlotKeepsInv` | src/protocol.c:659-766 | everything the two entrances do to the slot is a run of the state machine, so its invariant holds of the slot |
| `SigningSlot.StepKeepsInv` | src/protocol.c:659-766 | every step of every task keeps the invariant behind these |
| `Airgap.EveryAcceptedRequestIsRunOnce` | src/airgap.c:111-185 | in every interleaving the requests run are the accepted ones, in order, and none is run twice |
| `Airgap.EveryAcceptedRequestCanBeRun` | src/airgap.c:111-185 | from every reachable state at most seven steps of submitter and worker have run every accepted request |
| `Airgap.WorkIsFinished` | src/airgap.c:119-167 | from every state in which a request is worked on, those steps run it and publish its outcome |
| `Airgap.OthersDoNotDelay` | src/airgap.c:111-212 | nothing that any other task does in between sets that back |
| `Airgap.DoneIsFinished` | src/airgap.c:189-200 | a poll that sees DONE reads the whole answer of the run last accepted |
| `Airgap.WorkingExcludesOthers` | src/airgap.c:130-185 | while a request is worked on nothing else is accepted and its bytes stay as they are |
| `Airgap.StepKeepsInv` | src/airgap.c:111-212 | every atomic step of either side keeps the invariant behind these |
| `PinWipe.Device.Verify` | src/pin.c:283-375 | a comparison is made exactly when the format is right, an attempt is left and the power lasts; its attempt is durably spent unless flash refuses the write, and given back in flash after the right PIN; the opener never changes |
| `PinWipe.Device.Migrate` | src/pin.c:137-154 | wherever power is cut, the same PIN and no other opens the device; if the vault cannot be written the old verifier stays and the move is put off |
| `PinWipe.IsValidFormat` | src/pin.c:459-480 | the loop accepts exactly four to eight decimal digits |
| `PinWipe.Device.ChangePin` | src/pin.c:410-452 | the PIN changes only by someone who knew it, in one durable step, and not at all when the vault cannot be written; with power for seven writes and nothing denied it does change |
| `PinWipe.Device.SetPin` | src/pin.c:243-281 | a vault that has a PIN keeps it and only that PIN succeeds; a vault without one gets this PIN or stays as it was; with power for three writes and nothing denied it succeeds |
| `PinWipe.Device.WipeWallet` | src/device-wipe.c:119-132 | ciphertext and verifier go before the attempt counter |
| `PinWipe.Device.EraseEverything` | src/device-wipe.c:119-132 | while ciphertext remains the attempt counter is as it was, wherever power is cut |
| `PinWipe.Device.Wipe` | src/device-wipe.c:134-157 | done means blank, marked or not, and eight writes are enough for it; cut short, either nothing was destroyed or the wipe will be finished, unless flash refused the marker: then mnemonics that are left still have their counter, and no other PIN opens the device |
| `PinWipe.Device.Boot` | src/main.c:67-85 | a boot that reaches the UI after the marker was durable finds no mnemonics and no PIN; seventeen writes are enough for any boot to get there |
| `PinWipe.LiveThrough` | src/pin.c:170-375 | over any life of a device with power cut anywhere: at most three comparisons between successes or wipes, plus one for each time flash refused the counter; the opener is only ever a PIN that was set or changed to; and mnemonics have their verifier or a wipe marker unless flash once refused the marker |
| `PinWipe.OwnerKeepsWallet` | src/pin.c:184-375 | any number of starts and right guesses, with enough power and nothing refused, leave the opener, the mnemonics and all three attempts, and never begin a wipe |
| `PinWipe.GuessWithoutKnowing` | src/pin.c:283-375 | someone who does not know the PIN gets at most three comparisons in all, plus one for each refused write of the counter and three for each refused marker, across any reboots |
| `PinWipe.RefusedSpendsAreFree` | src/pin.c:173-182 | that addition is needed: while flash refuses the counter, any number of wrong PINs is compared and the stored attempts stay |
| `PinWipe.UnmarkedWipeOrphans` | src/device-wipe.c:136-147 | the exception for a refused marker is needed: such a wipe, cut short, leaves mnemonics with neither verifier nor marker |
| `PinWipe.UnmarkedWipeRefills` | src/device-wipe.c:119-147 | and so are its three comparisons: cut short elsewhere it takes a used-up counter and leaves the retired verifier |
| `PinWipe.StartUntilUp` | src/device-wipe.c:159-169 | once a wipe is begun no number of interrupted boots brings the device back |
| `Framing.ConsumedInTwo` | src/protocol.c:1759-1793 | reading in two parts is reading at once |
| `Framing.OnlyTheBytesMatter` | src/protocol.c:1798-1824 | as long as no read overruns the buffer, the frames and what waits depend on the bytes alone |
| `Framing.CuttingDoesNotMatter` | src/protocol.c:1798-1824 | two ways of cutting one stream give the same frames and the same bytes left over |
| `Framing.FrameIsDelivered` | src/protocol.c:1759-1793 | a marker-prefixed frame with a body of 1 to 1020 bytes behind noise is delivered intact |
| `Framing.FrameOnTheWire` | src/protocol.c:1759-1793 | in bytes: L, K, the length of the body most significant byte first, and 1 to 1020 bytes |
| `Framing.DeliveredStands` | src/protocol.c:1759-1793 | every frame delivered stands in the stream behind such a marker, with the length it declares |
| `Framing.FramesAreDelivered` | src/protocol.c:1759-1793 | so is any number of them, in order, with nothing left over |
| `Framing.DeliveredHoweverCut` | src/protocol.c:1759-1824 | well-formed frames are delivered under every cutting into reads of 1 to 64 bytes if and only if each is at most 961 bytes on the wire or fits the buffer together with all that follows it |
| `Framing.DeliveredUnlessOverrun` | src/protocol.c:1798-1824 | for one cutting, frames are delivered if and only if no read overruns |
| `Framing.OverrunIsPossible` | src/protocol.c:1798-1824 | one stream of two well-formed frames that one cutting into such reads delivers and another loses |
| `Framing.Receiver.Consume` | src/protocol.c:1759-1793 | the in-place loop delivers exactly the specified frames and keeps the specified rest |
| `Framing.Receiver.Pump` | src/protocol.c:1798-1824 | one read of the pump, the overrun branch included |
| `Framing.PumpAll` | src/protocol.c:1798-1824 | the receiver over any series of reads |
| `BleChunk.SplitReassembles` | src/ble-chunk.c:28-134 | for every MTU from 5 and every well-formed frame, split and pushed into a fresh or completed reassembler: more is asked for until the last chunk, then the same frame, the sequence wrap included |
| `BleChunk.ChunkOnTheAir` | src/ble-chunk.c:100-134 | in bytes: a header whose top bit says that more follows and whose others count modulo 128, then the next part of the frame, four bytes less than the MTU |
| `BleChunk.HeldIsSinceReset` | src/ble-chunk.c:28-98 | over arbitrary pushes, what is held is the concatenation of the bodies since the last reset, a ready frame has its declared length, and every error leaves the reset state |
| `BleChunk.Reassembler.TakeChunk` | src/ble-chunk.c:28-98 | one push into the in-place buffer |
| `BleChunk.RefusedExactly` | src/ble-chunk.c:28-98 | a write is refused exactly when it is empty, out of order, or its payload cannot be part of one frame of 4 to 1024 bytes that ends with a last chunk |
| `BleChunk.Split` | src/ble-chunk.c:100-134 | the loop hands out exactly the chunks of the frame, and stops at the first that is not taken |
| `Mnemonic.PressIsOk` | src/mnemonic-entry.c:187-399 | every key keeps the selector on an option of the current block and every committed word in the list |
| `Mnemonic.OnlyListedWords` | src/mnemonic-entry.c:283-358 | in every state that any keys lead to, every committed word is in the list |
| `Mnemonic.Spell` | src/mnemonic-entry.c:300-358 | every word can be committed by some keys from any of its prefixes |
| `Mnemonic.EveryPhraseIsReachable` | src/mnemonic-entry.c:300-358 | from a fresh word any phrase of listed words that still fits can be entered, in block and in flat mode |
| `Mnemonic.EveryPhraseFromReset` | src/mnemonic-entry.c:180-358 | in particular from the reset state, for 12 and for 24 words |
| `Mnemonic.MnemonicEntry.CollectMatches` | src/mnemonic-entry.c:51-66 | the words with the prefix, or too many |
| `Mnemonic.MnemonicEntry.ViableLetters` | src/mnemonic-entry.c:74-149 | exactly the letters allowed by the mask that continue some word |
| `Mnemonic.MnemonicEntry.Rebuild` | src/mnemonic-entry.c:74-149 | the option list rebuilt from the prefix |
| `Mnemonic.MnemonicEntry.ScrollBy` | src/mnemonic-entry.c:187-209 | scrolling wraps within the block or over the blocks |
| `Mnemonic.MnemonicEntry.AcceptSelected` | src/mnemonic-entry.c:300-358 | opens a block, appends a letter or commits a word, and nothing commits unconfirmed |
| `Mnemonic.MnemonicEntry.GoBack` | src/mnemonic-entry.c:360-399 | undoes a block, a letter or the last word |
| `MnemonicRules.SelectorIsRebuilt` | src/mnemonic-entry.c:74-149 | once at most eight words start with what is typed they are offered, in the order of the list; else the letters that continue a word, in order, and the commit; more than eight options in blocks of the least square |
| `MnemonicRules.TakeAddsTheSelected` | src/mnemonic-entry.c:300-358 | taking commits the selected word, the word typed or the only word left, or appends the letter; the phrase is done exactly when it has all its words |
| `MnemonicRules.UndoTakesTheLast` | src/mnemonic-entry.c:360-399 | undo takes the last letter, or opens the last word again without its last letter, and says when nothing is left |
| `MnemonicRules.UndoLeavesTheBlock` | src/mnemonic-entry.c:360-399 | in a block it goes back to choosing blocks, at that block |
| `MnemonicRules.UpAndDown` | src/mnemonic-entry.c:187-209 | up is the next option of the block, around its end, and down is back |
| `MnemonicRules.UpAndDownOverBlocks` | src/mnemonic-entry.c:187-209 | likewise over blocks |
| `Eip4527Order.SignatureReadsBack` | src/eip4527.c:424-497 | decoding what was written returns the id, the signature and the origin, for every origin of at most 64 bytes or none |
| `Eip4527Signature.AnswerOnTheWire` | src/eip4527-encode.c:111-141 | in bytes: a map, 1 and tag 37 with the id, 2 with the signature, 3 with the origin if there is one; decoding fills the three parts |
| `Eip4527Signature.AcceptedIsAnAnswer` | src/eip4527.c:424-497 | every answer accepted has an id of 16 bytes, a signature of 65, an origin of at most 64 or none, and nothing else |
| `Eip4527Order.PairOrderDoesNotMatter` | src/eip4527.c:299-420 | a document of valid pairs decodes to the very same result in every order, the reason for a refusal included |
| `Eip4527Order.AcceptedIsPairs` | src/eip4527.c:299-420 | every accepted document is a head and such pairs, so the order statement is about all of them |
| `Eip4527Order.PairsAreRead` | src/eip4527.c:299-420 | pairs one behind the other are read exactly when no key repeats |
| `Eip4527Order.DocumentDecodes` | src/eip4527.c:299-420 | such a document is refused for a repeated key, else for a missing one, else decodes to the table of its pairs |
| `Eip4527Order.ReasonIsFixed` | src/eip4527.c:299-420 | a document with an ill-formed pair is refused for one reason in every order if and only if all its ill-formed pairs have that reason, and it is a repeated key or no valid pair shares its key with another |
| `Eip4527Order.RefusalsDependOnOrder` | src/eip4527.c:299-420 | ill-formed pairs, among them a text in the place of a key, whose order decides which refusal is reported |
| `Eip4527Path.PathOrderDoesNotMatter` | src/eip4527.c:249-295 | the map of a keypath reads the same in every order of its valid pairs, wherever it stands, the reason for a refusal included |
| `Eip4527Path.KeypathIsRead` | src/eip4527.c:249-295 | valid pairs make a keypath exactly when no key repeats, which is all they can be refused for |
| `Eip4527Path.KeypathIsPairs` | src/eip4527.c:249-295 | every keypath that is read is a head and such pairs |
| `Eip4527.AtMostSevenTurns` | src/eip4527.c:319-394 | whatever pair count is declared, at most seven pairs are read |
| `Eip4527.FewTurns` | src/eip4527.c:319-394 | each turn uses up a key, whatever the schema |
| `Eip4527Io.Reader.ReadHead` | src/eip4527.c:67-99 | major type and argument, with the reserved, indefinite, simple and 64-bit forms refused and the position in bounds |
| `Eip4527Io.Reader.ReadPathComponents` | src/eip4527.c:213-246 | the loop over components reads exactly the specified list, each with its own flag |
| `Eip4527Io.Reader.ReadKeypathBody` | src/eip4527.c:249-295 | the loop with its seen flags reads exactly the specified keypath |
| `Eip4527Io.DecodeSignRequest` | src/eip4527.c:299-420 | fills the caller's structure as specified, and leaves it untouched on refusal |
| `Eip4527Request.RequestReadsBack` | src/eip4527.c:299-420 | whatever sign request is written, decoding gives it: id, data, type, chain, keypath with every flag, address and origin, and chain 1 when none was named |
| `Eip4527Request.AcceptedIsSensible` | src/eip4527.c:299-420 | every accepted request has its fields in their bounds and nothing behind it |
| `Eip4527Request.KeypathReadsBack` | src/eip4527.c:213-295 | a written keypath, up to twelve components with or without fingerprint and depth, is read as itself |
| `Eip4527Io.DecodeSignature` | src/eip4527.c:424-497 | fills the caller's structure as specified, and leaves it untouched on refusal |
| `Eip4527Io.WriteTag` | src/eip4527-encode.c:23-37 | the tag in its shortest form |
| `Eip4527Io.EncodeSignature` | src/eip4527-encode.c:111-141 | writes the specified bytes or returns 0, exactly when they do not fit or the origin is too long; what is written decodes to what was given |

## Left out

- Cryptography itself: keccak is a parameter; key derivation, ECDSA, the vault's and the session's ciphers are not modelled.
- Hardware, drivers and the scheduler: tasks appear only as interleaved atomic steps.
- Null-pointer checks and C string terminators inside arguments: byte strings are sequences with a length.
- `src/ui.c`, `src/session.c`, `src/slip39-backup.c`, the UR codecs and `src/qr-out.c` are not part of this model.
- `src/entropy.c`, `src/ble-name.c`, `src/blind-signing.c`, chain names, call and argument labels: settings, lookups and strings, with no state or arithmetic to speak of.
- `request_path` (src/protocol.c:517-566): which path a cable request names is a function of its bytes, and a parameter.
- Prompts other than transactions (messages, typed data, passphrases) do not claim the transaction slot and do not appear in `SigningSlot`.
- `eip4527_encode_account_hdkey` (src/eip4527-encode.c:51-109): a fixed sequence of the writers already modelled.
- The name of the field that an EIP-4527 refusal reports; the refusal code is modelled.
- The suggestion, the labels, the assembled phrase and the clearing of the word entry (src/mnemonic-entry.c:211-280, 401-427).
- PinWipe.Device.Write: a write happens or power is cut at it; flash can also refuse the attempt counter, the vault's verifier and the marker of a wipe while power stays on, but not an erasure, the removal of the marker, or mnemonics being stored. One vault update counts as one write.
- Mnemonic.MnemonicEntry.ScrollBy: for steps so large that the C addition overflows an `int` nothing is said; the keys take steps of one.
- PinWipe.LiveThrough: the events that set a PIN are those of a device without one; on a provisioned one `pin_set` compares without spending an attempt, and no bound on guesses is claimed for calls of it.
- PinWipe.GuessWithoutKnowing: guesses by `pin_verify` with any wrong PIN across boots; changes and set-ups are in `PinWipe.LiveThrough`.
- Airgap.StepKeepsInv: any number of submitting tasks and one worker, but one interface task that polls and acknowledges.
- Airgap.DoneIsFinished: the pixels shown and the encoding of the answer into QR parts are not modelled.
- QrCode.QRCode.InitText: versions 1 to 40 and a module buffer of exactly the size `qrcode_getBufferSize` gives; the source checks neither.
- Eip712.ScreenDeterminesMessage: the message hash, for one type table and primary type; the domain separator enters the digest as it was hashed and is not determined by the pages of the message.
- SigningEntrances.SignTransaction: one request from its first check to its reply, with any other tasks anywhere before it; steps of other tasks in the middle of it are in `SigningSlot`. Sessions, replies on the wire and the wallet's cryptography are parameters, and an address stands for its rendering.
- Eip712Order.KeyOrderDoesNotMatter: for documents whose maps have distinct keys and whose nesting stays within the limit of `cbor_skip`; beyond it the source itself refuses or takes the first of two equal keys.
- AbiDispatch.DecodeCall: the table is a parameter, and what a one-word argument is called on the screen is not modelled; of an ERC-20 approval, the warning for unlimited amounts.
- AbiRender.ShownIsDrawn: what the accessors return; the pages that `src/ui.c` draws of it are not part of this model.
- Eip4527Order.ReasonIsFixed: ill-formed pairs are those refused wherever they stand and whatever follows; a pair that runs into its neighbour has no place of its own.
- Eip712Written.TypedDataDigest: for documents with the four keys in one order, distinct keys in every map and nesting within the limit of `cbor_skip`; `Eip712Order.KeyOrderDoesNotMatter` carries it to any order of the keys.
- CableRequest.CableRequestIsRead: for requests whose values are nested within the limit of `cbor_skip`; of a repeated key the first counts.
- Eip4527Request.RequestReadsBack: for requests written in ascending order of their keys with heads in their shortest form; `Eip4527Order.PairOrderDoesNotMatter` carries it to any order.
