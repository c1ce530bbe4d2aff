# ec-ftp: a verified model of its codec and its file pipeline

ec-ftp compresses, encrypts and sends files. This project models the code that turns one byte
string into another on that way, and proves that the other side turns it back. It has two cores:
the LZMA codec in `src/lzma`, which `comp.c` calls on every chunk of a file, and the pipeline
around it in `enc.c`, `aes.c`, `comp.c` and `ecftp.c`. `dafny verify dfyconfig.toml` checks
everything.

## What is proved, part by part

**The LZMA codec, end to end.** The encoder is modelled with its registers (`low`, `range`, the
byte held back in `cache`, the pending 0xFF bytes) and its probability arrays; the decoder with its
one flat array and its lazy normalisation. Between them stands one description of the stream: which
range-coder events a symbol is written as, and which symbol a decoder reads.
- `RangeCoder`, `RangeEncoder`: arithmetic coding as nested intervals of exact numbers, and the
  register machine with delayed carry that refines it. Main results `RangeCoder.RoundTrip` and
  `RangeCoder.AdaptiveRoundTrip`.
- `LzmaContexts`, `LzmaLayout`, `ProbArrays`, `LzmaSymbols`, `LzmaMasks`: contexts named by what they
  predict, both memory layouts (no two contexts share a probability), the symbol layer, and the mask
  arithmetic on both sides. Main results `LzmaSymbols.SymSound` and `LzmaSymbols.SymUnique`.
- `LzmaEncoder`, `LzmaEncode`: the emission loops and the decision switch of the encoder, tied to that
  layer. `LzmaRun`: what symbols do to the output; main results `LzmaRun.ReadsParse`
  and `LzmaRun.InStepAtEverySymbol`.
- `LzmaFormat`: the same format described a second time, from the outside: the state as a function of the
  kinds of the last symbols (`LzmaFormat.StateHistory`), the last distances as a list, and the bits and contexts of
  every symbol in closed form.
- `LzmaDecoder`, `LzmaDecodeSymbol`, `LzmaDriver`: the decoder's macros and its main loop, tied to the
  same layer. `LzmaDictionary`: its cyclic dictionary as a window on an append-only output.
- `LzmaLib`: `LzmaLib.CompressThenUncompress` puts the two sides together for every source and every
  sound choice of symbols.

**The resumable decoder.** `LzmaDec` models the decoder object that may be stopped at any output limit
and at any end of its input, with `tempBuf` and `remainLen`. `LzmaDryRun`, `LzmaPeek` and `LzmaTryDummy`
show that the dry run, which adapts no probability, takes exactly the bytes of the real one, and that
a symbol takes at most 20 bytes. So `LzmaDec_DecodeToDic` never reaches its `SZ_ERROR_FAIL` exit, and
cutting input and output up differently only decides how much of one and the same output there is
(`LzmaDec.OutputsAgree`).

**The match finder.** `LzTree` is the binary search tree of suffixes on values, `LzSon` the same tree in
the cyclic `son` array, `LzFind` the pointer walk that changes it in place, `LzForest` all buckets
together, `LzChain` the hash chains of the other mode, `LzHash` and `LzShort` the short tables, and
`LzMatchFinder` the object with its limits, its wrap and its normalisation. `LzReports` says what is reported
over any run of positions; its main result `LzReports.NormalisationInvisible` is that lowering the positions
changes none of it. `LzLongest` says that nothing is missed: with `cutValue` no smaller than the window, every
match of four bytes or more in the window has a reported pair that is at least as long and at least as near.
`LzFindOpt` proves that the batched search with the long-match shortcut writes what one search per position
writes, and `LzHashThread` that the deltas it lives on are the ones the hash thread makes.
`MtSync` and `LzFindMt` are the three-thread protocol as a state machine, one shared access at a time; its
theorems hold in every interleaving. `LzMtEnds` proves that in every interleaving every call ends.

**Backward.** `LzmaBackward` turns a linked parse around in the array it is read from.

**The pipeline.** `AesField`, `AesSbox`, `AesColumns`, `Aes`, `AesKeys`: the block cipher in place, its
inverse, its tables and its key schedule. `EncChunk`, `Batches`, `EncFile`: padding and the plan of
batches and workers; the cipher is pinned down byte by byte (`Aes.EncryptStages`, `AesKeys.ExpKey`,
`EncFile.EncFile`), and `EncFile.RoundTrip` says exactly for which files decryption gives the content back.
`EcFrame`, `CompFile`, `UncompFile`: framing of chunks and the walk over their headers, with the exact outcome
on every file. `KeyAgreement`:
square-and-multiply and the four message rounds. `Ecftp` composes both sides
(`Ecftp.SendThenReceive`).

`Words` and `Masks` hold machine words, byte strings and the C operators they need.

## Where the code and its comments disagree

The model follows the code.
- The cipher is not the one of FIPS 197: `shift_rows` moves each of rows 1 to 3 by one place (section
  5.1.2 there has one, two and three), and `expkey` adds the round constant to all four bytes of a word
  (section 5.2 has one byte). The multiplication in the field and the two column matrices follow the
  standard. What is proved is what the code computes, and that decryption undoes encryption.
- `enc.c` and `comp.c` call their division of the file size "ceiled" (`src/enc.c:197`,
  `src/comp.c:304`). It is `size / part + 1`, which is one too many when the size is a multiple of the
  part. The last worker then has nothing to write,
  a write of nothing returns 0, and the function fails; with exactly one full batch the plan also asks
  for one worker more than the array of arguments holds. `Batches.Plan.Fits`, `EncFile.RoundTrip` and
  `CompFile.CompFile` state these cases exactly, and `EncFile.RoundTripFails` is a file that can be
  encrypted but not decrypted. In the last 2^24 sizes below 2^56 the 32-bit number of batches becomes 0,
  and an empty file is written without an error.
- `sq_mp` is documented as a^b mod c (`src/enc.c:55`). Its products wrap at 64 bits, so it is that only
  under conditions: `KeyAgreement.SqMpRightReduced`, `KeyAgreement.SqMpRight` and
  `KeyAgreement.SqMpRightBase` give them exactly, and `KeyAgreement.SqMpWraps` is an input under the
  program's own modulus.
- A comment in `dec_file` (`src/enc.c:553`) says that the output buffer is at least as long as the input
  when decrypting; because of the padding it is the other way round.

## Model

| member | source | states |
|---|---|---|
| RangeCoder.EncAllOk | src/lzma/LzmaEnc.c:738-792 | whatever is coded, the range stays in [2^24, 2^32) after every bit and every probability in [31, 2017] |
| RangeCoder.EventWithin | src/lzma/LzmaEnc.c:738-792 | the intervals nest: a number inside the interval after a bit is inside the one before it |
| RangeCoder.AllWithin | src/lzma/LzmaEnc.c:738-792 | the number that is finally emitted lies in every earlier interval, carries included |
| RangeCoder.EventInStep | src/lzma/LzmaDec.c:22-29 | one bit: if the decoder is in step with the encoder (its code is the emitted number minus low, its range and probabilities the same up to the lazy normalisation) it reads the bit that was coded and is in step again |
| RangeCoder.AllInStep | src/lzma/LzmaDec.c:22-29 | the same for any list of modelled and direct bits |
| RangeCoder.RoundTrip | src/lzma/LzmaEnc.c:674-792 | for every list of modelled and direct bits, from any legal probabilities: the first emitted byte is 0 despite carries, the decoder reads exactly those bits, ends with the same probabilities and range, has consumed every byte, and its code is 0 |
| RangeCoder.AdaptiveRoundTrip | src/lzma/LzmaDec.c:22-39 | the same for a decoder that knows only the bits it has read: under any strategy that picks contexts from earlier bits it reads back the bits that were coded |
| RangeCoder.AdaptShare | src/lzma/LzmaDec.c:24-26 | a coded bit leaves the probability of the other one at 31 parts of 32, rounded up |
| RangeCoder.BoundShare | src/lzma/LzmaEnc.c:738-792 | of the range a zero gets its probability's share in 2048ths, short of it by less than t; an unused context takes both bits for equally likely |
| RangeEncoder.CarryVal | src/lzma/LzmaEnc.c:699-729 | a carry into cache and a run of 0xFF bytes adds exactly one to the number they denote |
| RangeEncoder.EmitVal | src/lzma/LzmaEnc.c:699-729 | releasing cache and its pending bytes, carry applied, then taking in the next byte keeps the number: old value plus carry, times 256, plus the byte |
| RangeEncoder.RangeEnc.constructor | src/lzma/LzmaEnc.c:674-685 | a fresh encoder stands for the empty number with the full range |
| RangeEncoder.RangeEnc.ShiftLow | src/lzma/LzmaEnc.c:699-729 | the delayed-carry shift multiplies the number the object stands for by 256, grows its length by one and never rewrites a byte already out |
| RangeEncoder.RangeEnc.FlushData | src/lzma/LzmaEnc.c:731-736 | five shifts leave the whole number in the output, with no byte pending |
| RangeEncoder.RangeEnc.Normalize | src/lzma/LzmaEnc.c:738-738 | eager normalisation is the abstract one |
| RangeEncoder.RangeEnc.Bit0Base | src/lzma/LzmaEnc.c:780-781 | narrowing to the zero part of the interval and adapting the probability is the abstract step for a 0 |
| RangeEncoder.RangeEnc.Bit1Base | src/lzma/LzmaEnc.c:783-784 | the same for a 1 |
| RangeEncoder.RangeEnc.SelectHalf | src/lzma/LzmaEnc.c:758-773 | the masks built from the bit select the same interval as a branch on the bit would |
| RangeEncoder.AdaptByMask | src/lzma/LzmaEnc.c:758-773 | the branchless update is the branching one for every probability in [31, 2017] |
| RangeEncoder.RangeEnc.Bit | src/lzma/LzmaEnc.c:738-773 | RC_BIT on the registers and the array is one abstract modelled bit |
| RangeEncoder.RangeEnc.Direct | src/lzma/LzmaEnc.c:2614-2621 | one turn of the direct-bit loop is one abstract direct bit |
| LzmaLayout.InRegion | src/lzma/LzmaDec.c:139-151 | every context lies in the part of the flat decoder array, and of the encoder arrays, that is meant for its kind |
| LzmaLayout.LayoutsInjective | src/lzma/LzmaDec.c:139-187 | neither the decoder's single array nor the encoder's arrays let two different contexts share a probability |
| ProbArrays.EncViewUpdate | src/lzma/LzmaEnc.c:359-378 | writing one element of the encoder's arrays changes the probability of exactly one context |
| ProbArrays.DecViewUpdate | src/lzma/LzmaDec.c:25-26 | the same for the decoder's array |
| LzmaSymbols.JoinBits | src/lzma/LzmaDec.c:40-58 | a top bit and the bits below it joined to a number, and split again |
| LzmaSymbols.SlotRange | src/lzma/LzmaEnc.c:210-251 | the distances of slot s are exactly a range of 2^footerBits that starts at the slot base |
| LzmaSymbols.SlotOf | src/lzma/LzmaEnc.c:210-251 | conversely a distance in that range has slot s, so slot and footer determine the distance |
| LzmaSymbols.AlignSplit | src/lzma/LzmaEnc.c:2591-2637 | from slot 14 on the footer is a whole number of sixteenths: its low four bits are the align bits |
| LzmaSymbols.DistSound | src/lzma/LzmaDec.c:462-530 | whatever bytes are read, the distance read is one whose encoding is exactly the bits consumed |
| LzmaSymbols.DistUnique | src/lzma/LzmaDec.c:462-530 | if the bits ahead encode a distance, that distance is read |
| LzmaSymbols.SymSound | src/lzma/LzmaDec.c:255-546 | whatever the bytes, the symbol read is a valid one and the bits consumed are its encoding |
| LzmaSymbols.SymUnique | src/lzma/LzmaDec.c:255-546 | if the bits ahead are the encoding of a symbol, exactly that symbol is read and the decoder ends where the encoding ends |
| LzmaFormat.TreeAt | src/lzma/LzmaEnc.c:803-818 | bit i of a tree-coded value from the top is coded in the context of a one followed by the bits above it |
| LzmaFormat.MatchedAt | src/lzma/LzmaEnc.c:820-840 | the same for a literal behind a match, in a context that has the predicted byte's bit as well as long as all bits above agree with it |
| LzmaFormat.DirectAt | src/lzma/LzmaEnc.c:2614-2621 | direct bits run from the top bit of the value down |
| LzmaFormat.ReverseAt | src/lzma/LzmaEnc.c:914-929 | bit i of a reversed tree from the bottom is coded in the context of the bits below it |
| LzmaFormat.KindWords | src/lzma/LzmaEnc.c:2458-2560 | which kind of symbol follows is a word of flags, and in which contexts each flag is coded |
| LzmaFormat.LiteralBits | src/lzma/LzmaEnc.c:2470-2487 | each of the eight bits of a literal: its context by the low lp bits of the position and the high lc bits of the byte before, and behind a match by the byte at the last distance |
| LzmaFormat.LengthWords | src/lzma/LzmaEnc.c:942-975 | lengths 2 to 9, 10 to 17 and 18 to 273 have their own trees, chosen by two flags at most |
| LzmaFormat.DistanceWords | src/lzma/LzmaEnc.c:2557-2637 | a match's distance is six bits of slot in one of four trees, by the lengths 2, 3, 4 and more, and its offset in the slot's range: nothing below slot 4, reversed bits below 14, else plain bits and four aligned ones |
| LzmaEncoder.TreeEncode | src/lzma/LzmaEnc.c:803-818 | the shifted-symbol loop codes the bits of the symbol from the top, each in the context of the bits above it |
| LzmaEncoder.LitEncodeMatched | src/lzma/LzmaEnc.c:820-840 | the masked loop codes a literal in contexts chosen by the predicted byte until the first bit that differs, then plainly |
| LzmaEncoder.ReverseEncode | src/lzma/LzmaEnc.c:914-929 | the bits of the symbol are coded from the bottom, each in the context of the bits below it |
| LzmaEncoder.LenEncode | src/lzma/LzmaEnc.c:942-975 | the unrolled low and middle trees and the high tree code a length below 272 |
| LzmaEncoder.FastPosInit | src/lzma/LzmaEnc.c:210-225 | the table gives the slot of every distance below 2^14 |
| LzmaEncoder.GetPosSlot | src/lzma/LzmaEnc.c:240-251 | a table look-up, shifted for large distances, gives 2*floor(log2 d) plus the next bit for every 32-bit distance from 2 on |
| LzmaEncoder.SentinelBegin | src/lzma/LzmaEnc.c:2602-2602 | the distance with its low four bits set, shifted up by 32 - footerBits, holds the middle bits with a sentinel of four ones behind them |
| LzmaEncoder.SentinelStep | src/lzma/LzmaEnc.c:2614-2621 | each doubling shifts out exactly the next middle bit |
| LzmaEncoder.SentinelEnds | src/lzma/LzmaEnc.c:2621-2621 | the word is 0xF0000000 exactly when no middle bit is left, so the loop terminates there and not before |
| LzmaEncoder.DirectEncode | src/lzma/LzmaEnc.c:2600-2621 | the sentinel loop codes exactly the footerBits - 4 middle bits |
| LzmaEncode.NextTables | src/lzma/LzmaEnc.c:634-637 | the four state tables are the state changes that both sides are proved against; which states these are is LzmaFormat.StateHistory |
| LzmaEncode.FarDistance | src/lzma/LzmaEnc.c:2591-2637 | slot base, middle bits and align bits rebuild every distance from 128 up |
| LzmaEncode.PutFooter | src/lzma/LzmaEnc.c:2591-2637 | both footer forms code the distance's offset in its slot |
| LzmaEncode.PutDistance | src/lzma/LzmaEnc.c:2574-2637 | slot and footer together are the encoding the decoder inverts |
| LzmaEncode.PutLiteral | src/lzma/LzmaEnc.c:2470-2487 | the literal is coded plainly or matched by the state, in the context of position and previous byte |
| LzmaEncode.PutRep | src/lzma/LzmaEnc.c:2494-2556 | the repeat flags and, unless it is a short rep, the length |
| LzmaEncode.PutMatch | src/lzma/LzmaEnc.c:2557-2637 | the length and the distance of a match |
| LzmaEncode.CodeDecision | src/lzma/LzmaEnc.c:2458-2639 | one decision emits the encoding of its symbol and leaves state and reps as LzmaFormat.StateHistory and LzmaFormat.DistsMove have them |
| LzmaEncode.LzmaEnc.CodeSymbol | src/lzma/LzmaEnc.c:2458-2639 | the same on the object: its code grows by exactly the symbol's encoding |
| LzmaEncode.LzmaEnc.CodeFirst | src/lzma/LzmaEnc.c:2418-2431 | the first byte of a stream, with no byte before it and its fixed contexts |
| LzmaEncode.LzmaEnc.Flush | src/lzma/LzmaEnc.c:2204-2213 | flushing leaves the bytes of everything coded |
| LzmaEncode.ParseLegal | src/lzma/LzmaEnc.c:2458-2639 | the symbols of a sound parse are legal one after another and together produce the source |
| LzmaEncode.EncodeBlock | src/lzma/LzmaEnc.c:2396-2693 | for any parser whose decisions are sound, the bytes are the flushed encoding of a leading literal and the decided symbols |
| LzmaRun.CopyPeriod | src/lzma/LzmaDec.c:570-589 | every byte a match appends equals the byte dist positions before it, overlap included |
| LzmaRun.CopySplit | src/lzma/LzmaDec.c:563-569 | a copy stopped after some bytes and resumed is the whole copy |
| LzmaRun.ApplyInv | src/lzma/LzmaDec.c:255-593 | every legal symbol keeps the state, the reps and the reach bounds, and adds to the output |
| LzmaFormat.StateHistory | src/lzma/LzmaEnc.c:634-637 | after any list of symbols the state is a function of the kinds of its last ones: below 7 exactly after a literal or at the start; a match, repeat or short repeat behind a literal gives 7, 8 or 9 and behind another 10, 11 or 11; the literals after that give 4, 5, 6, 4, 5, then 1, 2, 3, 1, 2, then 0 |
| LzmaFormat.DistsMove | src/lzma/LzmaDec.c:345-385 | the four last distances are a list: a repeat moves its distance to the front, a new match pushes the oldest out, literals and short repeats leave it |
| LzmaFormat.SymbolWrites | src/lzma/LzmaDec.c:548-590 | a literal adds its byte, a short repeat one and a match or repeat its length of bytes, each equal to the one as far back as the symbol's distance says |
| LzmaRun.SymDecReady | src/lzma/LzmaDec.c:255-595 | reading a symbol keeps the decoder in its legal range and takes at most 20 bytes |
| LzmaRun.ReadsParse | src/lzma/LzmaDec.c:233-611 | reading the encoding of a legal symbol list gives exactly those symbols: the state, reps and output they make, and the decoder that has read their events |
| LzmaRun.InStepAtEverySymbol | src/lzma/LzmaDec.c:233-611 | symbol round trip: after every symbol the decoder's state, reps and output are those of the symbols so far, and its range, probabilities and code those of the encoder at that boundary |
| LzmaDryRun.SymTidy | src/lzma/LzmaDec.c:715-904 | no symbol asks for a context twice, and a symbol is at most 22 modelled and 26 direct bits, or 23 modelled bits |
| LzmaDryRun.DryRunAgrees | src/lzma/LzmaDec.c:715-904 | a decoder that updates no probability reads the same symbol and the same bytes as the real one |
| LzmaDryRun.WorstCases | src/lzma/LzmaDec.c:192-211 | the worst cases narrow the range by less than a factor 256^20 |
| LzmaDryRun.InputBound | src/lzma/LzmaDec.h:48-51 | from any normalised decoder with legal probabilities, whatever the bytes, one symbol with its final normalisation takes at most 20 bytes |
| LzmaDecoder.GetBit | src/lzma/LzmaDec.c:24-30 | IF_BIT_0 with its updates on registers and array is one abstract modelled bit, lazily normalised |
| LzmaDecoder.TreeDecode | src/lzma/LzmaDec.c:40-44 | a bit tree walked by its index gives the number of its bits |
| LzmaDecoder.RevDecode | src/lzma/LzmaDec.c:475-486 | the loop in which the distance itself is the tree index gives base plus the reversed bits |
| LzmaDecoder.AlignDecode | src/lzma/LzmaDec.c:515-521 | the unrolled align tree gives its four bits |
| LzmaDecoder.SignMask | src/lzma/LzmaDec.c:497-501 | the sign mask restores the code exactly when half the range was too much, and contributes the inverted sign |
| LzmaDecoder.DirectDecode | src/lzma/LzmaDec.c:490-512 | the subtract-and-mask loop appends exactly the direct bits |
| LzmaDecoder.MatchedMasks | src/lzma/LzmaDec.c:60-68 | the mask arithmetic of a matched literal addresses the context of the predicted bit and drops the prediction at the first difference |
| LzmaDecoder.MatchedLiteral | src/lzma/LzmaDec.c:304-315 | eight turns of it read a matched literal |
| LzmaDecoder.LenDecode | src/lzma/LzmaDec.c:426-459 | the length part reads a length in the right one of its three trees |
| LzmaDecoder.NearFooter | src/lzma/LzmaDec.c:473-487 | slots 4 to 13: base plus a reversed footer |
| LzmaDecoder.FarFooter | src/lzma/LzmaDec.c:488-522 | slots from 14: base plus direct bits plus align bits |
| LzmaDecoder.DistDecode | src/lzma/LzmaDec.c:462-530 | the distance part reads the distance that was coded |
| LzmaDictionary.DicWrap | src/lzma/LzmaDec.c:1210-1211 | starting over at the front of a full dictionary loses nothing that can still be referred to |
| LzmaDictionary.CopyMatch | src/lzma/LzmaDec.c:548-590 | the straight and the wrapping copy loop both append out[n - rep0] byte by byte and touch only the bytes they append |
| LzmaDictionary.CopyRem | src/lzma/LzmaDec.c:616-652 | so does the loop of LzmaDec_WriteRem |
| LzmaDecodeSymbol.ReachOf | src/lzma/LzmaDec.c:532-543 | checkDicSize or processedPos is exactly how far back the output and the dictionary reach, 32-bit wrap included |
| LzmaDecodeSymbol.DecodeLiteral | src/lzma/LzmaDec.c:263-321 | a literal is read, written and counted |
| LzmaDecodeSymbol.DecodeMatch | src/lzma/LzmaDec.c:462-590 | a match is copied as far as the limit allows; the end mark and a distance out of reach are told apart |
| LzmaDecodeSymbol.DecodeSymbol | src/lzma/LzmaDec.c:255-592 | one turn of the loop carries out exactly the symbol that is read, and stops for the end mark, a bad distance or a full limit |
| LzmaDriver.FirstSymbol | src/lzma/LzmaDec.c:655-668 | a first code below the bound is exactly that of a literal or a match with its own distance, so a repeat never reads an empty dictionary and nothing else is refused |
| LzmaDriver.EnoughInput | src/lzma/LzmaDec.c:1082-1097 | a symbol that starts before bufLimit ends inside the input |
| LzmaDriver.DecodeReal | src/lzma/LzmaDec.c:233-611 | the loop performs some number of symbols of the stream, all but the last of them started below the limit; registers, array and dictionary stand for the result |
| LzmaTryDummy.PeekSymbol | src/lzma/LzmaDec.c:715-890 | the checked macros report the end of the input exactly when the symbol needs a byte beyond it |
| LzmaTryDummy.TryDummy | src/lzma/LzmaDec.c:715-904 | TryDummy reports the end of the input exactly when the real decoder's symbol would run over it, else the symbol's kind and the bytes it takes |
| LzmaResume.MovedSteps | src/lzma/LzmaDec.c:1044-1174 | symbols read from a copy of the same bytes elsewhere are the same |
| LzmaResume.OutputGrows | src/lzma/LzmaDec.c:233-611 | later stages of a run only extend the output |
| LzmaDec.LocalGlobal | src/lzma/LzmaDec.c:1127-1174 | what the next symbol takes is the same read from a piece of the stream or from all of it |
| LzmaDec.Rebase | src/lzma/LzmaDec.c:1044-1174 | symbols already read do not depend on the bytes after them |
| LzmaDec.TiedWrap | src/lzma/LzmaDec.c:1210-1211 | the decoder stands for the same output when dicPos goes back to 0 |
| LzmaDec.OutputsAgree | src/lzma/LzmaDec.c:952-1196 | stopping at any sequence of limits with the input cut up anyhow only decides how much of one and the same output there is |
| LzmaDec.CLzmaDec.WriteRem | src/lzma/LzmaDec.c:616-652 | writes as much of the pending copy as the limit allows and keeps everything else the object stands for, checkDicSize included |
| LzmaDec.CLzmaDec.DecodeReal2 | src/lzma/LzmaDec.c:671-700 | the run with the limit drawn in keeps the checkDicSize relation |
| LzmaDec.CLzmaDec.RunPiece | src/lzma/LzmaDec.c:1082-1110 | a run from a piece of the stream is a run of the stream |
| LzmaDec.CLzmaDec.Probe | src/lzma/LzmaDec.c:1044-1065 | TryDummy on a piece of the stream, and what it says of the whole |
| LzmaDec.CLzmaDec.FromInput | src/lzma/LzmaDec.c:1039-1110 | decoding straight from the input never reaches the SZ_ERROR_FAIL exit, because the dry run and the real run take the same bytes |
| LzmaDec.CLzmaDec.FromTemp | src/lzma/LzmaDec.c:1112-1189 | nor does decoding out of tempBuf |
| LzmaDec.CLzmaDec.Init | src/lzma/LzmaDec.c:906-926 | an object that has been used, whatever state it is in, stands for an empty stream again |
| LzmaDec.CLzmaDec.StartUp | src/lzma/LzmaDec.c:959-999 | the five start bytes, taken in any number of pieces, with the checks on the first byte and on the code |
| LzmaDec.CLzmaDec.MainLoop | src/lzma/LzmaDec.c:1001-1196 | what each result and status says about the stream, for every call |
| LzmaDec.CLzmaDec.DecodeToDic | src/lzma/LzmaDec.c:952-1196 | every call keeps the object valid, takes a prefix of its input, extends the output by exactly the dictionary bytes it wrote, and never returns SZ_ERROR_FAIL |
| LzmaDec.CLzmaDec.DictionaryTail | src/lzma/LzmaDec.c:1200-1238 | in every reachable state the dictionary is the tail of the append-only output |
| LzmaDec.CLzmaDec.Wrap | src/lzma/LzmaDec.c:1210-1211 | wrapping dicPos leaves the output unchanged |
| LzmaDec.CLzmaDec.DecodeToBuf | src/lzma/LzmaDec.c:1200-1238 | what is handed over is exactly what the output grew by, and each result and status says about the stream what it says for DecodeToDic, full meaning that all bytes asked for are there |
| LzmaLib.PropsDecodeOk | src/lzma/LzmaDec.c:1258-1282 | the properties are accepted exactly when five bytes are there and the first is below 225; it is then 45 pb + 9 lp + lc, the others hold the dictionary size from its lowest byte on, and no size below 4096 is taken |
| LzmaLib.AlignedDicSize | src/lzma/LzmaEnc.c:3056-3089 | the dictionary size written is the next multiple of 2^20, or below 2^21 the next of 2^n and 3 * 2^n, or the size itself where rounding up leaves 32 bits |
| LzmaLib.WriteProperties | src/lzma/LzmaEnc.c:3056-3089 | the first byte is 45 pb + 9 lp + lc and the others the aligned size from its lowest byte on; decoding gives lc, lp and pb back and a dictionary at least as large |
| LzmaLib.LzmaDecode | src/lzma/LzmaDec.c:1340-1363 | what the answer says about the source, start bytes included; SZ_ERROR_FAIL is impossible; unsupported exactly for undecodable properties |
| LzmaLib.BlockDecodes | src/lzma/LzmaDec.c:233-611 | the symbols of a block are read back from its bytes, every byte read and the code 0 |
| LzmaLib.AnswersAgree | src/lzma/LzmaDec.c:1340-1363 | for any bytes, properties and room there is one answer: how many symbols are read, the output and the result are determined |
| LzmaLib.BlockAnswer | src/lzma/LzmaDec.c:1340-1363 | on a block's bytes, with room for as many bytes as the source has, the source is an answer without an end mark |
| LzmaLib.PackedUndone | src/lzma/LzmaLib.c:35-40 | what compression left of a source has, with the source's size, the source for its successful answer |
| LzmaLib.LzmaCompress | src/lzma/LzmaLib.c:9-32 | the block of the source under the given properties and decisions if it fits, else SZ_ERROR_OUTPUT_EOF and as much of it as fits |
| LzmaLib.LzmaUncompress | src/lzma/LzmaLib.c:35-40 | on any bytes it succeeds exactly when they have a successful answer, with a good start and all symbols up to the end mark or the limit there, and gives the one output that is |
| LzmaLib.CompressThenUncompress | src/lzma/LzmaLib.c:9-40 | end to end: any source through any sound parse comes back whenever its block fits, and the first packed byte is 0 |
| LzTree.Squeeze | src/lzma/LzFind.c:871-938 | between two strings that share m bytes with a third, every string shares them |
| LzTree.Beyond | src/lzma/LzFind.c:871-938 | a string on the far side of y from z shares no more with z than y does |
| LzTree.SplitHeap | src/lzma/LzFind.c:871-938 | what a cut-off walk leaves on either side is newest-at-the-root, inside the window and without a position twice |
| LzTree.SplitSorted | src/lzma/LzFind.c:871-938 | and ordered around the new position on strings cut off at lenLimit |
| LzTree.InsertKeeps | src/lzma/LzFind.c:871-997 | after every insertion the tree is again a heap on positions and a search tree on strings |
| LzTree.SplitLoses | src/lzma/LzFind.c:871-938 | unless cutValue ends the walk, an insertion loses one position at most, and only one equal to the new one on lenLimit bytes |
| LzTree.SplitFinds | src/lzma/LzFind.c:907-912 | and it does lose one if there is an equal one |
| LzTree.MatchesTrue | src/lzma/LzFind.c:871-938 | every reported pair is a true match inside the window and each is longer than the last |
| LzTree.MatchesBest | src/lzma/LzFind.c:871-938 | unless cutValue ends the walk, no position of the tree matches longer than the longest reported |
| LzTree.MatchesCover | src/lzma/LzFind.c:871-938 | unless cutValue ends the walk, every position of the tree that matches longer than the best so far is covered by a pair at least as long and at least as near |
| LzTree.MatchesFew | src/lzma/LzFind.c:871-938 | a walk reports no more than cutValue pairs |
| LzSon.SlotBack | src/lzma/LzFind.c:883-890 | the slot computed from a distance in the ring is the position's own slot |
| LzSon.WalkSplits | src/lzma/LzFind.c:871-938 | the pointer walk through the son array leaves the two halves of the split under the new position's two cells and every other cell as it was |
| LzFind.StartIsSound | src/lzma/LzFind.c:894-901 | starting the comparison at min(len0, len1) skips only bytes that are equal |
| LzFind.CommonLength | src/lzma/LzFind.c:894-901 | the comparison loop finds the common length |
| LzFind.Descend | src/lzma/LzFind.c:915-931 | one turn of the walk keeps both bounds and the pointers' meaning |
| LzFind.TakeOver | src/lzma/LzFind.c:907-912 | an equal node gives both its sons to the new position |
| LzFind.GetMatchesSpec1 | src/lzma/LzFind.c:871-938 | reports exactly the matches of the tree walk and leaves exactly the split tree in the array |
| LzFind.SkipMatchesSpec | src/lzma/LzFind.c:941-997 | leaves exactly the array a search leaves |
| LzHash.H2Determines | src/lzma/LzFind.c:39-54 | equal two-byte hashes and equal first bytes make the second bytes equal |
| LzHash.H3Determines | src/lzma/LzFind.c:39-54 | equal three-byte hashes and equal first bytes make the next two bytes equal |
| LzHash.HashBits | src/lzma/LzFind.c:39-54 | every bit of the three hashes: the exclusive or of the bits of the first byte's table entry, the second byte, the third one eight places up and the fourth one's entry five places up, as far as ten bits, sixteen bits or the mask go |
| LzForest.ForestInsert | src/lzma/LzFind.c:1118-1183 | a search in one bucket leaves every other bucket's tree as it was |
| LzForest.TreesOfArray | src/lzma/LzFind.c:871-997 | the array and the heads determine the trees |
| LzForest.ForestMoves | src/lzma/LzFind.c:1000-1019 | moving the window loses from the trees exactly what has left it |
| LzForest.ForestShorter | src/lzma/LzFind.c:412-448 | a shorter lenLimit near the end keeps the trees sorted |
| LzForest.ShiftMatches | src/lzma/LzFind.c:665-776 | a tree whose positions are lowered by no more than the window's edge gives the same lengths and distances |
| LzReports.SplitShift | src/lzma/LzFind.c:665-776 | inserting into a lowered tree leaves the lowered halves |
| LzReports.PruneShift | src/lzma/LzFind.c:665-776 | what leaves the window leaves the lowered tree alike |
| LzReports.RunAlike | src/lzma/LzFind.c:665-776 | after any number of positions, and any number of renumberings on the way, the trees are those of a finder that never lowers a position, lowered by an amount outside the window |
| LzReports.ShortsLowered | src/lzma/LzFind.c:1126-1180 | the short matches are the same for a lowered position |
| LzReports.NormalisationInvisible | src/lzma/LzFind.c:665-776 | after any number of positions Bt4 reports exactly what it would if no position were ever lowered |
| LzLongest.RunWhole | src/lzma/LzFind.c:871-1019 | with cutValue no smaller than the window, after any number of positions every position of the window is in its tree, or a newer one that is equal as far as strings are compared |
| LzLongest.BtLongest | src/lzma/LzFind.c:1118-1183 | so, after any number of positions, for every position of the window that matches for four bytes or more Bt4 reports a pair that is at least as long and at least as near |
| LzForest.ForestNormalised | src/lzma/LzFind.c:665-737 | saturating subtraction over heads and sons is the same trees with positions renumbered; what is outside the window becomes the empty value |
| LzForest.Normalize3 | src/lzma/LzFind.c:701-737 | the loop subtracts with saturation from every item |
| LzShort.Hit2 | src/lzma/LzFind.c:1134-1148 | a two-byte hash hit that passes the one-byte check is a two-byte match |
| LzShort.Hit3 | src/lzma/LzFind.c:1134-1163 | a three-byte hash hit that passes it is a three-byte match |
| LzShort.UpdateMaxLen | src/lzma/LzFind.c:1045-1050 | the short match is carried on to its full length |
| LzShort.ShortMatches | src/lzma/LzFind.c:1139-1180 | the pairs reported before the search are true matches in the window with increasing lengths; a two-byte hit is the first of them, and a three-byte hit makes the last one of three bytes at least, carried to its full length, at the hit's distance unless the two-byte hit shares three bytes itself |
| LzShort.HitsThere | src/lzma/LzFind.c:1126-1180 | in terms of the text: the newest position with the two-byte hash of this one, in the window and equal in the first byte, is the first pair; the newest one with its three-byte hash makes a pair of three bytes at least, at its own distance unless the two-byte one goes on that far |
| LzShort.TablesStore | src/lzma/LzFind.c:1126-1137 | after a position is entered both short tables again hold, for every hash, exactly the newest position |
| LzShort.TablesLowered | src/lzma/LzFind.c:701-776 | renumbered, they hold the newest positions that are left |
| LzMatchFinder.MatchFinder.constructor | src/lzma/LzFind.c:451-505 | for an input of any size: no position is known at first, and as much input is taken as 32 bits can count |
| LzMatchFinder.MatchFinder.ReadBlock | src/lzma/LzFind.c:117-135 | input that lies in memory is taken up to 2^32 - 1 bytes ahead |
| LzMatchFinder.MatchFinder.SetLimits | src/lzma/LzFind.c:412-448 | posLimit is reached no later than the next wrap of the ring, of 32 bits, or of the input |
| LzMatchFinder.MatchFinder.Normalize | src/lzma/LzFind.c:755-776 | renumbering keeps every tree and both short-hash tables; the ring slot of the position does not change |
| LzMatchFinder.MatchFinder.CheckLimits | src/lzma/LzFind.c:743-782 | the object is valid again, with more input taken when it had run down to keepSizeAfter, and with its trees renumbered exactly when the position is 2^32 and four bytes are left |
| LzMatchFinder.MatchFinder.MovePos | src/lzma/LzFind.c:1000-1019 | one position on, the trees lose only what left the window |
| LzMatchFinder.MatchFinder.EnterHashes | src/lzma/LzFind.c:1126-1137 | the three tables point to the new position; the two distances are those to the newest positions with the same short hashes, short matches if the first byte agrees |
| LzMatchFinder.MatchFinder.Search | src/lzma/LzFind.c:1139-1183 | short matches, then the tree's, or a skip when a short match already reaches lenLimit |
| LzMatchFinder.MatchFinder.Bt4GetMatches | src/lzma/LzFind.c:1118-1183 | in every reachable state all pairs are true matches in the window with strictly increasing lengths, what the short hashes hit is among them, every match of four bytes or more in the window has a pair at least as long and as near unless cutValue is below the window's size, and they are those that a finder with positions of any size reports; the trees are one step further |
| LzMatchFinder.MatchFinder.SkipOne | src/lzma/LzFind.c:1445-1458 | the trees are one step further, the same step as a search takes |
| LzMatchFinder.MatchFinder.Bt4Skip | src/lzma/LzFind.c:1445-1458 | after any number of skips the trees are those as many searches would leave |
| LzChain.MembersExactly | src/lzma/LzFind.c:789-867 | a bucket's chain is exactly the positions of the window with its four-byte hash |
| LzChain.HcGetMatchesSpec | src/lzma/LzFind.c:789-867 | the chain search reports, of the newest cutValue positions of the bucket in the window, each that matches longer than the newer ones, and writes one cell |
| LzChain.RecordsTrue | src/lzma/LzFind.c:789-867 | all of these are true matches in the window with strictly increasing lengths |
| LzChain.RecordsBest | src/lzma/LzFind.c:789-867 | none of the positions looked at matches longer than the last one reported |
| LzChain.RecordsCover | src/lzma/LzFind.c:789-867 | each of the newest cutValue members that matches longer than the best so far is covered by a pair at least as long and at least as near |
| LzChain.RecordsFew | src/lzma/LzFind.c:789-867 | no more than cutValue pairs are reported |
| LzLongest.HcLongest | src/lzma/LzFind.c:1258-1323 | with cutValue no smaller than the window Hc4 covers every position of the window that matches for four bytes or more |
| LzChain.ChainsEnter | src/lzma/LzFind.c:1258-1323 | a new position becomes the head of its bucket's chain and every other chain stays as it was |
| LzChain.ChainsMove | src/lzma/LzFind.c:1000-1019 | when the window moves on the chains end where it now begins |
| LzChain.ChainsNormalised | src/lzma/LzFind.c:701-776 | normalisation leaves the chains of the renumbered positions |
| LzChain.ShiftRecords | src/lzma/LzFind.c:701-776 | a chain whose positions are lowered by no more than the window's edge gives the same lengths and distances |
| LzReports.ChainReportedLowered | src/lzma/LzFind.c:701-776 | all that Hc4 reports is the same for the lowered text and position |
| LzMatchFinder.MatchFinder.Hc4GetMatches | src/lzma/LzFind.c:1258-1323 | in every reachable state all pairs are true matches in the window with strictly increasing lengths, what the short hashes hit is among them, every match of four bytes or more in the window has a pair at least as long and as near unless cutValue is below the window's size, and they are those that a finder with positions of any size reports |
| LzMatchFinder.MatchFinder.Hc4Skip | src/lzma/LzFind.c:1479-1520 | skipping in runs up to posLimit leaves chains and tables exactly as searching would |
| LzHashThread.StepBegins | src/lzma/LzFindMt.c:880-930 | both threads begin in step: at the same position, with empty tables |
| LzHashThread.GetHeads | src/lzma/LzFindMt.c:296-311 | the distances back to the previous position of each hash value are what the tree thread needs at its positions, and the table is in step again behind them |
| LzHashThread.FillBlock | src/lzma/LzFindMt.c:495-531 | a block is filled without the position wrapping, and lowering the positions before it changes no delta inside the window |
| LzHashThread.MetCut | src/lzma/LzFindMt.c:644-712 | a block of deltas may be used up in any pieces |
| LzHashThread.MetLowered | src/lzma/LzFindMt.c:660-665 | the deltas in hand stay right when the tree thread lowers its own positions |
| LzHashThread.MetDeltas | src/lzma/LzFindMt.c:644-712 | so every batch gets deltas that are right for both of its forms |
| LzFindOpt.OneByOne | src/lzma/LzFindMt.c:668-680 | the loop of one search per position until the buffer is full |
| LzFindOpt.TreeIterations | src/lzma/LzFindOpt.c:265-391 | a search by distances reports and leaves what GetMatchesSpec1 does |
| LzFindOpt.LongMatches | src/lzma/LzFindOpt.c:319-354 | while the next head is equally far back and the match goes on, copying the pair is what the full search would do |
| LzFindOpt.GetMatchesSpecN_2 | src/lzma/LzFindOpt.c:222-400 | the batched search leaves the array and writes the list that one GetMatchesSpec1 per position would, whatever numbering the deltas outside the window come from; its NULL exits are unreachable |
| LzFindOpt.ListedAt | src/lzma/LzFindOpt.c:222-400 | what is written of a position is its own length first, then lengths and distances in turn |
| LzFindOpt.SameBatch | src/lzma/LzFindOpt.c:222-400 | both forms stop at the same position |
| LzmaBackward.ChainCovers | src/lzma/LzmaEnc.c:1181-1225 | the steps of a well-formed parse cover exactly the bytes up to where it ends |
| LzmaBackward.Backward | src/lzma/LzmaEnc.c:1181-1225 | the steps come out in forward order, extra entries expanded; no entry is overwritten before it is read, nothing outside opt[optCur..optEnd) changes, and the lengths add up to cur |
| MtSync.SlotsDiffer | src/lzma/LzFindMt.c:34-42 | blocks less than a round apart have different slots |
| MtSync.StepKeeps | src/lzma/LzFindMt.c:119-185 | every step of consumer, producer or mover keeps the protocol invariant |
| MtSync.StepsAllowed | src/lzma/LzFindMt.c:119-185 | no semaphore goes past its maximum, no lock check exits, no event is set that is set already |
| MtSync.ReadSafe | src/lzma/LzFindMt.c:119-145 | the block the consumer reads is whole and is never the slot the producer writes |
| MtSync.InOrder | src/lzma/LzFindMt.c:119-145 | blocks are delivered in order, each exactly once |
| MtSync.StoppedMeansStopped | src/lzma/LzFindMt.c:148-185 | after StopWriting the producer has left its loop and nothing is pending |
| MtSync.MoverAlone | src/lzma/LzFindMt.c:464-480 | while the mover holds the lock the consumer is not in its buffer |
| MtSync.StopComes | src/lzma/LzFindMt.c:148-185 | whenever StopWriting waits, the producer has said it stopped or can still take a step towards it |
| LzFindMt.MtStepKeeps | src/lzma/LzFindMt.c:440-541 | every step of any of the three threads keeps the joint invariant |
| LzFindMt.ReachedInv | src/lzma/LzFindMt.c:440-786 | it holds in every state of every interleaving |
| LzFindMt.EveryReadSafe | src/lzma/LzFindMt.c:732-786 | every read is of a whole block off its producer's slot, with the reader's pointer at its byte of the stream |
| LzFindMt.MovesAlone | src/lzma/LzFindMt.c:464-480 | the buffer moves only while both locks are the hash thread's and nobody is in either buffer; afterwards all three pointers are on their bytes |
| LzFindMt.StopStopsBoth | src/lzma/LzFindMt.c:752-786 | once the encoder's StopWriting returned, both other threads are out of their loops and a new stream may start |
| LzFindMt.NothingOverflows | src/lzma/LzFindMt.c:119-185 | no thread overflows a semaphore or trips a lock check in any interleaving |
| LzFindMt.NoDeadlock | src/lzma/LzFindMt.c:108-185 | in every reached state in which the encoder is inside GetNextBlock or StopWriting, some thread can bring the call or a block further (that this can only go on for so long is LzMtEnds.EveryCallEnds) |
| LzFindMt.TreeNeverStuck | src/lzma/LzFindMt.c:732-786 | the same whenever the tree thread is at a block or stopping |
| LzFindMt.RenewedWhenNeeded | src/lzma/LzFindMt.c:873-877 | when the tree thread starts the hash thread again, that channel has been initialised since its last stop |
| LzMtEnds.LeftBounded | src/lzma/LzFindMt.c:34-42 | in every state that keeps the invariant, what is left to do is below a number that depends on the two rings' sizes only |
| LzMtEnds.StepPays | src/lzma/LzFindMt.c:119-185 | every step of any thread that touches what they share lowers what is left to do, except the encoder's beginning of another call |
| LzMtEnds.EveryCallEnds | src/lzma/LzFindMt.c:108-185 | in every interleaving a call of the encoder takes no more than that number of shared steps, and the steps cannot run out before the call has returned and the tree thread is out of its block: GetNextBlock and StopWriting end |
| AesField.MulAddLeft | src/aes.c:62-80 | multiplication distributes over exclusive or, on the left |
| AesField.MulAddRight | src/aes.c:62-80 | and on the right |
| AesField.MulComm | src/aes.c:62-80 | it is commutative |
| AesField.MulAssoc | src/aes.c:62-80 | and associative |
| AesField.MulIsProduct | src/aes.c:62-80 | it is the product of the two bytes as polynomials, modulo X^8 + X^4 + X^3 + X + 1 (section 4.2 of FIPS 197) |
| AesSbox.GMul | src/aes.c:62-80 | the eight-turn loop computes it |
| AesSbox.PairKept | src/aes.c:14-23 | the loop invariant p * q = 1 is kept by multiplying p by 3 and dividing q by 3 |
| AesSbox.OrderIs255 | src/aes.c:13-30 | p comes back to 1 after 255 turns and not before, so the loop terminates |
| AesSbox.AllVisited | src/aes.c:13-30 | by then p has been every non-zero byte |
| AesSbox.SubByteBack | src/aes.c:25-33 | the substitution (inverse, then affine) and its inverse undo each other |
| AesSbox.InitializeAesSbox | src/aes.c:10-34 | both tables are filled completely; each bit of an entry is the sum of five bits of the byte's inverse in the field and a bit of 0x63 (section 5.1.1 of FIPS 197), and the second table inverts the first |
| AesColumns.DotThrough | src/aes.c:82-106 | two matrices applied one after the other are their product |
| AesColumns.UnmixTimesMix | src/aes.c:82-106 | the product of the two matrices is the identity |
| AesColumns.UnmixMixed | src/aes.c:82-106 | gmix_column_inv undoes gmix_column |
| AesColumns.GmixColumn | src/aes.c:82-93 | the in-place column is the matrix of section 5.1.3 of FIPS 197 times the old one |
| AesColumns.GmixColumnInv | src/aes.c:95-106 | the same for section 5.3.3 |
| Aes.ShiftRows | src/aes.c:42-50 | rows 1 to 3 each move one place left, the source's own rule |
| Aes.ShiftRowsInv | src/aes.c:52-60 | and back |
| Aes.UnshiftShifted | src/aes.c:42-60 | one undoes the other |
| Aes.MixColumns | src/aes.c:108-122 | every column goes through the matrix, in place |
| Aes.MixColumnsInv | src/aes.c:124-138 | the same for the inverse matrix |
| Aes.RoundsMirror | src/aes.c:197-234 | round i of decrypt stands where encrypt stood before mixing its round 10 - i |
| Aes.DecryptEncrypt | src/aes.c:197-234 | for every block and any eleven round keys, decrypt undoes encrypt |
| Aes.EncryptStages | src/aes.c:197-213 | byte by byte: the first key is added, each of nine rounds makes of a row's byte twice its own, three times the next row's and the other two rows', all looked up and moved one place left in rows 1 to 3, plus the key's, and the last round leaves the mixing out |
| Aes.EncryptsOnly | src/aes.c:197-213 | there is no other block of which that is true |
| Aes.Encrypt | src/aes.c:197-213 | the in-place rounds are the cipher the inverse law is about, with the stages of Aes.EncryptStages |
| Aes.Decrypt | src/aes.c:215-234 | the in-place rounds are its inverse |
| AesKeys.ExpKey | src/aes.c:140-195 | byte by byte: the first round key is the cipher key, low bytes first; in each later one a byte of the first word adds the table at the next byte of the last word and the same power of X in all four bytes, and every other byte adds the one four places before |
| AesKeys.ScheduledOnly | src/aes.c:160-195 | there is one such schedule of a key |
| AesKeys.RoundKeyDetermines | src/aes.c:160-195 | two keys that share any one round key are equal: the schedule can be run backwards |
| EncChunk.ToColumnOrder | src/enc.c:74-83 | the block is transposed |
| EncChunk.ToRowOrder | src/enc.c:85-94 | and transposed back |
| EncChunk.BlockBack | src/enc.c:119-126 | deciphering a block undoes enciphering it, byte conversions and both orders included |
| EncChunk.CipherBack | src/enc.c:119-126 | the same for any whole number of blocks |
| EncChunk.EncryptChunkOfFile | src/enc.c:98-165 | a worker leaves the cipher of its part, filled up only when it does not fill its last block, and then by bytes that all hold how many they are; it fails exactly when its part is not all there |
| EncChunk.DecryptChunkOfFile | src/enc.c:396-439 | a worker leaves its blocks deciphered and cuts off what the last byte says, only on a marked chunk of whole blocks |
| Batches.Plan.Tiles | src/enc.c:186-270 | the batches and workers tile the file in order: each piece ends where the next starts, the last one has size mod 4194304 bytes and ends the file |
| Batches.Plan.Fits | src/enc.c:223-234 | the argument array is large enough for every size except exactly one full batch |
| EncFile.InitKeys | src/enc.c:206-209 | every worker uses tables that undo each other and the key's schedule |
| EncFile.PaddingBlock | src/enc.c:356-363 | the block of sixteen sixteens, enciphered without reordering, is the cipher of a full padding block |
| EncFile.EncFile | src/enc.c:168-393 | for every content below 2^56 bytes: one full batch overruns the array, other multiples of four mebibytes fail, the last 2^24 sizes give an empty file because the number of batches wraps to 0, and everything else gives, whatever the batches, the cipher of the content and k bytes of the value k behind it, 1 to 16 of them to make whole blocks: block for block the stages of Aes.EncryptStages under the key's schedule and the standard's table |
| EncFile.EncryptedIs | src/enc.c:168-393 | the same as a lemma about what a content encrypts to |
| EncFile.EnciphersOnly | src/enc.c:119-126 | there is only one cipher of the bytes that is block for block of that kind |
| EncFile.DecFile | src/enc.c:442-638 | for every file below 2^56 bytes, well-formed or not: failure, a read past the buffer, an empty file where the number of batches wraps, or the deciphered content less its padding: of the bytes that encipher to the file, as many go as their last byte says, unless that leaves nothing of the last piece |
| EncFile.RoundTrip | src/enc.c:168-638 | dec_file gives back what enc_file was given if and only if the number of batches does not wrap and neither the content nor its padded cipher is a multiple of four mebibytes |
| EncFile.RoundTripFails | src/enc.c:502-510 | a content of 4194299 bytes is encrypted and can never be decrypted |
| EcFrame.HeaderBack | src/comp.c:28-67 | a written header is read back, whatever its two sizes below 2^64 |
| EcFrame.FirstChunk | src/comp.c:574-660 | at the start of a file of chunks stands the first chunk's header, its body follows, and the rest is the file of the other chunks |
| EcFrame.BytesFramed | src/comp.c:28-46 | a chunk stands in the file as a flag, the size of its data and the size of what is kept in eight bytes each from the lowest on, and that: properties and packed bytes with the flag 1 exactly when together they are shorter than the data, else the data with the flag 0 |
| EcFrame.FileFrames | src/comp.c:449-490 | a file of chunks is one such frame after another and nothing else |
| CompFile.CompressChunk | src/comp.c:162-211 | a chunk is compressed exactly when its block fits the buffer of n + n/3 + 128 bytes |
| CompFile.WriteChunk | src/comp.c:449-490 | what is written has 17 bytes of header and the shorter of the data and its properties with packed bytes, flagged 1 exactly when the latter are shorter; an empty last chunk fails |
| CompFile.CompFile | src/comp.c:276-503 | for every content below 2^56 bytes and any sound parser: a file is written exactly when the size is not a multiple of 8000000 and every worker's block fits; it is then one frame for each worker's eight million bytes of the content, compressed exactly where that is shorter; exactly one full batch overruns |
| UncompFile.ReadJobs | src/comp.c:574-640 | eight headers at most are followed, each from where the last body ends, and fewer only where the file has no further header |
| UncompFile.UncompressChunk | src/comp.c:215-266 | a worker succeeds exactly when its bytes are there and, for a compressed chunk, have a successful answer, and leaves that answer, or the raw bytes and the header's count |
| UncompFile.ChunkLeft | src/comp.c:215-266 | of a chunk of comp_file's, compressed or raw, its worker leaves the data |
| UncompFile.OneEnd | src/comp.c:574-726 | there is one way through a file, and one place where nothing more can be written |
| UncompFile.WorkerDecides | src/comp.c:667-693 | a worker that fails keeps its whole round from being written, and the file from ending well or overrunning |
| UncompFile.ChunksBack | src/comp.c:512-726 | a file of comp_file's chunks gives back exactly their content |
| UncompFile.RawDecides | src/comp.c:512-726 | raw chunks with consistent headers give back their bytes if the file ends behind them, and overrun if bytes too few for a header follow |
| UncompFile.UncompFile | src/comp.c:512-726 | terminates on every file; it succeeds exactly when the headers lead to the end of the file over chunks that can all be written, and then gives what they hold; it accesses memory outside a buffer exactly when they lead to bytes too few for a header, or to a raw chunk that claims more than it holds in a round whose other workers succeed; every other file is refused |
| KeyAgreement.SquaringsArePower | src/enc.c:55-72 | from any state with 32-bit factors the loop ends with y times a^b modulo c |
| KeyAgreement.SqMp | src/enc.c:55-72 | the loop is right whenever the base and the modulus are within 32 bits, or the modulus divides 2^64 |
| KeyAgreement.SqMpRightReduced | src/enc.c:55-72 | for bases reduced first, the result is a^b mod c for all of them exactly when c is at most 2^32 or a power of two |
| KeyAgreement.SqMpRight | src/enc.c:55-72 | for bases as they come, exactly when c is a power of two: a divisor of 2^64 |
| KeyAgreement.SqMpRightBase | src/enc.c:55-72 | for one base and a modulus up to 2^32, exactly when what its square loses above 64 bits is a multiple of the modulus |
| KeyAgreement.SqMpModOne | src/enc.c:55-72 | modulo 1, exactly when the exponent is not 0 |
| KeyAgreement.SqMpWraps | src/ecftp.c:316-334 | under the modulus the program uses, a public value of 2^32, which nothing rules out, makes the shared value 0 where the power is 9801 |
| KeyAgreement.SharedFrom | src/ecftp.c:316-372 | either side computes the other's public value to its own secret as the same shared value |
| KeyAgreement.StepKeeps | src/ecftp.c:316-372 | every read or write of either program keeps the two in step |
| KeyAgreement.KeysAgree | src/ecftp.c:316-372 | in every interleaving both ends finish with the same four words, the shared secrets of section 2.1.1 of RFC 2631 |
| KeyAgreement.NeverStuck | src/ecftp.c:316-372 | until both have finished one of them can move |
| Ecftp.PrepareFile | src/ecftp.c:159-234 | succeeds exactly when compression does and the framed file is not a multiple of four mebibytes; what it leaves is the cipher, down to its bytes, of one frame for each eight million bytes of the file |
| Ecftp.ProcessReceivedFile | src/ecftp.c:249-312 | what decrypts is uncompressed with exactly the outcome uncomp_file has on it; what decrypts to a file of chunks gives their content |
| Ecftp.SendThenReceive | src/ecftp.c:159-312 | a file that could be prepared comes back from the other side if and only if the bytes sent are not a multiple of four mebibytes |

## Left out

Parts of the repository:
- Sockets, `select`, `fork`, command parsing and the user interface (`ecftpclient.c`, `ecftpserver.c`).
- `fopen`, `fseek`, short reads and writes, temporary file names and their removal, and failing
  `malloc`: files are byte strings, and a positioned reader is a slice of one. Only the write of nothing,
  which the callers take for a failure, is kept.
- Threads of `enc.c` and `comp.c` as threads: the workers touch disjoint buffers, so the model lets them
  go one after another. Setting a worker up, its work and its writing are kept in the source's order of
  batches.
- The other match finders (`Bt2`, `Bt3`, `Bt5`, `Hc5` and the zip ones): the same searches with other
  hash widths.
- Prices and the choice between parses (`GetOptimum`, `GetOptimumFast`): any parse whose symbols are true
  of the source may be encoded.
- The multithreaded match finder's creation and destruction of threads (`MtSync_Destruct`, failing
  `Thread_Create`) and `MixMatches`; its events, semaphores and critical sections are atomic steps.
- Input that comes from a stream into a sliding buffer of the single-threaded match finder
  (`MatchFinder_MoveBlock`, and `MatchFinder_ReadBlock` without `directInput`): the source lies in memory as
  a whole, as it does for `LzmaCompress`, and is taken from there in portions of up to 2^32 - 1 bytes. For
  the threads, the move of the buffer is part of the protocol.
- `writeEndMark`: `LzmaCompress` never asks for an end mark. The decoder's handling of one is modelled.
- The multi-call interface of LZMA2, the SIMD forms of saturating subtraction, `_LZMA_SIZE_OPT`, CPU
  detection and aligned allocation: platform code.
- FIPS 197 conformance, the strength of the cipher and of `rand()`, and authentication: not what the
  code provides.
- A bound on the compressed size: the code does not establish one; a block that does not fit its buffer is
  the outcome `TooLong`.

Differences of form:
- Loops that the source unrolls (eight bits of a literal, the bits of short trees) are loops or helper
  methods here; the mask arithmetic of matched literals is kept.
- Where the decoder adds a bit with `distance |= i` on bits that are zero, the model adds.
- The decoder's state after a match with its own distance is set to `kNumStates` more for a moment to
  remember the kind; the model has the two kinds as two methods.
- `MatchFinder_Normalize3` is modelled once per item; the source's blocks of aligned items give the same
  array.
- Reaching `SZ_ERROR_FAIL` in `LzmaDec_DecodeToDic`, and the `NULL` exits of `GetMatchesSpecN_2`, are assertions
  that they cannot be reached.
- Decoder positions and lengths are unbounded numbers; the 32-bit fields `processedPos`, `checkDicSize`,
  `low`, `range`, `code`, `pos` and the reps wrap where the source's do.

Contracts that are weaker than they could be:
- EncFile.EncFile: files of 2^56 bytes and more are excluded; the 32-bit number of batches is too small for them, and one worker would be asked to hold 2^56 bytes.
- EncFile.DecFile: the same limit on the size of the file.
- CompFile.CompFile: the same limit on the size of the file.
- UncompFile.UncompFile: a body that comp_file did not write is described by what the decoder answers on it (`LzmaLib.Undone`), not by a closed form.
- Ecftp.PrepareFile: files of 2^56 - 2^48 bytes and more are excluded, so that the framed file stays below the limit of its encryption.
- LzFindOpt.OneByOne: takes deltas up to the position only, because it computes the position less the delta, which would wrap; the batched form, the one that is compiled, takes all.
- LzmaDec.CLzmaDec.DecodeToDic: data errors are reported as in the source's default strict mode (`src/lzma/LzmaDec.c:938-949`); its relaxed mode, a compile-time choice, is not modelled.
- LzmaDec.CLzmaDec.constructor: the dictionary has the size it is given; the rounding in `LzmaDec_Allocate` is not modelled.
- LzTree.MatchesBest: holds when `cutValue` does not end the walk; what a walk that was cut off misses is not described.
- LzMtEnds.EveryCallEnds: counts the steps on what the threads share; how long a thread works inside one block is not counted, and the scheduler is taken to run some thread that can go on.
- MtSync.StopComes: one channel by itself; that the wait ends is stated for the three threads together, in `LzMtEnds.EveryCallEnds`.
