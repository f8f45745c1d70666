# Verification of mjpg-streamer

This project models the parts of mjpg-streamer in which data is decoded, framed, handed over and
kept, and proves what they do on every input and over every run:

- **Autofocus entropy decoder** (`Words`, `BitStreams`, `Stuffing`, `HuffmanTables`, `EntropyDecoder`,
  `ScanDecoder`, `EntropyEncoder`, `ScanRoundTrip`, `McuRoundTrip`, `BaselineCoding`, `StandardTables`). The decoder's code (lookup
  arrays, 32-bit window, mask matching, destuffing, run/size loop, MCU loop) is proved against
  functions on a bit stream; the encoder of ITU-T T.81 (Annex C and sections F.1.2.1 to F.1.2.3) is
  written as a specification, and decoding is proved to invert it, from the stuffed bytes of a whole
  scan to the coefficients of every block, exactly when no block needs the last code of a table. Words are natural numbers with explicit 32-bit shifts,
  because the C code shifts signed ints; memory is a total function, because `fgetc_` has no bounds
  check.
- **Multipart stream** (`Extractor`, `ResetMatcher`, `HeaderDetection`, `StreamPrinter`,
  `PartReader`, `MultipartRoundTrip`). The parser of input_http on what output_http prints, for all pictures,
  sizes and timestamps, with the exact condition under which every picture arrives; and a client that goes
  by the header fields, which reads back every picture with its time.
- **Frame hand-off** (`FrameHandoff`, `RaspicamEncoder`, `RaspicamHandoff`, `FrameDropping`). The mutex
  and condition variable protocol between one writer and any number of consumers as a state machine over
  single steps, the raspicam callback that holds the mutex across calls, as such a writer, and the choice
  of frames.
- **HTTP input** (`BufferedReader`, `Base64InPlace`, `PercentDecoding`, `CStrings`). The right-aligned input
  buffer as a byte queue, and the two decoders that work in place.
- **Pictures and devices** (`DhtInsertion`, `PixelConversion`, `PictureNames`, `PictureRing`, `PanTilt`).
- `Options`, `Sequences`, `Decimals` and `Division` hold shared definitions.

What the socket, the clock, the folder listing or the camera answers is a parameter of the model. `char`
is taken as signed, as on the platforms where `push_byte` extends the sign of its argument.

## Results that a reader of the code may not expect

- Destuffing is right exactly when every 0xFF among the first two data bytes, and every 0xFF right
  after another one, has only zero bytes behind it (`Stuffing.UndoneIffSafe`).
- The last entry of a Huffman table can never be decoded (`EntropyEncoder.SymbolDecoding`). The lookup
  arrays have room for 162 entries and baseline coding has 162 AC symbols, so whatever baseline tables a
  picture has, some block that they code is refused (`BaselineCoding.SomeBlockRefused`). With the tables
  of huffman.h these are the blocks with a DC difference of 11 bits or with a value of 10 bits behind 15,
  31 or 47 zeros, and no others (`StandardTables.InsertedRoundTrip`).
- `is_crlf` tests bits, not equality. "OK" has the bits of CRLF, so the status line alone ends the
  header, and the first callback is handed the rest of the response header as a picture
  (`MultipartRoundTrip.ResponseDelivered`). A byte of 0x80 or more ends a header whenever it has the bits
  of LF (`HeaderDetection.HighByteCompletes`).
- The reset-only matcher misses a boundary unless it stands at its start there, which depends on the
  dashes in front modulo 3 and on a beginning of a boundary before them (`ResetMatcher.BoundaryFoundIff`):
  a third dash hides a boundary, and so does "--b" (`ResetMatcher.ThreeDashesMissed`,
  `ResetMatcher.BeginningMissed`).
- A picture without a match that together with its delimiter does not fit the buffer, which is one of more
  than 262121 bytes, makes the parser deaf for good (`MultipartRoundTrip.Overflows`,
  `MultipartRoundTrip.StaysDeaf`).
- Consumers wait without a loop around the wait, so a spurious wakeup can send one publication twice
  (`FrameHandoff.SpuriousWakeupsRepeat`); it does exactly when nothing is broadcast between the two
  relocks (`FrameHandoff.RepeatedIffNoBroadcast`).
- A raspicam end flag on an empty frame stores, broadcasts and unlocks without the mutex; one is enough to
  send a picture with the time of another (`RaspicamHandoff.EmptyEndTears`).
- The picture with counter 10^9 sorts in front of the one before it (`PictureNames.TenDigitsSortFirst`);
  which names sort in the order of storing is decided by `PictureNames.NamesSortIff`.

## Model

| member | source | states |
|---|---|---|
| Words.TopBits | mjpg-streamer-experimental/plugins/output_autofocus/processJPEG_onlyCenter.c:189 | the arithmetic shift and mask that read a magnitude give the top bits of the window, whatever the sign bit is |
| Stuffing.UndoneIffSafe | mjpg-streamer-experimental/plugins/output_autofocus/processJPEG_onlyCenter.c:133-149 | on data stuffed as in section F.1.2.3 the bytes fed to the window are the data if and only if no unhandled 0xFF is followed by a nonzero byte |
| Stuffing.ByteVal | mjpg-streamer-experimental/plugins/output_autofocus/processJPEG_onlyCenter.c:138-150 | eight stream bits from a byte boundary on spell the byte fed to the window |
| HuffmanTables.CodesFitIffKraft | mjpg-streamer-experimental/plugins/output_autofocus/processJPEG_onlyCenter.c:98-114 | every Annex C code fits its length if and only if the Kraft inequality holds |
| HuffmanTables.UnambiguousIffKraft | mjpg-streamer-experimental/plugins/output_autofocus/processJPEG_onlyCenter.c:98-114 | any 32-bit window matches at most one mask/bits row if and only if the Kraft inequality holds |
| HuffmanTables.LeftJustifiedIncrease | mjpg-streamer-experimental/plugins/output_autofocus/processJPEG_onlyCenter.c:105-112 | left-justified codes strictly increase along the table |
| HuffmanTables.MatchesIffTop | mjpg-streamer-experimental/plugins/output_autofocus/processJPEG_onlyCenter.c:153 | a row matches a window exactly when the window's top bits are the row's code |
| HuffmanTables.HuffmanTable.Build | mjpg-streamer-experimental/plugins/output_autofocus/processJPEG_onlyCenter.c:98-114 | the nested build loop fills the lookup arrays with the codes that the flow charts of Annex C assign, cut to their length, row k with the k-th symbol and the k-th length |
| HuffmanTables.HuffmanTable.BuildLength | mjpg-streamer-experimental/plugins/output_autofocus/processJPEG_onlyCenter.c:104-111 | the inner loop adds exactly the rows of one code length |
| StandardTables.InsertedTablesDecodable | mjpg-streamer-experimental/plugins/input_uvc/huffman.h:26-62 | the four tables of the segment that input_uvc inserts are unambiguous for the decoder |
| StandardTables.InsertedLast | mjpg-streamer-experimental/plugins/input_uvc/huffman.h:26-62 | the last codes of the inserted tables are those of DC size 11 and of run 15 with size 10 |
| StandardTables.InsertedRoundTrip | mjpg-streamer-experimental/plugins/input_uvc/huffman.h:26-62 | with the inserted tables a baseline block is decoded if and only if its DC difference does not have size 11 and no coefficient of size 10 has 15 zeros, modulo 16, in front of it |
| StandardTables.RefusedBlock | mjpg-streamer-experimental/plugins/input_uvc/huffman.h:47-61 | the block with the value 512 behind 15 zeros is coded and refused |
| EntropyDecoder.FirstMatch | mjpg-streamer-experimental/plugins/output_autofocus/processJPEG_onlyCenter.c:151-163 | the entry found is the first one whose code stands at the position |
| EntropyDecoder.PutByte | mjpg-streamer-experimental/plugins/output_autofocus/processJPEG_onlyCenter.c:139-148 | or-ing a byte below the unread bits extends the window by the next eight stream bits |
| EntropyDecoder.WindowTop | mjpg-streamer-experimental/plugins/output_autofocus/processJPEG_onlyCenter.c:153 | the top bits of the window are the next bits of the stream |
| EntropyDecoder.WindowDrop | mjpg-streamer-experimental/plugins/output_autofocus/processJPEG_onlyCenter.c:164 | shifting the window drops exactly the bits consumed |
| EntropyDecoder.WindowFinds | mjpg-streamer-experimental/plugins/output_autofocus/processJPEG_onlyCenter.c:151-163 | with 16 bits in the window, searching it is searching the stream |
| EntropyDecoder.AcLoopBounds | mjpg-streamer-experimental/plugins/output_autofocus/processJPEG_onlyCenter.c:193-215 | on any tables and bits no index above 78 is written, none at or below `j`, and acceptance means none beyond 63 |
| EntropyDecoder.DecodeBlockBounds | mjpg-streamer-experimental/plugins/output_autofocus/processJPEG_onlyCenter.c:181-216 | the same for a whole block, whose first value is the new predictor |
| EntropyDecoder.McuPlan | mjpg-streamer-experimental/plugins/output_autofocus/processJPEG_onlyCenter.c:232-266 | the blocks of a scan come four to an MCU, in the order luma, luma, Cr, Cb |
| ScanDecoder.Lookup | mjpg-streamer-experimental/plugins/output_autofocus/processJPEG_onlyCenter.c:151-163 | the matching loop returns the first matching row unless that is the last one |
| ScanDecoder.BitReader.constructor | mjpg-streamer-experimental/plugins/output_autofocus/processJPEG_onlyCenter.c:133-134 | the window starts with the first 16 bits of the stream |
| ScanDecoder.BitReader.Refill | mjpg-streamer-experimental/plugins/output_autofocus/processJPEG_onlyCenter.c:138-150 | afterwards `bitlen` is in 16..31, the window holds the unread bits with zeros below, and the stream position is the same |
| ScanDecoder.BitReader.ReadXC | mjpg-streamer-experimental/plugins/output_autofocus/processJPEG_onlyCenter.c:137-179 | the symbol at the stream position and exactly its code consumed, or -1 and nothing consumed |
| ScanDecoder.BitReader.TakeBits | mjpg-streamer-experimental/plugins/output_autofocus/processJPEG_onlyCenter.c:189 | the number made of the next bits, which are consumed |
| ScanDecoder.BitReader.ReadAC | mjpg-streamer-experimental/plugins/output_autofocus/processJPEG_onlyCenter.c:192-215 | the run/size loop computes the stream's AC coefficients |
| ScanDecoder.BitReader.ReadTable | mjpg-streamer-experimental/plugins/output_autofocus/processJPEG_onlyCenter.c:181-216 | result, table, predictor and position are those of the block decoded from the stream |
| ScanDecoder.BitReader.DecodeScan | mjpg-streamer-experimental/plugins/output_autofocus/processJPEG_onlyCenter.c:227-273 | the MCU loop yields the luma blocks of the scan, or stops at the first bad block |
| EntropyEncoder.ExtendInverts | mjpg-streamer-experimental/plugins/output_autofocus/processJPEG_onlyCenter.h:1 | `HUFF_EXTEND` undoes the magnitude coding of Table F.1 for every value: the size is the bit length of its absolute value, the bits are its own or those of one less in two's complement |
| EntropyEncoder.SymbolDecoding | mjpg-streamer-experimental/plugins/output_autofocus/processJPEG_onlyCenter.c:137-179 | wherever a code stands its symbol is returned and its length consumed, for every entry but the last; otherwise nothing is returned |
| EntropyEncoder.DcPrediction | mjpg-streamer-experimental/plugins/output_autofocus/processJPEG_onlyCenter.c:185-191 | a coded DC difference is added to the predictor |
| EntropyEncoder.AcRoundTrip | mjpg-streamer-experimental/plugins/output_autofocus/processJPEG_onlyCenter.c:193-210 | decoding the rest of an encoded block (run/size, ZRL, EOB, magnitudes) restores the whole block if and only if the rest does not need the last code of the table |
| EntropyEncoder.BlockRoundTrip | mjpg-streamer-experimental/plugins/output_autofocus/processJPEG_onlyCenter.c:181-216 | an encoded block is accepted if and only if none of its symbols has the last code of its table, and then all 64 coefficients, the accumulated DC value and the position come back |
| BaselineCoding.BaselineRoundTrip | mjpg-streamer-experimental/plugins/output_autofocus/processJPEG_onlyCenter.c:181-216 | with tables for all baseline symbols every baseline block can be coded, and comes back if and only if it does not need the last code of a table |
| BaselineCoding.SymbolNeededIff | mjpg-streamer-experimental/plugins/output_autofocus/processJPEG_onlyCenter.c:193-210 | a block needs the symbol of a run and a size if and only if a coefficient of that size has that many zeros, modulo 16, in front of it |
| BaselineCoding.OneSymbolIsLost | mjpg-streamer-experimental/plugins/output_autofocus/processJPEG_onlyCenter.c:158-162 | a table that fits the lookup arrays and codes all 162 baseline AC symbols has one of them at its last entry |
| BaselineCoding.SomeBlockRefused | mjpg-streamer-experimental/plugins/output_autofocus/processJPEG_onlyCenter.c:158-162 | for all baseline tables that fit there is a baseline block that they code and the decoder refuses |
| ScanRoundTrip.PlanRoundTrip | mjpg-streamer-experimental/plugins/output_autofocus/processJPEG_onlyCenter.c:232-273 | every sequence of blocks of the three components comes back with each component's running DC value, if and only if no block needs the last code of its tables |
| ScanRoundTrip.BlocksMakeScan | mjpg-streamer-experimental/plugins/output_autofocus/processJPEG_onlyCenter.c:227-273 | a scan can be coded, and avoids the last codes, exactly when each block does with its own component's tables and predictor |
| ScanRoundTrip.ScanRoundTrip | mjpg-streamer-experimental/plugins/output_autofocus/processJPEG_onlyCenter.c:133-273 | from the stuffed bytes of any encoded scan, whatever follows in memory, every block is restored if and only if none needs the last code of its tables |
| ScanRoundTrip.CanonicalDecodable | mjpg-streamer-experimental/plugins/output_autofocus/processJPEG_onlyCenter.c:98-114 | a table from a DHT segment can be decoded with if and only if the Kraft inequality holds |
| McuRoundTrip.DecodeEncodedScan | mjpg-streamer-experimental/plugins/output_autofocus/processJPEG_onlyCenter.c:133-273 | the decoder's code, run on the bytes of any MCUs coded Y, Y, Cr, Cb with the luma tables for Y and the chroma tables for Cr and Cb, succeeds exactly when no block needs the last code of its tables, and then returns the two luma blocks of each MCU in order |
| McuRoundTrip.McusAreScan | mjpg-streamer-experimental/plugins/output_autofocus/processJPEG_onlyCenter.c:232-266 | coding MCU by MCU is coding the blocks in turn, each with its component's tables and running DC value |
| Extractor.RunAppend | mjpg-streamer-experimental/plugins/input_http/mjpg-proxy.c:73-111 | parsing two pieces in turn is parsing them joined |
| Extractor.RunExtends | mjpg-streamer-experimental/plugins/input_http/mjpg-proxy.c:102-103 | callbacks are never taken back |
| Extractor.ExtractorState.HeaderByte | mjpg-streamer-experimental/plugins/input_http/mjpg-proxy.c:77-90 | one header byte as the state machine says, with the bit tests and sign extension of misc.c |
| Extractor.ExtractorState.ContentByte | mjpg-streamer-experimental/plugins/input_http/mjpg-proxy.c:92-106 | one content byte: stored, matched, and a delivery of all but 22 bytes on a match |
| Extractor.ExtractorState.ExtractData | mjpg-streamer-experimental/plugins/input_http/mjpg-proxy.c:73-111 | the new state and the callbacks are those of the state machine run over the chunk |
| Extractor.ExtractorState.ProcessResponse | mjpg-streamer-experimental/plugins/input_http/mjpg-proxy.c:115-129 | state and callbacks depend on the bytes received, not on how they were cut into chunks |
| ResetMatcher.ProgressSound | mjpg-streamer-experimental/plugins/input_http/misc.c:45-62 | what the matcher holds is what was read last, so a match is an occurrence |
| ResetMatcher.FoundIffFromStart | mjpg-streamer-experimental/plugins/input_http/misc.c:45-62 | for every pattern and text the matcher matches if and only if some occurrence begins where it stands at its start |
| ResetMatcher.ReadyIffAtStart | mjpg-streamer-experimental/plugins/input_http/misc.c:45-62 | where it stands at its start is told from the text: the dashes in front modulo 3 and a live beginning of the boundary before them |
| ResetMatcher.BoundaryFoundIff | mjpg-streamer-experimental/plugins/input_http/misc.c:45-62 | a boundary is found if and only if one occurs behind such a text |
| ResetMatcher.MatcherIsSearch | mjpg-streamer-experimental/plugins/input_http/misc.c:45-62 | where every occurrence starts the text or follows a byte outside the pattern, the matcher matches if and only if the pattern occurs |
| ResetMatcher.ThreeDashesMissed | mjpg-streamer-experimental/plugins/input_http/misc.c:49-58 | a boundary behind a third dash occurs and is not matched |
| ResetMatcher.BeginningMissed | mjpg-streamer-experimental/plugins/input_http/misc.c:49-58 | a boundary behind the first three characters of another one occurs and is not matched |
| HeaderDetection.CrlfCrlfOfBytes | mjpg-streamer-experimental/plugins/input_http/misc.c:23-32 | four bytes pass for CRLF CRLF exactly when each has the bits of its counterpart |
| HeaderDetection.PushedBytes | mjpg-streamer-experimental/plugins/input_http/misc.c:33-35 | a 7-bit byte moves the other three up by one place, any other byte sets them to 0xFF |
| HeaderDetection.HeaderEnds | mjpg-streamer-experimental/plugins/input_http/mjpg-proxy.c:77-82 | for all bytes the header ends with the first four held bytes that pass for CRLF CRLF, and not before |
| HeaderDetection.HighByteCompletes | mjpg-streamer-experimental/plugins/input_http/misc.c:33-35 | a byte of 0x80 or more completes the header exactly when it has the bits of LF |
| HeaderDetection.SevenBitComplete | mjpg-streamer-experimental/plugins/input_http/misc.c:23-35 | for 7-bit text the four bytes held are the last four of the text |
| StreamPrinter.SendStream | mjpg-streamer-experimental/plugins/output_http/httpd.c:467-546 | the bytes sent are the response header and one part for each frame, in order, and a client that goes by Content-Length and X-Timestamp reads back every frame, size and time, whatever the frames hold |
| StreamPrinter.PartReadBack | mjpg-streamer-experimental/plugins/output_http/httpd.c:530-542 | in each part the number behind Content-Length is the size, X-Timestamp holds the seconds and at least six places of microseconds, and that many bytes behind the empty line are the picture, with the delimiter behind them |
| StreamPrinter.Decimal06ReadBack | mjpg-streamer-experimental/plugins/output_http/httpd.c:532-533 | microseconds are printed in exactly six places and read back as the same number |
| Decimals.ValueOfDigits | mjpg-streamer-experimental/plugins/output_http/httpd.c:530-533 | a printed number reads back as the same number |
| StreamPrinter.PartHeaderText | mjpg-streamer-experimental/plugins/output_http/httpd.c:530-533 | for every size and timestamp a part header passes for complete only at its final empty line |
| MultipartRoundTrip.StaysDeaf | mjpg-streamer-experimental/plugins/input_http/mjpg-proxy.c:93-96 | with a full buffer no input changes the state any more |
| MultipartRoundTrip.Overflows | mjpg-streamer-experimental/plugins/input_http/mjpg-proxy.c:93-96 | content without a match in its first 262143 bytes, when there are that many, gives no callback, whatever follows |
| MultipartRoundTrip.FitDelivered | mjpg-streamer-experimental/plugins/input_http/mjpg-proxy.c:92-106 | a fitting picture and its delimiter make one callback with exactly that picture, and reset the parser |
| MultipartRoundTrip.MisfitSpoils | mjpg-streamer-experimental/plugins/input_http/mjpg-proxy.c:92-106 | a picture that does not fit gives no further callback or one of another length |
| MultipartRoundTrip.PartsDelivered | mjpg-streamer-experimental/plugins/input_http/mjpg-proxy.c:73-111 | behind the first delimiter the callbacks are exactly the frames in order if and only if each frame has no match and at most 262121 bytes |
| MultipartRoundTrip.AbsentMeansFits | mjpg-streamer-experimental/plugins/input_http/mjpg-proxy.c:49 | a picture that does not contain the boundary has no match |
| MultipartRoundTrip.FitsIff | mjpg-streamer-experimental/plugins/input_http/mjpg-proxy.c:92-106 | which pictures fit, from their bytes alone: the size, and no boundary behind a text that leaves the matcher at its start |
| MultipartRoundTrip.StatusLineEndsHeader | mjpg-streamer-experimental/plugins/input_http/misc.c:23-32 | the status line printed by output_http passes for a complete header |
| MultipartRoundTrip.ResponseDelivered | mjpg-streamer-experimental/plugins/output_http/httpd.c:475-542 | on the whole response the first callback is the text of the response fields, and the rest are the frames if and only if each fits |
| MultipartRoundTrip.Relay | mjpg-streamer-experimental/plugins/input_http/mjpg-proxy.c:73-129 | `send_stream` and the receive loop together, for every way to cut the bytes into chunks: the pictures received are the response fields and the frames in order if and only if each frame fits |
| FrameHandoff.StepInv | mjpg-streamer-experimental/plugins/input_uvc/input_uvc.c:773-810 | every step of the writer and of any consumer keeps the protocol's invariant |
| FrameHandoff.SentFramesArePublications | mjpg-streamer-experimental/plugins/output_http/httpd.c:489-519 | in every interleaving each frame sent is, with its timestamp, one complete publication, and none is older than the one before |
| FrameHandoff.NumbersAreBroadcasts | mjpg-streamer-experimental/plugins/output_http/httpd.c:489-519 | in every run the publication a client is sent is the one with as many broadcasts before it as there were before the client's relock |
| FrameHandoff.RepeatedIffNoBroadcast | mjpg-streamer-experimental/plugins/output_http/httpd.c:489-519 | two frames sent to a client are the same publication if and only if nothing was broadcast between the two relocks |
| FrameHandoff.LaterIffBroadcasts | mjpg-streamer-experimental/plugins/output_http/httpd.c:489-519 | all frames sent to a client are from strictly later publications if and only if there was a broadcast between any two successive relocks |
| FrameHandoff.SentFramesAreLater | mjpg-streamer-experimental/plugins/output_http/httpd.c:489-519 | in particular that is so, and the content from before the first publication is never sent, without spurious wakeups |
| FrameHandoff.MutexIsReleased | mjpg-streamer-experimental/plugins/output_http/httpd.c:492-519 | from every state of every run the holder of the mutex can release it by its own steps alone |
| FrameHandoff.WokenConsumerIsServed | mjpg-streamer-experimental/plugins/output_http/httpd.c:492-519 | a woken consumer can, once the holder is done, send the last publication |
| FrameHandoff.WaitingConsumerIsServed | mjpg-streamer-experimental/plugins/output_http/httpd.c:492-519 | a consumer that waits at a broadcast can, after the writer's unlock and by its own steps, send exactly that publication |
| FrameHandoff.SpuriousWakeupsRepeat | mjpg-streamer-experimental/plugins/output_http/httpd.c:493 | for every picture and time there is a run that publishes it once and sends it twice |
| RaspicamEncoder.FramesConserve | mjpg-streamer-experimental/plugins/input_raspicam/input_raspicam.c:393-415 | the published frames and the pending bytes are all payloads in order |
| RaspicamEncoder.NoEmptyEndsIffNoEmptyFrame | mjpg-streamer-experimental/plugins/input_raspicam/input_raspicam.c:400-418 | the mutex is never released without being held if and only if no frame is empty |
| RaspicamEncoder.StoredPart | mjpg-streamer-experimental/plugins/input_raspicam/input_raspicam.c:386-416 | what is stored between callbacks is the payloads since the last end flag, and the mutex is held exactly when there are any |
| RaspicamEncoder.Encoder.Callback | mjpg-streamer-experimental/plugins/input_raspicam/input_raspicam.c:373-419 | a piece is appended under the mutex, and an end flag publishes what is stored with its size and, if wanted, its time |
| RaspicamEncoder.Encoder.Session | mjpg-streamer-experimental/plugins/input_raspicam/input_raspicam.c:373-419 | over every callback sequence the mutex is held between calls exactly when part of a frame is stored, and the frames published are the payloads between end flags with their times |
| RaspicamHandoff.BoardOfRun | mjpg-streamer-experimental/plugins/input_raspicam/input_raspicam.c:393-416 | in every interleaving the shared frame and the publications are those of the writer's steps alone |
| RaspicamHandoff.CallbacksAreWriter | mjpg-streamer-experimental/plugins/input_raspicam/input_raspicam.c:373-419 | the steps of a callback sequence are those of a writer of the hand-off protocol if and only if no end flag finds an empty frame, and then they publish exactly the encoder's frames |
| RaspicamHandoff.PossibleIffNoEmptyEnd | mjpg-streamer-experimental/plugins/input_raspicam/input_raspicam.c:373-419 | a callback sequence has a run of the protocol if and only if no end flag finds an empty frame |
| RaspicamHandoff.SentFramesAreEncoderFrames | mjpg-streamer-experimental/plugins/input_raspicam/input_raspicam.c:373-419 | however consumers interleave with the callbacks, each frame sent is one whole frame of the encoder, or what was there at the start |
| RaspicamHandoff.EmptyEndTears | mjpg-streamer-experimental/plugins/input_raspicam/input_raspicam.c:400-418 | one empty end leads to a frame that no publication has together with its time |
| FrameDropping.SpanBound | mjpg-streamer-experimental/plugins/input_uvc/input_uvc.c:758-770 | any k + 1 consecutive published frames span at least k periods of milliseconds, stated in seconds and microseconds |
| FrameDropping.CamThread.Grabbed | mjpg-streamer-experimental/plugins/input_uvc/input_uvc.c:727-795 | exactly which grabbed frame is published |
| FrameDropping.CamThread.Session | mjpg-streamer-experimental/plugins/input_uvc/input_uvc.c:727-795 | after n frames floor(n / every) got past the counter, and soft dropping spaces the published ones |
| BufferedReader.ReadConserves | mjpg-streamer-experimental/plugins/output_http/httpd.c:121-169 | whatever the socket does, bytes handed out and bytes left are the input in order |
| BufferedReader.ReadIsQueueFront | mjpg-streamer-experimental/plugins/output_http/httpd.c:121-169 | without timeout or error a read is the front of the byte queue, however it was cut into chunks |
| BufferedReader.ReadLineIsFirstLine | mjpg-streamer-experimental/plugins/output_http/httpd.c:188-204 | a line ends at the first newline or at its limit, and the rest stays queued |
| BufferedReader.CallsConserve | mjpg-streamer-experimental/plugins/output_http/httpd.c:121-204 | over any sequence of both calls nothing is lost, repeated or moved |
| BufferedReader.IoBuffer.Refill | mjpg-streamer-experimental/plugins/output_http/httpd.c:151-165 | the bytes read end up right-aligned and are the unread ones |
| BufferedReader.IoBuffer.ReadInto | mjpg-streamer-experimental/plugins/output_http/httpd.c:121-169 | result, destination and unread bytes are those of a queue read, also after a timeout or a closed connection |
| BufferedReader.IoBuffer.ReadLineInto | mjpg-streamer-experimental/plugins/output_http/httpd.c:188-204 | result, destination and unread bytes are those of a line read, also when it ends with -1 inside a line |
| BufferedReader.IoBuffer.ServeAll | mjpg-streamer-experimental/plugins/output_http/httpd.c:121-204 | the code's calls in any sequence, across timeouts and -1 results, hand out and leave what the byte queue says |
| Base64InPlace.Base64RoundTrip | mjpg-streamer-experimental/plugins/output_http/httpd.c:214-249 | any text whose value characters are the encoding of x decodes to x and one zero byte for each '=' |
| Base64InPlace.LetterIsListed | mjpg-streamer-experimental/plugins/output_http/httpd.c:221-236 | the letters are those of Table 1 of RFC 4648 in order |
| Base64InPlace.GroupsOfSixBits | mjpg-streamer-experimental/plugins/output_http/httpd.c:238-244 | a group of the encoder is one 24-bit number taken six bits at a time, with '=' where bytes are missing |
| Base64InPlace.ValueIff | mjpg-streamer-experimental/plugins/output_http/httpd.c:221-237 | only the 64 letters and '=' have a value, each letter its place in the table |
| Base64InPlace.PushSpells | mjpg-streamer-experimental/plugins/output_http/httpd.c:239 | whatever earlier groups left in the accumulator, its low bits spell the current group |
| Base64InPlace.DecodeBase64 | mjpg-streamer-experimental/plugins/output_http/httpd.c:214-249 | the decoding and a NUL replace the start of the text and nothing else changes |
| PercentDecoding.DecodeInvertsEscaping | mjpg-streamer-experimental/plugins/output_http/httpd.c:275-313 | a text decodes to x if and only if it is one of the ways to escape x with digits of "0123456789abcdef" or "0123456789ABCDEF" |
| PercentDecoding.HexValueIff | mjpg-streamer-experimental/plugins/output_http/httpd.c:256-268 | the value of a character is v if and only if it is digit v, in lower or upper case |
| PercentDecoding.EncodedDecodes | mjpg-streamer-experimental/plugins/output_http/httpd.c:275-313 | the text of every encoder of section 2.1 of RFC 3986 decodes to what it encoded, whatever it leaves as it is and in either case of digits |
| PercentDecoding.DecodesIffWellFormed | mjpg-streamer-experimental/plugins/output_http/httpd.c:293-302 | decoding succeeds exactly when every '%' has two hexadecimal digits behind it |
| PercentDecoding.Unescape | mjpg-streamer-experimental/plugins/output_http/httpd.c:275-313 | 0 exactly on well-formed text, which is replaced by the one string it is an escaping of and a NUL; on other text exactly what was written before the bad triplet was found |
| DhtInsertion.IsHuffman | mjpg-streamer-experimental/plugins/input_uvc/v4l2uvc.c:574-587 | true exactly when 0xFF 0xC4 stands at offset 2048 or less in front of any 0xFF 0xDA |
| DhtInsertion.MemcpyPicture | mjpg-streamer-experimental/plugins/input_uvc/v4l2uvc.c:594-615 | the picture, or the picture with the table in front of its first 0xFF 0xC0, or nothing |
| DhtInsertion.RemovingRestores | mjpg-streamer-experimental/plugins/input_uvc/v4l2uvc.c:606-610 | taking the table out again gives the picture back |
| DhtInsertion.SecondApplication | mjpg-streamer-experimental/plugins/input_uvc/v4l2uvc.c:594-615 | a second application changes nothing if and only if the table went in at offset 2048 or less with no SOS marker before it |
| PixelConversion.ConversionIsClose | mjpg-streamer-experimental/plugins/input_uvc/jpeg_utils.c:186-192 | each component is at most 1.2 below and 0.2 above the clamped equations of section 7 of ITU-T T.871 |
| PixelConversion.PixelBytes | mjpg-streamer-experimental/plugins/input_uvc/jpeg_utils.c:168-202 | bytes 3x, 3x + 1 and 3x + 2 of a row are red, green and blue of the equations, from the luma, Cb and Cr bytes at their offsets in the frame, for both formats |
| PixelConversion.CompressRows | mjpg-streamer-experimental/plugins/input_uvc/jpeg_utils.c:168-202 | the pointer and toggle loops write the rows whose pixel k comes from macropixel k / 2 and luma k % 2, across row ends and for odd widths |
| PixelConversion.SwappedRows | mjpg-streamer-experimental/plugins/input_uvc/jpeg_utils.c:240-273 | a UYVY frame gives the rows of the byte-swapped YUYV frame |
| PictureNames.NamesSortIff | mjpg-streamer-experimental/plugins/output_file/output_file.c:258-268 | two names sort in the order of storing if and only if the time is later as year, month, day, hour, minute and second, or the same and the shorter counter, filled up with zeros, is not above the longer one |
| PictureNames.NameReadBack | mjpg-streamer-experimental/plugins/output_file/output_file.c:258-266 | the date, time and counter can be read back from their places in the name |
| PictureNames.TenDigitsSortFirst | mjpg-streamer-experimental/plugins/output_file/output_file.c:259-266 | the first ten-digit counter sorts in front of the last nine-digit one |
| PictureRing.SteadyClockIsOrderly | mjpg-streamer-experimental/plugins/output_file/output_file.c:258-268 | all names of a run sort in the order of storing while the clock does not go back and the counter has nine digits |
| PictureRing.TrimmedCount | mjpg-streamer-experimental/plugins/output_file/output_file.c:171-186 | a clean-up leaves exactly `size` pictures, or all if there are not more, and touches no other file |
| PictureRing.RemovedAreOldest | mjpg-streamer-experimental/plugins/output_file/output_file.c:171-186 | what a clean-up removes sorts in front of everything it leaves |
| PictureRing.DisappearsOnlyBehindSize | mjpg-streamer-experimental/plugins/output_file/output_file.c:153-196 | over a run a file disappears only if it is a picture and in a turn that leaves `size` pictures, all sorting behind it |
| PictureRing.LatestAreKept | mjpg-streamer-experimental/plugins/output_file/output_file.c:258-325 | while names sort in the order of storing and older pictures sort in front, the last `size` pictures written are in the folder |
| PictureRing.RingStaysBounded | mjpg-streamer-experimental/plugins/output_file/output_file.c:314-325 | from any folder every turn ends with at most size + exceed pictures |
| PictureRing.KeptPicturesAreASuffix | mjpg-streamer-experimental/plugins/output_file/output_file.c:153-196 | while names sort in the order of storing, the pictures of a run that are still there are a suffix of the order written |
| PictureRing.Worker.MaintainRingbuffer | mjpg-streamer-experimental/plugins/output_file/output_file.c:153-196 | none is removed for a negative size; otherwise the smaller of `size` and the number of pictures stay, those removed sort in front of them, and other files stay |
| PictureRing.Worker.StoreFrame | mjpg-streamer-experimental/plugins/output_file/output_file.c:258-325 | the picture is stored under its name, and a clean-up runs for exceed <= 0, for the first picture and whenever the counter is a multiple of exceed + 1, and at no other time |
| PictureRing.Worker.Run | mjpg-streamer-experimental/plugins/output_file/output_file.c:216-340 | a whole run of the worker keeps to the bound and keeps the last `size` pictures written |
| PanTilt.Appended | mjpg-streamer-experimental/plugins/input_control/input_uvc.c:247-300 | what one more motion does to the position and to the rule that moves follow a reset |
| PanTilt.Control.DoReset | mjpg-streamer-experimental/plugins/input_control/input_uvc.c:247-257 | a reset that works puts the tracked position to zero, one that fails changes nothing |
| PanTilt.Control.PanCommand | mjpg-streamer-experimental/plugins/input_control/input_uvc.c:259-324 | pan goes where the command aims, after a reset if none worked yet, and equals the moves since |
| PanTilt.Control.TiltCommand | mjpg-streamer-experimental/plugins/input_control/input_uvc.c:326-390 | the same for tilt |
| PanTilt.Control.InputCmd | mjpg-streamer-experimental/plugins/input_control/input_uvc.c:232-401 | plus goes up and minus down by one step within -4480..4480 and -1920..1920, a set command to 64 units a degree within them, the answer is in whole degrees, and every command locks and releases once |
| PanTilt.Control.Session | mjpg-streamer-experimental/plugins/input_control/input_uvc.c:232-401 | over every command sequence the position stays tracked and in its limits, and no move precedes a working reset |

## Left out

- ScanDecoder.BitReader.ReadTable: a DC table must not hold symbols above 16, because the C code indexes `mask` with them; DC sums are unbounded, so overflow of a 32-bit int over very long scans is not modelled.
- HuffmanTables.HuffmanTable.Build: models one table; the loop over several tables in a DHT segment and the choice of the table index are not modelled, nor is a segment with more than 162 codes, which overruns the C arrays.
- BufferedReader.IoBuffer.ReadInto: after a failed `read` the level is -1 and the buffer is not used again; `select` failing ends the program and is not modelled.
- FrameDropping.CamThread.Grabbed: the overwriting of the timestamp with the current time is part of the grabbed frame's timestamp here.
- RaspicamEncoder.Encoder.Callback: the capacity of the shared buffer, which the C code does not check, is not modelled: the buffer grows.
- RaspicamHandoff.EmptyEndTears: unlocking a mutex that another thread holds is taken to free it, as a default mutex does on Linux; the standard leaves it undefined.
- The marker loop around the scan, the quantization tables, the centre weighting and the sharpness value in processJPEG_onlyCenter.c.
- Reads past the end of a buffer: the C code does not check for them in the decoder, in `memcpy_picture` and in the pixel loops, and here memory is a total function, so the results hold whatever lies there.
- The stop flags of `extract_data`, `send_stream` and the worker loops: they are taken to stay 0.
- Failing writes, allocation failures and thread cancellation.
- The RGB24 and RGB565 branches of `compress_image_to_jpeg`, and libjpeg itself.
- `check_for_filename`: which names it accepts is a parameter; `alphasort` is taken in the C locale.
- Overflow of `value * one_degree` in the pan/tilt commands.
- Request parsing, authentication, CGI and file serving in httpd.c, and all option parsing.
- The other output plugins, which repeat the consumer loop.
