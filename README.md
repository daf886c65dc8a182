# x265 screen-streaming front end: a verified model of its core

This project models, in Dafny, the small sequential pieces underneath a
fork of the x265 command-line encoder. The fork reads captured screen frames
and streams the encoded HEVC over UDP or hands it to a callback:

- `FrameQueue`, the byte FIFO of `source/input/frameq.cpp`, as a class over
  an array (`frame_queue.dfy`, module `FrameQ`);
- `RawImageReader` (`source/input/devicereader.cpp`): `clamp`, the in-place
  red/blue swap of `ReadAsRgb`, and the RGB24 to full-size Y, U, V planes
  conversion of `ReadAsYuv` with the 8-bit studio-range BT.601 integer
  coefficients (`device_reader.dfy`, module `DeviceReader`);
- `ScreenCapture` (`source/input/ScreenCapture/ScreenCapture.cpp`): the
  screen ordering, the choice of the screen under the cursor, and the
  BGRA to RGB repacking (`screen_capture.dfy`, module `Capture`);
- the output transports (`source/output/writer.cpp`, `writer.h`): UDP
  chunking into datagrams of at most 8192 bytes, the byte accounting of
  both writers with their 32-bit counters, and the `udp://ip:port` split
  (`writer.dfy`, module `Writer`);
- the output factories of `source/output/output.cpp` (`output.dfy`, module
  `Output`);
- the `argv` scanner `Reader::ParseDevicesFromCommandLine`
  (`source/input/reader.cpp`; `reader.dfy`, module `ArgScan`);
- the pieces of `x265main` in `source/x265.cpp`:
  - the two-largest-pts window over a `std::priority_queue`
    (`pts_window.dfy`, module `PtsWindow`);
  - the Dolby Vision RPU parser `rpuParser`. It cuts the file at the
    four-byte start code `00 00 00 01` of the byte-stream format
    (Annex B of ITU-T H.265) (`rpu_parser.dfy`, module `RpuParser`);
  - the interlaced field split (`field_split.dfy`, module `FieldSplit`);
  - `parseQPFile` (`qp_file.dfy`, module `QpFile`);
  - the main and flush loops over an abstract encoder (`pump.dfy`,
    module `Pump`).

`bytes.dfy` (module `Bytes`) holds the shared `Byte` type, `Option`,
prefix and suffix tests, and `std::stoi` on decimal numerals.

Where the source mutates state, the model does too. `FrameQueue`,
`RawImageReader`, `ScreenCapture`, `UdpWriter`, `Reader`,
`QpFileReader`, the RPU file and buffer, the pts queue and the encode
loop's locals (`Pump.Session`) are classes. Their methods change fields
and arrays, and their loops carry invariants. Each such method is proved
against a specification function: `SwapRedBlue`, `Planar`, `BgraToRgb`,
`Chunks`, `Transmit`, `ScanRpu`, `QpScan`, `Field`, `ScanFrom`,
`Window`. The properties the source promises are then lemmas about those
functions: round trips, involutions, tiling, ordering and bounds.

Outside code enters as parameters:

- `sendto` is a function of the call number and the chunk length;
- the `BufferWriter` callback is the sequence of its results;
- `socket()` is its returned descriptor;
- the device read is a failed `fopen`, a failed `realloc` or the frame;
- the grabbed and scaled screen image is a function of the screen;
- the cursor is a point;
- the encoder is the sequence of results of its `encoder_encode` calls;
- the Ctrl-C and kill flags are the loop check at which they become set.

## Model

| member | source | states |
|---|---|---|
| FrameQ.FrameQueue.constructor | source/input/frameq.cpp:7-10 | a new queue holds no bytes |
| FrameQ.FrameQueue.Push | source/input/frameq.cpp:15-20 | the contents become the old contents followed by `data[0..sz)`, and the count grows by `sz` |
| FrameQ.FrameQueue.Pop | source/input/frameq.cpp:21-26 | `out[0..sz)` receives the first `sz` queued bytes, the rest of `out` is untouched, the contents lose exactly those bytes, and the count drops by `sz` |
| FrameQ.Apply | source/input/frameq.cpp:15-26 | one push or pop on a queue, stated by its effect on the contents |
| FrameQ.RunSession | source/input/frameq.cpp:15-26 | for any interleaving of pushes and pops without underflow, the popped bytes are exactly the first pushed bytes in push order, and the size is bytes pushed minus bytes popped |
| FrameQ.PushThenPop | source/input/frameq.cpp:15-26 | on a new queue, `Push(a)` then `Pop(\|a\|)` gives back `a` and leaves the queue empty |
| FrameQ.FifoOrder | source/input/frameq.cpp:15-26 | `Push(a); Push(b); Pop(\|a\|)` gives `a` and leaves exactly `b` queued |
| FrameQ.PrefixNoUnderflow | source/input/frameq.cpp:21-26 | a session without underflow has none in any prefix either |
| DeviceReader.Clamp | source/input/devicereader.cpp:8-13 | `min` below the range, `max` above it, the value itself inside, and always within `[min, max]` when `min <= max` |
| DeviceReader.Shr8 | source/input/devicereader.cpp:99-101 | `>> 8` on a possibly negative `int` is the floor of division by 256 |
| DeviceReader.LumaInStudioRange | source/input/devicereader.cpp:99-103 | for 8-bit inputs the unclamped Y is in `[16, 235]`, so the Y clamp never changes it |
| DeviceReader.SwapRedBluePixel | source/input/devicereader.cpp:53-58 | pixel by pixel, bytes `3k` and `3k+2` trade places and `3k+1` stays |
| DeviceReader.SwapRedBlueInvolution | source/input/devicereader.cpp:53-58 | swapping twice gives the original frame back |
| DeviceReader.SwapStep | source/input/devicereader.cpp:55-57 | one exchange of bytes `i` and `i+2` extends the swapped prefix by one pixel |
| DeviceReader.RawImageReader.SwapPixels | source/input/devicereader.cpp:53-58 | the in-place loop leaves `RGB` equal to the swapped frame |
| DeviceReader.RawImageReader.ReadAsRgb | source/input/devicereader.cpp:46-60 | true exactly when the device read succeeds, and then `RGB` is the swapped frame of `width*height*3` bytes; a failed open changes nothing, and a failed allocation leaves `RgbSz == width*height*3` with `RGB` null; `YUV` and `YuvSz` are never touched |
| DeviceReader.RawImageReader.ReadDevice | source/input/devicereader.cpp:113-136 | true exactly when a frame is read; a failed `fopen` changes nothing; otherwise `BytesPerPixel == 3` and `RgbSz == width*height*3` are set before the `realloc`, whose failure leaves `RGB` null (empty), and on success `RGB` holds the frame |
| DeviceReader.PlanarPixel | source/input/devicereader.cpp:91-105 | output bytes `k`, `fs+k`, `2fs+k` are the Y, clamped U and clamped V of the R, G, B at `3k`, `3k+1`, `3k+2` |
| DeviceReader.ConvertPixel | source/input/devicereader.cpp:95-105 | one pixel writes its three plane bytes and nothing else |
| DeviceReader.PixelStep | source/input/devicereader.cpp:93-108 | converting the next pixel extends the converted run by that pixel |
| DeviceReader.ConvertRow | source/input/devicereader.cpp:93-108 | the inner loop converts exactly the pixels of one row in all three planes |
| DeviceReader.RowDone | source/input/devicereader.cpp:91-109 | a converted row extends the converted prefix |
| DeviceReader.AllPixelsDone | source/input/devicereader.cpp:91-109 | once every pixel is converted the buffer is the planar frame |
| DeviceReader.ConvertToPlanes | source/input/devicereader.cpp:83-109 | the nested loop with four advancing indices fills `YUV` with the three full-size planes |
| DeviceReader.RawImageReader.ReadAsYuv | source/input/devicereader.cpp:61-112 | true exactly when the read and the allocation succeed; then `YuvSz == 3*width*height` and `YUV` is the planar frame; a failed `YUV` allocation leaves `YuvSz` set and `YUV` null while `RGB` still holds the frame; a failed open changes nothing, and a failed `RGB` allocation leaves `YUV` alone |
| DeviceReader.RawImageReader.constructor | source/input/devicereader.cpp:33-38 | empty buffers, `RgbSz == 0`, three bytes per pixel |
| Capture.ScreenLessIsLexicographic | source/input/ScreenCapture/ScreenCapture.cpp:70-75 | the comparator is the strict lexicographic order on `(x, y)` |
| Capture.ScreenLessStrictWeakOrder | source/input/ScreenCapture/ScreenCapture.cpp:70-75 | the comparator is irreflexive and transitive, and two screens are unordered exactly when they share an origin, as `std::sort` requires |
| Capture.Insert | source/input/ScreenCapture/ScreenCapture.cpp:70-75 | inserting into a sorted list keeps it sorted and adds exactly the one screen |
| Capture.SortScreens | source/input/ScreenCapture/ScreenCapture.cpp:70-75 | the result is sorted by the comparator and is a permutation of the enumerated screens |
| Capture.SortedIsLexicographic | source/input/ScreenCapture/ScreenCapture.cpp:70-75 | in the sorted list x ascends, and y ascends among equal x |
| Capture.ScreenCapture.constructor | source/input/ScreenCapture/ScreenCapture.cpp:64-76 | the screen list is the enumerated screens, sorted |
| Capture.ScreenCapture.GetCurrentScreen | source/input/ScreenCapture/ScreenCapture.cpp:77-89 | the first screen in sorted order that contains the cursor, else index 0 |
| Capture.CurrentScreenUnique | source/input/ScreenCapture/ScreenCapture.cpp:77-89 | that choice is determined: two indices meeting it are equal |
| Capture.BgraToRgbPixel | source/input/ScreenCapture/ScreenCapture.cpp:37-42 | output R, G, B of pixel `k` are input bytes `4k+2`, `4k+1`, `4k` |
| Capture.AlphaNeverRead | source/input/ScreenCapture/ScreenCapture.cpp:37-42 | images differing only in the alpha bytes `4k+3` repack to the same frame |
| Capture.RepackRow | source/input/ScreenCapture/ScreenCapture.cpp:35-43 | the inner loop repacks exactly one row's pixels and leaves the rest of the buffer alone |
| Capture.ScreenCapture.CaptureScreen | source/input/ScreenCapture/ScreenCapture.cpp:16-63 | always true; the buffer is 600 * 700 * 3 = 1,260,000 bytes holding the repacked, scaled image of the screen `GetCurrentScreen` chose |
| Writer.WrapU32 | source/output/writer.cpp:22-29 | a `uint32_t` holds a value modulo 2^32, and values in range unchanged |
| Writer.AsInt32 | source/output/writer.cpp:38 | the `uint32_t` to `int` conversion lies in the 32-bit range, is congruent modulo 2^32, and is the identity below 2^31 |
| Writer.AddU32 | source/output/writer.cpp:29 | `bytes += res` on a `uint32_t` keeps the counter equal to the running total modulo 2^32 |
| Writer.AddInt32 | source/output/writer.cpp:126 | `bytes += sizeBytes` on an `int` keeps it equal to the running total wrapped to 32 bits |
| Writer.WriterFlags | source/output/writer.h:26-29 | neither writer ever fails or asks for pts, both are named "udp", and `UdpWriter` answers as `BufferWriter` does |
| Writer.BufferWriter.WriteFrame | source/output/writer.cpp:20-39 | every payload goes to the callback in order, and the result is the sum of the positive callback results wrapped to 32 bits, exactly that sum when it is below 2^31 |
| Writer.BufferWriter.WriteHeaders | source/output/writer.cpp:15-19 | the same as `writeFrame` |
| Writer.PositiveSumBounds | source/output/writer.cpp:24-38 | below 2^31 the returned count is at least each positive callback result |
| Writer.FullCallbackCountsAll | source/output/writer.cpp:20-39 | a callback that takes every payload whole makes the count the total payload size, as `UdpWriter::writeFrame` counts |
| Writer.ChunksStep | source/output/writer.cpp:89-97 | one turn of `write`'s loop: a refused chunk ends it with failure, an accepted one continues from where the accepted bytes end |
| Writer.SendChunks | source/output/writer.cpp:87-99 | the loop makes exactly the `sendto` calls `Chunks` describes, and on success `total_sent` is the whole buffer |
| Writer.ChunksTile | source/output/writer.cpp:87-102 | on success each chunk starts where the accepted part of the previous one ended, covers `min(8192, rest)` bytes, and the accepted bytes are the whole buffer in order |
| Writer.TileCons | source/output/writer.cpp:89-97 | a chunk followed by a tiling of the rest tiles from the chunk's offset |
| Writer.ChunksFailure | source/output/writer.cpp:92-96 | a failed `write` stops at its first refused chunk, and every chunk before it was accepted |
| Writer.ChunkSizes | source/output/writer.cpp:91 | every chunk is non-empty and at most 8192 bytes |
| Writer.FullSendsCount | source/output/writer.cpp:87-99 | when every chunk is accepted whole, `write` succeeds after `ceil(bytes / 8192)` sends, none for an empty buffer |
| Writer.UdpWriter.constructor | source/output/writer.cpp:43-47 | no socket, no sends, an empty capture file |
| Writer.UdpWriter.Initialize | source/output/writer.cpp:54-71 | the descriptor is what `socket()` returned, and the result is whether it is not -1 |
| Writer.UdpWriter.SetEndpoint | source/output/writer.cpp:72-80 | the address text is kept, and the port is truncated to `unsigned short` |
| Writer.UdpWriter.Write | source/output/writer.cpp:81-103 | with no socket -1 and nothing sent; otherwise the chunk sends of `Chunks`, the whole buffer mirrored and `bytes` returned on success, -1 with nothing mirrored on a refused chunk |
| Writer.TransmitStep | source/output/writer.cpp:123-128 | one more NAL extends the traffic and the size total by that NAL |
| Writer.UdpWriter.WriteFrame | source/output/writer.cpp:119-131 | every NAL is written in order whatever `write` returns, and the result is the sum of the payload sizes wrapped to a 32-bit `int` |
| Writer.UdpWriter.WriteHeaders | source/output/writer.cpp:105-117 | the same traffic, with the total kept in a `uint32_t` |
| Writer.FullTrafficMirrorsAll | source/output/writer.cpp:100 | on an open socket that accepts every chunk whole, the capture file receives exactly the concatenated payloads |
| Writer.ClosedSocketSendsNothing | source/output/writer.cpp:83-86 | with no socket no datagram is sent and nothing is mirrored |
| Writer.FindColon | source/output/writer.cpp:147-152 | `find(':', from)` is the first `':'` at or after `from`, or none |
| Writer.LastColon | source/output/writer.cpp:147-154 | the last `':'` before a position, or none |
| Writer.ScanStep | source/output/writer.cpp:148-153 | each found `':'` makes `ip` the segment it ends |
| Writer.ScanEnd | source/output/writer.cpp:154 | when no `':'` is left, `ip` is the segment before the last `':'` and the port is the text after it |
| Writer.SplitEndpoint | source/output/writer.cpp:141-154 | the delimiter loop computes the address and port of `EndpointIp` and `EndpointPort` |
| Writer.EndpointRoundTrip | source/output/writer.cpp:139-154 | an address and a port without `':'` joined as `ip:port` split back into the same two |
| Writer.Construct | source/output/writer.cpp:139-163 | null exactly when the socket cannot be created; otherwise a writer whose address is the split address and whose port is `stoi` of the split port as `unsigned short` |
| Output.OpenOutput | source/output/output.cpp:46-57 | a `udp://` name gives the UDP writer, else a `buffer://` name the buffer writer, else the raw file, and the UDP writer is null exactly when the socket fails |
| Output.PrefixesExclusive | source/output/output.cpp:48-55 | no name has both prefixes, so exactly one branch is taken |
| Output.LastDot | source/output/output.cpp:38 | `strrchr(s, '.')`: the last `'.'`, or none when there is none |
| Output.ReconY4mIffSuffix | source/output/output.cpp:36-44 | Y4M exactly when the name ends in `.y4m`, YUV otherwise, including names without a `'.'` |
| ArgScan.Reader.constructor | source/input/reader.h:20-25 | the arguments start with no device, no frame rate and quality 80 |
| ArgScan.Reader.ParseDevicesFromCommandLine | source/input/reader.cpp:9-48 | false for fewer than two arguments; otherwise the arguments are those of the prefix-matching scan, and the result is true exactly when the scan met no argument shorter than two characters and the device name is not empty |
| ArgScan.ScanDeviceOrigin | source/input/reader.cpp:29-32 | the device name is unchanged or is the value after some argument that merely starts with `--input` |
| ArgScan.ScanQualityOrigin | source/input/reader.cpp:33-36 | the quality is unchanged or is `stoi` of the value after a `--quality` argument |
| ArgScan.ShortProgramNameRejected | source/input/reader.cpp:18-24 | a program name shorter than two characters makes the scan invalid |
| ArgScan.UsageDeviceIsResolution | source/input/reader.cpp:29-32 | on the program's own usage command line the device name ends up as the resolution `700x600` |
| ArgScan.ExactDeviceOrigin | source/input/reader.cpp:29-32 | with whole-argument matching the device name comes only from the value after `--input` itself |
| ArgScan.UsageDeviceExact | source/input/reader.cpp:29-32 | with whole-argument matching the usage command line keeps the device path |
| PtsWindow.InsertDescSorted | source/x265.cpp:1139 | a push keeps the queue in the order `top`/`pop` hand it out |
| PtsWindow.InsertDescPermutes | source/x265.cpp:1139 | a push adds exactly the one element |
| PtsWindow.PtsQueue.Push | source/x265.cpp:1139 | the queue stays ordered and gains exactly `-pts` |
| PtsWindow.PtsQueue.Top | source/x265.cpp:1209-1211 | the top is the largest element |
| PtsWindow.PtsQueue.Pop | source/x265.cpp:1140-1141 | the largest element is removed |
| PtsWindow.TopTwoCharacterised | source/x265.cpp:1205-1216 | `Largest` and `SecondLargest` sit at two different positions, and every other pts is at most the second |
| PtsWindow.PopAfterThird | source/x265.cpp:1139-1141 | pushing a third pts and popping the top leaves the negations of the two largest |
| PtsWindow.Track | source/x265.cpp:1137-1142 | one push of `-pts` followed by a pop when more than two are held |
| PtsWindow.WindowStep | source/x265.cpp:1137-1142 | whatever the order the pts arrive in, the queue holds the negations of the two largest seen so far |
| PtsWindow.RunWindow | source/x265.cpp:1205-1216 | over a whole run `closeFile` gets the largest and second largest pts when pts are tracked and two or more were written, zeros otherwise |
| PtsWindow.Close | source/x265.cpp:1205-1216 | `second_largest_pts` is the negated top and `largest_pts` the negated next one; zeros with no queue or fewer than two entries |
| RpuParser.RpuFile.ReadByte | source/x265.cpp:814 | `fread` of one byte: the next byte, or nothing at end of file |
| RpuParser.Rpu.Push | source/x265.cpp:825 | one byte appended to the payload |
| RpuParser.ReadStartCode | source/x265.cpp:801-803 | up to four bytes are shifted into a zero register |
| RpuParser.ScanAdvance | source/x265.cpp:814-827 | one byte of the main loop: the first three only fill the register, the 1024th fails, a start code ends the RPU, and any other register passes its first byte to the payload |
| RpuParser.CodeStep | source/x265.cpp:816 | `code = (code << 8) \| byteVal` keeps the last four bytes read |
| RpuParser.ScanLoop | source/x265.cpp:813-838 | the main loop and the flush give the status, payload and bytes consumed of `ScanRpu` |
| RpuParser.Flush | source/x265.cpp:830-838 | at end of file every byte still in the register is appended, so the payload is every byte read |
| RpuParser.FlushStep | source/x265.cpp:834-837 | each flush turn appends the register's top byte, which is the next unflushed byte |
| RpuParser.ParseRpuFor | source/x265.cpp:794-842 | `rpuParser` returns, leaves in the payload, and takes from the file what `ParseRpu` says |
| RpuParser.ScanPayloadIsPrefix | source/x265.cpp:813-838 | the payload is always a prefix of the bytes at the file position, shorter than 1024 bytes, and at most 1020 bytes on failure |
| RpuParser.ScanSkip | source/x265.cpp:813-827 | bytes that complete no start code are read past |
| RpuParser.StartCodeNotEarly | source/x265.cpp:824-827 | no start code ends inside a start code before its last byte |
| RpuParser.RpuRoundTrip | source/x265.cpp:813-827 | a payload free of start codes of up to 1019 bytes, followed by a start code, comes back whole, with the file left just past the start code |
| RpuParser.FirstRpuRoundTrip | source/x265.cpp:799-827 | for pts 0 the opening start code is also consumed |
| RpuParser.LastRpu | source/x265.cpp:830-838 | the last RPU of the file ends at end of file and comes back whole |
| RpuParser.RpuTooLong | source/x265.cpp:819-823 | 1024 bytes without a start code fail, with the first 1020 in the payload |
| RpuParser.MissingStartCode | source/x265.cpp:801-810 | a file not opening with a start code is rejected for pts 0 with an empty payload |
| RpuParser.ShortStartCodeAccepted | source/x265.cpp:801-810 | a file holding the single byte `01` passes the start-code test |
| RpuParser.RpuFileRoundTrip | source/x265.cpp:794-842 | parsing a file of payloads picture after picture gives back every payload in order |
| RpuParser.RestRoundTrip | source/x265.cpp:813-838 | after the first picture each call gives back the next payload |
| FieldSplit.RowsBytesMono | source/x265.cpp:1083-1087 | the row offsets grow with the row number |
| FieldSplit.FieldSnoc | source/x265.cpp:1081-1088 | one more field row is row `2n + parity` of the frame |
| FieldSplit.FieldRowIsFrameRow | source/x265.cpp:1072-1090 | row `y` of the first field is frame row `2y`, and row `y` of the second is frame row `2y+1` |
| FieldSplit.WeaveStep | source/x265.cpp:1081-1088 | weaving one more row of each field adds the next two frame rows |
| FieldSplit.WeaveRows | source/x265.cpp:1072-1090 | fields whose rows are the even and the odd frame rows weave back into the frame |
| FieldSplit.WeaveRestoresFrame | source/x265.cpp:1072-1090 | splitting loses nothing: the two fields woven together are the frame's rows |
| FieldSplit.CopyRow | source/x265.cpp:1083-1084 | `memcpy` of one row into a buffer, leaving the rest of it |
| FieldSplit.CopyStep | source/x265.cpp:1083-1086 | one copied row extends the field held in the buffer by that row |
| FieldSplit.CopyFieldRow | source/x265.cpp:1083-1086 | one `memcpy` puts frame row `2y + parity` behind the `y` rows already copied |
| FieldSplit.PointersStep | source/x265.cpp:1085-1088 | the source pointers move on by two rows and the field pointers by one |
| FieldSplit.SplitRow | source/x265.cpp:1081-1088 | one turn of the row loop copies one row into each field |
| FieldSplit.SplitPlane | source/x265.cpp:1074-1089 | for one plane, the first field buffer gets the even rows and the second the odd rows at the plane's offset, and nothing else changes |
| FieldSplit.PlaneOffsetMono | source/x265.cpp:1048-1056 | plane offsets grow with the plane number |
| FieldSplit.FieldLayout | source/x265.cpp:1044-1057 | plane 0 starts each field buffer and every further plane starts behind the previous one, `framesize` being the size of a field |
| FieldSplit.PlaneBounds | source/x265.cpp:1048-1056 | each plane's field ends where the next one starts |
| FieldSplit.PlaneStep | source/x265.cpp:1072-1090 | after plane `i` is copied, it and every earlier plane hold their fields |
| FieldSplit.SplitFrame | source/x265.cpp:1070-1091 | with a non-zero frame size every plane's even rows go to field 1 and odd rows to field 2; with size 0 nothing is copied; bytes past the last plane are untouched |
| QpFile.FirstNotBefore | source/x265.cpp:677-686 | the first line at or after the position for this frame or a later one |
| QpFile.QpFileReader.Parse | source/x265.cpp:671-699 | the loop gives the result, forced qp, slice type and file position of `QpScan` |
| QpFile.ScanWellFormed | source/x265.cpp:677-698 | on a well-formed file the loop passes over earlier frames' lines and applies this frame's line, or leaves a later frame's line for later |
| QpFile.ParseWellFormed | source/x265.cpp:671-699 | a well-formed qpfile always parses, and picture `poc` gets exactly the slice type and `qp + 1` of the line with its number |
| QpFile.ForcedQpInRange | source/x265.cpp:687-697 | whatever the file holds, a successful call forces either no qp or a qp from 0 to 51, stored plus one |
| QpFile.ShortLineFails | source/x265.cpp:696-697 | a line with fewer than two fields reached for this frame fails the call |
| QpFile.ReadErrorStops | source/x265.cpp:682-687 | an `EOF` return before the end of the file seeks back to the line and ends the call successfully, keeping what earlier lines of this call forced |
| Pump.CountSumNonNegative | source/x265.cpp:1129 | without a failed call the output frame counter never goes negative |
| Pump.PtsOfWritten | source/x265.cpp:1134-1142 | the pts window sees exactly the pts of the calls that returned NAL units, at most one per call |
| Pump.AccountedStep | source/x265.cpp:1129-1135 | a successful call adds its own frames, bytes and pts to the totals |
| Pump.ParseRpus | source/x265.cpp:1093-1107 | one RPU parse per picture handed over, stopping at the first failure |
| Pump.Session.constructor | source/x265.cpp:938-960 | after the headers, `totalbytes` holds what `writeHeaders` returned, the counters are 0, and a pts queue exists exactly when the output asks for pts |
| Pump.Session.EncodeStep | source/x265.cpp:1117-1142 | one `encoder_encode` call: a negative result sets exit code 4; otherwise its output is added to the totals |
| Pump.Session.Record | source/x265.cpp:1126-1142 | a successful call's frame count, written bytes and pts are added to the totals and the pts window |
| Pump.Session.Submit | source/x265.cpp:1117-1123 | a failed call also sets `b_ctrl_c` |
| Pump.Session.HandOver | source/x265.cpp:1109-1143 | a frame, or its two fields with pocs `poc` and `poc + 1`, goes to the encoder, stopping at a failed call |
| Pump.Session.MainStep | source/x265.cpp:994-1143 | one turn of the main loop: the next picture is read unless `--frames` is reached or the input is exhausted, its RPUs are parsed, and it goes to the encoder |
| Pump.Session.MainLoop | source/x265.cpp:993-1144 | the main loop ends when no picture is left, on an encoder failure, on the interruption flags, or on an RPU failure |
| Pump.Session.FlushTurn | source/x265.cpp:1147-1179 | one turn of the flush loop: the loop condition, then one empty call unless the flags are set |
| Pump.Session.FlushLoop | source/x265.cpp:1147-1179 | the flush repeats until a call outputs nothing, a call fails, or the flags are set, and is skipped after an encoder failure |
| Pump.Session.Run | source/x265.cpp:993-1179 | the main loop, then the flush loop unless an RPU failure jumped past it |
| Pump.Session.Finish | source/x265.cpp:1205-1216 | `closeFile` gets the two largest written pts or zeros |
| Pump.Drive | source/x265.cpp:993-1216 | the exit code is 0 or 4, and 4 only when the last call failed; `totalbytes`, the frame counter and the pts handed to `closeFile` are those of the successful calls; `--frames` bounds the pictures read |
| Pump.RunEncoder | source/x265.cpp:950-1216 | when headers are generated (no `--repeat-headers`, no SVT-HEVC) a header failure exits with 3 before any picture; otherwise as `Drive`, and a run that is not interrupted reads every picture and drains the encoder |

## Left out

- Memory allocation, file and socket I/O, Qt, X11, logging, `printStatus`
  and the signal handler are not modelled. Their results enter as
  parameters (see above); `fprintf`, `printf` and `x265_log` output is
  dropped.
- FrameQ.FrameQueue.Pop: requires `sz <= Bytes`, because the source does
  not check it. A larger `sz` reads past the queued bytes, and
  `Bytes - sz` wraps as a `size_t`.
- DeviceReader.RawImageReader.ReadDevice: requires an opened device to
  deliver exactly `width*height*3` bytes. A short `fread` is not modelled.
  `makeRgbFile` is unused debugging code and is left out.
- DeviceReader.RawImageReader.ReadAsYuv: the `width*height` products are
  unbounded integers, not 32-bit `int`s.
- `RawImageReader`'s constructor in `devicereader.h` takes a callback that
  `devicereader.cpp` does not. The model follows the `.cpp`. The same
  holds for `Reader` (`reader.h` against `reader.cpp`) and for
  `ScreenCapture::readImage` against `CaptureScreen`.
- Capture.ScreenCapture.GetCurrentScreen: requires a non-empty screen
  list, because the source indexes `m_screens[0]` without a check.
- Capture.SortScreens: `std::sort` is not stable. The model fixes one
  order for screens with equal origins; every such order is sorted and a
  permutation.
- Capture.ScreenCapture.CaptureScreen: `grabWindow`, `toImage` and the
  resampling of `scaled(600, 700)` are a parameter `grab`, of which only
  the 600 by 700 size of its result is known. The
  `(int8_t)` cast stores the same byte.
- Writer.SendChunks: `sendto` is assumed never to return 0 for a
  non-empty chunk (`WellBehaved`). With 0 the source loop would spin
  forever.
- Writer.UdpWriter.SetEndpoint: `inet_addr`'s conversion of the address
  text and `htons`' byte order are not modelled. The address is kept as
  text and the port as a number.
- Writer.Construct: requires the port text to be a plain decimal numeral
  in the `int` range (`StoiDefined`). That is a subset of what `std::stoi`
  accepts: leading white space, a `+` sign and trailing non-digits
  (`" 80"`, `"+80"`, `"80x"`) are not modelled, nor are its exceptions.
- Writer.BufferWriter.WriteFrame: the empty branch for a non-positive
  callback result does nothing, and nothing is modelled for it.
- `closeFile` of both writers is empty. `release`, `setParam` and the
  destructors are not modelled.
- Output.OpenOutput: `RAWOutput`, `Y4MOutput` and `YUVOutput` are not
  part of this model. Only the chosen kind and name are kept.
- ArgScan.Reader.ParseDevicesFromCommandLine: requires every flag to
  have a following argument and every `--quality` value to be a plain
  decimal numeral in the `int` range (`ScanDefined`). Otherwise the source
  reads `argv[argc]` or throws. The other spellings `std::stoi` accepts
  (leading white space, a `+` sign, trailing non-digits) are not
  modelled. `Reader::ReadYuvFrame` is not part of this
  model.
- PtsWindow.PtsQueue: `std::priority_queue` is modelled as its elements
  in pop order. The 64-bit range of pts is not modelled.
- RpuParser.ParseRpuFor: the 32-bit register `code` is modelled as its
  four bytes. The "RPU not found" warning and the error logs are
  dropped.
- QpFile.QpFileReader.Parse: each `fscanf` call is modelled by its return
  value and converted fields (`Line`), a read error as a line whose
  return value is `EOF`. The text format and `ftell`/`fseek` positions are
  abstracted to line positions.
- Pump.Session.MainStep: the in-loop `parseQPFile` call is not made; its
  behaviour is modelled by `QpFile`. Dithering, reconstructed-picture
  output, `reconPlay`, the CSV log and stats are left out.
- Pump.ParseRpus: only the calls and whether they fail are modelled. In
  field mode the source parses into the field pictures, whose payload
  buffers it never allocates.
- Pump.Session.MainStep: the field-split copy itself is modelled by
  `FieldSplit.SplitFrame`. The one-time set-up guarded by the `static`
  `bCreated`, the buffer allocation and the `assert` on `framesize` are
  not modelled.
- Pump.Drive: the encoder is assumed to output nothing from some call on
  (`Drains`), so that the flush loop ends. The uint32 counters
  `inFrameCount` and `outFrameCount` are unbounded integers. `totalbytes`
  is a `uint64_t` whose `+=` of each `int` result wraps modulo 2^64; the
  model adds without wrapping, so a negative `writeFrame` result lowers the
  total instead of wrapping it.
- Pump.RunEncoder: the encoder set-up before the headers (`encoder_open`,
  exit code 2) and the clean-up after `closeFile` are not modelled.
- getopt option parsing, the zone file, the Windows argument conversion
  and the X11 and Windows window enumerators are not modelled.

## Findings

| source | as written | input that shows it | evidently intended | confidence | as-written member | corrected member |
|---|---|---|---|---|---|---|
| source/input/reader.cpp:29-32 | an argument is taken as `--input` when it merely starts with `--input`, so `--input-res` overwrites the device name with the resolution. `x265main` later sets the name again from its own option parsing (source/x265.cpp:536), so at program level the wrong name only reaches the non-empty test of reader.cpp:42 | the program's own usage line `./x265enc --input /home/oosman/Downloads/rgb.data --input-res 700x600 --fps 30 --output /tmp/frames.hevc` gives device `700x600` | the device flag matches only the whole argument `--input`, keeping the device path | not executed | ArgScan.UsageDeviceIsResolution | ArgScan.UsageDeviceExact |
