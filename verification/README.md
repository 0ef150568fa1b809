# redvnc: the pixel path, verified

redvnc moves screen pixels from a Go server through a Go proxy to a browser client written in
TypeScript. This project models every link of that path, as the code has it, and proves that the links
fit together:

- **Capture and update** (`FrameDiffs`, `Capturing`, `Updates`, `ScreenView`, `ScreenColours`, `WireView`,
  `TightView`): the frame differ, region clipping, raw rectangles, and whole runs of captures and
  requests. After each answer the client shows the last captured frame, channel by channel, also when
  the bytes went over the wire in arbitrary pieces; and so it is when the answers are Tight, but for
  pixels that came by JPEG.
- **Pixel conversion** (`Bits`, `PixelFormats`, `PixelConversion`, `CPixels`).
- **Tile codecs**: ZRLE (`Colours`, `PackedIndices`, `Runs`, `ZrleTiles`, `ZrleEncoders`,
  `ZrleDecoders`, `ZrleRoundTrip`) and Tight with its parallel encoder (`TightTiles`, `TightEncoders`,
  `TightDecoders`, `TightRoundTrip`), both over persistent zlib streams (`Zlib`).
- **Framing** (`Protocol`, `CompactLength`, `Framing`, `RfbReader`, `Reframing`, `RfbParser`,
  `RfbScanner`, `RfbPlacement`, `RfbAgreement`, `Reassembly`, `Connection`, `EndToEnd`, `Misreadings`,
  `ForeignServers`): one writer, one stream re-framer, two length scanners and a reassembly buffer that
  agree on where every message and every rectangle ends; and what other servers may send through the
  re-framer, written as the formats lay it out.
- **The browser's screen** (`Framebuffers`, `Rendering`).
- **Small state machines** (`RequestChannel`, `RateLimits`, `Sessions`).

`Bytes`, `Streams`, `Scans` and `Grid` hold what these share. Code that changes things in place is a
class or a method here too, proved against a function or predicate of values; the results about whole
runs are lemmas about those.

`dafny verify dfyconfig.toml` checks everything. Loops whose contracts name large recursive
specifications `hide` their bodies; nothing is assumed anywhere.

What is taken as given, always as a parameter: the zlib codec (any pair of functions of the whole
history with the one undoing the other, `Zlib.Codec.Inverts`; `Zlib.STORING` shows there is one), the
JPEG codec and the test that picks tiles for it (any functions), the clock (an argument), the scheduler
(any order of steps), the frames the screen gives, and the order in which Go ranges over a map.

## Findings

Where a property the code is for does not hold on every input, the exact condition is proved.

- The compact length survives exactly below 2^22 (`CompactLength.RoundTrip`).
- The proxy reads a Tight tile back as written exactly when `Reframing.TileFramed` holds: below 12 raw
  bytes it expects no length, which rfb/encodings/tight.go:346-355 always writes
  (`Reframing.TileReframed`, `Misreadings.SmallTileReframed`). A tile of two pixels and two colours is
  such an input (`Misreadings.SmallTileMisread`).
- An update is read back exactly when it has fewer than 2^16 rectangles (`Reframing.UpdateReframed`); a
  Tight screen of 16384 by 16384 pixels has one too many, and is taken for an empty update
  (`Misreadings.FullScreenTiles`, `Misreadings.FullUpdateMisread`).
- The browser's fast path agrees with reassembly exactly when a standard frame is one complete message;
  three bytes of a cut text are dispatched as a message (`Connection.FastPathAgrees`,
  `Connection.FastPathDispatchesPieces`).
- From the server's pixel format to the browser's default one a raw update arrives with alpha 0, since
  rfb/pixconv.go:55-71 leaves the fourth byte empty and web/src/encodings/raw.ts:14-15 takes it for alpha
  (`ScreenColours.DefaultColours`, `ScreenColours.RawIsTransparent`). Tight and ZRLE pixels are opaque.
- The CPIXEL rule at rfb/server.go:1083-1107 goes by the channels' fields, the RFC by their bits. It never
  leaves out a needed byte, and keeps a spare one exactly when one field ends above bit 24 and one starts
  below bit 8 (`CPixels.SizeFollowsRfcExactly`), as with a channel without bits
  (`CPixels.EmptyChannelNotCut`); never with the odd maxima of true-colour formats
  (`CPixels.CPixelFollowsRfc`).
- The proxy forwards Tight tiles with filters and RRE rectangles, the browser knows neither: it takes a
  filter byte for a length and the data of an RRE rectangle for the next header
  (`ForeignServers.FilterCutShort`, `ForeignServers.RreCutShort`). redvnc's own server sends neither.
- A decoded ZRLE rectangle is never marked dirty. The next render shows it exactly when nothing visible
  in it changed or other writes made it part of the bounding box (`Rendering.UnmarkedRectangle`,
  `ZrleRoundTrip.RectangleRendered`).
- The server's own ZRLE and the browser's ZRLE decoder disagree about red and blue; they agree exactly
  on pixels where the two are equal (`CPixels.BrowserReadsCut`).
- After an out-of-bounds error the ZRLE encoder's next rectangle still arrives exactly when the failed
  call had compressed nothing (`ZrleRoundTrip.AfterFailure`, `ZrleEncoders.Zrle.Encode`).
- Scaling a channel up and down again is lossless exactly when the wide maximum is a multiple of the
  narrow one (`PixelFormats.NarrowWideNarrowExact`).
- With two unanswered requests one can be dropped; with one, never (`RequestChannel.NeverDropsExactly`).
  The browser sends an extra request after every unasked update and every resize, and still never waits
  for an answer that does not come (`RequestChannel.BrowserNeverStalls`).
- An address that is allowed can be locked out again without a new failure, exactly when
  `RateLimits.Steady` fails (`RateLimits.StaysAllowedExactly`). A lockout never outlasts the window, so
  the hour announced at wsproxy/ratelimit.go:126 is five minutes under the default window
  (`RateLimits.LockedExactly`). Purging is invisible exactly when a limit is set or the lockout is
  shorter than the window (`RateLimits.PurgesInvisibleExactly`).
- The session counters stay right exactly when IDs are new and a session keeps its target
  (`Sessions.AddAccountedExactly`, `Sessions.RemoveAccountedExactly`).
- rfb/encodings/tight.go:315 and :313-315 cite RFC 6143 section 7.7.7 for Tight; that RFC does not define
  Tight. The model follows the code. web/src/connection.ts:78-79 relies on one message per frame, which
  `EndToEnd.RelayedAsWritten` proves of the proxy.

## Model

| member | source | states |
|---|---|---|
| `ScreenView.ViewAgrees` | rfb/server.go:580-611 | after any run of captures and full-screen requests, the first one full or the client in sync, the next answered request leaves the client showing exactly the last captured frame |
| `ScreenView.AnswerRepairs` | rfb/server.go:580-685 | after one answer a pixel is right exactly when it was right before, or the answer is full, or the pixel lies in a dirty tile |
| `ScreenView.AnswerShows` | rfb/server.go:897-937 | a full answer, and any answer to a client in sync, shows the current frame and leaves client and differ in sync |
| `ScreenView.HandleRequest` | rfb/server.go:580-611 | capture, dirty rectangles, regions and raw rectangles are those of the run's next state, and exactly one update comes of them |
| `ScreenView.EncodeAnswer` | rfb/server.go:671-685 | one raw rectangle for each region, in order |
| `ScreenView.DrawAnswer` | web/src/index.ts:490-500 | drawing the answer takes the browser's picture to that of the run's next state |
| `ScreenView.DecodeRaw` | web/src/encodings/raw.ts:7-16 | the rectangle's pixels replace those of its target, no others, and the target is marked dirty |
| `ScreenColours.ColoursAgree` | rfb/server.go:580-611 | the whole-run result in colours: each visible pixel of the client has the red, green and blue of the last captured frame, each rescaled to its own range, and exactly it where the ranges are equal |
| `ScreenColours.DefaultColours` | rfb/pixconv.go:40-73 | between the default formats the bytes b, g, r, x of a pixel are sent as r, g, b, 0 |
| `ScreenColours.RawIsTransparent` | web/src/encodings/raw.ts:7-16 | so after any run over the default formats each visible pixel shows the frame's colour with alpha 0 |
| `WireView.ViewOverWire` | web/src/connection.ts:89-147 | for any run and any cutting of the written bytes, reassembling, parsing and drawing leaves nothing buffered and shows the last captured frame |
| `WireView.RawCarried` | rfb/server.go:915-924 | a raw rectangle of a 16-bit region carries its pixels and is read back by every reader of the stream |
| `WireView.AnswerDrawn` | web/src/rfb-parser.ts:234-263 | drawing an update from its bytes, at the places the parser finds, does what its rectangles do |
| `TightView.TightViewAgrees` | rfb/server.go:717-742 | the same whole runs over Tight: each visible pixel whose last tile was no JPEG shows the last captured frame, without exception when no tile is picked for JPEG |
| `TightView.AnswerShows` | rfb/server.go:717-742 | a Tight answer to a full request, or to a client in sync, leaves all pixels right, both sides' streams in step and the client in sync |
| `TightView.RegionDrawn` | rfb/server.go:721-732 | one region through encoder and decoder, its JPEGs drawn: its pixels show the frame or came by JPEG, all others are as they were |
| `Updates.EncodeRegions` | rfb/server.go:944-957 | the regions are the clipped, non-empty dirty rectangles in order, or the whole area |
| `Updates.RegionsCover` | rfb/server.go:944-957 | the regions cover exactly the requested pixels that are dirty |
| `Updates.RegionsInOrder` | rfb/server.go:944-957 | each region is the shared part of a dirty tile and the area, and tiles in order without overlap give such regions |
| `Updates.ExtractRegion` | rfb/server.go:903-912 | the rows of the region up to the first one the frame does not have |
| `Updates.RawPixel` | rfb/server.go:899-913 | every pixel of the payload is the converted pixel of the frame, in its place |
| `Updates.EncodeRaw` | rfb/server.go:899-924 | the rectangle for a region, with four bytes for each pixel |
| `FrameDiffs.DirtyExactly` | rfb/pipelined_capturer.go:190-219 | the result is exactly the grid tiles with a changed byte, in row-major order, disjoint and in bounds |
| `FrameDiffs.ChangedPixelIsDirty` | rfb/pipelined_capturer.go:200-217 | no changed pixel lies outside the result |
| `FrameDiffs.PatchGivesNewFrame` | capture/diff.go:33-40 | the old frame patched on the result is the new one, at every visible pixel |
| `FrameDiffs.NothingDirty` | capture/diff.go:93-97 | the result is empty exactly when no visible pixel changed |
| `FrameDiffs.TileDiffers` | capture/diff.go:69-82 | a tile differs exactly when one of its pixels did, or the frame ends inside it |
| `FrameDiffs.FindDirtyTiles` | capture/diff.go:64-88 | the nested loops find the changed tiles of the grid, in order |
| `FrameDiffs.FrameDiffer.Diff` | capture/diff.go:42-98 | no list on a first frame or another size, else the dirty tiles; the frame is remembered for the next call |
| `Capturing.PipelinedCapturer.Publish` | rfb/pipelined_capturer.go:91-103 | the buffer not shown takes the frame and becomes the shown one; empty frames change nothing |
| `Capturing.PipelinedCapturer.Capture` | rfb/pipelined_capturer.go:129-157 | the latest frame is returned and its dirty rectangles are stored |
| `Capturing.PipelinedCapturer.FrameDiff` | rfb/pipelined_capturer.go:174-228 | as `Diff`, on the capturer's fields |
| `Capturing.PipelinedCapturer.LastDirtyRects` | rfb/pipelined_capturer.go:161-167 | the stored rectangles once, then none until the next capture |
| `PixelConversion.ChannelsSurvive` | rfb/pixconv.go:8-77 | in every pixel of the result red comes from red, green from green and blue from blue: the value y for x satisfies y * srcMax <= x * dstMax < y * srcMax + srcMax, and is x when the maxima are equal |
| `PixelConversion.ConvertPixels` | rfb/pixconv.go:8-77 | equal formats return the input; otherwise every pixel arrives with its channels as just said |
| `PixelConversion.ConvertOne` | rfb/pixconv.go:40-56 | extract, rescale where the maxima differ, pack; the pixel keeps its colour in that sense |
| `PixelConversion.ColourSurvives` | rfb/pixconv.go:40-56 | one pixel number keeps its colour, for every pair of formats the loop can convert between |
| `PixelConversion.EncodeCursorRect` | rfb/protocol.go:280-297 | the rectangle carries the converted cursor and its mask, with the hotspot as position |
| `PixelConversion.CursorColours` | rfb/protocol.go:280-297 | each pixel of the sent cursor has the channels of the cursor's own pixel |
| `PixelFormats.PackExtract` | rfb/pixconv.go:40-56 | channels packed into disjoint fields extract back unchanged |
| `PixelFormats.ReadWrite` | rfb/pixconv.go:58-73 | a stored pixel is read back, in all sizes and both byte orders |
| `PixelFormats.ByteOrder` | rfb/pixconv.go:24-37 | big-endian pixels have their most significant byte first, little-endian ones last |
| `PixelFormats.ScaleExact` | rfb/pixconv.go:45-53 | scaling is the exact rounded-down quotient, without 32-bit overflow, and stays in range |
| `PixelFormats.ScaleMonotone` | rfb/pixconv.go:45-53 | scaling keeps order and takes maximum to maximum |
| `PixelFormats.NarrowWideNarrow` | rfb/pixconv.go:45-53 | widening and narrowing again loses at most one and never gains |
| `PixelFormats.NarrowWideNarrowExact` | rfb/pixconv.go:45-53 | it is lossless exactly when the wide maximum is a multiple of the narrow one |
| `PixelFormats.WideNarrowWide` | rfb/pixconv.go:45-53 | the loss times the narrow maximum is below the sum of the maxima |
| `CPixels.CountBits` | rfb/server.go:1110-1116 | the loop computes the bit length |
| `CPixels.BitLenBounds` | rfb/server.go:1110-1116 | no bit of a number lies at or above its bit length |
| `CPixels.ZrleCPixel` | rfb/server.go:1083-1107 | size and offset of a CPIXEL; with odd maxima the size RFC 6143 section 7.7.5 gives, stated by the bits of the masks |
| `CPixels.CPixelFollowsRfc` | rfb/server.go:1083-1107 | three bytes exactly when the format has 32 bits, depth at most 24, and no channel bit at or above 24 or none below 8; the byte left out is the one without channel bits in the format's byte order |
| `CPixels.SizeFollowsRfcExactly` | rfb/server.go:1083-1107 | for any maxima: never a byte too few, and the RFC's size exactly unless a byte is spare although one field ends above bit 24 and one starts below bit 8 |
| `CPixels.EmptyChannelNotCut` | rfb/server.go:1085-1107 | a format with an empty channel whose spare byte the code misses |
| `CPixels.CutKeepsColour` | rfb/server.go:1083-1107 | in every 32-bit format, either byte order, the cut pixel has all bits of all three channels |
| `CPixels.EncodeRegion` | rfb/server.go:771-803 | the parts written for a region are, tile by tile, cut from its pixels, also as a decoder sees it that goes by the RFC |
| `CPixels.RegionRecovers` | rfb/server.go:771-803 | a specification decoder finds every tile where it stands and gets all channels of every pixel back |
| `CPixels.RfcRecovers` | rfb/server.go:771-803 | so does a decoder that works out size and place from the channel masks, as the RFC says |
| `CPixels.BrowserReadsCut` | web/src/encodings/zrle.ts:97-115 | the browser shows such a CPIXEL with red and blue exchanged; right exactly when they are equal |
| `Zlib.StaysInStep` | rfb/encodings/zrle.go:43-55 | a decompressor given all earlier chunks returns the next one and stays in step |
| `Zlib.Reader.Decompress` | web/src/encodings/tight.ts:24-47 | strips two bytes on the first push and joins the pieces the inflater hands out |
| `PackedIndices.PackStep` | rfb/encodings/zrle.go:180-189 | one more index keeps all earlier ones readable and adds its own |
| `PackedIndices.PackEnd` | rfb/encodings/zrle.go:192-198 | padding the last byte completes a row in which every column reads back its index |
| `PackedIndices.LeastWidth` | rfb/encodings/zrle.go:155-165 | the width is the least of 1, 2 and 4 bits that gives every colour an index, and a row has no byte too many |
| `ZrleEncoders.ExtractTile` | rfb/encodings/zrle.go:66-83 | the tile's colours row by row, or the error exactly when one of its pixels is missing |
| `ZrleEncoders.CountColours` | rfb/encodings/zrle.go:87-98 | distinct colours numbered by first appearance; complete when fewer than 128 |
| `ZrleEncoders.BuildPalette` | rfb/encodings/zrle.go:142-151 | the palette lists the map's colours by index |
| `ZrleEncoders.EncodePackedPalette` | rfb/encodings/zrle.go:134-202 | the bytes written read back as the tile, wherever they stand |
| `ZrleEncoders.EncodeTile` | rfb/encodings/zrle.go:66-110 | solid, palette or raw by the number of colours; the bytes read back as the tile to the last of them |
| `ZrleEncoders.Zrle.Encode` | rfb/encodings/zrle.go:23-63 | length and compressed tiles, behind what a failed call left; the error exactly when a pixel is missing, leaving nothing exactly when the first tile lacks one |
| `ZrleDecoders.DecodeRawTile` | web/src/encodings/zrle.ts:97-115 | draws the raw tile and returns its end |
| `ZrleDecoders.DecodeSolidTile` | web/src/encodings/zrle.ts:117-136 | draws one colour over the tile |
| `ZrleDecoders.TakeIndex` | web/src/encodings/zrle.ts:164-181 | the next index of a packed row, refilling the byte when it is used up |
| `ZrleDecoders.DecodePackedPalette` | web/src/encodings/zrle.ts:138-184 | draws every pixel in the palette colour its index names |
| `ZrleDecoders.ReadRunLength` | web/src/encodings/zrle.ts:199-207 | one more than the sum of the length bytes |
| `ZrleDecoders.DecodePlainRLE` | web/src/encodings/zrle.ts:186-218 | draws the expanded runs, each pixel of the tile once, and stops at the tile's size |
| `ZrleDecoders.DecodePaletteRLE` | web/src/encodings/zrle.ts:220-274 | the same for runs of palette colours |
| `ZrleDecoders.DecodeTile` | web/src/encodings/zrle.ts:65-95 | every subencoding is drawn as its meaning says |
| `ZrleDecoders.ZrleDecoder.Decode` | web/src/encodings/zrle.ts:21-63 | inflates the counted bytes, draws the tiles in order, marks nothing dirty |
| `ZrleRoundTrip.RoundTrip` | rfb/encodings/zrle.go:23-202 | decoding what the encoder wrote uses all bytes, gives each pixel of the rectangle its colour with full alpha, changes no other, and keeps the streams in step |
| `ZrleRoundTrip.PictureBytes` | rfb/encodings/zrle.go:66-83 | blue, green and red of a pixel are the first three bytes at y * stride + 4x of the frame |
| `ZrleRoundTrip.RectanglesArrive` | web/src/encodings/zrle.ts:21-63 | over any sequence of rectangles through one stream each brings exactly its pixels |
| `ZrleRoundTrip.AfterFailure` | rfb/encodings/zrle.go:23-42 | after a failed call the next rectangle arrives and the streams stay in step exactly when nothing was left in the compressor |
| `ZrleRoundTrip.RectangleRendered` | web/src/encodings/zrle.ts:53-60 | a decoded rectangle is shown by the next render exactly when nothing visible in it changed or it lies in the bounding box of other writes |
| `ZrleEncoders.RawReads` | web/src/encodings/zrle.ts:74-95 | a tile of plain colours reads as they are, with subencoding 0 and with each of those RFC 6143 leaves unused |
| `ZrleRoundTrip.PlainTileReads` | web/src/encodings/zrle.ts:186-218 | a tile of plain runs reads as the pixels they stand for |
| `ZrleRoundTrip.PaletteTileReads` | web/src/encodings/zrle.ts:220-274 | so does a tile of runs over a palette of 2 to 127 colours |
| `Runs.PlainRoundTrip` | web/src/encodings/zrle.ts:186-218 | decoding runs written as RFC 6143 section 7.7.6 says gives back exactly their pixels and end |
| `Runs.PaletteRoundTrip` | web/src/encodings/zrle.ts:220-274 | the same for palette runs and single indices |
| `TightEncoders.IsSolidColour` | rfb/encodings/tight.go:230-247 | the common colour of all pixels, or none |
| `TightEncoders.ExtractTile` | rfb/encodings/tight.go:112-122 | the tile's pixels, or the error exactly when one is missing |
| `TightEncoders.Classify` | rfb/encodings/tight.go:104-139 | tiles in row-major order, solid, JPEG or Basic on the streams in turn |
| `TightEncoders.KindExactly` | rfb/encodings/tight.go:128-136 | solid exactly when all pixels have one colour, JPEG exactly when the tile is a whole 64x64 one of more colours that varies, and Basic otherwise |
| `TightEncoders.StreamsInTurn` | rfb/encodings/tight.go:133-136 | the first Basic tile goes to stream 0, each later one to the stream behind that of the one before |
| `TightTiles.StepKeeps` | rfb/encodings/tight.go:141-197 | whichever goroutine goes on, every result so far is the sequential one and every stream has compressed what its goroutine passed |
| `TightTiles.ScheduleIndependent` | rfb/encodings/tight.go:141-199 | for every interleaving results and stream histories equal those of encoding the tiles one after the other |
| `TightTiles.WorkApart` | rfb/encodings/tight.go:174-180 | no tile is the work of two goroutines, so a tile is one step |
| `TightTiles.UnfinishedCanGoOn` | rfb/encodings/tight.go:181-199 | while tiles are missing some goroutine can go on |
| `TightTiles.StepShortens` | rfb/encodings/tight.go:181-199 | every step leaves less to do, so waiting ends |
| `TightEncoders.Tight.EncodeTiles` | rfb/encodings/tight.go:141-199 | under any scheduler the results and histories are the sequential ones |
| `TightEncoders.Tight.EncodeMulti` | rfb/encodings/tight.go:90-219 | one rectangle a tile with its place, size and data; the error exactly when a pixel is missing, before anything is compressed |
| `TightEncoders.Tight.Encode` | rfb/encodings/tight.go:57-80 | the same tiles in one rectangle |
| `TightDecoders.TightDecoder.DecodeTile` | web/src/encodings/tight.ts:77-123 | resets, fill, deferred JPEG or inflated data, as the control byte says |
| `TightDecoders.TightDecoder.DecodeTiles` | web/src/encodings/tight.ts:67-125 | the tile loops leave offset, streams and picture as the fold over the tiles says; exactly the JPEG tiles wait, in order, each with its place and bytes, and exactly the others are marked dirty |
| `TightDecoders.TightDecoder.Decode` | web/src/encodings/tight.ts:67-139 | and behind the last tile the JPEGs that decode are drawn over that picture and their places marked |
| `TightDecoders.TightDecoder.DrawJpegs` | web/src/encodings/tight.ts:127-138 | over places that share no pixel each shows its own image, from its upper left corner, or what it showed before when that does not decode; the places drawn are marked in order |
| `TightDecoders.OwnBitmap` | web/src/encodings/tight.ts:127-138 | drawing all waiting JPEGs, whichever of them decode, leaves each pixel of a place with that of its own image |
| `TightDecoders.PlacesExactly` | web/src/encodings/tight.ts:129-136 | a place is marked exactly when its JPEG decodes |
| `TightDecoders.PlacesInOrder` | web/src/encodings/tight.ts:129-136 | places in row-major order are marked in that order, each once |
| `TightDecoders.HiddenExactly` | web/src/encodings/tight.ts:93-106 | the pixels that wait are exactly those in the places of the waiting JPEGs |
| `TightDecoders.EachTileOnce` | web/src/encodings/tight.ts:73-125 | every tile is drawn at once or waits as a JPEG, and none is lost or done twice |
| `TightDecoders.ChangedIsMarked` | web/src/encodings/tight.ts:67-139 | every pixel a rectangle changes, at once or by a JPEG, lies in a rectangle marked dirty |
| `TightRoundTrip.BasicDecodes` | web/src/encodings/tight.ts:107-123 | under every control byte that is no fill and no JPEG, whatever it restarts, the RGB data of the stream named by its two lowest bits; the browser knows no filters |
| `TightDecoders.ResetExactly` | web/src/encodings/tight.ts:80-85 | bit 4 + s of the control byte restarts stream s and no other |
| `TightRoundTrip.EncodedArrives` | rfb/encodings/tight.go:148-197 | every tile the encoder wrote is read to its end, brings its RGB or, as a JPEG, waits with exactly its bytes, and leaves the streams ready for the next |
| `TightRoundTrip.RoundTrip` | rfb/encodings/tight.go:57-80 | a merged rectangle is read to its last byte; the JPEG tiles wait with their bytes, the others are marked, and in the end each tile shows the frame or the image of its own JPEG |
| `TightRoundTrip.MultiRoundTrip` | rfb/encodings/tight.go:90-219 | so does a frame of one-tile rectangles, each with its JPEG drawn before the next |
| `TightRoundTrip.FramesArrive` | web/src/encodings/tight.ts:67-139 | over any sequence of frames the four streams stay in step, and every frame leaves each tile showing the frame or the image of its own JPEG, and nothing changed outside |
| `TightRoundTrip.RectCarried` | rfb/encodings/tight.go:203-217 | a rectangle of `EncodeMulti` stands at the place of its tile and carries it; the proxy agrees about it from four pixels on |
| `CompactLength.RoundTrip` | rfb/encodings/tight.go:360-375 | the length and its size are read back, whatever follows, exactly when it is below 2^22 |
| `CompactLength.ReadClient` | rfb/client.go:605-626 | the Go client reads that length and consumes exactly its bytes |
| `CompactLength.TryRead` | web/src/rfb-parser.ts:187-206 | the bounds-checked reader finds it, or reports that bytes are missing |
| `CompactLength.Read` | web/src/rfb-parser.ts:336-350 | the unchecked reader finds the same |
| `Protocol.WriteFramebufferUpdate` | rfb/protocol.go:231-265 | appends type, padding, 16-bit count and every rectangle |
| `Protocol.WriteServerCutText` | rfb/protocol.go:315-328 | appends header, length and text |
| `Protocol.WriteBell` | rfb/protocol.go:331-333 | appends one byte |
| `Protocol.EncodeDesktopSizeRect` | rfb/protocol.go:301-312 | a rectangle without data whose header has the new width and height, position 0 and encoding -223 |
| `Protocol.HeaderRoundTrip` | rfb/protocol.go:222-228 | a header is read back field by field, its encoding signed |
| `RfbReader.RfbReader.ReadMessage` | wsproxy/rfbreader.go:62-85 | a returned message is exactly the bytes consumed and ends where the format says; an error exactly when the stream does not hold one |
| `RfbReader.RfbReader.Relay` | wsproxy/proxy.go:275-300 | the relayed frames, put together, are a prefix of the server's stream |
| `RfbReader.RfbReader.ReadTightData` | wsproxy/rfbreader.go:159-204 | the tile loops forward exactly the tiles |
| `RfbReader.RfbReader.ReadTightBasic` | wsproxy/rfbreader.go:206-260 | forwards exactly a Basic tile; where that ends for every filter is `ForeignServers.ForeignTileFound` |
| `RfbReader.RfbReader.ReadRre` | wsproxy/rfbreader.go:148-157 | header and subrectangles are forwarded |
| `RfbReader.RfbReader.UpdatePixelFormat` | wsproxy/rfbreader.go:46-57 | bytes per pixel and the size of a Tight colour |
| `Reframing.TileReframed` | wsproxy/rfbreader.go:171-200 | a tile the encoder wrote is read back exactly when the two sides agree about it |
| `Reframing.UpdateReframed` | wsproxy/rfbreader.go:87-118 | an update is read back whole exactly when its count fits 16 bits |
| `Reframing.StreamReframed` | wsproxy/rfbreader.go:62-383 | on any run of the server's messages the reader returns exactly those, one at a time |
| `Misreadings.SmallTileReframed` | wsproxy/rfbreader.go:254-259 | below four pixels a Basic tile is read back exactly when compression gained one byte |
| `Misreadings.SmallTileMisread` | wsproxy/rfbreader.go:254-257 | a tile the encoder makes of two pixels takes ten bytes, of which seven are read |
| `Misreadings.FullUpdateMisread` | rfb/protocol.go:239-241 | 65536 rectangles are announced as none, and reading stops behind the count |
| `Misreadings.FullScreenTiles` | rfb/encodings/tight.go:107-139 | a screen of 16384 by 16384 pixels has 65536 tiles |
| `ForeignServers.ForeignTileFound` | wsproxy/rfbreader.go:171-260 | the proxy finds the end of every tile of the Tight format: fill, JPEG, and Basic with no, copy, gradient or palette filter, 2 to 256 colours, one bit a pixel in padded rows for two and a byte for more, data below 12 bytes bare |
| `ForeignServers.TightRectFound` | wsproxy/rfbreader.go:159-204 | and of every rectangle of such tiles |
| `ForeignServers.RreRectFound` | wsproxy/rfbreader.go:148-157 | and of every RRE rectangle, whatever its subrectangles |
| `ForeignServers.ForeignUpdateFound` | wsproxy/rfbreader.go:87-118 | and of every update of such rectangles and its own server's |
| `ForeignServers.ColourMapAgreed` | wsproxy/rfbreader.go:364-383 | the proxy finds the end of a colour map, and the browser measures it to be as long |
| `ForeignServers.RreCutShort` | web/src/rfb-parser.ts:120-150 | the browser ends an RRE rectangle behind its header |
| `ForeignServers.FilterCutShort` | web/src/rfb-parser.ts:152-185 | a filtered tile of 17 bytes, of which the browser's scanner takes three |
| `RfbParser.MessageLengthStable` | web/src/rfb-parser.ts:56-206 | a length found on a prefix is the length found on every longer buffer |
| `RfbScanner.TryGetMessageLength` | web/src/rfb-parser.ts:56-95 | the safe scanner computes that length, or -1 |
| `RfbScanner.TryGetFBUpdateLength` | web/src/rfb-parser.ts:97-118 | so for updates, rectangle by rectangle |
| `RfbScanner.TryGetTightDataLength` | web/src/rfb-parser.ts:152-185 | so for Tight data, tile by tile |
| `RfbPlacement.FastIsSafe` | web/src/rfb-parser.ts:269-334 | whenever the safe functions find a length the unchecked ones find the same |
| `RfbPlacement.GetTightDataLength` | web/src/rfb-parser.ts:305-334 | the unchecked tile loops measure the tiles, or throw |
| `RfbPlacement.ParseFramebufferUpdate` | web/src/rfb-parser.ts:234-263 | headers and data offsets, each behind the measured end of the one before |
| `RfbAgreement.MessageMeasured` | web/src/rfb-parser.ts:56-150 | the browser measures every server message to be as long as the writer made it, whatever follows |
| `RfbAgreement.ExtensionMeasured` | wsproxy/clipboard.go:48-56 | a message of the proxy's own is measured right exactly when its length fits 32 bits |
| `RfbAgreement.ParsedAsWritten` | web/src/rfb-parser.ts:234-263 | the parser places each rectangle's data where the writer put it |
| `Reassembly.ChunkingIsIrrelevant` | web/src/connection.ts:89-147 | feeding chunks one by one dispatches and buffers the same as the whole stream, whatever its bytes |
| `Reassembly.MessagesSurviveChunking` | web/src/connection.ts:89-147 | for every cutting of complete messages and a piece, exactly the messages are dispatched and the piece is buffered |
| `Connection.VncConnection.OnMessage` | web/src/connection.ts:52-148 | the handler on its growing buffer does what the reassembly state machine does, every turn taking at least one byte |
| `Connection.FastPathAgrees` | web/src/connection.ts:59-87 | the fast path agrees with reassembly exactly when a standard frame is one complete message |
| `Connection.CompleteFramesPassThrough` | web/src/connection.ts:59-87 | one complete message a frame: all are dispatched and the buffer stays empty |
| `Connection.DeliverInOrder` | web/src/connection.ts:68-73 | one delivery a message, in order; the first session-init message alone is set apart |
| `EndToEnd.RelayedAsWritten` | wsproxy/proxy.go:275-300 | the proxy cuts the server's stream into the server's messages |
| `EndToEnd.DispatchedAsWritten` | web/src/connection.ts:59-87 | the browser dispatches exactly those and buffers nothing |
| `EndToEnd.ReassembledFromAnyChunks` | web/src/connection.ts:89-147 | however else the stream is cut, reassembly finds the same messages |
| `Framebuffers.Framebuffer.SetPixel` | web/src/framebuffer.ts:69-75 | one pixel changes; nothing is marked |
| `Framebuffers.Framebuffer.WriteRect` | web/src/framebuffer.ts:80-91 | the rectangle shows the packed RGBA data, everything else is kept, the rectangle is marked |
| `Framebuffers.Framebuffer.WriteRectRGB` | web/src/framebuffer.ts:97-115 | the same for RGB data, with full alpha |
| `Framebuffers.Framebuffer.FillRect` | web/src/framebuffer.ts:120-133 | the same for one colour written as 32-bit words |
| `Framebuffers.Framebuffer.CopyRect` | web/src/framebuffer.ts:138-155 | a simultaneous copy, also when source and target overlap |
| `Rendering.Render` | web/src/renderer.ts:50-79 | copies the bounding box of the dirty rectangles and clears them |
| `Rendering.BoxCovers` | web/src/renderer.ts:57-68 | the loop's box contains every dirty rectangle |
| `Rendering.BoxLeast` | web/src/renderer.ts:57-68 | and is the least such box |
| `Rendering.AlwaysConsistent` | web/src/framebuffer.ts:49-155 | over any run of marking writes and renders canvas and framebuffer agree outside the dirty rectangles |
| `Rendering.AgreesAfterRender` | web/src/renderer.ts:50-79 | and everywhere after a render |
| `Rendering.UnmarkedRectangle` | web/src/framebuffer.ts:69-75 | after an unmarked write to a rectangle the next render agrees exactly when each visible pixel kept its colour or lies in the box |
| `RequestChannel.RunKeeps` | rfb/server.go:413-423 | in every interleaving each received request is accepted or dropped, never both, in order of arrival |
| `RequestChannel.Conservation` | rfb/server.go:468-527 | received = answered + in service + queued + dropped, and every answered request is one update |
| `RequestChannel.QuietWaits` | rfb/server.go:419-423 | when nothing is under way the unanswered requests are exactly the dropped ones |
| `RequestChannel.WorkEnds` | rfb/server.go:476-486 | until then some step is possible, and every step comes closer |
| `RequestChannel.NeverDropsExactly` | rfb/server.go:413-423 | no run ever drops a request exactly when the client keeps at most one unanswered |
| `RequestChannel.BrowserNeverStalls` | web/src/index.ts:482-487 | with unasked updates and resizes something is always going round; without, exactly one thing, and nothing is dropped |
| `RateLimits.RateLimiter.IsAllowed` | wsproxy/ratelimit.go:57-82 | the answer is that of the address's failures at that time, which `RefusedExactly` gives in numbers |
| `RateLimits.RefusedExactly` | wsproxy/ratelimit.go:57-136 | with n failures inside the window an address is refused exactly when n reaches the limit and the last failure is no more than an hour back for n >= 20, five minutes for 10 to 19, the configured lockout below |
| `RateLimits.BurstRefusedExactly` | wsproxy/ratelimit.go:57-136 | n failures at one moment, from the limit on, refuse it exactly so long, and less long than the window |
| `RateLimits.ClearedIsAllowed` | wsproxy/ratelimit.go:97-106 | a cleared address is allowed and no other notices |
| `RateLimits.RecordedCounts` | wsproxy/ratelimit.go:85-94 | a failure counts once for its address while the window lasts, and for no other |
| `RateLimits.RateLimiter.PurgeExpired` | wsproxy/ratelimit.go:154-176 | in whatever order the map is walked, leading expired failures go and empty entries are deleted |
| `RateLimits.KeptAnswers` | wsproxy/ratelimit.go:154-176 | failures purged at a time change no answer at that time or later |
| `RateLimits.PurgesInvisibleExactly` | wsproxy/ratelimit.go:154-176 | for all histories and times, exactly when a limit is set or the lockout is shorter than the window |
| `RateLimits.PurgingRefines` | wsproxy/ratelimit.go:138-176 | on any run with purges in between every answer is that of a limiter that forgets nothing |
| `RateLimits.WindowPassed` | wsproxy/ratelimit.go:113-123 | after any run an address is allowed once the window has passed since its last failure |
| `RateLimits.StaysAllowedExactly` | wsproxy/ratelimit.go:57-136 | after any run an allowed address stays allowed, exactly under the stated bounds on lockout, limit and window |
| `RateLimits.LockedExactly` | wsproxy/ratelimit.go:125-136 | how long after its last failure an address can be locked: less than the window, and at most the longest lockout |
| `Sessions.ConnectionManager.TryAdd` | wsproxy/session.go:135-149 | lets a session in exactly when there is room, with its counter one up; a new ID keeps the books |
| `Sessions.ConnectionManager.Remove` | wsproxy/session.go:152-164 | forgets a tracked ID, its counter one down or deleted; an unchanged target keeps the books |
| `Sessions.ConnectionManager.Count` | wsproxy/session.go:179-183 | the number of tracked sessions |
| `Sessions.AddAccountedExactly` | wsproxy/session.go:146-148 | admission keeps the counters right exactly when the ID is new |
| `Sessions.RemoveAccountedExactly` | wsproxy/session.go:156-163 | removal does exactly when the target is the one it came in with |
| `Sessions.CountsAddUp` | wsproxy/session.go:146-163 | right counters add up to the number of sessions |
| `Sessions.RunGood` | wsproxy/session.go:135-164 | after any run the counters are right and add up, no zero entry remains, and both limits hold |
| `Sessions.RoomExactly` | wsproxy/session.go:139-144 | a session is let in exactly when neither limit is reached by the sessions there are |

## Left out

- WireView.ViewOverWire: asks for fewer than 2^16 screen tiles, the bound beyond which the rectangle count no longer fits its field; see Findings.
- ScreenView.ViewAgrees: one client that requests the whole screen, at fixed size, stride and pixel formats of four bytes; several clients share the differ's state in the code, and requests of parts, live resizes and format changes in mid-stream lose the property.
- TightView.TightViewAgrees: takes for granted that the JPEG and zlib output of a tile of up to 4096 pixels stays below 2^22 bytes; the raw pixel formats of the run only matter to the picture of raw updates.
- ScreenView.HandleRequest: a request that waits for the first frame is a step that does nothing, where the code waits for a notification.
- TightRoundTrip.FramesArrive: payloads of 2^22 bytes or more are excluded; a tile has at most 12288 raw bytes, but no bound on zlib's output is modelled.
- TightEncoders.Tight.EncodeTiles: a goroutine's turn is a whole tile; nothing inside one is shared, which `TightTiles.WorkApart` says. The sum of squares that picks JPEG tiles is an arbitrary predicate.
- TightDecoders.TightDecoder.Decode: what a JPEG decodes to is an arbitrary function of its bytes and size; it is drawn before the next rectangle, as the update queue at web/src/index.ts:413-424 has it. What a read behind the data leaves drawn before it throws is not stated.
- CPixels.RfcRecovers: channel maxima are odd, so that fields and bits agree; with others the code can leave out the first of two spare bytes where the RFC's order suggests the last.
- ZrleEncoders.Zrle.Encode: what a compressor makes of a chunk of which some output was thrown away is not modelled beyond its length.
- ZrleDecoders.DecodePlainRLE: data that end inside a run make the source's loop run on; the model returns none.
- RequestChannel.Conservation: I/O errors, which end the writer goroutine, and the pause that limits the frame rate.
- RateLimits.RateLimiter.PurgeExpired: the ticker; purges may come at any time instead.
- Connection.VncConnection.OnMessage: opening, closing and errors of the socket, and the page's handlers.
- zlib, JPEG and H.264 internals; an H.264 payload is bytes behind a length.
- Screen capture, input, portals, Media Foundation and x264.
- Sockets, TLS, WebSocket upgrades, HTTP handlers, configuration, command line, logging and timing statistics.
- The handshake, DES, and the password flow.
- rfb/client.go's own Tight reader, which opens a fresh zlib stream for every tile and so cannot follow the persistent ones; only its compact length is modelled.
- The Zlib encoding of rfb/server.go:837-895 beyond its framing; it is raw data in one stream.
- File upload, clipboard, key symbols, coordinate mapping, React components, the WebGL renderer.
