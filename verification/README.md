# Verified models of seven piclaw components

This project states in Dafny what seven self-contained components do and proves what they are for.
Each component is modelled in the form its source has: a mutable framebuffer and its byte-cursor
loops, a depth-first search over mutable sets, loops that build a byte stream, workers that share
variables, a machine driven by events, and pure recursion where the source is pure. A method that
changes state is proved against a function or relation, and the laws are proved about that.

| files | component |
|---|---|
| `Machine`, `PixelFormat`, `Canvas`, `Tiling` | 32-bit integers and bit operations; pixel decoding; drawing operations on a grid; the tile walk |
| `Framebuffer`, `Rre`, `Hextile`, `Zrle`, `ZrleScan`, `ZrlePaint`, `ZrleLimit`, `ZrlePacking`, `DecoderLaws` | the VNC framebuffer decoder (sections 7.4, 7.7.1, 7.7.2, 7.7.3, 7.7.4 and 7.7.6 of RFC 6143; CoRRE is an extension outside it) |
| `CycleKey`, `CycleGate` | the import-cycle gate |
| `SixelTerminal`, `Sixel` | the sixel emitter and a terminal that executes its output |
| `ConcurrentMap` | the bounded-concurrency map |
| `Serializer`, `CatalogDiff`, `CatalogLaws`, `CatalogTies` | the canonical serializer and the catalog delta |
| `StageOutput`, `NativeGate` | the native qualification gate |
| `Ustar` | the ustar writer |
| `Sorting` | sorting and listing under a comparison that may tie |

## How the decoder proof is built

For each compound encoding there is a parser, a function from bytes to pictures or tiles. It is the
specification of the wire format because it is proved to be the exact inverse of an encoder. The
validating pass accepts exactly what parses. The painting pass is a second, independent loop nest;
it is proved to stand where the parse stands at every tile and subrectangle, which makes all its
remaining failure exits unreachable. ZRLE run lengths can leave 31 bits, so there both passes are
specified in 32-bit arithmetic on every payload first (`ZrleScan`, `ZrlePaint`) and related to the
parser after that. What a pass draws is a list of fills and blits, and what a list of
operations shows at a point is proved separately. The class keeps a ghost grid of colours beside the
byte array, and it determines every byte.

## Assumptions

* Surface and rectangle dimensions are 16-bit numbers (section 7.3.2 of RFC 6143), the surface has
  fewer than 2^31 bytes, pixels have one to four bytes, channel maxima are at most 65535 (section
  7.4), and a payload is smaller than 2^30 bytes, the largest AssemblyScript buffer.
* The law that a compound rectangle is drawn completely or not at all is false of ZRLE on some
  payloads of 16 million bytes: a run-length accumulator wraps to a negative number, which
  the guard lets pass. `ZrleLimit.HalfPaints` and `DecoderLaws.HalfPainted` give such a payload. The
  decoder's behaviour is stated for every payload, and every payload that parses is accepted and
  drawn, long or not. The law is proved for payloads in which no run length reaches 2^31, which is
  exactly when every run length is read right. What a caller can check is whether 8,421,504 bytes
  255 stand in a row: `ZrleLimit.LimitIsExact` proves that number exact for the law.
* A comparison used for sorting is total and transitive but may tie on distinct strings, as
  `localeCompare` does: on canonically equivalent strings and on strings that differ in code points
  the collation ignores, such as U+0000 and U+00AD. Sorting is stable. Each law states where a tie
  would break it, and most hold under any comparison whatever; where one is false under ties it is
  proved exactly when it holds (`Serializer.CanonicalExactly`, `CycleKey.RotationsShareKeyIff`,
  `CatalogLaws.ReversesExactly`, `CatalogTies.VerdictExactly`). Only the default sort by code units is taken not to tie.
* File names in the import graph do not contain the separator (the zero character), and the
  dependency function is closed over a finite set of files.
* The content of an archive entry is below 8^11 bytes, more than any JavaScript string encodes to.

## Model

| member | source | states |
|---|---|---|
| `PixelFormats.ScaleChannelNearest` | runtime/assemblyscript/remote-display-decoder.ts:46-54 | a channel is scaled to the nearest of 255 steps: the error is at most half a step, so neither clamp changes a value in range |
| `PixelFormats.ScaleChannelEnds` | runtime/assemblyscript/remote-display-decoder.ts:46-54 | 0 goes to 0 and the maximum to 255 |
| `PixelFormats.ScaleChannelMonotone` | runtime/assemblyscript/remote-display-decoder.ts:46-54 | a brighter channel never becomes darker |
| `PixelFormats.ChannelFits` | runtime/assemblyscript/remote-display-decoder.ts:82-85 | a masked channel lies between 0 and its maximum, and the product in the scaling does not leave 31 bits |
| `PixelFormats.ReadPixelValueIsPositional` | runtime/assemblyscript/remote-display-decoder.ts:56-72 | one to four bytes, shifted and or-ed, are a base-256 number, most significant byte first or last by the flag: the shifted bytes never overlap |
| `PixelFormats.PackIs` | runtime/assemblyscript/remote-display-decoder.ts:86-86 | the or of the shifted channels puts each in a byte of its own |
| `Canvas.LocalRectInsideMeaning` | runtime/assemblyscript/remote-display-decoder.ts:99-111 | the guard accepts a non-empty rectangle exactly when each of its points lies in the parent |
| `Canvas.PaintersLaw` | runtime/assemblyscript/remote-display-decoder.ts:113-131 | the colour seen at a point after a list of drawing operations is that of the last operation covering it, or what was underneath if none does |
| `Canvas.Forgets` | runtime/assemblyscript/remote-display-decoder.ts:114-120 | inside a rectangle that the operations paint completely, the result does not depend on the old surface |
| `Canvas.DrawnUnique` | runtime/assemblyscript/remote-display-decoder.ts:114-120 | an old surface and a list of operations determine the new surface |
| `Tiling.UniqueBox` | runtime/assemblyscript/remote-display-decoder.ts:231-234 | every point of a rectangle lies in exactly one tile of the row-major tile grid, edge tiles included |
| `Tiling.TilesFillRect` | runtime/assemblyscript/remote-display-decoder.ts:479-482 | drawing each tile within its own box paints all of the rectangle and nothing outside it |
| `Framebuffers.Framebuffer.InitFramebuffer` | runtime/assemblyscript/remote-display-decoder.ts:22-26 | a new surface has the given size and four zero bytes a pixel |
| `Framebuffers.Framebuffer.SetPixel` | runtime/assemblyscript/remote-display-decoder.ts:90-97 | exactly one pixel changes, in the byte order red, green, blue, alpha, with every index in bounds |
| `Framebuffers.Framebuffer.FillRect` | runtime/assemblyscript/remote-display-decoder.ts:114-120 | the double loop is one fill of the rectangle: each pixel inside gets the colour, all others are kept |
| `Framebuffers.HoldsUnique` | runtime/assemblyscript/remote-display-decoder.ts:20-26 | the grid of colours the class keeps beside the bytes determines every byte |
| `Framebuffers.Framebuffer.ProcessRawRect` | runtime/assemblyscript/remote-display-decoder.ts:135-160 | accepted exactly for true colour, a rectangle inside the surface and enough bytes; then the rectangle shows the decoded pixels row by row and nothing else changes; otherwise no byte changes |
| `Framebuffers.Framebuffer.ProcessCopyRect` | runtime/assemblyscript/remote-display-decoder.ts:164-186 | accepted exactly when both rectangles are inside; then each destination pixel is the old pixel at the source offset, also when the two overlap, and all others are kept |
| `Framebuffers.Framebuffer.ProcessRreRect` | runtime/assemblyscript/remote-display-decoder.ts:370-414 | all or nothing: accepted exactly when the payload parses, and then drawn as the parsed picture; when rejected no byte changes; no later length or rectangle check can fail |
| `Framebuffers.Framebuffer.ProcessCoRreRect` | runtime/assemblyscript/remote-display-decoder.ts:418-457 | the same for one-byte coordinates |
| `Framebuffers.Framebuffer.ProcessHextileRect` | runtime/assemblyscript/remote-display-decoder.ts:461-548 | accepted exactly when the payload parses, and then drawn as the parsed tiles with the colours carried from tile to tile; when rejected no byte changes |
| `Framebuffers.Framebuffer.ProcessZrleTileData` | runtime/assemblyscript/remote-display-decoder.ts:553-696 | for every payload: a refused one changes no byte, any other is painted exactly as far as the painting pass goes; one that parses is accepted and drawn as the parsed tiles; without overlong run lengths nothing else is accepted and a rejected payload changes no byte |
| `Framebuffers.Framebuffer.PaintTiles` | runtime/assemblyscript/remote-display-decoder.ts:563-696 | the loops draw exactly what the painting pass's specification says, on any payload that was let through: the (px, py) walk fills a run-length tile row by row, runs that wrapped to a negative number draw nothing |
| `Framebuffers.DecodeRawRectToRgba` | runtime/assemblyscript/remote-display-decoder.ts:702-729 | the output is the decoded pixels in order, four bytes each, or empty when the format or the length is refused |
| `Framebuffers.RawPathsAgree` | runtime/assemblyscript/remote-display-decoder.ts:702-729 | decoding standalone and decoding into a fresh surface of that size give the same bytes, and both refuse the same inputs |
| `Framebuffers.BlockBytes` | runtime/assemblyscript/remote-display-decoder.ts:135-160 | a surface covered by one block of pixels is, byte for byte, the block written out |
| `Rre.ParseIsInverse` | runtime/assemblyscript/remote-display-decoder.ts:188-227 | the payload grammar is exact: the parser returns a picture if and only if it is well formed and the bytes are its encoding, for both coordinate widths |
| `Rre.ValidateRrePayload` | runtime/assemblyscript/remote-display-decoder.ts:188-207 | the validating pass accepts exactly the payloads that parse, for any size of rectangle |
| `Rre.ValidateCoRrePayload` | runtime/assemblyscript/remote-display-decoder.ts:209-227 | the same for the compact form |
| `Rre.OpsFillRect` | runtime/assemblyscript/remote-display-decoder.ts:393-412 | an accepted payload paints all of its rectangle and only that |
| `Rre.SeenInPicture` | runtime/assemblyscript/remote-display-decoder.ts:396-412 | a pixel shows the last subrectangle that covers it, else the background |
| `Rre.CompactPaintsTheSame` | runtime/assemblyscript/remote-display-decoder.ts:418-457 | a background and subrectangles that both forms can express draw the same from either encoding |
| `DecoderLaws.RreLaw` | runtime/assemblyscript/remote-display-decoder.ts:370-457 | after an accepted payload every pixel of the rectangle shows the picture's painter's-law colour and all others are unchanged |
| `DecoderLaws.CompactAgrees` | runtime/assemblyscript/remote-display-decoder.ts:370-457 | an RRE and a CoRRE rectangle with the same background and subrectangles leave equal framebuffers |
| `DecoderLaws.OutsideKept` | runtime/assemblyscript/remote-display-decoder.ts:114-120 | an accepted rectangle changes no pixel outside itself |
| `Hextile.ParseIsInverse` | runtime/assemblyscript/remote-display-decoder.ts:229-272 | the tile grammar is exact: bytes parse to tiles if and only if the tiles are well formed and the bytes encode them, nothing left over |
| `Hextile.ValidateHextilePayload` | runtime/assemblyscript/remote-display-decoder.ts:229-272 | the validating pass accepts exactly the payloads that parse |
| `Hextile.ReachedTile` | runtime/assemblyscript/remote-display-decoder.ts:479-514 | the painting pass stays in step: at every tile it stands where the parse stands, reads the same tile, and carries background and foreground on as the parse does, raw tiles leaving both alone |
| `Hextile.ReachedEnd` | runtime/assemblyscript/remote-display-decoder.ts:545-547 | when its loops end the painting pass has consumed the whole payload and drawn every tile |
| `Hextile.OpsFillRect` | runtime/assemblyscript/remote-display-decoder.ts:479-546 | an accepted payload paints all of its rectangle and only that |
| `Hextile.PixelMeaning` | runtime/assemblyscript/remote-display-decoder.ts:486-543 | what a pixel of a tile shows: the raw pixel, or the last subrectangle covering it in its own or the carried foreground, or the carried background |
| `DecoderLaws.HextileLaw` | runtime/assemblyscript/remote-display-decoder.ts:461-548 | after an accepted payload every pixel of every tile shows that value and all pixels outside are unchanged |
| `Zrle.ParseIsInverse` | runtime/assemblyscript/remote-display-decoder.ts:274-366 | the tile grammar is exact: bytes parse to tiles if and only if the tiles are well formed and the bytes encode them; unused subencodings never parse and run lengths sum to the tile's area |
| `Zrle.ExtraParsed` | runtime/assemblyscript/remote-display-decoder.ts:324-330 | a run length is a maximal string of 255 bytes and one smaller byte, and its value is read in exactly one way |
| `ZrleScan.ReadRunLength` | runtime/assemblyscript/remote-display-decoder.ts:324-330 | on any payload the accumulating loop computes that length wrapped to 32 bits and stops behind it, or reports the end of the payload |
| `ZrleScan.WrappedRunLengthIs` | runtime/assemblyscript/remote-display-decoder.ts:324-330 | the wrapped accumulator is the true length modulo 2^32, read as a signed number |
| `ZrleScan.RunLengthExactWhen` | runtime/assemblyscript/remote-display-decoder.ts:324-331 | the accumulator is exact if and only if the true length is below 2^31 |
| `ZrleScan.ReaderExactWhen` | runtime/assemblyscript/remote-display-decoder.ts:324-331 | reading is exact at every position of a payload if and only if no run length in it reaches 2^31 |
| `ZrleScan.ShortStringsSuffice` | runtime/assemblyscript/remote-display-decoder.ts:324-331 | that holds for every payload without 8,421,504 consecutive bytes 255, whatever its length |
| `ZrleScan.LimitIsTight` | runtime/assemblyscript/remote-display-decoder.ts:324-331 | that number is sharp for the reader of a length: with 126 behind such a string the accumulator is 2^31 - 1, with 127 it is -2^31 |
| `ZrleScan.ValidateZrleTileDataPayload` | runtime/assemblyscript/remote-display-decoder.ts:274-366 | on every payload the validating pass computes its 32-bit specification, and its nested loops end because unread bytes shrink |
| `ZrleScan.ScanIsParse` | runtime/assemblyscript/remote-display-decoder.ts:274-366 | that pass lets every payload through that parses, and no other unless a run length is overlong |
| `ZrlePaint.TilePainted` | runtime/assemblyscript/remote-display-decoder.ts:569-691 | the painting pass stays in step: started where a tile parses it draws that tile and stops where the parse stops |
| `ZrlePaint.PaintsAsParsed` | runtime/assemblyscript/remote-display-decoder.ts:553-696 | on a payload that parses the painting pass draws all parsed tiles, consumes the payload and accepts |
| `ZrlePaint.PaintsWithin` | runtime/assemblyscript/remote-display-decoder.ts:553-696 | whatever the payload, the painting pass draws nothing outside the rectangle |
| `ZrleLimit.HalfPaints` | runtime/assemblyscript/remote-display-decoder.ts:324-336 | all or nothing is false of the code: a concrete payload for a rectangle of 65 by 1 does not parse, passes the validating pass, and the painting pass gives up after drawing the first tile; for every pixel format |
| `ZrleLimit.LimitIsExact` | runtime/assemblyscript/remote-display-decoder.ts:324-336 | for every pixel format: every payload without n bytes 255 in a row is drawn as parsed or not at all if and only if n is at most 8,421,504 |
| `Zrle.OpsFillRect` | runtime/assemblyscript/remote-display-decoder.ts:569-694 | an accepted payload paints all of its rectangle and only that |
| `Zrle.PixelsAt` | runtime/assemblyscript/remote-display-decoder.ts:604-690 | the pixels a tile writes in row-major order are those its subencoding denotes point by point |
| `Zrle.ExpandAt` | runtime/assemblyscript/remote-display-decoder.ts:631-651 | the k-th pixel of expanded runs has the colour of the run that k falls into |
| `Zrle.PixelMeaning` | runtime/assemblyscript/remote-display-decoder.ts:578-690 | what a pixel of a tile shows: raw, solid, palette entry by packed index, or the run it falls into |
| `DecoderLaws.ZrleLaw` | runtime/assemblyscript/remote-display-decoder.ts:553-696 | after a payload that parses every pixel of every tile shows that value and all pixels outside are unchanged |
| `DecoderLaws.ZrleOutside` | runtime/assemblyscript/remote-display-decoder.ts:553-696 | whatever a payload holds, no pixel outside the rectangle changes |
| `DecoderLaws.HalfPainted` | runtime/assemblyscript/remote-display-decoder.ts:553-696 | the decoder run on that payload returns the rejection code and leaves the first tile painted |
| `ZrlePacking.PackedRoundTrip` | runtime/assemblyscript/remote-display-decoder.ts:604-628 | indices packed most significant first with each row padded to a byte are accepted and read back as sent |
| `CycleGate.BuildGraph` | runtime/scripts/check-circular-dependencies.ts:80-100 | the graph's keys are exactly the files reachable from the entrypoint; each maps to its dependencies, which are keys too |
| `CycleGate.CycleFinder.Visit` | runtime/scripts/check-circular-dependencies.ts:120-137 | the search leaves the visiting set and the path as it found them; the file is visited, or it is on the path and the dependency on it lies on a recorded cycle; everything recorded stays as it is |
| `CycleGate.CycleFinder.Record` | runtime/scripts/check-circular-dependencies.ts:121-126 | the cycle stored is the path from the file on, closed with the file, under its key; nothing recorded before changes or is lost, and a new key goes behind the others |
| `CycleGate.StoreGrows` | runtime/scripts/check-circular-dependencies.ts:124-125 | setting a key that is already in the map stores the same cycle again: what has the same key is a rotation, and it was pushed in the same order |
| `CycleGate.ClimbingRotation` | runtime/scripts/check-circular-dependencies.ts:131-136 | two lists of files in the order in which they were pushed are rotations of each other only if they are equal |
| `CycleGate.WalkMeetsCycle` | runtime/scripts/check-circular-dependencies.ts:120-137 | if every file finished after its dependencies, those on recorded cycles aside, every closed walk goes through a dependency of a recorded cycle; with none recorded there is no closed walk |
| `CycleGate.FindCycles` | runtime/scripts/check-circular-dependencies.ts:114-141 | under any comparisons a cycle is listed if and only if the graph has one, each listed list is a simple cycle, every closed walk of the graph shares a dependency with a listed cycle, and no two listed cycles are rotations of each other; the list is sorted if the comparison of the written cycles is total and transitive |
| `CycleGate.SortedValues` | runtime/scripts/check-circular-dependencies.ts:140-140 | the list is the stable sort of the recorded cycles, so that those whose writings tie stay in the order in which they were recorded |
| `CycleGate.CyclesOfGraph` | runtime/scripts/check-circular-dependencies.ts:143-154 | the built graph has a cycle exactly when some of its files lies on a closed walk of dependencies |
| `CycleGate.CheckCircularDependencies` | runtime/scripts/check-circular-dependencies.ts:143-154 | the gate reports a cycle exactly when one is reachable from the entrypoint; every report is a closed walk of real dependencies; every reachable closed walk passes through a reported dependency, so removing those leaves no cycle; no two reports are rotations of each other; the count is that of the reachable files |
| `CycleKey.JoinInjective` | runtime/scripts/check-circular-dependencies.ts:110-111 | writing a list of file names with a separator they do not contain loses nothing |
| `CycleKey.KeyIsLeast` | runtime/scripts/check-circular-dependencies.ts:104-111 | the key is one of the written rotations and none is smaller |
| `CycleKey.SameKeyRotates` | runtime/scripts/check-circular-dependencies.ts:102-112 | cycles with the same key are rotations of each other, whatever the comparison |
| `CycleKey.SameKeyIffRotation` | runtime/scripts/check-circular-dependencies.ts:102-112 | two cycles have the same key if and only if one is a rotation of the other, when no other writing ties with the least |
| `CycleKey.RotationsShareKeyIff` | runtime/scripts/check-circular-dependencies.ts:102-112 | all rotations of a cycle have one key if and only if no other writing ties with the least |
| `Sixel.SixelEncodeRuns` | runtime/scripts/imgcat.ts:179-201 | executing the run-length code paints the characters one after another, for every list of sixels |
| `Sixel.QuantizeNearest` | runtime/scripts/imgcat.ts:203-206 | each channel goes to the nearest of the six levels |
| `Sixel.PercentInjective` | runtime/scripts/imgcat.ts:175-177 | distinct quantized colours stay distinct as percentages |
| `Sixel.PaletteIsSmall` | runtime/scripts/imgcat.ts:229-244 | distinct quantized colours number at most 216 |
| `Sixel.IndexPixels` | runtime/scripts/imgcat.ts:226-247 | the raster holds, for each opaque enough pixel, the number of its quantized colour, and -1 for the others; colours are numbered without repeats |
| `Sixel.EmitDefinitions` | runtime/scripts/imgcat.ts:250-253 | executing the definitions puts each colour in its register |
| `Sixel.ColumnBits` | runtime/scripts/imgcat.ts:268-271 | the bits of a sixel are exactly the rows of the band that have the colour, cut at the bottom edge |
| `Sixel.EmitBand` | runtime/scripts/imgcat.ts:256-276 | executing a band draws its rows of the raster and leaves every other row as it was |
| `Sixel.BuildSixelImageOutput` | runtime/scripts/imgcat.ts:224-283 | decoding the emitted stream gives the raster size, a palette of at most 216 distinct registers, and exactly the opaque pixels, each showing its own quantized colour |
| `SixelTerminal.NumberOfDec` | runtime/scripts/imgcat.ts:183-183 | a decimal number is read back whatever non-digit follows |
| `SixelTerminal.DrawsRepeat` | runtime/scripts/imgcat.ts:183-183 | a repeat draws the sixel that many times |
| `SixelTerminal.DrawsDefinition` | runtime/scripts/imgcat.ts:252-252 | a colour definition sets its register to the three percentages and selects it |
| `ConcurrentMap.SettleKeeps` | scripts/github-collate-issues-prs.ts:1263-1269 | one settled call keeps the invariant (every claimed index is stored or has exactly one worker) and uses up exactly one of the remaining settlements |
| `ConcurrentMap.CallsOnce` | scripts/github-collate-issues-prs.ts:1263-1269 | in every interleaving the mapper is called for 0, 1, 2, ... in that order, each once, and calls in flight never exceed the limit |
| `ConcurrentMap.Busy` | scripts/github-collate-issues-prs.ts:1264-1266 | while an index is unclaimed no worker leaves its loop |
| `ConcurrentMap.RunsEnd` | scripts/github-collate-issues-prs.ts:1263-1273 | a run settles at most one call per value and is over exactly when all calls made have settled |
| `ConcurrentMap.FinalState` | scripts/github-collate-issues-prs.ts:1255-1274 | a finished run rejects exactly when there is a worker and some call rejects, and holds all results in input order exactly when every call resolves and there is a worker or nothing to do |
| `ConcurrentMap.OrderDoesNotShow` | scripts/github-collate-issues-prs.ts:1255-1274 | neither the interleaving nor the limit shows in the results |
| `ConcurrentMap.Pool.constructor` | scripts/github-collate-issues-prs.ts:1260-1271 | as many workers as the limit and the values allow start in turn, each claiming one index |
| `ConcurrentMap.Pool.Resume` | scripts/github-collate-issues-prs.ts:1264-1266 | the loop head claims the next index and calls the mapper, or leaves |
| `ConcurrentMap.Pool.Settle` | scripts/github-collate-issues-prs.ts:1267-1267 | a settled call stores its value and resumes its worker, or ends it |
| `ConcurrentMap.MapWithConcurrency` | scripts/github-collate-issues-prs.ts:1255-1274 | whichever call settles next each time: the mapped values in order if all resolve, a rejection if one rejects, and holes when the limit is below one |
| `Serializer.QuotedUnique` | scripts/audit-model-catalog-delta.ts:253-257 | a JSON string literal ends where it ends: text that starts with one determines the string and the rest |
| `Serializer.Unique` | scripts/audit-model-catalog-delta.ts:251-259 | unique readability: text that starts with a printed value determines the value up to key order and where it ends |
| `Serializer.SamePrints` | scripts/audit-model-catalog-delta.ts:251-259 | values equal up to the order of object keys, at any depth, print alike when no keys within one object tie |
| `Serializer.EqualTexts` | scripts/audit-model-catalog-delta.ts:251-259 | values that print alike are equal up to the order of object keys, under any comparison |
| `Serializer.StableIsCanonical` | scripts/audit-model-catalog-delta.ts:251-259 | two values print alike if and only if they are equal up to the order of object keys at any depth, when no keys within one object tie |
| `Serializer.TieShows` | scripts/audit-model-catalog-delta.ts:256-256 | if two keys of some object tie, at any depth, the same value in another key order prints differently |
| `Serializer.CanonicalExactly` | scripts/audit-model-catalog-delta.ts:251-259 | a value has one text for all orders of its keys if and only if no keys within one object of it tie |
| `CatalogDiff.CoordinateInjective` | scripts/audit-model-catalog-delta.ts:280-282 | distinct routes have distinct coordinates |
| `CatalogDiff.EntriesAre` | scripts/audit-model-catalog-delta.ts:272-278 | the listing holds each route of the provider exactly once, under any comparison |
| `CatalogDiff.ProviderEntries` | scripts/audit-model-catalog-delta.ts:272-278 | the nested loops produce that listing in order |
| `CatalogDiff.BuildSection` | scripts/audit-model-catalog-delta.ts:295-355 | the loops over one provider produce the specified section |
| `CatalogDiff.BuildReport` | scripts/audit-model-catalog-delta.ts:288-383 | the loops over all providers produce the specified report, the counts by field and the displayed texts included |
| `CatalogLaws.EntriesConserved` | scripts/audit-model-catalog-delta.ts:364-374 | head entries less base entries are models added less models removed, under any comparison |
| `CatalogLaws.FieldChangesConserved` | scripts/audit-model-catalog-delta.ts:374-377 | the entries counted under each compared field add up to the number of field changes |
| `CatalogLaws.ReportReversed` | scripts/audit-model-catalog-delta.ts:288-383 | comparing the other way round gives the same report with added and removed, before and after, and every move reversed, when no providers and no routes tie |
| `CatalogLaws.ReversesExactly` | scripts/audit-model-catalog-delta.ts:288-383 | every pair of catalogs reverses if and only if the comparison ties on no two names and on no two coordinates; tied ones are listed in the order in which the catalogs are given |
| `CatalogLaws.MovesAreUnambiguous` | scripts/audit-model-catalog-delta.ts:330-337 | the reported moves are exactly the pairs of a removed and an added route of one model that are the only such routes; no route takes part in two; under any comparison |
| `CatalogLaws.NoChanges` | scripts/audit-model-catalog-delta.ts:261-266 | where no field change is listed all compared fields are equal up to key order, and the converse when no keys in them tie |
| `CatalogLaws.VerdictIsExact` | scripts/audit-model-catalog-delta.ts:468-476 | the modes any and providers fail exactly when the catalogs differ in providers, routes or a compared field; models exactly when routes or fields differ; fields exactly when a shared route differs in a field; fields compared up to key order, with no tied keys in them |
| `CatalogTies.TiedCatalogFails` | scripts/audit-model-catalog-delta.ts:468-476 | if keys tie in a compared field of a catalog there is another that is equal up to key order and yet fails in every mode |
| `CatalogTies.VerdictExactly` | scripts/audit-model-catalog-delta.ts:468-476 | the verdict on a catalog is exact against all others, and no catalog equal to it fails, if and only if no keys tie in its compared fields |
| `CatalogLaws.PassMeansEqual` | scripts/audit-model-catalog-delta.ts:468-476 | a mode that passes can be trusted under any comparison: what it looks at is equal up to key order |
| `StageOutput.LinesCut` | scripts/native-test-suite.ts:154-155 | cutting a text anywhere and carrying the unfinished line over gives the same lines |
| `StageOutput.LinesAre` | scripts/native-test-suite.ts:154-155 | the lines with their newlines and the remainder are the text |
| `StageOutput.RunFollows` | scripts/native-test-suite.ts:142-171 | whatever the chunks and the interleaving with the other pump, the exit and the timer, what was collected is what the text read so far holds |
| `StageOutput.DrainReturnsAll` | scripts/native-test-suite.ts:142-171 | a drain that returns saw the exit, both pumps end well and no timer, and has collected exactly the parsed result lines of the whole output, in order, and all of them parsed |
| `StageOutput.ChunksDoNotShow` | scripts/native-test-suite.ts:142-171 | two runs that read the same text collect the same results |
| `StageOutput.StageDrain.OnChunk` | scripts/native-test-suite.ts:154-156 | the loop over a chunk's lines collects results in order and stops at the first that does not parse |
| `StageOutput.StageDrain.Handle` | scripts/native-test-suite.ts:142-171 | each event changes the drain as the step function says |
| `NativeGate.InventoryMeans` | scripts/native-test-suite.ts:54-59 | the inventory check passes exactly for a non-empty, duplicate-free, sorted contract equal to what was discovered |
| `NativeGate.NextKeeps` | scripts/native-test-suite.ts:188-241 | each event, a signal included, keeps what the phase says about stages, results and completeness |
| `NativeGate.CompleteMeans` | scripts/native-test-suite.ts:188-241 | for every sequence of events: a complete receipt means that all stages ran in order and passed, the results are the isolated stage's result lines and list every test once with success, both preflights passed, the fingerprint is unchanged and no signal had arrived; the exit code is 0 exactly then, else 130 after a signal and 1 without one |
| `NativeGate.StagesInOrder` | scripts/native-test-suite.ts:135-140 | at any time in any run the records are a prefix of the required stages, each but the last passed, and a passed stage exited 0 |
| `NativeGate.CleanRunCompletes` | scripts/native-test-suite.ts:203-232 | those conditions suffice: such a run completes with the results of its output, however that is cut into chunks |
| `NativeGate.GateRun.Handle` | scripts/native-test-suite.ts:200-232 | each event changes the gate as the step function says |
| `NativeGate.GateRun.StageOutput` | scripts/native-test-suite.ts:220-224 | a stage's record is marked passed only for exit 0 with no signal seen, and the next stage starts only then |
| `NativeGate.MainLoop` | scripts/native-test-suite.ts:188-241 | running the program on a sequence of events ends in the state the runs are defined by |
| `Ustar.PaddedValue` | scripts/qualify-bun-archive.ts:12-12 | a number below the field's limit fills the field exactly and reads back |
| `Ustar.Field` | scripts/qualify-bun-archive.ts:9-9 | writing a field replaces exactly its bytes, cut to its size |
| `Ustar.WriteHeader` | scripts/qualify-bun-archive.ts:8-16 | the in-place writes leave every byte of the header as the format asks, the checksum computed over spaces |
| `Ustar.ChecksumFits` | scripts/qualify-bun-archive.ts:15-16 | the checksum always fits in six octal digits |
| `Ustar.TarEntry` | scripts/qualify-bun-archive.ts:7-18 | an entry is its header, its content and zeros up to whole blocks of 512 bytes |
| `Ustar.ArchiveRoundTrip` | scripts/qualify-bun-archive.ts:7-19 | reading an archive gives back, in order, what each entry stored, and every checksum verifies; its length is a whole number of blocks |
| `Ustar.TextKept` | scripts/qualify-bun-archive.ts:9-14 | a name or link comes back unchanged if and only if it has at most 100 characters, none zero and each one byte wide |
| `Ustar.PlainRoundTrip` | scripts/qualify-bun-archive.ts:7-19 | an archive of such entries reads back unchanged: name, type, link and content |

## Left out

- Zlib inflation, CPIXEL width selection, canvas drawing and the WebAssembly memory interface: outside the decoder; the model starts from the inflated payload.
- `fbBlitTile` and the framebuffer getters: the first has no caller, the others only read a field.
- The loop bodies of the painting passes are methods of their own (raw, packed, run-length tiles), where the source has them inline; the order of reads and writes is the source's.
- PNG decoding, resizing, protocol detection and cell-size arithmetic of the image tool: the sixel model starts from an RGBA raster.
- Sixel.SixelEncodeRuns: carries the terminal state as a ghost parameter, so that its result can be stated as what executing it draws.
- Extraction of import specifiers and file resolution in the cycle gate: the dependencies of a file are a parameter. The code-unit sort of the files is a parameter; no proved property depends on which order it is.
- ConcurrentMap.MapWithConcurrency: a mapper call that never settles is a run that does not become final; the lemmas about all schedules cover it, the method, which runs to the end, does not. After a rejection the method lets the other workers run on before it returns; the source's promise has then already been rejected, with the same outcome.
- Serializer.StableIsCanonical: a number is given by its canonical text, so two numbers are equal when their texts are (0 and -0 are one number, as in JSON text). Values that JSON cannot hold other than `undefined` are not modelled.
- CatalogDiff.BuildReport: time stamp, directories and provider filter of the report are not modelled, and the order of the keys of its counts by field is not either. Objects are a list of distinct keys with a map, so the rule by which JavaScript orders keys that look like integers is not modelled; every order is covered.
- Catalog file reading, the two accepted file shapes, Markdown rendering and argument parsing.
- NativeGate.CompleteMeans: what a preflight checks besides the inventory, the fingerprint's hashing and the parsing of a result line are inputs; text decoding, the copies to the console, the saving of the receipt and elapsed times are not modelled. An exception while reading the contract or the first fingerprint ends the run before the first event, as an invalid contract does.
- Killing the child on a signal: the child's exit and its code are events that may come at any time, so the signal need not be linked to them.
- Ustar.TarEntry: the encoding of content to bytes is left out; content is given as bytes. The experiments with archives are not modelled.
- Bun archive extraction, GitHub access, SQLite, Git, process spawning and timers: input and output.
