# Bloom verification

A Dafny model of the stateful core of the Bloom handheld system, with proofs of what that core promises:

- **JSON engine** (`Json*.dfy`): the printer and its growing buffer, the recursive parser, the two-pass string
  decoder, the sibling list of nodes on the heap, lookup, comparison and deep copy. Every service keeps its
  state in this form. Main result: `JsonRoundTrip.DocumentRoundTrip`, with the imperative printer and parser
  proved to agree with the functions it is about: the parser builds, and the printer walks, well-formed trees of
  nodes.
- **Library tables** (`Library*.dfy`, `LegacyImport.dfy`, `RelativePaths.dfy`): favorites and recents as tables
  whose UNIQUE column is checked after every single row update, in an arbitrary row order; keyset paging over
  a changing catalog; the mark-and-sweep scan; the import of older lists.
- **Game identifiers** (`GameId.dfy`, `Sha256.dfy`, `Sha256Example.dfy`): streaming SHA-256 against FIPS 180-4, with
  its first example, and the canonical path.
- **Rasterisers** (`Rotozoom.dfy`, `BatteryMonitorUI.dfy`): error-accumulating integer loops proved equal to
  closed forms.
- **Launch protocol** (`Launch*.dfy`): validation of the request, its text, and the commands on it as steps
  with a crash allowed anywhere.
- **Achievement index** (`RaCatalog.dfy`, `RaScanner.dfy`): the catalog import and the skip-if-unchanged cache.
- **Image codecs** (`Png.dfy`, `StoredDeflate.dfy`): encoders with their decoders.

`Bytes.dfy` (bytes, Option, Result), `Memory.dfy` (the allocator) and `Rows.dfy` (where row y of an image starts)
are shared. `dafny verify dfyconfig.toml` checks everything.

## Conventions

- A C string is its bytes without the terminating zero. Doubles are `real`; C ints are unbounded except where
  the source converts or limits them, which is written out.
- A database statement or system call may fail at any point; the model chooses nondeterministically (`*`). A
  transaction is all or nothing.
- Memory comes from an allocator with any sequence of answers; `Allocator.Refused` counts those that were no. With
  an allocator that never refuses, "exactly when no memory is refused" is always.
- A row update of a table with a UNIQUE column visits the rows in an arbitrary order and fails at the first
  collision, so "never collides" is a theorem about every order.
- A lemma named `...Means` says in plain terms, with the literals and the arithmetic written out, what a function of
  the specification computes, so that no constant, order of bytes or choice of field rests on that function alone.
- A class follows each object that the source updates in place. Its methods are proved against functions of
  the old state; the lemmas are about those functions.
- A file on disk is the set of contents it may have after a crash (`LaunchProtocol.Disk.MayHold`). Paths lead to the
  same file when they agree after empty and "." segments are dropped and ".." is followed.
- The launch protocol's invariant is `Sound`: whatever a crash leaves, the request is complete and valid, and
  each config it names that is there carries its hardcore flag, and a custom host exactly when its transport is
  the proxy.

## What the code does differently from what one might expect

Each is stated with its exact condition.

- Recents positions have gaps; they stay dense exactly as `LibraryTables.DenseAfterRecord` says. Eviction is by age,
  not by count.
- The string decoder accepts more than the grammar: escapes without hexadecimal digits, read as U+0000, and raw
  control characters, both exactly as in `JsonString.AcceptedIsGrammar`.
- A tree with repeated keys need not compare equal to its copy (`JsonCompare.EqualReflexive`).
- Appending a node that is still linked elsewhere breaks the list (`JsonNode.AddItemToArray`).
- A key expected behind the last byte of the buffer is looked for one byte past its end; the outcome does not depend
  on that byte (`JsonParser.ParseBuffer.ParseString`).
- A config path that leads to the request file replaces the request, and a config written while an older request may
  still be on disk can end up beside it (`LaunchProtocol.Session.WriteRaConfig`).
- A request of more than 64 KiB can be written but not read again (`LaunchText.RequestRoundTrip`).
- Setting the core reports success with the old core when memory for the new one is refused
  (`LaunchProtocol.Session.SetCore`).
- Smooth zooming reads beyond a source that is one pixel wide or high (`Rotozoom.NeighbourInside`), which never
  shows (`Rotozoom.BlendUnweighted`).
- A line drawn backwards differs from the same line drawn forwards at exact halves (`BatteryMonitorUI.LineReversal`).
- After a catalog import an unforced scan may keep stale rows, exactly as `RaScanner.Index.TreeAgrees` and
  `RaScanner.Index.UpToDateAfterImport` say; an unreadable directory is reported only if it is read last
  (`RaScanner.Index.ScanTree`).
- One game file with a control character, delete or backslash in its path, or with too long a path, makes every scan
  fail (`LibraryScan.FilesStorableExactly`).
- A page with a row whose path has 512 bytes or more is never returned, although a scan stores such rows
  (`LibraryQuery.QueryGames`).
- Without data the stored stream has no final block (`StoredDeflate.StreamRoundTrip`).

## Model

| member | source | states |
|---|---|---|
| `JsonRoundTrip.DocumentRoundTrip` | include/cjson/cJSON.c:1095-1172 | For every tree of null, bools, ints, NUL-free strings, arrays and objects, formatted or not: parsing the printed text gives the same tree in the same order and consumes everything up to the final zero byte if and only if the nesting is at most 1000; beyond that the parser refuses |
| `JsonRoundTrip.ParseRendered` | include/cjson/cJSON.c:1312-1364 | The same for a value in front of any text that may follow a value, at any indentation and with any number of containers already open |
| `JsonText.ItemsMean` | include/cjson/cJSON.c:1539-1598 | An array is printed as its items between brackets, a comma after each but the last and, formatted, a space after the comma |
| `JsonText.MemberMeans` | include/cjson/cJSON.c:1714-1825 | A member is printed as its quoted key, a colon, its value and a comma where more follow; formatted, on a line of its own behind one tab a level, with a tab after the colon |
| `JsonText.ContainersMean` | include/cjson/cJSON.c:1441-1536 | Behind an opening bracket or brace and any blanks stands the closing one or the first item; with 1000 containers open there is none |
| `JsonText.ItemsRead` | include/cjson/cJSON.c:1476-1510 | Items are read with blanks before and behind them, a comma asking for another and a bracket ending the list |
| `JsonText.MembersRead` | include/cjson/cJSON.c:1636-1690 | The same for members, up to the brace |
| `JsonParser.ParseBuffer.SkipWhitespace` | include/cjson/cJSON.c:1038-1061 | The offset moves past every byte up to 32, but back onto the last byte when nothing else is left |
| `JsonParser.ParseBuffer.ParseString` | include/cjson/cJSON.c:773-899 | The in-place parser takes the literal and its rest that the specification reads, moving the offset strictly forward, and fails exactly with it or when memory is refused, whatever byte lies behind the end of the buffer where a key is looked for there |
| `JsonParser.ParseBuffer.ParseNumber` | include/cjson/cJSON.c:305-379 | At most 63 number bytes are converted; the offset moves by exactly what the conversion used and stays on failure |
| `JsonParser.ParseBuffer.ParseValue` | include/cjson/cJSON.c:1312-1364 | A node is filled in so that it heads a well-formed tree (sibling lists acyclic, prev inverse to next, head.prev the last) of fresh nodes standing for the value that the recursive specification reads; it fails exactly where that fails or memory is refused; offset and depth agree |
| `JsonParser.ParseBuffer.ParseArray` | include/cjson/cJSON.c:1441-1536 | The same for arrays, with the nesting limit and the empty array; the circle of the list is closed and given to the parent only on success |
| `JsonParser.ParseBuffer.ParseObject` | include/cjson/cJSON.c:1601-1711 | The same for objects, keys included |
| `JsonParser.ParseBuffer.ParseElements` | include/cjson/cJSON.c:1476-1510 | Through the whole loop the new items form an open list in order, each a tree of its own for its element, although every item is linked in before its value is parsed |
| `JsonParser.ParseBuffer.ParseMemberList` | include/cjson/cJSON.c:1636-1690 | The same for members, each item carrying its key |
| `JsonTree.Adopt` | include/cjson/cJSON.c:1512-1524 | Closing an open list and giving it to its parent makes a well-formed tree holding exactly these children |
| `JsonParser.ParseWithLengthOpts` | include/cjson/cJSON.c:1095-1172 | A document, with byte order mark and required terminator, gives a fresh well-formed tree of nodes for its value exactly when the specification accepts it and no memory is refused; the reported end points at the unread rest. On failure it points at a byte of the buffer, and at what follows the value and its blanks where only that was too much |
| `JsonPrinter.PrintBuffer.Ensure` | include/cjson/cJSON.c:439-522 | Succeeds exactly when `needed` bytes and one more fit the buffer given, or INT_MAX where it may grow, and memory is not refused; everything before the offset and the byte at it survive a reallocation |
| `JsonPrinter.PrintBuffer.UpdateOffset` | include/cjson/cJSON.c:525-535 | Catches up: with no zero byte in what was written behind the offset, the offset ends exactly at the text's end |
| `JsonPrinter.PrintBuffer.PrintNumber` | include/cjson/cJSON.c:545-612 | The digits are in the buffer behind the old text, zero-terminated, the old text intact, exactly when they fit and no memory is refused |
| `JsonPrinter.PrintBuffer.PrintString` | include/cjson/cJSON.c:902-1021 | The quoted, escaped text is in the buffer behind the old text, zero-terminated, never beyond what was reserved by counting the escapes first |
| `JsonPrinter.PrintBuffer.PrintValue` | include/cjson/cJSON.c:1367-1438 | For the value a tree of nodes stands for: bytes before the entry offset are unchanged and the zero-terminated text from there is exactly the rendering, though the offset may still lag inside it; it succeeds exactly when the text and two bytes more fit and no memory is refused |
| `JsonPrinter.PrintBuffer.PrintArray` | include/cjson/cJSON.c:1539-1598 | The same for arrays, walking child and next through any number of reallocations, the depth balanced |
| `JsonPrinter.PrintBuffer.PrintObject` | include/cjson/cJSON.c:1714-1825 | The same for objects, including the indentation |
| `JsonPrinter.Print` | include/cjson/cJSON.c:1187-1249 | The result is the rendering of the tree and its terminating zero exactly when no memory is refused and the text with two bytes more is at most INT_MAX; otherwise there is none |
| `JsonPrinter.PrintBuffered` | include/cjson/cJSON.c:1262-1290 | The same in a buffer of any starting size, also zero |
| `JsonPrinter.PrintPreallocated` | include/cjson/cJSON.c:1292-1309 | Succeeds exactly when the buffer given holds the text, its terminating zero and one byte more, and asks for no memory |
| `JsonPrinter.RenderNulFree` | include/cjson/cJSON.c:525-535 | No rendering holds a zero byte, which is what makes looking for the terminator sound |
| `JsonString.FirstPass` | include/cjson/cJSON.c:784-814 | Finds the closing quote and counts the escapes before it |
| `JsonString.SecondPass` | include/cjson/cJSON.c:814-899 | Decodes into the buffer of the size the first pass computed, for every input: no write is out of bounds even where an invalid hex escape makes the two passes disagree on escape boundaries |
| `JsonString.DecodeEscape` | include/cjson/cJSON.c:652-770 | What one escape writes never exceeds what its source bytes paid for, and is its UTF-8 or nothing |
| `JsonString.SkippedStretch` | include/cjson/cJSON.c:784-814 | Escapes seen by the first pass never overlap: n bytes start at most n/2 of them, rounded up, wherever the stretch begins |
| `JsonString.WriteUtf8` | include/cjson/cJSON.c:718-760 | The bytes written from last to first are the UTF-8 of section 3 of RFC 3629 |
| `JsonString.Utf8RoundTrip` | include/cjson/cJSON.c:718-760 | The UTF-8 bytes of a code point determine it |
| `JsonString.LiteralMeaning` | include/cjson/cJSON.c:773-899 | If all escapes are well formed in the sense of section 7 of RFC 8259, stated apart from the decoder's tables, the literal ends at its quote and decodes to the UTF-8 of the text it denotes, surrogate pairs combined |
| `JsonString.QuotedRoundTrip` | include/cjson/cJSON.c:902-1021 | Every byte string survives escaping and unescaping, whatever follows the closing quote |
| `JsonString.InvalidHexIsAccepted` | include/cjson/cJSON.c:615-648 | A family of inputs beyond the grammar: four bytes that are not hexadecimal are accepted and read as U+0000 |
| `JsonString.AcceptedIsGrammar` | include/cjson/cJSON.c:773-899 | The decoder accepts a literal, meeting four hexadecimal digits at every unicode escape it comes by and taking no control character as it stands, if and only if the literal is spelled by the tokens of section 7 of RFC 8259 with paired surrogates; the same without the words on control characters, where these may pass |
| `JsonString.ShortEscapeMeans` | include/cjson/cJSON.c:836-857 | The letters that may follow a backslash are b, f, n, r, t, the quote, the backslash and the slash, each with its byte |
| `JsonString.HexValueMeans` | include/cjson/cJSON.c:615-648 | The sixteen hexadecimal digits in either case and what each is worth |
| `JsonString.CombineMeans` | include/cjson/cJSON.c:690-716 | Two surrogates combine to a code point exactly if it lies beyond U+FFFF and splits into them |
| `JsonString.Utf8Means` | include/cjson/cJSON.c:718-760 | The table of section 3 of RFC 3629: how many bytes, their marks and their payload |
| `JsonString.TokenOfMeans` | include/cjson/cJSON.c:960-1015 | What is printed for each byte that is not a control character and for the five control characters that have a letter |
| `JsonString.ParseHex4` | include/cjson/cJSON.c:615-648 | The digit loop computes the number, and 0 as soon as any digit is invalid |
| `JsonNumber.DecimalRoundTrip` | include/cjson/cJSON.c:545-612 | The decimal text of an int is read back as that int and ends exactly where it ends, whatever follows |
| `JsonNumber.StrtodMeans` | include/cjson/cJSON.c:305-379 | A sign, digits, a point with digits and an exponent are read as the number they denote, up to where they end |
| `JsonNumber.ToIntMeans` | include/cjson/cJSON.c:361-373 | The int of a number is cut towards zero and held within the range of an int |
| `JsonNode.AddItemToArray` | include/cjson/cJSON.c:1956-1987 | Appends one child; the sibling list stays well formed (next chain acyclic, prev its inverse, head.prev the last) if and only if the list was empty or the new node was detached |
| `JsonNode.InsertItemInArray` | include/cjson/cJSON.c:2263-2290 | The child sequence gets the node at the index, or at the end when the index is too large; the list stays well formed exactly when the node was detached or need not be last; a negative index changes nothing |
| `JsonNode.DetachItemViaPointer` | include/cjson/cJSON.c:2187-2221 | Exactly that child leaves the sequence, the others in order and well linked; the child comes out pointing nowhere |
| `JsonNode.ReplaceItemViaPointer` | include/cjson/cJSON.c:2292-2339 | Exactly that place of the sequence changes, the list staying well formed, also for the head, the last and the only child |
| `JsonNode.GetArrayItem` | include/cjson/cJSON.c:1851-1868 | Walking the next pointers ends on the child with that index, or on nothing |
| `JsonTree.GetObjectItem` | include/cjson/cJSON.c:1880-1910 | The first child with a matching key, in either case mode |
| `JsonTree.Compare` | include/cjson/cJSON.c:2986-3109 | On heap trees: trees whose nodes stand for values that are JsonCompare.Equal always compare equal, and no others do where the two share no node or one repeats no key; a node given twice equals itself |
| `JsonTree.Duplicate` | include/cjson/cJSON.c:2706-2787 | A deep copy is a well-formed tree equal to the original in every field and in order, made of fresh nodes only, with nothing of the original modified; there is none exactly when memory is refused |
| `JsonTree.DuplicateChildren` | include/cjson/cJSON.c:2738-2772 | The copying loop leaves a closed, well-formed sibling list holding the original children |
| `JsonTree.StillValid` | include/cjson/cJSON.c:2706-2787 | Linking a node into a list changes neither its validity nor the tree it stands for |
| `JsonCompare.EqualSymmetric` | include/cjson/cJSON.c:2986-3109 | Comparison is symmetric on all trees, repeated keys included |
| `JsonCompare.EqualIsSame` | include/cjson/cJSON.c:2986-3109 | On trees without repeated keys, whatever their numbers, comparison holds if and only if the trees are the same up to a permutation of object members at every level and the tolerance between numbers |
| `JsonCompare.EqualReflexive` | include/cjson/cJSON.c:1880-1910 | A tree compares equal to its copy if and only if every member of every object is the first with its key, and so on inside, or equals that first one |
| `JsonCompare.NoRepeatsAgree` | include/cjson/cJSON.c:2986-3109 | So a tree that repeats no key compares equal to its copy, whatever its numbers |
| `JsonCompare.RepeatedKeysNotReflexive` | include/cjson/cJSON.c:1880-1910 | A family that fails this: two members with one key and different values |
| `JsonCompare.IntegersCompareExactly` | include/cjson/cJSON.c:538-542 | The relative tolerance never confuses two ints, so on them it is equality |
| `Rotozoom.EntryAdvances` | include/SDL/SDL_rotozoom.c:75-93 | The masked increments add up: the whole parts of the table walk to floor(x * step / 65536) and the rest is its fraction |
| `Rotozoom.PositionInside` | include/SDL/SDL_rotozoom.c:51-93 | With the step floor(65536 * size / target) every destination coordinate falls inside the source |
| `Rotozoom.NeighbourInside` | include/SDL/SDL_rotozoom.c:51-93 | In smooth mode the right and lower neighbours of every position are inside the source if and only if it is at least two pixels wide |
| `Rotozoom.PaintNearest` | include/SDL/SDL_rotozoom.c:159-183 | The moving source pointer and the padded rows paint exactly the nearest-source rows and leave the padding alone |
| `Rotozoom.ZoomedPixel` | include/SDL/SDL_rotozoom.c:159-183 | Destination pixel (x, y) holds source pixel (floor(x * sx / 65536), floor(y * sy / 65536)) |
| `Rotozoom.StepMeans` | include/SDL/SDL_rotozoom.c:51-62 | The step is the whole number of 1/65536 for which target steps come closest to the size without passing it |
| `Rotozoom.ZoomSurfaceY` | include/SDL/SDL_rotozoom.c:201-293 | The 8 bit zoomer, stepping by running sums, paints what the 32 bit one paints without smoothing; on failure nothing |
| `Rotozoom.LerpBetween` | include/SDL/SDL_rotozoom.c:122-137 | Fixed-point interpolation stays between its ends in either order and starts at the first |
| `Rotozoom.LerpMeans` | include/SDL/SDL_rotozoom.c:122-137 | It is the exact point in between, rounded down |
| `Rotozoom.BlendMeans` | include/SDL/SDL_rotozoom.c:122-137 | A channel is blended along both rows and then between them, each point being the exact one rounded down |
| `Rotozoom.Blend` | include/SDL/SDL_rotozoom.c:122-137 | A blended channel lies between the minimum and the maximum of its four corners and is a byte |
| `Rotozoom.BlendChannel` | include/SDL/SDL_rotozoom.c:122-137 | The masks and shifts of the code compute that blend without cutting anything off |
| `Rotozoom.PaintSmooth` | include/SDL/SDL_rotozoom.c:106-155 | Every destination pixel is the blend of the four source pixels around its position, for every source that is not empty |
| `Rotozoom.SmoothedPixel` | include/SDL/SDL_rotozoom.c:106-155 | Destination pixel (x, y) is the blend of the pixel at its position, the next one, the one below and the one below that, weighted by the fractions |
| `Rotozoom.SmoothInside` | include/SDL/SDL_rotozoom.c:51-62 | Positions leave room for a neighbour where the source has one; a source one pixel wide or high has positions 0 without a fraction |
| `Rotozoom.BlendUnweighted` | include/SDL/SDL_rotozoom.c:122-137 | A corner without weight does not matter, so what is read beyond such a source never shows |
| `Rotozoom.ZoomSurfaceRGBA` | include/SDL/SDL_rotozoom.c:43-190 | The 32 bit zoomer in both modes; on failure to allocate the tables nothing is painted |
| `Rotozoom.Corners` | include/SDL/SDL_rotozoom.c:333-434 | The nine-way split over the edges chooses for each corner the source pixel if there is one, else the destination pixel |
| `Rotozoom.TransformSurfaceRGBA` | include/SDL/SDL_rotozoom.c:304-485 | Every destination pixel is the rotated sample under it, pixels away from the source keep their color |
| `Rotozoom.RotatedPixel` | include/SDL/SDL_rotozoom.c:304-485 | Destination pixel (x, y) shows the sample at its own turned position, over what it showed before |
| `Rotozoom.SourceMeans` | include/SDL/SDL_rotozoom.c:318-332 | That position is (x, y) turned about the centre by the matrix, the middles of both surfaces lying on each other |
| `Rotozoom.TurnedPixelMeans` | include/SDL/SDL_rotozoom.c:333-485 | A position of so many whole pixels and a rest shows the pixel there where it fits a short, and smoothed the blend of the four around it |
| `Rotozoom.EqualCornersBlend` | include/SDL/SDL_rotozoom.c:436-450 | Blending four equal corners gives that color |
| `Rotozoom.ShortKeepsIntPositions` | include/SDL/SDL_rotozoom.c:469-470 | The 16 bit cast of a position changes nothing if and only if the fixed-point position fits 32 bits |
| `BatteryMonitorUI.Screen.DrawLine` | src/batteryMonitorUI/batteryMonitorUI.c:100-143 | The error-accumulating loop terminates for every pair of ends and paints exactly the closed-form line, pixel by pixel in order |
| `BatteryMonitorUI.LineEnds` | src/batteryMonitorUI/batteryMonitorUI.c:100-143 | The line has max(\|dx\|, \|dy\|) + 1 pixels, the first on the first end, the last on the second |
| `BatteryMonitorUI.LineWithinHalfPixel` | src/batteryMonitorUI/batteryMonitorUI.c:100-143 | Every pixel is within half a pixel of the ideal line along the minor axis |
| `BatteryMonitorUI.LineIsConnected` | src/batteryMonitorUI/batteryMonitorUI.c:119-141 | Neighbouring pixels are one king's move apart and never turn back |
| `BatteryMonitorUI.LineReversal` | src/batteryMonitorUI/batteryMonitorUI.c:100-143 | Drawing from the other end paints a pixel in the same place if and only if it is not exactly half way between two candidates |
| `BatteryMonitorUI.LineStep` | src/batteryMonitorUI/batteryMonitorUI.c:129-141 | err = dx * (rows + 1) - dy * (columns + 1) is kept, and the two tests on 2 * err move exactly to the next closed-form pixel |
| `BatteryMonitorUI.NearestUnique` | src/batteryMonitorUI/batteryMonitorUI.c:129-141 | The closed form is the only integer within half a unit of the quotient, an exact half going down |
| `Sha256.HashChunks` | src/bloomGameId/bloom_game_id.c:126-172 | For any split of a message into updates, start, update and finish give the hash of the concatenation (section 6.2 of FIPS 180-4) |
| `Sha256.Hasher.Update` | src/bloomGameId/bloom_game_id.c:135-151 | However the bytes are buffered, the state afterwards stands for everything consumed so far, fewer than 64 bytes pending |
| `Sha256.Hasher.Final` | src/bloomGameId/bloom_game_id.c:153-172 | Padding in one or two blocks as in section 5.1.1 of FIPS 180-4, then the digest of everything consumed |
| `Sha256.Hasher.Transform` | src/bloomGameId/bloom_game_id.c:87-124 | The schedule and round loops compute one application of the compression function |
| `Sha256.PadLength` | src/bloomGameId/bloom_game_id.c:153-166 | The number of padding zeros is the least that fills a block |
| `Sha256.PadInjective` | src/bloomGameId/bloom_game_id.c:153-166 | Below 2^64 bits, messages with the same padding are equal |
| `Sha256.LengthMeans` | src/bloomGameId/bloom_game_id.c:159-166 | The eight bytes of the length field are the length with the most significant byte first |
| `Sha256Example.ExampleDigest` | src/bloomGameId/bloom_game_id.c:87-172 | The digest of "abc" is the one in FIPS 180-4, derived through all 64 rounds |
| `GameId.NormalizePath` | src/bloomGameId/bloom_game_id.c:194-239 | The byte loop computes split, filter, check and join, with the error of the first offending segment |
| `GameId.NormalPathMeaning` | src/bloomGameId/bloom_game_id.c:194-239 | Acceptance and result exactly: below the ROM root, no segment "..", none with unsafe bytes, at least one kept, no final slash, fitting the buffer; empty and "." segments dropped |
| `GameId.FirstFault` | src/bloomGameId/bloom_game_id.c:194-239 | The error reported is that of the first segment that fails, everything before it being fine |
| `GameId.ErrorsMean` | src/bloomGameId/bloom_game_id.c:194-239 | Which error goes with which fault of a path, and what each kind of segment does to the path built so far |
| `GameId.NormalPathIsCanonical` | src/bloomGameId/bloom_game_id.c:194-239 | Every accepted path comes out canonical |
| `GameId.CanonicalIsFixed` | src/bloomGameId/bloom_game_id.c:194-239 | Below the ROM root a path is left as it is if and only if it is canonical and fits |
| `GameId.NormalPathIdempotent` | src/bloomGameId/bloom_game_id.c:194-239 | Normalising the result below the ROM root again gives the same |
| `GameId.Create` | src/bloomGameId/bloom_game_id.c:241-270 | Which error for which input, and otherwise the version, the hash of system and canonical path in hexadecimal, and the path |
| `GameId.IdMeans` | src/bloomGameId/bloom_game_id.c:241-270 | The identifier is the version, a colon and the hexadecimal digest of version, system and path with zero bytes between them |
| `GameId.CreatedIdIsValid` | src/bloomGameId/bloom_game_id.c:272-280 | Every identifier that is created passes the validity check |
| `GameId.PreimageInjective` | src/bloomGameId/bloom_game_id.c:241-270 | The hashed bytes determine system and path |
| `GameId.SameIdSameGame` | src/bloomGameId/bloom_game_id.c:241-270 | Equal identifiers mean the same game, or two different preimages colliding under SHA-256 |
| `LibraryTables.Library.FavoriteSet` | src/bloomLibrary/bloom_library_mutation.c:10-88 | Over any run the favorites are numbered 0, 1, 2, ... in list order; adding appends once, removing keeps the others in order, failing changes nothing, a uniqueness violation never happens |
| `LibraryTables.RemovalRenumbers` | src/bloomLibrary/bloom_library_mutation.c:55-80 | The two updates through negative numbers collide in no row order and renumber the list without the game |
| `LibraryTables.GapLifts` | src/bloomLibrary/bloom_library_mutation.c:68-72 | Negating the rows above the gap collides in no row order |
| `LibraryTables.GapCloses` | src/bloomLibrary/bloom_library_mutation.c:73-77 | Bringing them back one lower collides in no row order and closes the gap |
| `LibraryTables.FavoritesInOrderAdded` | src/bloomLibrary/bloom_library_mutation.c:10-88 | After any history of edits the list is the games added and not removed since, in the order of their adding |
| `LibraryTables.AddedAtMeans` | src/bloomLibrary/bloom_library_mutation.c:10-88 | A game counts as added at the edit that added it while it was not there and that no removal has followed |
| `LibraryTables.Library.RecentRecord` | src/bloomLibrary/bloom_library_mutation.c:90-149 | A game in front stays, any other goes to the front; the table keeps showing the history, a uniqueness violation never happens, failure changes nothing |
| `LibraryTables.AllAge` | src/bloomLibrary/bloom_library_mutation.c:123-126 | The two updates that age every row collide in no row order |
| `LibraryTables.RecordShows` | src/bloomLibrary/bloom_library_mutation.c:113-140 | Each position is the number of effective records since the game's own, and rows of age 100 or more are gone, after one more record |
| `LibraryTables.RecentsArePrefix` | src/bloomLibrary/bloom_library_mutation.c:90-149 | Ordered by position, the table is a beginning of the move-to-front list of the whole history, all positions below 100 |
| `LibraryTables.MoveToFrontYoungest` | src/bloomLibrary/bloom_library_mutation.c:90-149 | The move-to-front list is every game ever seen, from the youngest to the oldest |
| `LibraryTables.AgeMeans` | src/bloomLibrary/bloom_library_mutation.c:90-149 | The age of a game is the number of records behind its last one; one never recorded has all of them and the imported games in front of it |
| `LibraryTables.AgesDiffer` | src/bloomLibrary/bloom_library_mutation.c:90-149 | No two games share an age, so positions are distinct |
| `LibraryTables.RecentsLeaveGaps` | src/bloomLibrary/bloom_library_mutation.c:113-140 | After recording a, b, c and b again the table holds b at 0, c at 1 and a at 3 |
| `LibraryTables.DenseAfterRecord` | src/bloomLibrary/bloom_library_mutation.c:113-140 | Dense positions 0, 1, 2, ... stay dense after a record if and only if the game is new, or the last one, or the only one behind it falls out of the table |
| `LegacyImport.ImportLegacy` | src/bloomLibrary/bloom_library_legacy.c:320-354 | All or nothing: both tables are numbered 0, 1, 2, ... by first occurrence, every line has its verdict in the report, matched, unmatched, duplicate and invalid add up to the lines read, and no insert can collide |
| `LegacyImport.LegacyList.ParseLine` | src/bloomLibrary/bloom_library_legacy.c:159-199 | Each line is judged by what was read before it: one item per line, a game matched at its first line only |
| `LegacyImport.ReportMeans` | src/bloomLibrary/bloom_library_legacy.c:159-199 | The item of a line: the path it names, or "invalid:" and its place; matched at the first line with its game, the only one that keeps it |
| `LegacyImport.LegacyList.DuplicateGame` | src/bloomLibrary/bloom_library_legacy.c:150-157 | A game is a duplicate exactly when an earlier line matched it |
| `LegacyImport.ReadLine` | src/bloomLibrary/bloom_library_legacy.c:159-199 | A line is readable exactly when it is an object without repeated keys, of a known type, with a path below the ROM root, which it determines; found exactly when such a game is present |
| `LegacyImport.ParsedMeans` | src/bloomLibrary/bloom_library_legacy.c:159-168 | A line that is the text of a tree is read as that tree |
| `LegacyImport.SaysMeans` | src/bloomLibrary/bloom_library_legacy.c:58-63 | A line names a path exactly when it is an object of distinct keys with a member "type" of 0, 1, 5 or 17 and a text "rompath" that leads below the root |
| `LegacyImport.LoadList` | src/bloomLibrary/bloom_library_legacy.c:201-240 | Blank lines are skipped, an overlong or broken line rejects the list, any other is recorded |
| `LegacyImport.ReadableMeans` | src/bloomLibrary/bloom_library_legacy.c:201-240 | A list is read if and only if no line is overlong, no lookup fails and at every line, also an empty one, fewer than 2048 entries are there already |
| `LegacyImport.PublishList` | src/bloomLibrary/bloom_library_legacy.c:242-318 | The report holds every item in its place, the rows number the matched games in order and the four counts partition the items |
| `LegacyImport.CountsMean` | src/bloomLibrary/bloom_library_legacy.c:284-310 | Each count is the number of items with its verdict |
| `LegacyImport.NormalizeRomPath` | src/bloomLibrary/bloom_library_legacy.c:100-121 | A path is accepted if and only if it names a canonical path below the root, and that is the result |
| `LegacyImport.NamesMeans` | src/bloomLibrary/bloom_library_legacy.c:100-121 | What stands behind the first colon counts if it begins with the root, otherwise the whole text; it has to be the root, a slash and a canonical path |
| `LegacyImport.FoundPathIsNormal` | src/bloomLibrary/bloom_library_legacy.c:100-121 | A path found here is the one under which a scan registers the same file |
| `LegacyImport.ObjectHasUniqueKeys` | src/bloomLibrary/bloom_library_legacy.c:65-75 | The pairwise loop decides whether any key is repeated |
| `RelativePaths.SafeRelativePath` | src/bloomLibrary/bloom_library_scan.c:37-58 | The component loop accepts exactly the canonical paths shorter than 512 bytes |
| `LibraryQuery.QueryGames` | src/bloomLibrary/bloom_library_query.c:102-173 | A page is the first `limit` matching rows in order, says exactly whether more follow and names its last row as cursor; it is returned, statement failures aside, if and only if every text of its rows fits the buffers (paths below 512 bytes); a cursor is reported missing exactly when its game is absent, not present or of another system than asked for in the catalog it is tested on, which need not be the one the page is read from |
| `LibraryQuery.RunLists` | src/bloomLibrary/bloom_library_query.c:102-173 | Over any run of pages where titles and the rows of cursors stay: listed games ascend strictly, each was visible at some time, and everything visible throughout is listed or still ahead of the cursor |
| `LibraryQuery.NothingRepeats` | src/bloomLibrary/bloom_library_query.c:102-173 | Where titles and the rows of cursors stay, no game is listed twice, however the catalog changes |
| `LibraryQuery.NothingMissed` | src/bloomLibrary/bloom_library_query.c:102-173 | Where titles and the rows of cursors stay, a finished run lists every game that was visible throughout |
| `LibraryPaging.ScansFixTitles` | src/bloomLibrary/bloom_library_scan.c:180-197 | Scans leave titles as they were: over catalogs made by any scans every game keeps the title it is first seen under, or two different preimages collide under SHA-256 |
| `LibraryPaging.CursorsStay` | src/bloomLibrary/bloom_library_query.c:102-173 | Scans remove no row, so with any scans before a page is read the row of its cursor is still there |
| `LibraryPaging.ListingSurvivesScans` | src/bloomLibrary/bloom_library_query.c:102-173 | With any scans between the pages no game is listed twice and a finished run lists every game visible throughout, or two different preimages collide under SHA-256 |
| `LibraryPaging.CollisionMeans` | src/bloomGameId/bloom_game_id.c:241-270 | A collision is two different texts with the same digest |
| `LibraryQuery.WholeListing` | src/bloomLibrary/bloom_library_query.c:102-173 | Over a fixed catalog the pages together are the sorted list of exactly the visible games |
| `LibraryQuery.LessMeans` | src/bloomLibrary/bloom_library_query.c:102-173 | Titles and identifiers ascend byte by byte: after a common beginning the smaller byte decides, and the shorter text comes first |
| `LibraryQuery.PageAscends` | src/bloomLibrary/bloom_library_query.c:121-127 | On a page an earlier title, where it first differs from a later one, has the smaller byte or has ended; equal titles are followed by the identifiers |
| `LibraryQuery.PageMeans` | src/bloomLibrary/bloom_library_query.c:102-173 | The games of a page are present, of a known system that was asked for, and behind the cursor; any other such game comes behind the last one of a full page |
| `LibraryQuery.ListingEnds` | src/bloomLibrary/bloom_library_query.c:75-100 | Over a fixed catalog no cursor is ever missing and there are at most as many pages as games, plus one |
| `LibraryScan.Database.ScanGames` | src/bloomLibrary/bloom_library_scan.c:356-441 | All or nothing: the table afterwards is the old one with everything found written over it and what was not found swept out; the generation rises by one if and only if the table differs. Database and system failures aside, it succeeds exactly on usable systems whose directories are missing or hold no directory too deep and no game file that cannot be stored |
| `LibraryScan.FilesStorableExactly` | src/bloomLibrary/bloom_library_scan.c:227-240 | Of the game files found exactly those can be stored whose path fits and has no control character, delete or backslash; one that cannot makes every scan of its system fail |
| `LibraryScan.ScanExact` | src/bloomLibrary/bloom_library_scan.c:356-441 | For scanned systems exactly the files found are present, each with its own metadata; rows of other systems are untouched and no row is ever removed |
| `LibraryScan.ScannedFile` | src/bloomLibrary/bloom_library_scan.c:227-340 | Every game found is a file of a scanned system: its row has that file's path, size and modification time, the name without its extension, cut to 511 bytes, as title, and a picture exactly if there is one of that title |
| `LibraryScan.FileScanned` | src/bloomLibrary/bloom_library_scan.c:300-340 | And every such file, reached by names that do not begin with a dot through directories not for pictures, with one of the extensions, is found under its identifier |
| `LibraryScan.RowMeans` | src/bloomLibrary/bloom_library_scan.c:242-280 | The row of a file, field by field |
| `LibraryScan.RescanIdempotent` | src/bloomLibrary/bloom_library_scan.c:356-441 | Scanning the same files again changes nothing |
| `LibraryScan.Database.ScanDirectory` | src/bloomLibrary/bloom_library_scan.c:300-340 | The recursive walk stores exactly the eligible files of the tree and counts them; database and system failures aside, it fails exactly if the tree is too deep or holds an eligible file that cannot be stored |
| `LibraryScan.Database.StoreGame` | src/bloomLibrary/bloom_library_scan.c:227-292 | The conditional upsert adds exactly that file's row, with its own path, size and modification time; database failures aside, it fails exactly if the path is too long or not canonical below the ROM root |
| `LibraryScan.UpsertDiffers` | src/bloomLibrary/bloom_library_scan.c:242-280 | Skipping an equal row makes "changed" mean that the table really differs |
| `LibraryScan.Database.Sweep` | src/bloomLibrary/bloom_library_scan.c:418-427 | Marks absent exactly the unseen games of scanned systems, and "changed" holds if and only if the table differs from before the scan |
| `LibraryScan.TitleKept` | src/bloomLibrary/bloom_library_scan.c:180-197 | A game keeps its sort title across scans, so cursors stay comparable, unless two games collide under SHA-256 |
| `LibraryScan.ScanKeyed` | src/bloomLibrary/bloom_library_scan.c:180-197 | Every row stays keyed by its system and path and titled after its file |
| `LibraryScan.ExtensionSupported` | src/bloomLibrary/bloom_library_scan.c:161-178 | Supported if and only if the text behind the last dot is one of the listed extensions, case ignored |
| `LibraryScan.SupportedMeans` | src/bloomLibrary/bloom_library_scan.c:161-178 | What stands behind the last dot has to be one of the extensions, in whatever case |
| `LibraryScan.GameTitles` | src/bloomLibrary/bloom_library_scan.c:180-197 | The display title is the name up to its last dot, cut to size, and the sort title is it in lower case |
| `LibraryScan.ValidExtensions` | src/bloomLibrary/bloom_library_scan.c:71-92 | The byte loop accepts exactly lists of 1 to 16 letters or digits separated by single bars |
| `LibraryScan.LoadSystems` | src/bloomLibrary/bloom_library_scan.c:109-153 | The systems are accepted if and only if there are 1 to 128 and each one is usable, and none is its own error |
| `LaunchProtocol.Session.AtomicWrite` | src/bloomLaunch/bloom_launch.c:359-400 | Whatever fails and wherever a crash comes, the path holds a complete old or new content; only a reported success means the new one is on disk |
| `LaunchProtocol.Session.Recover` | src/bloomLaunch/bloom_launch.c:359-400 | After a crash at any step the request on disk is still complete and valid and every config it names that is there fits it |
| `LaunchProtocol.Session.CreateFile` | src/bloomLaunch/bloom_launch.c:402-450 | Leaves a new valid request without configs, or nothing changed when refused or failed, sound at every crash, no other file touched |
| `LaunchProtocol.NewRequestMeans` | src/bloomLaunch/bloom_launch.c:402-450 | The new request member by member |
| `LaunchProtocol.Session.SetCore` | src/bloomLaunch/bloom_launch.c:473-496 | Refused once a config has been generated; otherwise only the core changes, sound at every crash; where memory for the new value is refused the old request is written again and success reported |
| `LaunchProtocol.Session.SetAchievements` | src/bloomLaunch/bloom_launch.c:498-531 | Refused once a config has been generated; otherwise only the policy changes, sound at every crash |
| `LaunchProtocol.GivenPolicyMeans` | src/bloomLaunch/bloom_launch.c:498-531 | The policy as it is written, a game number that is not positive becoming null |
| `LaunchProtocol.Session.ResolveAchievementTransport` | src/bloomLaunch/bloom_launch.c:333-357 | Hardcore always gets direct transport, softcore the proxy exactly when offline play is asked for, and is refused while the proxy is not ready |
| `LaunchProtocol.ResolvedPolicyMeans` | src/bloomLaunch/bloom_launch.c:333-357 | The policy that is written: hardcore goes direct, softcore through the proxy where offline play is asked for, and disabled play has none |
| `LaunchProtocol.Session.WriteRaConfig` | src/bloomLaunch/bloom_launch.c:543-603 | Adds one config that sets the user, the token, the flag "true" exactly for hardcore, the hardcore restrictions exactly then and the host exactly when the transport is the proxy; memory aside it is refused exactly where a caller may not configure. Whatever fails or crashes, the state is sound if and only if the new text is not on disk or every request that may still be there and names that file wants the same mode; after success it is sound if and only if the config is not the file of the request, by whatever path. Where it is, the request may afterwards hold what it held, the config, the longer request or nothing, and is sound exactly where neither text remains. No other file changes |
| `LaunchProtocol.Session.StoreConfig` | src/bloomLaunch/bloom_launch.c:585-603 | The config is on disk before the request that names it; soundness exactly as above, and kept where all requests that may be on disk agree beforehand |
| `LaunchProtocol.Disk.CurrentHolds` | src/bloomLaunch/bloom_launch.c:253-264 | Reading the request back gives the one that was written, with fitting configs |
| `LaunchProtocol.Disk.SelfNamedUnsound` | src/bloomLaunch/bloom_launch.c:543-603 | A request that names its own file as a config is never sound |
| `LaunchProtocol.Disk.SoundExactly` | src/bloomLaunch/bloom_launch.c:543-603 | A config text does harm exactly where it may be on disk beside a request that names the file and wants another mode |
| `LaunchProtocol.Disk.OverwrittenSound` | src/bloomLaunch/bloom_launch.c:543-603 | A request overwritten by its own config, whatever failed or crashed, is sound again exactly where neither the config nor the request naming it remains on disk |
| `LaunchProtocol.Disk.OlderRequestUnsound` | src/bloomLaunch/bloom_launch.c:543-603 | The failing family: an older request naming the file still on disk beside the text of a newer one with another mode |
| `LaunchProtocol.SameFile` | src/bloomLaunch/bloom_launch.c:39-42 | A "." or a doubled slash in a path leads to the same file |
| `LaunchProtocol.FileOfMeans` | src/bloomLaunch/bloom_launch.c:39-42 | Which file a path leads to, one name after the other |
| `LaunchProtocol.ConfigForMeans` | src/bloomLaunch/bloom_launch.c:543-603 | A config fits a request when the flag it sets is "true" exactly for hardcore and it sets a host exactly where the transport is the proxy |
| `LaunchProtocol.RequestIsNoConfig` | src/bloomLaunch/bloom_launch.c:543-603 | The bytes of a request are never those of a config, for any request |
| `LaunchRequest.IsValidRequest` | src/bloomLaunch/bloom_launch.c:188-251 | The checks accept exactly the valid requests: known keys once each, an identifier that belongs to system and path, safe paths below their roots, a valid policy |
| `LaunchRequest.RequestMeans` | src/bloomLaunch/bloom_launch.c:188-251 | A valid request in plain words: which members there may be, and what each of them has to hold |
| `LaunchRequest.IsValidPolicy` | src/bloomLaunch/bloom_launch.c:133-186 | The checks accept exactly the consistent policies |
| `LaunchRequest.PolicyMeans` | src/bloomLaunch/bloom_launch.c:133-186 | The combinations of mode, transport, game number and certification that are accepted |
| `LaunchRequest.HasOnlyKeys` | src/bloomLaunch/bloom_launch.c:116-131 | Every key is known and none comes twice |
| `LaunchRequest.IsSafeText` | src/bloomLaunch/bloom_launch.c:28-37 | Non-empty, no control bytes, no ".." behind a slash |
| `LaunchRequest.HardcoreIsDirect` | src/bloomLaunch/bloom_launch.c:133-251 | In a valid request hardcore implies direct transport and no automatic loading of states |
| `LaunchRequest.WithConfigValid` | src/bloomLaunch/bloom_launch.c:590-597 | Appending a config keeps a request valid and changes no other field |
| `LaunchRequest.WithCoreFields` | src/bloomLaunch/bloom_launch.c:473-496 | Setting the core changes no other field |
| `LaunchRequest.WithPolicyFields` | src/bloomLaunch/bloom_launch.c:498-531 | Setting the policy changes no other field |
| `LaunchText.RequestRoundTrip` | src/bloomLaunch/bloom_launch.c:71-103 | A valid request that is written is read back as the same request if and only if its text is at most 64 KiB; a longer one can be written but never read again |
| `LaunchText.TextInjective` | src/bloomLaunch/bloom_launch.c:452-471 | Different requests have different texts |
| `LaunchText.ValidPrintable` | src/bloomLaunch/bloom_launch.c:188-251 | A valid request is within what printing and parsing preserve: ints, NUL-free texts, nesting at most 2 |
| `LaunchConfig.ConfigDetermines` | src/bloomLaunch/bloom_launch.c:566-584 | The text of a config determines its user, token, hardcore flag and host |
| `LaunchConfig.ConfigSettings` | src/bloomLaunch/bloom_launch.c:566-584 | Read line by line, a config sets exactly these names to these values: user, token and hardcore flag always, the restrictions in hardcore mode only, the host if there is one |
| `LaunchConfig.WrittenRead` | src/bloomLaunch/bloom_launch.c:566-584 | Settings that are written one a line are read back as they are |
| `RaCatalog.Catalog.ImportConsole` | src/bloomRa/bloom_ra_catalog.c:35-131 | All or nothing: the hashes of one console become exactly those of the list, the others stay, unneeded games go, the generation rises by one; a list in order is never rejected as corrupt |
| `RaCatalog.ImportMeans` | src/bloomRa/bloom_ra_catalog.c:35-131 | After an import of distinct games every listed hash resolves to its game and achievements, and other consoles' hashes are as before |
| `RaCatalog.ImportSays` | src/bloomRa/bloom_ra_catalog.c:69-95 | After an import a hash leads to the number in the field "ID" and the count in "NumAchievements" of the entry that lists it |
| `RaCatalog.EntryMeans` | src/bloomRa/bloom_ra_catalog.c:71-83 | An entry is read exactly when its five fields have the right kinds, the console is the one imported, and neither title, count nor list is empty |
| `RaCatalog.TableExactly` | src/bloomRa/bloom_ra_catalog.c:19-33 | A list can be imported if and only if every entry can be read, every hash is 32 digits in lower case hexadecimal and none is listed twice |
| `RaCatalog.GamesAfter` | src/bloomRa/bloom_ra_catalog.c:98-111 | A game that is not listed stays exactly if it belongs to another console or a hash or a row of the library still refers to it |
| `RaCatalog.ListedHash` | src/bloomRa/bloom_ra_catalog.c:19-33 | Every hash of every entry is in the table under its game |
| `RaCatalog.ListedOnce` | src/bloomRa/bloom_ra_catalog.c:19-33 | A list that is imported names no hash twice, neither in one entry nor in two |
| `RaCatalog.ImportForgets` | src/bloomRa/bloom_ra_catalog.c:35-131 | A hash of the console that is not listed no longer resolves |
| `RaCatalog.ListedGame` | src/bloomRa/bloom_ra_catalog.c:7-17 | Every entry's game ends with the entry's own title and count |
| `RaCatalog.Catalog.Resolve` | src/bloomRa/bloom_ra_catalog.c:139-164 | The join yields the game of a hash exactly if it is official and has achievements |
| `RaCatalog.ResolvedMeans` | src/bloomRa/bloom_ra_catalog.c:139-164 | A hash resolves to a game exactly if it is entered for it and the game is official with that positive count |
| `RaScanner.Index.ScanTree` | src/bloomRa/bloom_ra_scanner.c:174-186 | When nothing went wrong beyond the faults the tree itself has, the rows are those of scanning every file met, and those of hashing every file anew if forced or if the catalog did not change since the rows were written, whatever scans and edits came before; an unreadable directory is reported if and only if it is the last entry all the way up |
| `RaScanner.Index.ScanDirectory` | src/bloomRa/bloom_ra_scanner.c:117-172 | The same for a directory, with cancel and pause at every entry; rows stay honest, and fresh, even then |
| `RaScanner.Index.ScanGame` | src/bloomRa/bloom_ra_scanner.c:251-318 | Skipped exactly when unforced and the row there was written by hash version 2 for a file of the same size and modification time and, for a playlist, of the same dependency, which is known; otherwise the new row has these of the file as it is, and the console, hash and game of now; failure changes nothing |
| `RaScanner.Index.SkipAgrees` | src/bloomRa/bloom_ra_scanner.c:18-48 | Under any catalog, an unforced scan of a file leaves what a forced one leaves if and only if looking up the stored hash of the row that stands in for it gives the stored status, game and count |
| `RaScanner.Index.TreeAgrees` | src/bloomRa/bloom_ra_scanner.c:117-172 | After any change of the catalog, an unforced scan of a directory whose path is resolved, names within a directory being distinct, leaves what a forced one leaves if and only if every row it skips by is up to date in the catalog of today |
| `RaScanner.TreeOnce` | src/bloomRa/bloom_ra_scanner.c:117-186 | A walk from a resolved path through directories of distinct names meets no game twice |
| `RaScanner.MetIsThere` | src/bloomRa/bloom_ra_scanner.c:117-172 | Every game met is a file of the tree, reached by names that do not begin with a dot and are not those of picture directories, on paths that fit 4096 bytes |
| `RaScanner.ThereIsMet` | src/bloomRa/bloom_ra_scanner.c:117-172 | And every such file whose path is that of a game is met |
| `RaScanner.Index.UpToDateAfterImport` | src/bloomRa/bloom_ra_catalog.c:35-131 | After an import a row of that console is up to date if and only if it says what the list says: the game its hash is listed under, or unmatched |
| `RaScanner.Index.FreshAgrees` | src/bloomRa/bloom_ra_scanner.c:117-172 | While the catalog does not change every scan gives the same with and without force, and keeps rows that way |
| `RaScanner.Index.Unchanged` | src/bloomRa/bloom_ra_scanner.c:18-48 | The statement finds a row exactly when stamp, dependency and hash version agree; a skipped file that is not identified is reported as unmatched |
| `RaScanner.Index.IndexedRow` | src/bloomRa/bloom_ra_scanner.c:188-249 | A game that is met gets the row of its file whatever was there before; every other row stays |
| `RaScanner.Index.IndexedMeans` | src/bloomRa/bloom_ra_scanner.c:291-318 | The row of a hashed file: its console and hash where there are any, and the game the catalog has for them, a number that is not positive not being stored |
| `RaScanner.SupportedExtension` | src/bloomRa/bloom_ra_scanner.c:101-115 | Supported if and only if the text behind the last dot is in the list, case ignored |
| `RaScanner.SupportedMeans` | src/bloomRa/bloom_ra_scanner.c:101-115 | The 39 extensions |
| `Png.PngRoundTrip` | tools/generate_bloom_brand_assets.py:97-146 | Reading what was written gives width, height and pixels back, for every canvas the format can hold and every compressor its decompressor undoes |
| `Png.Canvas.Png` | tools/generate_bloom_brand_assets.py:97-115 | The file is exactly the encoding of the canvas, refused only when a length does not fit 32 bits |
| `Png.EncodedMeans` | tools/generate_bloom_brand_assets.py:106-115 | The file byte by byte: signature, three chunks with their lengths in front and their checksums behind |
| `Png.RawMeans` | tools/generate_bloom_brand_assets.py:97-105 | In front of row y stands a zero, and behind it the pixels of that row |
| `Png.WordMeans` | tools/generate_bloom_brand_assets.py:106-115 | Numbers are four bytes with the most significant one first |
| `Png.Canvas.Set` | tools/generate_bloom_brand_assets.py:48-51 | Changes the four bytes of the pixel if it lies on the canvas, and nothing else |
| `Png.PngPixels` | tools/generate_bloom_brand_assets.py:117-146 | Computes the decoding, with its error for each malformed file |
| `Png.ChunkRead` | tools/generate_bloom_brand_assets.py:122-133 | Reading a chunk takes its kind and data and goes on right behind it, the end chunk stopping |
| `Png.RawRoundTrip` | tools/generate_bloom_brand_assets.py:137-146 | Filter bytes put in front of the rows are taken away again |
| `StoredDeflate.StreamRoundTrip` | tools/generate_quick_guide.py:85-94 | The stream reads back as the data if and only if there is any: without data it has no final block |
| `StoredDeflate.BlocksRead` | tools/generate_quick_guide.py:86-93 | The blocks (section 3.2.4 of RFC 1951) decode to the data and stop exactly behind the last one, the only one marked final |
| `StoredDeflate.WriteStream` | tools/generate_quick_guide.py:85-94 | The loop over offsets produces that stream, header and checksum of RFC 1950 included |
| `StoredDeflate.AdlerMeans` | tools/generate_quick_guide.py:94-94 | The checksum of section 8.2 of RFC 1950: one more than the total of the bytes, and the sum of these totals over all beginnings, each modulo 65521 |
| `StoredDeflate.BlockMeans` | tools/generate_quick_guide.py:86-93 | A block is its mark, its length with the lower byte first, the complement of that and the data |

## Left out

- JsonPrinter.Print: trees whose numbers are ints only; the 15 and 17 digit formatting of other doubles, raw items, missing keys and missing strings are not modelled.
- JsonPrinter.PrintBuffer.PrintNumber: only numbers equal to an int, as for JsonPrinter.Print.
- JsonParser.ParseWithLengthOpts: conversion of digits is exact instead of rounded to double.
- JsonTree.Compare: of two trees that share nodes and both repeat keys it is only stated that equal ones compare equal; reference nodes, constant keys and allocator hooks are not modelled.
- JsonNode.AddItemToArray: the edits look at one sibling level; that a subtree is not inserted below itself is not modelled. AddItemToObject and the delete functions are thin wrappers and left out.
- cJSON_Minify: its end-of-string test disagrees with the parser on an escaped backslash before the quote.
- Rotozoom.ZoomSurfaceRGBA: sizes for which the C ints do not overflow, and pitches counted in pixels; what is read beyond the source is taken to be any color. The float step equals the integer quotient used here: 65536 * w is exact in a double and the quotient is at least 1/dw away from the next integer for sizes below 2^24.
- Rotozoom.TransformSurfaceRGBA: sine and cosine come in as fixed-point parameters; transformSurfaceY, and the sizing of the result surface are left out.
- Rotozoom.ZoomSurfaceY: the sums over the tables that the source computes and never uses.
- LibraryQuery.QueryGames: the listings of systems, favorites, recents and apps are plain selections and left out.
- LibraryScan.Database.ScanGames: the import of the Onion systems and apps has the same mark-and-sweep shape and is left out, as is the scan lock.
- LegacyImport.ImportLegacy: where systems share a path, the game that the lookup picks is given. That the lines are cut at line ends is not modelled.
- Dense recents positions and "the 100 most recent distinct games": false of the code; the age statement and the exact condition for staying dense are proved instead.
- LaunchProtocol.Session.WriteRaConfig: the config text is assembled whole before its length is checked.
- LaunchProtocol.Session.AtomicWrite: temporary names are taken as fresh; symbolic links and hard links between directories are left out; a directory sync that the file system does not support counts as success. It may report failure after the rename, so "failure means nothing was written" is not claimed.
- LaunchRequest.IsValidRequest: the legacy command file and the reading of single fields are left out.
- Sha256.HashChunks: collision resistance is not a theorem; where it matters a lemma ends in "or these two preimages collide".
- RaScanner.Index.ScanTree: games are keyed by system and path instead of their hash, the hash of a file is determined by its size and modification time, for a playlist with its dependency, where that is used, and the catalog does not change during one run; the scan lock between processes is left out because mutual exclusion does not hold between its mkdir and the writing of its process number.
- RaCatalog.Catalog.ImportConsole: rows of the library that refer to a game are a parameter; timestamps and provider names are left out.
- Png.PngPixels: chunk checksums are not read, as in the source; zlib is a parameter.
- StoredDeflate.BlocksRead: only stored blocks are decoded, the only kind written; the palette image around the stream is left out.
- SQLite, the file system, SDL, fonts, key handling, battery graphs and voltage curves, command lines, manifests, the web site.
