# assemble-malie-dzi, modelled in Dafny

`assemble-malie-dzi` rebuilds the layer images of a Malie-engine event
picture from its tiles. An event directory holds `.dzi` descriptor files
and a directory of PNG tiles. Each descriptor lists a full image size and
then, layer by layer, a grid of tile names. For every descriptor and every
enabled layer, the program:

- draws the named tiles onto a transparent canvas, each at its grid
  position;
- crops the canvas to the layer's target size;
- writes the result as `<group>/layer_<i>.png` in the output directory.

This project models the core of that program, `rust_impl/src/main.rs`, in
five modules:

- `Wrappers`: the `Option` and `Result` types the rest is written in.
- `Text`: the string functions the descriptor parser is built from, with
  Rust's exact rules.
  - `str::lines`: a `\r` is dropped only before a `\n`, and no empty line
    follows a final line ending.
  - `str::split(',')`: empty pieces are kept, one piece more than there are
    commas.
  - `str::trim`: the Unicode White_Space property.
  - `FromStr` for `u32` and `usize`: an optional `+`, decimal digits, and no
    overflow.
- `Descriptor`: `DziLayer`, `DziFile` and `parse_dzi`.
  - The parse is split into a reading of each line (`Read`) and a walk over
    the readings (`ParseReadings`, `ParseBlocks`).
  - The walk is characterised by a declarative grammar (`Describes`) in
    both directions.
  - A writer for descriptors (`Render`) is parsed back to the same
    descriptor, from lines and from text.
- `Compose`: the geometry of `compose_layer`.
  - Pixels are abstract. A tile is its name and size, a picture is its size
    and the tiles drawn onto it in order, and a pixel is the stack of tile
    pixels drawn over it.
  - Proved: the canvas size, the placements, which tile owns each pixel,
    the crop, and the error cases.
- `Orchestrate`: the policy of `run`.
  - The rules: the `.dzi` extension filter, the group name (the file stem),
    the skip rule for layers past 1, the target size of each layer, and the
    output file name.
  - A whole run over a directory listing, stopping at the first error.

A run's inputs become parameters:

- the directory listing is a sequence of `Entry(name, content)`;
- the tiles that can be loaded are a map from tile name to size
  (`TileStore`);
- the `--enable-lower-layers` flag is a boolean.

Errors and panics of the source both become a `Failure` value. The parse
error kinds are `NoSizeLine`, `BadNumber`, `MissingField` and `MissingRow`.
The compose errors are `MissingTile` and `Overflow`. A run that fails
reports one of `BadDescriptor`, `TileMissing`, `SizeOverflow` or
`EmptyImage`. `EmptyImage` is the failure of `cropped.save` (line 140) for a
picture with no width or no height, which the PNG encoder refuses to write.
That happens when a target size rounds to 0, for example at a late layer of
a narrow image.

Two behaviours of the code are worth stating on their own:

- A blank line after the last complete block is rejected. `lines()` yields
  `""` for it, the parse reads that line as the header of one more layer, and
  parsing `""` as a number panics (line 63).
  `Descriptor.TrailingBlankLineFails` states this. A blank line that the last
  header still counts as one of its rows is accepted instead: it is read as a
  row holding one empty tile name (lines 68-70).
- The code never checks a row's length against the `cols` its header
  declares. The model records `cols` and lets rows have any length.

## Model

| member | source | states |
|---|---|---|
| Text.TrimStart | rust_impl/src/main.rs:51 | the result is a suffix of the input; what was dropped is all whitespace; the result does not start with whitespace |
| Text.TrimEnd | rust_impl/src/main.rs:51 | the result is a prefix of the input; what was dropped is all whitespace; the result does not end with whitespace |
| Text.Trim | rust_impl/src/main.rs:51 | neither end of the trimmed field is Unicode whitespace |
| Text.TrimSlice | rust_impl/src/main.rs:51 | trimming drops only whitespace, and only from the two ends: the result is a slice `s[a..b]` with all-whitespace `s[..a]` and `s[b..]` |
| Text.TrimOfTrimmed | rust_impl/src/main.rs:70 | trimming changes nothing in text that is already trimmed |
| Text.Split | rust_impl/src/main.rs:50 | splitting on a comma gives one piece more than there are commas, and no piece holds a comma |
| Text.JoinSplit | rust_impl/src/main.rs:62 | splitting loses nothing: the pieces joined with the separator are the line again |
| Text.SplitJoin | rust_impl/src/main.rs:70 | splitting comma-free fields joined by commas gives back exactly those fields |
| Text.Lines | rust_impl/src/main.rs:44 | no line holds a line feed, and a text has lines exactly when it is not empty |
| Text.LinesOfTerminated | rust_impl/src/main.rs:44 | lines each ended by its own `\n` or `\r\n`, in any mix, are read back as exactly those lines, whatever follows |
| Text.LinesUnterminated | rust_impl/src/main.rs:44 | a text with no line feed is one line as it stands, carriage returns included, or no line when it is empty |
| Text.LinesOfLastLine | rust_impl/src/main.rs:44 | a last line is read back whether or not it has a line ending; an empty last line needs one |
| Text.LinesOfText | rust_impl/src/main.rs:44 | lines joined by any mix of `\n` and `\r\n`, with the final ending optional unless the last line is empty, are read back as exactly those lines |
| Text.DigitsValueDefined | rust_impl/src/main.rs:51 | a run of characters has a decimal value exactly when every character is a digit |
| Text.ParseUnsigned | rust_impl/src/main.rs:51 | a parsed number never exceeds the type's largest value, and the empty string and a lone `+` are rejected |
| Text.ParseUnsignedRejects | rust_impl/src/main.rs:63 | any character other than a digit or one leading `+` makes a field fail to parse |
| Text.ParseUnsignedOverflow | rust_impl/src/main.rs:51 | digits whose value exceeds the type's largest value are rejected, with or without a leading `+` |
| Text.ParseUnsignedSign | rust_impl/src/main.rs:51 | one leading `+` before an unsigned, non-empty field changes nothing |
| Text.ParseUnsignedLeadingZero | rust_impl/src/main.rs:51 | a leading zero is accepted and ignored, so `007` and `+007` parse as 7 |
| Text.ParseToDecimal | rust_impl/src/main.rs:51 | a number's decimal spelling, with or without a leading `+`, parses back to that number when it fits the type |
| Text.ToDecimalInjective | rust_impl/src/main.rs:139 | different numbers have different decimal spellings |
| Descriptor.Tokens | rust_impl/src/main.rs:70 | a row line gives one tile name per comma plus one, empty names kept, each trimmed and free of commas |
| Descriptor.TokenIsField | rust_impl/src/main.rs:70 | tile name `k` of a row is field `k` of the line, split at commas, with only whitespace removed and only from its ends |
| Descriptor.AllPresent | rust_impl/src/main.rs:49-52 | collecting unwrapped parses succeeds exactly when every field parsed, and keeps every value in order |
| Descriptor.Numbers | rust_impl/src/main.rs:61-64 | the numbers of a line are one per field, each within the type's range |
| Descriptor.NumbersOfFields | rust_impl/src/main.rs:61-64 | a line has numbers exactly when every comma-separated field, trimmed, parses within the type's range, and number `k` is the value of field `k` |
| Descriptor.ParsePair | rust_impl/src/main.rs:53 | a size or header line gives its first two numbers exactly when every field is a number and there are at least two; otherwise the failure says which |
| Descriptor.ParseBlocks | rust_impl/src/main.rs:56-75 | every parsed layer holds exactly the rows its header declares, and the blocks use up every remaining line |
| Descriptor.ParseDzi | rust_impl/src/main.rs:42-82 | the parse fails for want of a size line exactly when the file has fewer than two lines; a parsed file's blocks fill every line after the size line |
| Descriptor.ParseDziSize | rust_impl/src/main.rs:47-54 | the width and height are the first two fields of line 1, every field of which is a `u32` |
| Descriptor.ParseBlocksSound | rust_impl/src/main.rs:58-75 | what the block walk returns is the block structure of the lines it read |
| Descriptor.ParseBlocksComplete | rust_impl/src/main.rs:58-75 | lines with the block structure of some layers parse to exactly those layers |
| Descriptor.BlockPositions | rust_impl/src/main.rs:58-75 | layer `k`'s block starts right after the blocks of layers `0..k`, so layers come in file order, and nothing follows the last block |
| Descriptor.ParseReadingsCharacterized | rust_impl/src/main.rs:46-81 | the line readings parse to `f` exactly when line 1 holds `f`'s size and the lines after it are `f`'s blocks |
| Descriptor.ParseDziCharacterized | rust_impl/src/main.rs:42-82 | a descriptor parses to `f` exactly when line 1 holds `f`'s width and height and the lines after it are `f`'s blocks, in order |
| Descriptor.ParseBlocksFrame | rust_impl/src/main.rs:58-59 | the block walk reads no line before the one it starts at |
| Descriptor.FormatLineIgnored | rust_impl/src/main.rs:46 | whatever line 0 says, the descriptor parses the same |
| Descriptor.DeclaredRowsMissing | rust_impl/src/main.rs:68-69 | a header that declares more rows than remain fails the parse at the end of the file, and never yields a shortened layer |
| Descriptor.ParseBlocksExtra | rust_impl/src/main.rs:59-65 | once the blocks have used up the lines, one more line that is not a header makes the walk fail at that line |
| Descriptor.ParseReadingsExtra | rust_impl/src/main.rs:59-65 | one more line that is not a header, after the readings of a complete file, fails the parse at that line |
| Descriptor.ExtraLineFails | rust_impl/src/main.rs:59-65 | a good descriptor followed by a line that holds no number fails to parse, at that line |
| Descriptor.TrailingBlankLineFails | rust_impl/src/main.rs:59-65 | a good descriptor followed by an empty line fails to parse, at that line |
| Descriptor.RenderRoundTrip | rust_impl/src/main.rs:42-82 | a well-formed descriptor, written out line by line, parses back to itself whatever its format line |
| Descriptor.TextRoundTrip | rust_impl/src/main.rs:43-82 | a well-formed descriptor, written as text with any mix of `\n` and `\r\n` line endings and with or without an ending after its last line, parses back to itself |
| Compose.RowCells | rust_impl/src/main.rs:112-115 | the cells of a row are its non-empty entries at their columns, left to right |
| Compose.GridCells | rust_impl/src/main.rs:111-115 | every cell drawn is a non-empty entry of the grid, and the cells are in row-major order |
| Compose.GridCellsCharacterized | rust_impl/src/main.rs:111-115 | a cell is drawn exactly when it is a non-empty entry of the grid |
| Compose.Place | rust_impl/src/main.rs:111-124 | placing succeeds exactly when every cell's tile loads and its offset fits `u32`; each tile goes to (column × tile width, row × tile height); a failure names the first cell that cannot be drawn, a missing tile before an overflow |
| Compose.ComposeLayer | rust_impl/src/main.rs:87-135 | the result is an empty success exactly when the grid or its first row is empty; the picture is min(target, columns × tile width) by min(target, rows × tile height); a missing-tile error names a tile not in the store; an overflow happens only when the `u32` arithmetic does not fit |
| Compose.ComposeFails | rust_impl/src/main.rs:100-124 | a non-empty layer fails exactly when its first tile or a named tile is missing, or its arithmetic leaves `u32`; when the arithmetic fits, the only failure is a missing tile |
| Compose.ComposedPlacements | rust_impl/src/main.rs:109-124 | a composed picture draws each non-empty cell, and nothing else, at its grid offset, in row-major order |
| Compose.Crop | rust_impl/src/main.rs:128-134 | the crop is the smaller of target and canvas on each axis and keeps what was drawn |
| Compose.CropKeepsPixels | rust_impl/src/main.rs:128-135 | every pixel of the cropped picture is the canvas pixel at the same position |
| Compose.SpanOfPixel | rust_impl/src/main.rs:122-123 | along one axis a pixel lies in cell `x`'s span exactly when `x` is the pixel coordinate divided by the tile size, at the remainder as offset |
| Compose.CellsDisjoint | rust_impl/src/main.rs:119-124 | tiles of the first tile's size placed at two different cells never cover the same pixel |
| Compose.StackMembers | rust_impl/src/main.rs:119-124 | what a pixel shows is exactly the pixels, at their offsets, of the placements that cover it |
| Compose.StackAppend | rust_impl/src/main.rs:119-124 | placements drawn later stack above earlier ones: the stack of two runs of placements is the first run's stack then the second's |
| Compose.StackOfGrid | rust_impl/src/main.rs:109-126 | when every tile has the cell size, each pixel of the drawn grid shows only its own cell's tile, at its offset in that cell |
| Compose.PixelOwner | rust_impl/src/main.rs:109-135 | with tiles all of the first tile's size, each pixel of a composed layer shows only the tile of its cell at its offset, and a pixel of an empty cell stays transparent |
| Orchestrate.LastDot | rust_impl/src/main.rs:170 | the position found holds a dot with no dot after it, and no position is found only when the name has no dot |
| Orchestrate.StemAndExtension | rust_impl/src/main.rs:170-174 | a name with an extension is its non-empty stem, a dot and the extension |
| Orchestrate.DescriptorNames | rust_impl/src/main.rs:170-174 | a file is a descriptor exactly when its name is longer than four characters and ends in `.dzi`, and its group is the name without `.dzi` |
| Orchestrate.GroupOfDescriptor | rust_impl/src/main.rs:174 | the descriptor `g.dzi` names group `g`, for every non-empty `g` |
| Orchestrate.GroupsDistinct | rust_impl/src/main.rs:174 | two descriptors of one directory name different groups |
| Orchestrate.TargetSizeNearest | rust_impl/src/main.rs:185-187 | from layer 1 on, the target size is `w / 2^(i-1)` rounded to nearest, a tie going up |
| Orchestrate.TargetSizeCharacterized | rust_impl/src/main.rs:185-187 | from layer 1 on, the target size is `r` exactly when `w / 2^(i-1)` lies in [r − ½, r + ½): the one integer nearest that quotient, a tie going to the larger |
| Orchestrate.TargetSizeLayerZero | rust_impl/src/main.rs:185-187 | layer 0 is twice the full size, so twice layer 1, saturated to the largest `u32` when that does not fit |
| Orchestrate.TargetSizeBounds | rust_impl/src/main.rs:185-187 | for a `u32` full size every target fits `u32`; layer 0 is at least the full size and later layers at most |
| Orchestrate.FileNameInjective | rust_impl/src/main.rs:139 | different layers get different file names |
| Orchestrate.OutputPathInjective | rust_impl/src/main.rs:137-139 | different (group, layer) pairs get different output paths |
| Orchestrate.LayerStepOutcomes | rust_impl/src/main.rs:128-197 | a layer writes nothing exactly when it is skipped or its grid is empty; it stops the run only when enabled, for a missing tile, for arithmetic that leaves `u32`, or, exactly when its composed picture has no width or no height, because that picture cannot be saved |
| Orchestrate.LayerStepWrites | rust_impl/src/main.rs:128-197 | a layer writes picture `p` exactly when it is enabled and composes to `p` at its target size, and `p` has pixels |
| Orchestrate.RunSteps | rust_impl/src/main.rs:179-198 | a descriptor's files are written under its group, each for a layer that produced a picture, each layer once and in file order; a stopped run stopped at a failing layer, and a finished one met none |
| Orchestrate.RunStepsFirstStop | rust_impl/src/main.rs:179-198 | a descriptor's layers stop at the first failing layer, with its error, after writing every layer before it that produced a picture, in order; with no failing layer, every such layer is written and no error is reported |
| Orchestrate.RunStepsComplete | rust_impl/src/main.rs:179-198 | a descriptor that does not stop writes every layer that produced a picture |
| Orchestrate.RunLayersWrites | rust_impl/src/main.rs:179-198 | every file written for layer `j` holds what layer `j` composes to; if no layer fails, every layer that composes is written |
| Orchestrate.EntryOutcome | rust_impl/src/main.rs:166-198 | only descriptors write files, all under the file's stem and for enabled layers, no file twice |
| Orchestrate.EntryOutcomeCases | rust_impl/src/main.rs:166-198 | a file without the `.dzi` extension writes nothing and reports nothing; a descriptor that does not parse writes nothing and stops the run with the parse error under its group; a descriptor that parses runs its layers under its group |
| Orchestrate.RunAll | rust_impl/src/main.rs:166-199 | every file a run writes was written while handling one of the directory's entries |
| Orchestrate.RunAllFirstFailure | rust_impl/src/main.rs:166-199 | a run stops at the first entry that fails, with its error, having written the files of every entry up to and including that one; a run that does not stop wrote every entry's files, in listing order |
| Orchestrate.RunAllDistinct | rust_impl/src/main.rs:166-199 | when each entry writes each file once and never another entry's file, the whole run writes no file twice |
| Orchestrate.RunWritesOnce | rust_impl/src/main.rs:166-199 | a run over a directory writes no output file twice |
| Orchestrate.RunLayersEnabled | rust_impl/src/main.rs:180-183 | every file written is for an enabled layer; without `--enable-lower-layers` only layers 0 and 1 are written |

## Left out

- File I/O is left out: reading descriptors, creating directories, saving PNGs (except that an empty picture cannot be saved, modelled as `EmptyImage`), and clearing the output directory (`remove_dir_all`, lines 162-164). A run is modelled from the listing onwards.
- The listing order of `read_dir` is a parameter: the entries arrive in whatever order the caller gives.
- Every entry is modelled as a file. A sub-directory whose name ends in `.dzi` passes the filter in the source, and reading it then fails; the model has no such entry.
- Errors from reading the directory or a file (lines 166-167, 43), and invalid UTF-8, are not modelled.
- Image decoding and alpha blending are not modelled. A tile is its name and size, and a pixel is the ordered stack of tile pixels drawn over it, which `overlay` blends over transparency.
- Command-line parsing, logging, the console messages and the exit code are left out. Only `--enable-lower-layers` is a parameter.
- Panics and `?` errors both become a `Failure`. The model does not tell them apart.
- Orchestrate.TargetSize: the `f64` computation `(w * 0.5^(i-1)).round() as u32` is modelled as an exact integer formula. Layer 0 is 2w, saturated to `u32`. Layer 1 is w. Layer i ≥ 2 is (w + 2^(i-2)) / 2^(i-1). This agrees with the float computation for every `u32` width, because scaling by a power of two is exact in `f64` and `round` takes a tie away from zero. The `i as i32` cast is not modelled; it only matters past 2^31 layers.
- Compose.Fits: `cols as u32`, `rows as u32` and `x as u32` truncate above 2^32 − 1. The model does not truncate, and treats such grids as overflowing.
- Overflowing `u32` multiplication is modelled as the `Overflow` error, as in a build with overflow checks, where it panics. Wrap-around, as in a build without them, is not modelled.
- Text.Trim: its contract states only that the result is trimmed. That it is the input with only whitespace dropped from each end is stated by the contracts of `Text.TrimStart` and `Text.TrimEnd`, whose composition it is.
- A top-left cell that is empty is looked up like any other name. Like the source, the model fails unless a tile with the empty name loads.
- Allocating the canvas with `RgbaImage::from_pixel` (line 109) panics or aborts when the memory for `composed_w × composed_h` pixels cannot be had. The model has no memory limit and composes any canvas whose size fits `u32`.
- `usize` is taken to be 64 bits wide: block headers are parsed against 2^64 − 1. On a 32-bit target the bound would be 2^32 − 1, and a header between the two would panic there.
- Creating the group's output directory (line 138) happens before the save in the source, so a layer that stops with `EmptyImage` still leaves that directory behind. The image library most likely creates `layer_<i>.png` before its encoder refuses the empty picture, so an empty file may be left there too. Directories and files are I/O and are not modelled.
- Compose.PixelOwner: only covers layers whose tiles all have the first tile's size. With other sizes, `Compose.Pixel` still gives the full stack of drawn tiles, but no closed form is proved.
