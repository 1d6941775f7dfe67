/**
 * The `.dzi` descriptor: its data (`DziLayer`, `DziFile`) and the
 * line-based parser `parse_dzi`.
 *
 * Grammar, on the lines of the file:
 *   line 0          a format tag, ignored;
 *   line 1          `width,height` (each a `u32`);
 *   then, until the lines run out, layer blocks:
 *     a header      `cols,rows` (each a `usize`),
 *     `rows` lines  of comma-separated tile names, each trimmed; an empty
 *                   name marks an absent tile.
 */
module Descriptor {
  import opened Wrappers
  import opened Text

  /** Largest `u32`, the type of the image size. */
  const U32_MAX: nat := 0xFFFF_FFFF
  /** Largest `usize` on a 64-bit target, the type of a layer header's fields. */
  const USIZE_MAX: nat := 0xFFFF_FFFF_FFFF_FFFF

  /**
   * One pyramid layer: its tile names row by row, and the header's `rows`
   * and `cols`. `cols` is recorded, never checked against the rows.
   */
  datatype DziLayer = DziLayer(tiles: seq<seq<string>>, rows: nat, cols: nat)

  /** A parsed descriptor: the full image size and the layers in file order. */
  datatype DziFile = DziFile(width: nat, height: nat, layers: seq<DziLayer>)

  /**
   * Why a descriptor is rejected. Line numbers count from 0. The source
   * returns an error for the first kind and panics for the others.
   */
  datatype ParseError =
    | NoSizeLine                         // fewer than two lines
    | BadNumber(line: nat)               // a field of a size or header line is not a number
    | MissingField(line: nat)            // a size or header line has fewer than two fields
    | MissingRow(layer: nat, line: nat)  // the lines ran out inside a layer block

  /** A comma does not survive trimming if it was not there before. */
  lemma TrimKeepsOut(s: string, c: char)
    requires c !in s
    ensures c !in Trim(s)
  {
    var t := TrimStart(s);
    assert c !in t;
    assert c !in TrimEnd(t);
  }

  /**
   * The tile names of a row line: one per comma-separated field (so one
   * more than the line has commas, empty fields kept as `""`), each trimmed.
   */
  function Tokens(line: string): (r: seq<string>)
    ensures |r| == CountChar(line, ',') + 1
    ensures forall k :: 0 <= k < |r| ==> IsTrimmed(r[k]) && ',' !in r[k]
  {
    var fields := Split(line, ',');
    var r := seq(|fields|, k requires 0 <= k < |fields| => Trim(fields[k]));
    assert forall k | 0 <= k < |r| :: ',' !in r[k] by {
      forall k | 0 <= k < |r| {
        TrimKeepsOut(fields[k], ',');
      }
    }
    r
  }

  /**
   * Tile name `k` of a row line is field `k` of the line with only
   * whitespace removed, and only from its two ends.
   */
  lemma TokenIsField(line: string, k: nat) returns (a: nat, b: nat)
    requires k < |Tokens(line)|
    ensures Tokens(line)[k] == Trim(Split(line, ',')[k])
    ensures a <= b <= |Split(line, ',')[k]|
    ensures Tokens(line)[k] == Split(line, ',')[k][a..b]
    ensures AllWhitespace(Split(line, ',')[k][..a]) && AllWhitespace(Split(line, ',')[k][b..])
  {
    a, b := TrimSlice(Split(line, ',')[k]);
  }

  /** A field's value: the field trimmed and parsed as a number no larger than `max`. */
  function FieldValue(field: string, max: nat): Option<nat> {
    ParseUnsigned(Trim(field), max)
  }

  /**
   * All the values, in order, when every one is present; `None` as soon as
   * one is missing (Rust's `collect` of `unwrap`ped parses, where the first
   * bad field panics).
   */
  function AllPresent(vals: seq<Option<nat>>): (r: Option<seq<nat>>)
    ensures r.Some? <==> forall k :: 0 <= k < |vals| ==> vals[k].Some?
    ensures r.Some? ==> |r.value| == |vals| && forall k :: 0 <= k < |vals| ==> vals[k] == Some(r.value[k])
  {
    if |vals| == 0 then Some([])
    else
      match vals[0]
      case None => None
      case Some(n) =>
        match AllPresent(vals[1..])
        case None =>
          assert !vals[1..][IndexOfNone(vals[1..])].Some?;
          None
        case Some(rest) => Some([n] + rest)
  }

  /** The position of a missing value. */
  function IndexOfNone(vals: seq<Option<nat>>): (k: nat)
    requires exists k :: 0 <= k < |vals| && vals[k].None?
    ensures k < |vals| && vals[k].None?
  {
    if vals[0].None? then 0
    else
      assert exists k :: 0 <= k < |vals[1..]| && vals[1..][k].None? by {
        var k :| 0 <= k < |vals| && vals[k].None?;
        assert vals[1..][k - 1] == vals[k];
      }
      1 + IndexOfNone(vals[1..])
  }

  /** The value of each field, in order. */
  function FieldValues(fields: seq<string>, max: nat): (r: seq<Option<nat>>)
    ensures |r| == |fields|
    ensures forall k :: 0 <= k < |fields| ==> r[k] == FieldValue(fields[k], max)
  {
    seq(|fields|, k requires 0 <= k < |fields| => FieldValue(fields[k], max))
  }

  /** The numbers on a comma-separated line, one per field, if every field holds one. */
  function Numbers(line: string, max: nat): (r: Option<seq<nat>>)
    ensures r.Some? ==> |r.value| == CountChar(line, ',') + 1
    ensures r.Some? ==> forall k :: 0 <= k < |r.value| ==> r.value[k] <= max
  {
    AllPresent(FieldValues(Split(line, ','), max))
  }

  /**
   * A line has numbers exactly when each of its fields, trimmed, parses as
   * a number no larger than `max`, and number `k` is the value of field `k`.
   */
  lemma NumbersOfFields(line: string, max: nat)
    ensures Numbers(line, max).Some? <==>
      forall k :: 0 <= k < |Split(line, ',')| ==> FieldValue(Split(line, ',')[k], max).Some?
    ensures Numbers(line, max).Some? ==>
      forall k :: 0 <= k < |Numbers(line, max).value| ==> Numbers(line, max).value[k] == FieldValue(Split(line, ',')[k], max).value
  {
    var fields := Split(line, ',');
    var vals := FieldValues(fields, max);
    assert Numbers(line, max) == AllPresent(vals);
    if Numbers(line, max).Some? {
      forall k | 0 <= k < |fields|
        ensures FieldValue(fields[k], max).Some?
      {
        assert vals[k].Some?;
      }
    } else {
      var j :| 0 <= j < |vals| && vals[j].None?;
      assert j < |Split(line, ',')| && !FieldValue(Split(line, ',')[j], max).Some?;
    }
  }

  /**
   * The first two numbers read on line `at` (the size line or a block
   * header): every field must have been a number, and there must be at
   * least two; further numbers are ignored.
   */
  function ParsePair(numbers: Option<seq<nat>>, at: nat): (r: Result<(nat, nat), ParseError>)
    ensures r.Success? <==> numbers.Some? && |numbers.value| >= 2
    ensures r.Success? ==> r.value == (numbers.value[0], numbers.value[1])
    ensures numbers.None? ==> r == Failure(BadNumber(at))
    ensures numbers.Some? && |numbers.value| < 2 ==> r == Failure(MissingField(at))
  {
    match numbers
    case None => Failure(BadNumber(at))
    case Some(ns) => if |ns| < 2 then Failure(MissingField(at)) else Success((ns[0], ns[1]))
  }

  /**
   * What the parser can read off one line: its fields as `u32` numbers (a
   * size line), as `usize` numbers (a block header), and its tile tokens
   * (a row line).
   */
  datatype Reading = Reading(asSize: Option<seq<nat>>, asHeader: Option<seq<nat>>, tokens: seq<string>)

  function Read(line: string): Reading {
    Reading(Numbers(line, U32_MAX), Numbers(line, USIZE_MAX), Tokens(line))
  }

  /** `f` applied to each element, in order. */
  function Map<A, B>(f: A -> B, xs: seq<A>): (ys: seq<B>)
    ensures |ys| == |xs|
    ensures forall i :: 0 <= i < |xs| ==> ys[i] == f(xs[i])
  {
    seq(|xs|, i requires 0 <= i < |xs| => f(xs[i]))
  }

  lemma MapAppend<A, B>(f: A -> B, a: seq<A>, b: seq<A>)
    ensures Map(f, a + b) == Map(f, a) + Map(f, b)
  {
    var l, r := Map(f, a + b), Map(f, a) + Map(f, b);
    forall i | 0 <= i < |l|
      ensures l[i] == r[i]
    {
      if i < |a| {
        assert (a + b)[i] == a[i];
      } else {
        assert (a + b)[i] == b[i - |a|];
      }
    }
  }

  lemma MapUpdate<A, B>(f: A -> B, xs: seq<A>, i: nat, x: A)
    requires i < |xs|
    ensures Map(f, xs[i := x]) == Map(f, xs)[i := f(x)]
  {
    var l, r := Map(f, xs[i := x]), Map(f, xs)[i := f(x)];
    forall j | 0 <= j < |l|
      ensures l[j] == r[j]
    {
      if j == i {
        assert xs[i := x][j] == x;
      } else {
        assert xs[i := x][j] == xs[j];
      }
    }
  }

  /** The reading of every line, in order; each line is read on its own. */
  function ReadAll(lines: seq<string>): (rs: seq<Reading>)
    ensures |rs| == |lines|
    ensures forall i :: 0 <= i < |lines| ==> rs[i] == Read(lines[i])
  {
    Map(Read, lines)
  }

  /** Reading is line by line: the readings of two runs of lines put together. */
  lemma ReadAllAppend(a: seq<string>, b: seq<string>)
    ensures ReadAll(a + b) == ReadAll(a) + ReadAll(b)
  {
    MapAppend(Read, a, b);
  }

  /** Changing one line changes only that line's reading. */
  lemma ReadAllUpdate(lines: seq<string>, i: nat, line: string)
    requires i < |lines|
    ensures ReadAll(lines[i := line]) == ReadAll(lines)[i := Read(line)]
  {
    MapUpdate(Read, lines, i, line);
  }

  /** The tile rows of a block: the tokens of each of its row lines. */
  function TokensOf(rows: seq<Reading>): (r: seq<seq<string>>)
    ensures |r| == |rows|
    ensures forall j :: 0 <= j < |rows| ==> r[j] == rows[j].tokens
  {
    seq(|rows|, j requires 0 <= j < |rows| => rows[j].tokens)
  }

  /** The number of lines the blocks of `layers` take: a header plus `rows` lines each. */
  function Footprint(layers: seq<DziLayer>): nat {
    if |layers| == 0 then 0 else 1 + layers[0].rows + Footprint(layers[1..])
  }

  /**
   * The layer blocks from line `at` to the end; `index` numbers the layer
   * whose header is at `at`. Every parsed layer holds exactly `rows` rows,
   * and together the blocks use up exactly the remaining lines.
   */
  function ParseBlocks(rs: seq<Reading>, at: nat, index: nat): (r: Result<seq<DziLayer>, ParseError>)
    requires at <= |rs|
    ensures r.Success? ==> at + Footprint(r.value) == |rs|
    ensures r.Success? ==> forall k :: 0 <= k < |r.value| ==> |r.value[k].tiles| == r.value[k].rows
    ensures r.Failure? ==> !r.error.NoSizeLine?
    decreases |rs| - at
  {
    if at == |rs| then Success([])
    else
      match ParsePair(rs[at].asHeader, at)
      case Failure(e) => Failure(e)
      case Success(header) =>
        var cols, rows := header.0, header.1;
        if |rs| - (at + 1) < rows then Failure(MissingRow(index, |rs|))
        else
          var tiles := TokensOf(rs[at + 1..at + 1 + rows]);
          match ParseBlocks(rs, at + 1 + rows, index + 1)
          case Failure(e) => Failure(e)
          case Success(rest) =>
            var layers := [DziLayer(tiles, rows, cols)] + rest;
            assert layers[1..] == rest;
            Success(layers)
  }

  /**
   * The parse of a whole file from the readings of its lines: line 0 is
   * skipped, line 1 gives the size, the rest are layer blocks.
   */
  function ParseReadings(rs: seq<Reading>): (r: Result<DziFile, ParseError>)
    ensures |rs| < 2 <==> r == Failure(NoSizeLine)
    ensures r.Success? ==> ParsePair(rs[1].asSize, 1) == Success((r.value.width, r.value.height))
    ensures r.Success? ==> 2 + Footprint(r.value.layers) == |rs|
  {
    if |rs| < 2 then Failure(NoSizeLine)
    else
      match ParsePair(rs[1].asSize, 1)
      case Failure(e) => Failure(e)
      case Success(size) =>
        match ParseBlocks(rs, 2, 0)
        case Failure(e) => Failure(e)
        case Success(layers) => Success(DziFile(size.0, size.1, layers))
  }

  /**
   * `parse_dzi` on the lines of a descriptor. It fails without a size line,
   * and on success the layer blocks fill the rest of the file.
   */
  function ParseDzi(lines: seq<string>): (r: Result<DziFile, ParseError>)
    ensures |lines| < 2 <==> r == Failure(NoSizeLine)
    ensures r.Success? ==> 2 + Footprint(r.value.layers) == |lines|
  {
    ParseReadings(ReadAll(lines))
  }

  /** `parse_dzi` on the text of a descriptor file. */
  function ParseDziText(content: string): Result<DziFile, ParseError> {
    ParseDzi(Lines(content))
  }

  /** The size of a parsed descriptor: the first two `u32` fields of line 1, every field a number. */
  lemma ParseDziSize(lines: seq<string>)
    ensures ParseDzi(lines).Success? ==>
              && Numbers(lines[1], U32_MAX).Some? && |Numbers(lines[1], U32_MAX).value| >= 2
              && ParseDzi(lines).value.width == Numbers(lines[1], U32_MAX).value[0]
              && ParseDzi(lines).value.height == Numbers(lines[1], U32_MAX).value[1]
              && ParseDzi(lines).value.width <= U32_MAX && ParseDzi(lines).value.height <= U32_MAX
  {
    if ParseDzi(lines).Success? {
      assert ReadAll(lines)[1].asSize == Numbers(lines[1], U32_MAX);
    }
  }

  // ----- the grammar, read declaratively -----

  /**
   * Line `p` is the header of a block for layer `l`, read as `cols,rows` in
   * that order, it is followed by `l.rows` row lines, and `l.tiles` holds
   * the tokens of those lines in order.
   */
  ghost predicate BlockAt(rs: seq<Reading>, p: nat, l: DziLayer) {
    && p + 1 + l.rows <= |rs|
    && ParsePair(rs[p].asHeader, p) == Success((l.cols, l.rows))
    && |l.tiles| == l.rows
    && forall j :: 0 <= j < l.rows ==> l.tiles[j] == rs[p + 1 + j].tokens
  }

  /** From line `at` on, the file is exactly the blocks of `layers`, one after the other. */
  ghost predicate Describes(rs: seq<Reading>, at: nat, layers: seq<DziLayer>)
    decreases |layers|
  {
    if |layers| == 0 then at == |rs|
    else at < |rs| && BlockAt(rs, at, layers[0]) && Describes(rs, at + 1 + layers[0].rows, layers[1..])
  }

  /** What `ParseBlocks` returns is the block structure of the lines it read. */
  lemma {:induction false} ParseBlocksSound(rs: seq<Reading>, at: nat, index: nat)
    requires at <= |rs|
    requires ParseBlocks(rs, at, index).Success?
    ensures Describes(rs, at, ParseBlocks(rs, at, index).value)
    decreases |rs| - at
  {
    if at < |rs| {
      var rows := ParsePair(rs[at].asHeader, at).value.1;
      ParseBlocksSound(rs, at + 1 + rows, index + 1);
    }
  }

  /** Lines with the block structure of `layers` parse to exactly `layers`. */
  lemma {:induction false} ParseBlocksComplete(rs: seq<Reading>, at: nat, index: nat, layers: seq<DziLayer>)
    requires at <= |rs|
    requires Describes(rs, at, layers)
    ensures ParseBlocks(rs, at, index) == Success(layers)
    decreases |layers|
  {
    if |layers| > 0 {
      var l := layers[0];
      assert BlockAt(rs, at, l) && Describes(rs, at + 1 + l.rows, layers[1..]);
      ParseBlocksComplete(rs, at + 1 + l.rows, index + 1, layers[1..]);
      assert TokensOf(rs[at + 1..at + 1 + l.rows]) == l.tiles;
      assert layers == [DziLayer(l.tiles, l.rows, l.cols)] + layers[1..];
    } else {
      assert at == |rs| && layers == [];
    }
  }

  lemma FootprintCons(layers: seq<DziLayer>, k: nat)
    requires 1 <= k <= |layers|
    ensures Footprint(layers[..k]) == 1 + layers[0].rows + Footprint(layers[1..][..k - 1])
  {
    assert layers[..k][1..] == layers[1..][..k - 1];
  }

  /**
   * The blocks lie in file order: the block of layer `k` starts right
   * after the blocks of the layers before it, and nothing is left after
   * the last one.
   */
  lemma {:induction false} BlockPositions(rs: seq<Reading>, at: nat, layers: seq<DziLayer>)
    requires Describes(rs, at, layers)
    ensures at + Footprint(layers) == |rs|
    ensures forall k :: 0 <= k < |layers| ==> BlockAt(rs, at + Footprint(layers[..k]), layers[k])
    decreases |layers|
  {
    if |layers| > 0 {
      var next := at + 1 + layers[0].rows;
      BlockPositions(rs, next, layers[1..]);
      forall k | 0 <= k < |layers|
        ensures BlockAt(rs, at + Footprint(layers[..k]), layers[k])
      {
        if k == 0 {
          assert layers[..0] == [];
        } else {
          FootprintCons(layers, k);
          assert layers[k] == layers[1..][k - 1];
        }
      }
    }
  }

  /**
   * Readings parse to `f` exactly when line 1 holds `f.width,f.height` and
   * the lines after it are the blocks of `f.layers`.
   */
  lemma ParseReadingsCharacterized(rs: seq<Reading>, f: DziFile)
    ensures ParseReadings(rs) == Success(f) <==>
              && |rs| >= 2
              && ParsePair(rs[1].asSize, 1) == Success((f.width, f.height))
              && Describes(rs, 2, f.layers)
  {
    if ParseReadings(rs) == Success(f) {
      ParseBlocksSound(rs, 2, 0);
    }
    if |rs| >= 2 && ParsePair(rs[1].asSize, 1) == Success((f.width, f.height)) && Describes(rs, 2, f.layers) {
      ParseBlocksComplete(rs, 2, 0, f.layers);
    }
  }

  /**
   * A descriptor parses to `f` exactly when it has a size line holding
   * `f.width,f.height` and the lines after it are the blocks of `f.layers`.
   */
  lemma ParseDziCharacterized(lines: seq<string>, f: DziFile)
    ensures ParseDzi(lines) == Success(f) <==>
              && |lines| >= 2
              && ParsePair(Numbers(lines[1], U32_MAX), 1) == Success((f.width, f.height))
              && Describes(ReadAll(lines), 2, f.layers)
  {
    var rs := ReadAll(lines);
    ParseReadingsCharacterized(rs, f);
    if |lines| >= 2 {
      assert rs[1].asSize == Numbers(lines[1], U32_MAX);
    }
  }

  /** Equal suffixes from `at` have equal slices and suffixes from any later point. */
  lemma SuffixSlices(a: seq<Reading>, b: seq<Reading>, at: nat, lo: nat, hi: nat)
    requires at <= lo <= hi <= |a| == |b|
    requires a[at..] == b[at..]
    ensures a[lo..hi] == b[lo..hi] && a[hi..] == b[hi..] && (lo < |a| ==> a[lo] == b[lo])
  {
    assert forall k | at <= k < |a| :: a[k] == b[k] by {
      forall k | at <= k < |a| ensures a[k] == b[k] {
        assert a[k] == a[at..][k - at] && b[k] == b[at..][k - at];
      }
    }
    assert a[lo..hi] == b[lo..hi];
    assert a[hi..] == b[hi..];
  }

  /** The block walk reads nothing before line `at`. */
  lemma {:induction false} ParseBlocksFrame(a: seq<Reading>, b: seq<Reading>, at: nat, index: nat)
    requires at <= |a| == |b|
    requires a[at..] == b[at..]
    ensures ParseBlocks(a, at, index) == ParseBlocks(b, at, index)
    decreases |a| - at
  {
    if at < |a| {
      SuffixSlices(a, b, at, at, at);
      var h := ParsePair(a[at].asHeader, at);
      if h.Success? && h.value.1 <= |a| - (at + 1) {
        var next := at + 1 + h.value.1;
        SuffixSlices(a, b, at, at + 1, next);
        ParseBlocksFrame(a, b, next, index + 1);
      }
    }
  }

  /** The reading of line 0 plays no part in the parse. */
  lemma ParseReadingsSkipsFormat(rs: seq<Reading>, x: Reading)
    requires |rs| > 0
    ensures ParseReadings(rs[0 := x]) == ParseReadings(rs)
  {
    var other := rs[0 := x];
    if |rs| >= 2 {
      assert other[1] == rs[1];
      assert other[2..] == rs[2..];
      ParseBlocksFrame(other, rs, 2, 0);
    }
  }

  /** Whatever the format line says, the descriptor parses the same. */
  lemma FormatLineIgnored(lines: seq<string>, tag: string)
    requires |lines| > 0
    ensures ParseDzi(lines[0 := tag]) == ParseDzi(lines)
  {
    ReadAllUpdate(lines, 0, tag);
    ParseReadingsSkipsFormat(ReadAll(lines), Read(tag));
  }

  /**
   * A header that declares more rows than the file has left makes the parse
   * fail at the end of the file; it never yields a shortened layer.
   */
  lemma DeclaredRowsMissing(lines: seq<string>, at: nat, index: nat)
    requires at < |lines|
    ensures var header := ParsePair(Numbers(lines[at], USIZE_MAX), at);
            header.Success? && at + 1 + header.value.1 > |lines| ==>
              ParseBlocks(ReadAll(lines), at, index) == Failure(MissingRow(index, |lines|))
  {
    assert ReadAll(lines)[at].asHeader == Numbers(lines[at], USIZE_MAX);
  }

  /** After blocks that used up the lines, one more line that is not a header fails the walk there. */
  lemma {:induction false} ParseBlocksExtra(rs: seq<Reading>, at: nat, index: nat, x: Reading)
    requires at <= |rs|
    requires ParseBlocks(rs, at, index).Success?
    requires x.asHeader.None?
    ensures ParseBlocks(rs + [x], at, index) == Failure(BadNumber(|rs|))
    decreases |rs| - at
  {
    var ext := rs + [x];
    if at < |rs| {
      assert ext[at] == rs[at];
      var rows := ParsePair(rs[at].asHeader, at).value.1;
      assert ext[at + 1..at + 1 + rows] == rs[at + 1..at + 1 + rows];
      ParseBlocksExtra(rs, at + 1 + rows, index + 1, x);
    } else {
      assert ext[at] == x;
    }
  }

  /** After a complete file, one more line that is not a header fails the parse there. */
  lemma ParseReadingsExtra(rs: seq<Reading>, x: Reading)
    requires ParseReadings(rs).Success?
    requires x.asHeader.None?
    ensures ParseReadings(rs + [x]) == Failure(BadNumber(|rs|))
  {
    var ext := rs + [x];
    assert ext[1] == rs[1];
    ParseBlocksExtra(rs, 2, 0, x);
  }

  /** An empty line holds no number. */
  lemma EmptyLineNotNumbers(max: nat)
    ensures Numbers("", max).None?
  {
    assert Split("", ',') == [""];
    assert Trim("") == "";
    assert FieldValues([""], max)[0].None?;
  }

  /**
   * A line that holds no number, after a complete descriptor, is read as
   * the header of one more layer and fails the parse there.
   */
  lemma ExtraLineFails(lines: seq<string>, extra: string)
    ensures ParseDzi(lines).Success? && Numbers(extra, USIZE_MAX).None? ==>
              ParseDzi(lines + [extra]) == Failure(BadNumber(|lines|))
  {
    if ParseDzi(lines).Success? && Numbers(extra, USIZE_MAX).None? {
      var rs, x := ReadAll(lines), Read(extra);
      assert ParseReadings(rs + [x]) == Failure(BadNumber(|rs|)) by {
        ParseReadingsExtra(rs, x);
      }
      assert ReadAll(lines + [extra]) == rs + [x] by {
        ReadAllAppend(lines, [extra]);
      }
    }
  }

  /** A descriptor that ends in a blank line is rejected: the blank line is not a layer header. */
  lemma TrailingBlankLineFails(lines: seq<string>)
    ensures ParseDzi(lines).Success? ==> ParseDzi(lines + [""]) == Failure(BadNumber(|lines|))
  {
    EmptyLineNotNumbers(USIZE_MAX);
    ExtraLineFails(lines, "");
  }

  // ----- writing a descriptor back, and reading it again -----

  /** Two numbers written as `a,b`. */
  function RenderPair(a: nat, b: nat): string {
    ToDecimal(a) + [','] + ToDecimal(b)
  }

  /** The lines of a descriptor for `f`, with `tag` as the format line. */
  function Render(tag: string, f: DziFile): seq<string> {
    [tag, RenderPair(f.width, f.height)] + RenderLayers(f.layers)
  }

  /** Each layer's block, one after the other. */
  function RenderLayers(layers: seq<DziLayer>): seq<string> {
    if |layers| == 0 then [] else BlockLines(layers[0]) + RenderLayers(layers[1..])
  }

  /** A layer's block: the header `cols,rows`, then its rows with tokens joined by commas. */
  function BlockLines(l: DziLayer): seq<string> {
    [RenderPair(l.cols, l.rows)] + RenderRows(l.tiles)
  }

  function RenderRows(tiles: seq<seq<string>>): (r: seq<string>)
    ensures |r| == |tiles|
    ensures forall j :: 0 <= j < |tiles| ==> r[j] == Join(tiles[j], ',')
  {
    seq(|tiles|, j requires 0 <= j < |tiles| => Join(tiles[j], ','))
  }

  /** A tile name the parser can give back: trimmed and comma-free. */
  predicate PlainToken(t: string) {
    IsTrimmed(t) && ',' !in t
  }

  /**
   * A layer a descriptor can express: as many rows as it says, fields that
   * fit a `usize`, and rows of at least one plain token.
   */
  predicate WellFormedLayer(l: DziLayer) {
    && |l.tiles| == l.rows
    && l.cols <= USIZE_MAX && l.rows <= USIZE_MAX
    && forall j :: 0 <= j < |l.tiles| ==> |l.tiles[j]| > 0 && forall k :: 0 <= k < |l.tiles[j]| ==> PlainToken(l.tiles[j][k])
  }

  predicate WellFormed(f: DziFile) {
    && f.width <= U32_MAX && f.height <= U32_MAX
    && forall k :: 0 <= k < |f.layers| ==> WellFormedLayer(f.layers[k])
  }

  /** A written number, as a field, has that value. */
  lemma FieldValueOfDecimal(n: nat, max: nat)
    requires n <= max
    ensures FieldValue(ToDecimal(n), max) == Some(n)
  {
    ToDecimalIsPlain(n);
    TrimOfTrimmed(ToDecimal(n));
    ParseToDecimal(n, max);
  }

  lemma SplitRenderPair(a: nat, b: nat)
    ensures Split(RenderPair(a, b), ',') == [ToDecimal(a), ToDecimal(b)]
  {
    var da, db := ToDecimal(a), ToDecimal(b);
    assert RenderPair(a, b) == Join([da, db], ',');
    ToDecimalIsPlain(a);
    ToDecimalIsPlain(b);
    SplitJoin([da, db], ',');
  }

  /** Two present values collect to the pair of them. */
  lemma AllPresentPair(a: nat, b: nat)
    ensures AllPresent([Some(a), Some(b)]) == Some([a, b])
  {
    var vals := [Some(a), Some(b)];
    assert vals[0].Some? && vals[1].Some?;
    var r := AllPresent(vals);
    assert r.Some? && |r.value| == 2;
    assert vals[0] == Some(r.value[0]) && vals[1] == Some(r.value[1]);
    assert r.value == [a, b];
  }

  /** A line of two fields, each holding a number, reads as those two numbers. */
  lemma NumbersOfTwoFields(line: string, x: string, y: string, a: nat, b: nat, max: nat)
    requires Split(line, ',') == [x, y]
    requires FieldValue(x, max) == Some(a) && FieldValue(y, max) == Some(b)
    ensures Numbers(line, max) == Some([a, b])
  {
    assert FieldValues([x, y], max) == [Some(a), Some(b)];
    AllPresentPair(a, b);
  }

  /** A written pair reads back as those two numbers. */
  lemma NumbersOfRenderPair(a: nat, b: nat, max: nat)
    requires a <= max && b <= max
    ensures Numbers(RenderPair(a, b), max) == Some([a, b])
  {
    SplitRenderPair(a, b);
    FieldValueOfDecimal(a, max);
    FieldValueOfDecimal(b, max);
    NumbersOfTwoFields(RenderPair(a, b), ToDecimal(a), ToDecimal(b), a, b, max);
  }

  /** A row written with commas reads back as its tokens. */
  lemma TokensOfJoin(row: seq<string>)
    requires |row| > 0
    requires forall k :: 0 <= k < |row| ==> PlainToken(row[k])
    ensures Tokens(Join(row, ',')) == row
  {
    SplitJoin(row, ',');
    forall k | 0 <= k < |row|
      ensures Trim(row[k]) == row[k]
    {
      TrimOfTrimmed(row[k]);
    }
  }

  /** The readings of the lines of a well-formed layer's block are that layer's block. */
  lemma ReadBlock(l: DziLayer)
    requires WellFormedLayer(l)
    ensures BlockAt(ReadAll(BlockLines(l)), 0, l)
    ensures |ReadAll(BlockLines(l))| == 1 + l.rows
  {
    var lines := BlockLines(l);
    var rs := ReadAll(lines);
    assert ParsePair(rs[0].asHeader, 0) == Success((l.cols, l.rows)) by {
      assert rs[0] == Read(RenderPair(l.cols, l.rows));
      NumbersOfRenderPair(l.cols, l.rows, USIZE_MAX);
    }
    forall j | 0 <= j < l.rows
      ensures l.tiles[j] == rs[1 + j].tokens
    {
      ReadRow(l, j);
    }
  }

  /** Row `j` of a well-formed layer's block reads back as that row's tile names. */
  lemma ReadRow(l: DziLayer, j: nat)
    requires WellFormedLayer(l) && j < l.rows
    ensures |ReadAll(BlockLines(l))| == 1 + l.rows
    ensures ReadAll(BlockLines(l))[1 + j].tokens == l.tiles[j]
  {
    assert BlockLines(l)[1 + j] == Join(l.tiles[j], ',');
    TokensOfJoin(l.tiles[j]);
  }

  /** Runs of readings, one after the other. */
  function Flatten(bs: seq<seq<Reading>>): seq<Reading> {
    if |bs| == 0 then [] else bs[0] + Flatten(bs[1..])
  }

  /** A block found in a run of readings is found at the same place after more readings. */
  lemma BlockAtExtend(pre: seq<Reading>, block: seq<Reading>, post: seq<Reading>, l: DziLayer)
    requires BlockAt(block, 0, l)
    ensures BlockAt(pre + block + post, |pre|, l)
  {
    var rs := pre + block + post;
    assert forall j | 0 <= j < |block| :: rs[|pre| + j] == block[j];
  }

  /**
   * Runs of readings that are, one by one, the blocks of `layers` make up
   * the block structure of `layers`, wherever they start.
   */
  lemma {:induction false} DescribesBlocks(pre: seq<Reading>, bs: seq<seq<Reading>>, layers: seq<DziLayer>)
    requires |bs| == |layers|
    requires forall k :: 0 <= k < |bs| ==> |bs[k]| == 1 + layers[k].rows && BlockAt(bs[k], 0, layers[k])
    ensures Describes(pre + Flatten(bs), |pre|, layers)
    decreases |layers|
  {
    if |layers| == 0 {
      assert pre + Flatten(bs) == pre;
    } else {
      var block, post := bs[0], Flatten(bs[1..]);
      DescribesBlocks(pre + block, bs[1..], layers[1..]);
      assert pre + Flatten(bs) == pre + block + post;
      BlockAtExtend(pre, block, post, layers[0]);
    }
  }

  /** The readings of each layer's written block. */
  function BlockReadings(layers: seq<DziLayer>): (bs: seq<seq<Reading>>)
    ensures |bs| == |layers|
    ensures forall k :: 0 <= k < |layers| ==> bs[k] == ReadAll(BlockLines(layers[k]))
  {
    seq(|layers|, k requires 0 <= k < |layers| => ReadAll(BlockLines(layers[k])))
  }

  /** The readings of the written layers are the readings of their blocks, in order. */
  lemma {:induction false} ReadRenderedLayers(layers: seq<DziLayer>)
    ensures ReadAll(RenderLayers(layers)) == Flatten(BlockReadings(layers))
    decreases |layers|
  {
    if |layers| > 0 {
      ReadAllAppend(BlockLines(layers[0]), RenderLayers(layers[1..]));
      ReadRenderedLayers(layers[1..]);
      assert BlockReadings(layers)[1..] == BlockReadings(layers[1..]);
    }
  }

  /** Parsing a written descriptor gives back the descriptor, whatever the format line. */
  lemma RenderRoundTrip(tag: string, f: DziFile)
    requires WellFormed(f)
    ensures ParseDzi(Render(tag, f)) == Success(f)
  {
    var head := [tag, RenderPair(f.width, f.height)];
    var rs := ReadAll(Render(tag, f));
    var bs := BlockReadings(f.layers);
    assert rs == ReadAll(head) + Flatten(bs) by {
      ReadAllAppend(head, RenderLayers(f.layers));
      ReadRenderedLayers(f.layers);
    }
    assert Describes(rs, 2, f.layers) by {
      forall k | 0 <= k < |bs|
        ensures |bs[k]| == 1 + f.layers[k].rows && BlockAt(bs[k], 0, f.layers[k])
      {
        ReadBlock(f.layers[k]);
      }
      DescribesBlocks(ReadAll(head), bs, f.layers);
    }
    assert rs[1].asSize == Some([f.width, f.height]) by {
      assert rs[1] == Read(RenderPair(f.width, f.height));
      NumbersOfRenderPair(f.width, f.height, U32_MAX);
    }
    ParseReadingsCharacterized(rs, f);
  }

  // ----- the descriptor as text -----

  /** No tile name of the layer spans lines. */
  predicate SingleLineLayer(l: DziLayer) {
    forall j, k :: 0 <= j < |l.tiles| && 0 <= k < |l.tiles[j]| ==> '\n' !in l.tiles[j][k]
  }

  lemma PairIsLine(a: nat, b: nat)
    ensures IsLine(RenderPair(a, b))
  {
    var s, da, db := RenderPair(a, b), ToDecimal(a), ToDecimal(b);
    assert forall k :: 0 <= k < |s| ==> s[k] == ',' || IsDigit(s[k]) by {
      forall k | 0 <= k < |s| ensures s[k] == ',' || IsDigit(s[k]) {
        if k < |da| {
          assert s[k] == da[k];
        } else if k > |da| {
          assert s[k] == db[k - |da| - 1];
        }
      }
    }
  }

  /** A row of plain, single-line names, joined by commas, is a line. */
  lemma RowIsLine(row: seq<string>)
    requires |row| > 0
    requires forall k :: 0 <= k < |row| ==> PlainToken(row[k]) && '\n' !in row[k]
    ensures IsLine(Join(row, ','))
  {
    JoinFree(row, ',', '\n');
    if |Join(row, ',')| > 0 {
      JoinLastChar(row, ',');
    }
  }

  /** Every line written for well-formed layers with single-line names is a line. */
  lemma {:induction false} RenderedLayersAreLines(layers: seq<DziLayer>)
    requires forall k :: 0 <= k < |layers| ==> WellFormedLayer(layers[k]) && SingleLineLayer(layers[k])
    ensures forall i :: 0 <= i < |RenderLayers(layers)| ==> IsLine(RenderLayers(layers)[i])
    decreases |layers|
  {
    if |layers| > 0 {
      var l, ls := layers[0], RenderLayers(layers);
      var block, rest := BlockLines(l), RenderLayers(layers[1..]);
      assert forall k :: 0 <= k < |layers[1..]| ==> layers[1..][k] == layers[k + 1];
      RenderedLayersAreLines(layers[1..]);
      PairIsLine(l.cols, l.rows);
      forall j | 0 <= j < |l.tiles| ensures IsLine(RenderRows(l.tiles)[j]) {
        RowIsLine(l.tiles[j]);
      }
      forall i | 0 <= i < |ls| ensures IsLine(ls[i]) {
        if i == 0 {
          assert ls[i] == RenderPair(l.cols, l.rows);
        } else if i < |block| {
          assert ls[i] == RenderRows(l.tiles)[i - 1];
        } else {
          assert ls[i] == rest[i - |block|];
        }
      }
    }
  }

  /**
   * Reading back the text of a written descriptor gives back the
   * descriptor, whatever its one-line format tag. Each line is ended by
   * `\n` or `\r\n`, mixed freely, and the last line's ending is optional
   * unless that line is empty.
   */
  lemma {:induction false} TextRoundTrip(tag: string, f: DziFile, eols: seq<string>, final: string)
    requires WellFormed(f) && IsLine(tag)
    requires forall k :: 0 <= k < |f.layers| ==> SingleLineLayer(f.layers[k])
    requires |eols| == |Render(tag, f)| - 1
    requires forall k :: 0 <= k < |eols| ==> IsEol(eols[k])
    requires IsEol(final) || (final == "" && |Render(tag, f)[|Render(tag, f)| - 1]| > 0)
    ensures var ls := Render(tag, f);
            ParseDziText(Terminate(ls[..|ls| - 1], eols) + (ls[|ls| - 1] + final)) == Success(f)
  {
    var ls := Render(tag, f);
    var body := RenderLayers(f.layers);
    assert forall i :: 0 <= i < |ls| ==> IsLine(ls[i]) by {
      RenderedLayersAreLines(f.layers);
      PairIsLine(f.width, f.height);
      forall i | 0 <= i < |ls| ensures IsLine(ls[i]) {
        if i >= 2 {
          assert ls[i] == body[i - 2];
        }
      }
    }
    LinesOfText(ls, eols, final);
    RenderRoundTrip(tag, f);
  }
}
