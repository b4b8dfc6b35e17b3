/**
 * The rendering pipeline of visualize/visualize.py's `main`, without its file
 * and process I/O: the padding and colour-mode policy, then bytes to pixels,
 * widths (parsed, or the smallest near-square width), rows, padded rows and
 * channel values, as handed to the PNG writer.
 */
module Visualize {
  import opened Wrappers
  import opened Sequences
  import opened Pixels
  import opened WidthSpec
  import opened WidthSearch
  import opened Layout
  import opened Encoding

  /** How the image is written: gray or RGB, with or without alpha, and the padding pixel. */
  datatype Policy = Policy(greyscale: bool, alpha: bool, padWith: Pixel)

  /** `--transparent` gives gray with alpha padded with transparent black; otherwise opaque RGB padded with green. */
  function PolicyFor(transparent: bool): Policy
  {
    if transparent then Policy(true, true, Empty) else Policy(false, false, EmptyGreen)
  }

  function ModeOf(policy: Policy): ColorMode
  {
    if policy.greyscale then GrayscaleMode else RgbMode
  }

  /**
   * The padding pixel never encodes like a pixel read from the input, in
   * either policy: it is transparent where data is opaque, or green where
   * data is gray.
   */
  lemma PaddingIsDistinguishable(transparent: bool, b: Channel)
    ensures var policy := PolicyFor(transparent);
      Channels(policy.padWith, ModeOf(policy), policy.alpha) != Channels(Gray(b, 255), ModeOf(policy), policy.alpha)
  {
  }

  /** What the PNG writer is given. */
  datatype Image = Image(width: nat, height: nat, greyscale: bool, alpha: bool, rows: seq<seq<Channel>>)

  /**
   * How the pipeline stops: a width token outside the grammar, an empty width
   * list (the source's `widthes[-1]` raises), a zero last width with pixels
   * still left (the source loops forever), or no pixels (the source's `max`
   * of no rows raises).
   */
  datatype VisualizeError = InvalidWidth(token: string) | NoWidths | NeverEnds | EmptyInput

  /** The image for the given bytes and widths, stage by stage. */
  function Render(bytes: seq<Channel>, widths: seq<nat>, transparent: bool): Image
    requires CanArrange(|bytes|, widths)
  {
    var policy := PolicyFor(transparent);
    var rows := Arrange(LoadPixels(bytes), widths);
    var width := MaxLen(rows);
    Image(width, |rows|, policy.greyscale, policy.alpha,
          EncodeRows(PadRows(rows, width, policy.padWith), ModeOf(policy), policy.alpha))
  }

  /**
   * The image is a true rectangle: `height` rows of `width` pixels, each row
   * holding `width` times the channel count values, and it has room for
   * every byte.
   */
  lemma RenderIsRectangular(bytes: seq<Channel>, widths: seq<nat>, transparent: bool)
    requires CanArrange(|bytes|, widths) && bytes != []
    ensures var img := Render(bytes, widths, transparent);
      && img.width >= 1 && img.height >= 1
      && |img.rows| == img.height
      && (forall i :: 0 <= i < img.height ==>
            |img.rows[i]| == img.width * ChannelCount(ModeOf(PolicyFor(transparent)), img.alpha))
      && |bytes| <= img.width * img.height
  {
    var policy := PolicyFor(transparent);
    var mode, c := ModeOf(policy), ChannelCount(ModeOf(policy), policy.alpha);
    var pixels := LoadPixels(bytes);
    var rows := Arrange(pixels, widths);
    var width := MaxLen(rows);
    var padded := PadRows(rows, width, policy.padWith);
    var vrows := EncodeRows(padded, mode, policy.alpha);
    assert Render(bytes, widths, transparent) == Image(width, |rows|, policy.greyscale, policy.alpha, vrows);
    ArrangeRowShapes(pixels, widths);
    assert rows != [];
    ArrangeLossless(pixels, widths);
    PadToLongestIsRectangular(rows, policy.padWith);
    forall i | 0 <= i < |rows| ensures |vrows[i]| == width * c {
      assert vrows[i] == EncodeRow(padded[i], mode, policy.alpha);
    }
    FlattenLengthBound(rows, width);
    assert |bytes| == |Flatten(rows)|;
  }

  /** Trailing padding removed from a row: transparent pixels at its end. */
  function DropPadding(row: seq<Pixel>): seq<Pixel>
  {
    if row != [] && row[|row| - 1] == Empty then DropPadding(row[..|row| - 1]) else row
  }

  lemma {:induction false} DropPaddingOfPadded(row: seq<Pixel>, n: nat)
    requires row == [] || row[|row| - 1] != Empty
    ensures DropPadding(row + Repeat(Empty, n)) == row
  {
    if n > 0 {
      assert (row + Repeat(Empty, n))[..|row| + n - 1] == row + Repeat(Empty, n - 1);
      DropPaddingOfPadded(row, n - 1);
    } else {
      assert row + Repeat(Empty, 0) == row;
    }
  }

  /** Read the values of a transparent image back as bytes: decode, drop padding, join the rows. */
  function ReadBack(valueRows: seq<seq<Channel>>): seq<Channel>
  {
    if valueRows == [] then []
    else Values(DropPadding(ReadGrayAlpha(valueRows[0]))) + ReadBack(valueRows[1..])
  }

  function Values(pixels: seq<Pixel>): seq<Channel>
  {
    if pixels == [] then [] else [if pixels[0].Gray? then pixels[0].value else 0] + Values(pixels[1..])
  }

  lemma {:induction false} ValuesAppend(a: seq<Pixel>, b: seq<Pixel>)
    ensures Values(a + b) == Values(a) + Values(b)
  {
    if a == [] {
      assert a + b == b;
    } else {
      assert (a + b)[1..] == a[1..] + b;
      ValuesAppend(a[1..], b);
    }
  }

  lemma {:induction false} ValuesOfLoaded(bytes: seq<Channel>)
    ensures Values(LoadPixels(bytes)) == bytes
  {
    if bytes != [] {
      assert LoadPixels(bytes)[1..] == LoadPixels(bytes[1..]);
      ValuesOfLoaded(bytes[1..]);
    }
  }

  /** Rows of opaque gray pixels, padded, written and read back, give their pixels in order. */
  lemma {:induction false} ReadBackPadded(rows: seq<seq<Pixel>>, width: nat)
    requires forall i, k :: 0 <= i < |rows| && 0 <= k < |rows[i]| ==> rows[i][k].Gray? && rows[i][k].alpha == 255
    ensures ReadBack(EncodeRows(PadRows(rows, width, Empty), GrayscaleMode, true)) == Values(Flatten(rows))
  {
    if rows != [] {
      var row := rows[0];
      var padded := PadRows(rows, width, Empty);
      var encoded := EncodeRows(padded, GrayscaleMode, true);
      assert padded[1..] == PadRows(rows[1..], width, Empty);
      assert encoded[1..] == EncodeRows(padded[1..], GrayscaleMode, true);
      ReadBackPadded(rows[1..], width);
      var extra := if |row| < width then width - |row| else 0;
      assert padded[0] == row + Repeat(Empty, extra);
      assert AllGray(padded[0]);
      GrayAlphaRoundTrip(padded[0]);
      DropPaddingOfPadded(row, extra);
      ValuesAppend(row, Flatten(rows[1..]));
    }
  }

  /**
   * The transparent image loses nothing: reading its values back, without the
   * padding, gives exactly the input bytes.
   */
  lemma TransparentRoundTrip(bytes: seq<Channel>, widths: seq<nat>)
    requires CanArrange(|bytes|, widths)
    ensures ReadBack(Render(bytes, widths, true).rows) == bytes
  {
    var pixels := LoadPixels(bytes);
    var rows: seq<seq<Pixel>> := Arrange(pixels, widths);
    ArrangeLossless(pixels, widths);
    forall i, k | 0 <= i < |rows| && 0 <= k < |rows[i]| ensures rows[i][k].Gray? && rows[i][k].alpha == 255 {
      FlattenMember(rows, i, k);
    }
    ReadBackPadded(rows, MaxLen(rows));
    ValuesOfLoaded(bytes);
  }

  lemma {:induction false} FlattenMember<T>(rows: seq<seq<T>>, i: nat, k: nat)
    requires i < |rows| && k < |rows[i]|
    ensures rows[i][k] in Flatten(rows)
  {
    if i > 0 {
      FlattenMember(rows[1..], i - 1, k);
    }
  }

  /** The widths the pipeline uses: the parsed list, or the single smallest near-square width. */
  ghost predicate ChosenWidths(pixelCount: nat, widthSpec: Option<string>, widths: seq<nat>)
  {
    match widthSpec
    case None => |widths| == 1 && IsSmallestWidth(pixelCount, widths[0])
    case Some(s) => ParseSpec(s) == Success(widths)
  }

  /** The result for the chosen widths: the first error the source would meet, or the rendered image. */
  function Outcome(bytes: seq<Channel>, widths: seq<nat>, transparent: bool): Result<Image, VisualizeError>
  {
    if widths == [] then Failure(NoWidths)
    else if !CanArrange(|bytes|, widths) then Failure(NeverEnds)
    else if bytes == [] then Failure(EmptyInput)
    else Success(Render(bytes, widths, transparent))
  }

  /**
   * The pipeline: parse the widths (or search for one once the pixels are
   * known), cut the rows, pad them to the longest, and encode them in the
   * policy's mode.
   */
  method Visualize(bytes: seq<Channel>, widthSpec: Option<string>, transparent: bool)
    returns (r: Result<Image, VisualizeError>)
    ensures widthSpec.Some? && ParseSpec(widthSpec.value).Failure? ==>
      r == Failure(InvalidWidth(ParseSpec(widthSpec.value).error))
    ensures widthSpec.None? || ParseSpec(widthSpec.value).Success? ==>
      exists ws :: ChosenWidths(|bytes|, widthSpec, ws)
    ensures forall ws :: ChosenWidths(|bytes|, widthSpec, ws) ==> r == Outcome(bytes, ws, transparent)
  {
    var parsed: Option<seq<nat>> := None;
    if widthSpec.Some? {
      var res := ParseWidths(widthSpec.value);
      if res.Failure? {
        return Failure(InvalidWidth(res.error));
      }
      parsed := Some(res.value);
    }
    var cache := new PixelCache();
    var pixels := cache.Load(bytes);
    var widths: seq<nat>;
    if parsed.None? {
      var w := OptimalWidth(|pixels|);
      widths := [w];
      forall ws | ChosenWidths(|bytes|, widthSpec, ws) ensures ws == widths {
        SmallestWidthUnique(|bytes|, ws[0], w);
      }
    } else {
      widths := parsed.value;
    }
    assert ChosenWidths(|bytes|, widthSpec, widths);
    r := RenderWithWidths(bytes, pixels, widths, transparent);
  }

  /** The pipeline once the widths are known: the checks in the source's order, then rows, padding and values. */
  method RenderWithWidths(bytes: seq<Channel>, pixels: seq<Pixel>, widths: seq<nat>, transparent: bool)
    returns (r: Result<Image, VisualizeError>)
    requires pixels == LoadPixels(bytes)
    ensures r == Outcome(bytes, widths, transparent)
  {
    var policy := PolicyFor(transparent);
    if |widths| == 0 {
      return Failure(NoWidths);
    }
    if !Ends(|pixels|, widths, widths[|widths| - 1]) {
      return Failure(NeverEnds);
    }
    var rows := ArrangeByWidths(pixels, widths);
    ArrangeRowShapes(pixels, widths);
    if rows == [] {
      return Failure(EmptyInput);
    }
    var maxWidth := MaxLen(rows);
    var height := |rows|;
    var padded := PadRows(rows, maxWidth, policy.padWith);
    var valueRows;
    if policy.greyscale {
      valueRows := RowsAsGrayscale(padded, policy.alpha);
    } else {
      valueRows := RowsAsRgb(padded, policy.alpha);
    }
    assert valueRows == EncodeRows(padded, ModeOf(policy), policy.alpha);
    return Success(Image(maxWidth, height, policy.greyscale, policy.alpha, valueRows));
  }
}
