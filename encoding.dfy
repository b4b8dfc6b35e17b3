/**
 * `rows_as_grayscale` and `rows_as_rgb` of visualize/visualize.py: each row
 * of pixels becomes one flat list of channel values, pixel after pixel.
 */
module Encoding {
  import opened Pixels

  datatype ColorMode = GrayscaleMode | RgbMode

  /** Values per pixel: 1 gray, 2 gray and alpha, 3 RGB, 4 RGB and alpha. */
  function ChannelCount(mode: ColorMode, alpha: bool): nat
  {
    (if mode == GrayscaleMode then 1 else 3) + (if alpha then 1 else 0)
  }

  /** The values one pixel contributes in a mode. */
  function Channels(p: Pixel, mode: ColorMode, alpha: bool): (vs: seq<Channel>)
    ensures |vs| == ChannelCount(mode, alpha)
  {
    match mode
    case GrayscaleMode => AsGrayscale(p, alpha)
    case RgbMode => AsRgb(p, alpha)
  }

  /** The values of a row: each pixel's values in turn. */
  function EncodeRow(row: seq<Pixel>, mode: ColorMode, alpha: bool): (vs: seq<Channel>)
    ensures |vs| == |row| * ChannelCount(mode, alpha)
  {
    if row == [] then [] else Channels(row[0], mode, alpha) + EncodeRow(row[1..], mode, alpha)
  }

  lemma {:induction false} EncodeRowAppend(row: seq<Pixel>, p: Pixel, mode: ColorMode, alpha: bool)
    ensures EncodeRow(row + [p], mode, alpha) == EncodeRow(row, mode, alpha) + Channels(p, mode, alpha)
  {
    if row == [] {
      assert row + [p] == [p] && [p][1..] == [];
    } else {
      assert (row + [p])[1..] == row[1..] + [p];
      EncodeRowAppend(row[1..], p, mode, alpha);
    }
  }

  /** Channel j of pixel k sits at position k * c + j of the row's values, c the channel count. */
  lemma {:induction false} EncodeRowAt(row: seq<Pixel>, mode: ColorMode, alpha: bool, k: nat, j: nat)
    requires k < |row| && j < ChannelCount(mode, alpha)
    ensures k * ChannelCount(mode, alpha) + j < |EncodeRow(row, mode, alpha)|
    ensures EncodeRow(row, mode, alpha)[k * ChannelCount(mode, alpha) + j] == Channels(row[k], mode, alpha)[j]
  {
    var c := ChannelCount(mode, alpha);
    var vs := EncodeRow(row, mode, alpha);
    assert vs == Channels(row[0], mode, alpha) + EncodeRow(row[1..], mode, alpha);
    if k == 0 {
      assert k * c + j == j;
    } else {
      EncodeRowAt(row[1..], mode, alpha, k - 1, j);
      Shift(k, c, j);
    }
  }

  lemma Shift(k: nat, c: nat, j: nat)
    requires k > 0
    ensures (k - 1) * c + j + c == k * c + j
  {
  }

  /** The encoded rows, one per pixel row. */
  function EncodeRows(rows: seq<seq<Pixel>>, mode: ColorMode, alpha: bool): (vrows: seq<seq<Channel>>)
    ensures |vrows| == |rows|
    ensures forall i :: 0 <= i < |rows| ==> vrows[i] == EncodeRow(rows[i], mode, alpha)
  {
    if rows == [] then [] else [EncodeRow(rows[0], mode, alpha)] + EncodeRows(rows[1..], mode, alpha)
  }

  /** `rows_as_grayscale`: for each row, extend a list with each pixel's `as_grayscale` values. */
  method RowsAsGrayscale(rows: seq<seq<Pixel>>, alpha: bool) returns (vrows: seq<seq<Channel>>)
    ensures vrows == EncodeRows(rows, GrayscaleMode, alpha)
  {
    vrows := [];
    for i := 0 to |rows|
      invariant |vrows| == i
      invariant forall j :: 0 <= j < i ==> vrows[j] == EncodeRow(rows[j], GrayscaleMode, alpha)
    {
      var row := rows[i];
      var combined: seq<Channel> := [];
      for k := 0 to |row|
        invariant combined == EncodeRow(row[..k], GrayscaleMode, alpha)
      {
        EncodeRowAppend(row[..k], row[k], GrayscaleMode, alpha);
        assert row[..k + 1] == row[..k] + [row[k]];
        combined := combined + AsGrayscale(row[k], alpha);
      }
      assert row[..|row|] == row;
      vrows := vrows + [combined];
    }
  }

  /** `rows_as_rgb`: for each row, extend a list with each pixel's `as_rgb` values. */
  method RowsAsRgb(rows: seq<seq<Pixel>>, alpha: bool) returns (vrows: seq<seq<Channel>>)
    ensures vrows == EncodeRows(rows, RgbMode, alpha)
  {
    vrows := [];
    for i := 0 to |rows|
      invariant |vrows| == i
      invariant forall j :: 0 <= j < i ==> vrows[j] == EncodeRow(rows[j], RgbMode, alpha)
    {
      var row := rows[i];
      var combined: seq<Channel> := [];
      for k := 0 to |row|
        invariant combined == EncodeRow(row[..k], RgbMode, alpha)
      {
        EncodeRowAppend(row[..k], row[k], RgbMode, alpha);
        assert row[..k + 1] == row[..k] + [row[k]];
        combined := combined + AsRgb(row[k], alpha);
      }
      assert row[..|row|] == row;
      vrows := vrows + [combined];
    }
  }

  predicate AllGray(row: seq<Pixel>)
  {
    forall k :: 0 <= k < |row| ==> row[k].Gray?
  }

  /** Reading gray-and-alpha values back as pixels, two values per pixel. */
  function ReadGrayAlpha(vs: seq<Channel>): seq<Pixel>
    decreases |vs|
  {
    if |vs| < 2 then [] else [Gray(vs[0], vs[1])] + ReadGrayAlpha(vs[2..])
  }

  /** Gray pixels written as gray and alpha read back unchanged: that encoding loses nothing. */
  lemma {:induction false} GrayAlphaRoundTrip(row: seq<Pixel>)
    requires AllGray(row)
    ensures ReadGrayAlpha(EncodeRow(row, GrayscaleMode, true)) == row
  {
    if row != [] {
      var vs := EncodeRow(row, GrayscaleMode, true);
      assert vs[..2] == [row[0].value, row[0].alpha];
      assert vs[2..] == EncodeRow(row[1..], GrayscaleMode, true);
      GrayAlphaRoundTrip(row[1..]);
      assert row == [row[0]] + row[1..];
    }
  }
}
