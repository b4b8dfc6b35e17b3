/**
 * The pixel model of visualize/visualize.py: grayscale or colour samples with
 * an alpha channel, the interning cache behind the `grayscale`/`color`
 * factories, and the conversion of one pixel to its flat channel values.
 */
module Pixels {

  /** One 8-bit channel value. */
  type Channel = x: int | 0 <= x < 256

  /** A pixel is a value: two pixels with the same kind, value and alpha are interchangeable. */
  datatype Pixel =
    | Gray(value: Channel, alpha: Channel)
    | Color(r: Channel, g: Channel, b: Channel, alpha: Channel)

  /** The fully transparent black pixel used as padding in transparent mode. */
  const Empty: Pixel := Gray(0, 0)

  /** The opaque pure green pixel used as padding in opaque mode. */
  const EmptyGreen: Pixel := Color(0, 255, 0, 255)

  /** The cache key: the tuple `(kind, v, a)` or `(kind, r, g, b, a)`. */
  datatype CacheKey =
    | GrayKey(v: Channel, a: Channel)
    | ColorKey(r: Channel, g: Channel, b: Channel, a: Channel)

  /** The pixel a factory builds for a key. */
  function KeyPixel(k: CacheKey): Pixel
  {
    match k
    case GrayKey(v, a) => Gray(v, a)
    case ColorKey(r, g, b, a) => Color(r, g, b, a)
  }

  /**
   * The class-level `_cache` dictionary shared by the factories. It only ever
   * maps a key to the pixel built from that key, so a factory returns the same
   * value whether or not the key was cached.
   */
  class PixelCache {
    var entries: map<CacheKey, Pixel>

    ghost predicate Valid()
      reads this
    {
      forall k :: k in entries ==> entries[k] == KeyPixel(k)
    }

    constructor ()
      ensures Valid() && entries == map[]
    {
      entries := map[];
    }

    /** `Pixel.grayscale(v, a)`: look the key up, build and store the pixel on a miss. */
    method Grayscale(v: Channel, a: Channel) returns (p: Pixel)
      requires Valid()
      modifies this
      ensures Valid()
      ensures p == Gray(v, a)
      ensures entries == old(entries)[GrayKey(v, a) := Gray(v, a)]
    {
      var key := GrayKey(v, a);
      if key in entries {
        p := entries[key];
      } else {
        p := Gray(v, a);
        entries := entries[key := p];
      }
    }

    /** `Pixel.color(r, g, b, a)`: as Grayscale, for colour keys. */
    method Color(r: Channel, g: Channel, b: Channel, a: Channel) returns (p: Pixel)
      requires Valid()
      modifies this
      ensures Valid()
      ensures p == Pixel.Color(r, g, b, a)
      ensures entries == old(entries)[ColorKey(r, g, b, a) := Pixel.Color(r, g, b, a)]
    {
      var key := ColorKey(r, g, b, a);
      if key in entries {
        p := entries[key];
      } else {
        p := Pixel.Color(r, g, b, a);
        entries := entries[key := p];
      }
    }

    /**
     * `load_pixels` run through the cache: each byte's pixel comes from
     * `Pixel.grayscale(byte)`, so the cache ends up holding the opaque gray
     * key of every byte, besides what it held before.
     */
    method Load(bytes: seq<Channel>) returns (ps: seq<Pixel>)
      requires Valid()
      modifies this
      ensures Valid()
      ensures ps == LoadPixels(bytes)
      ensures entries.Keys == old(entries).Keys + set i | 0 <= i < |bytes| :: GrayKey(bytes[i], 255)
    {
      ps := [];
      for i := 0 to |bytes|
        invariant Valid()
        invariant |ps| == i
        invariant forall j :: 0 <= j < i ==> ps[j] == Gray(bytes[j], 255)
        invariant entries.Keys == old(entries).Keys + set j | 0 <= j < i :: GrayKey(bytes[j], 255)
      {
        var p := Grayscale(bytes[i], 255);
        ps := ps + [p];
      }
    }
  }

  /** `as_grayscale`: the intensity (the truncated mean of a colour), then alpha if asked for. */
  function AsGrayscale(p: Pixel, alpha: bool): (vs: seq<Channel>)
    ensures |vs| == if alpha then 2 else 1
    ensures alpha ==> vs[1] == p.alpha
  {
    var v: Channel := match p
      case Gray(v, _) => v
      case Color(r, g, b, _) => (r + g + b) / 3;
    if alpha then [v, p.alpha] else [v]
  }

  /** `as_rgb`: three colour channels (a gray value repeated), then alpha if asked for. */
  function AsRgb(p: Pixel, alpha: bool): (vs: seq<Channel>)
    ensures |vs| == if alpha then 4 else 3
    ensures alpha ==> vs[3] == p.alpha
  {
    var rgb := match p
      case Gray(v, _) => [v, v, v]
      case Color(r, g, b, _) => [r, g, b];
    if alpha then rgb + [p.alpha] else rgb
  }

  /**
   * The grayscale conversion of any pixel is the truncating mean of its RGB
   * conversion, and both carry the same alpha.
   */
  lemma GrayscaleIsTruncatedMeanOfRgb(p: Pixel, alpha: bool)
    ensures AsGrayscale(p, alpha)[0] == (AsRgb(p, alpha)[0] as int + AsRgb(p, alpha)[1] as int + AsRgb(p, alpha)[2] as int) / 3
    ensures alpha ==> AsGrayscale(p, alpha)[1] == AsRgb(p, alpha)[3]
  {
  }

  /** A gray pixel converted to RGB and back to gray keeps its value. */
  lemma GrayRoundTrip(v: Channel, a: Channel, alpha: bool)
    ensures AsGrayscale(Gray(v, a), alpha)[0] == v
    ensures AsRgb(Gray(v, a), alpha)[..3] == [v, v, v]
  {
  }

  /** The mean truncates: (200, 100, 50) has intensity 116, not 117. */
  lemma GrayscaleTruncates()
    ensures AsGrayscale(Color(200, 100, 50, 255), false) == [116]
    ensures AsGrayscale(Color(200, 100, 50, 255), true) == [116, 255]
  {
  }

  /** `load_pixels`: one opaque gray pixel per input byte, in order. */
  function LoadPixels(bytes: seq<Channel>): (ps: seq<Pixel>)
    ensures |ps| == |bytes|
    ensures forall i :: 0 <= i < |bytes| ==> ps[i] == Gray(bytes[i], 255)
  {
    if bytes == [] then [] else [Gray(bytes[0], 255)] + LoadPixels(bytes[1..])
  }
}
