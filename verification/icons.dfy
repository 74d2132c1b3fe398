/**
 The icon asset encoder: an RGBA pixel composited onto black and packed as
 RGB565, two bytes per pixel with the low byte first; the image descriptors the
 encoder emits; and the two lookup functions it writes into the firmware, from a
 WMO weather code to an icon and from a wind speed to a Beaufort icon.

 Image loading and resizing are outside the model: the encoder is given the
 resized image as a sequence of `size * size` pixels.
 */
module Icons {

  /** An 8-bit channel value as the image library delivers it. */
  type Channel = x: int | 0 <= x < 256

  datatype Rgba = Rgba(r: Channel, g: Channel, b: Channel, a: Channel)

  const ICON_SIZE_LARGE: nat := 56
  const ICON_SIZE_SMALL: nat := 28
  const ICON_SIZE_INFO: nat := 32

  // ---------------------------------------------------------------------------
  // RGB565
  // ---------------------------------------------------------------------------

  /** rgb_to_rgb565: the top 5, 6 and 5 bits of r, g and b at bits 15-11, 10-5 and 4-0; the `|` of these disjoint fields is their sum (Rgb565Disjoint). */
  function Rgb565(r: Channel, g: Channel, b: Channel): (v: nat)
    ensures v < 0x1_0000
    ensures v / 2048 == r / 8 && (v / 32) % 64 == g / 4 && v % 32 == b / 8
  {
    PackFields(r / 8, g / 4, b / 8);
    (r / 8) * 2048 + (g / 4) * 32 + b / 8
  }

  /** Fields of 5, 6 and 5 bits placed at 2048, 32 and 1 are read back by division and remainder. */
  lemma {:induction false} PackFields(hi: int, mid: int, lo: int)
    requires 0 <= hi < 32 && 0 <= mid < 64 && 0 <= lo < 32
    ensures var v := hi * 2048 + mid * 32 + lo;
      0 <= v < 0x1_0000 && v / 2048 == hi && (v / 32) % 64 == mid && v % 32 == lo
  {
    var low := mid * 32 + lo;
    assert low / 32 == mid && low % 32 == lo;
    var v := hi * 2048 + low;
    assert v / 32 == hi * 64 + mid;
  }

  /** Three fields of 5, 6 and 5 bits shifted to 11, 5 and 0 do not overlap, so `|` adds them and each is read back by shift and mask. */
  lemma {:induction false} Rgb565Disjoint(r5: bv16, g6: bv16, b5: bv16)
    requires r5 < 32 && g6 < 64 && b5 < 32
    ensures var bits := (r5 << 11) | (g6 << 5) | b5;
            bits == (r5 << 11) + (g6 << 5) + b5 && bits >> 11 == r5 && (bits >> 5) & 63 == g6 && bits & 31 == b5
  {
  }

  /** The channels read back from a packed value with the low bits zero: r5 << 3, g6 << 2, b5 << 3. */
  function Expand(v: nat): (rgb: (nat, nat, nat))
    requires v < 0x1_0000
  {
    ((v / 2048) * 8, ((v / 32) % 64) * 4, (v % 32) * 8)
  }

  /** Packing loses at most the 3, 2 and 3 low bits: the read-back channels fall short by at most 7, 3 and 7. */
  lemma {:induction false} ExpandFallsShort(r: Channel, g: Channel, b: Channel)
    ensures var (r', g', b') := Expand(Rgb565(r, g, b));
            0 <= r - r' <= 7 && 0 <= g - g' <= 3 && 0 <= b - b' <= 7
  {
  }

  // ---------------------------------------------------------------------------
  // Pixels and bytes
  // ---------------------------------------------------------------------------

  /** A channel composited onto black: scaled by a / 255 (floor) unless the pixel is opaque. */
  function Composite(c: Channel, a: Channel): (r: Channel)
    ensures r <= c
    ensures a == 255 ==> r == c
    ensures a == 0 ==> r == 0
  {
    if a < 255 then
      ScaleBelow(c, a);
      (c * a) / 255
    else c
  }

  /** A channel scaled by a / 255 with a below 255 stays between 0 and the channel. */
  lemma {:induction false} ScaleBelow(c: Channel, a: Channel)
    requires a < 255
    ensures 0 <= (c * a) / 255 <= c
    ensures a == 0 ==> (c * a) / 255 == 0
  {
    var x := c * a;
    assert 0 <= x <= c * 255 by {
      assert c * (255 - a) >= 0;
    }
    DivBelow(x, c);
  }

  /** A number at most 255 c is at most c after division by 255. */
  lemma {:induction false} DivBelow(x: nat, c: nat)
    requires x <= c * 255
    ensures x / 255 <= c
  {
    assert (x / 255) * 255 <= x;
  }

  /** The RGB565 value of a pixel after compositing. */
  function PixelValue(p: Rgba): (v: nat)
    ensures v < 0x1_0000
    ensures p.a == 0 ==> v == 0
  {
    Rgb565(Composite(p.r, p.a), Composite(p.g, p.a), Composite(p.b, p.a))
  }

  /** The two bytes emitted for a value: `v & 0xff`, then `(v >> 8) & 0xff`. */
  function LowHigh(v: nat): (bytes: seq<nat>)
    requires v < 0x1_0000
    ensures |bytes| == 2 && bytes[0] < 256 && bytes[1] < 256
    ensures bytes[0] + 256 * bytes[1] == v
  {
    [v % 256, (v / 256) % 256]
  }

  /** The pixel loop of convert_png_to_lvgl: two bytes per pixel, in pixel order. */
  function EncodePixels(ps: seq<Rgba>): (bytes: seq<nat>)
    ensures |bytes| == 2 * |ps|
    ensures forall k | 0 <= k < |bytes| :: bytes[k] < 256
  {
    if ps == [] then [] else LowHigh(PixelValue(ps[0])) + EncodePixels(ps[1..])
  }

  /** Reads 16-bit values back from bytes taken two at a time, low byte first (`lo | hi << 8`). */
  function DecodeValues(bytes: seq<nat>): (vs: seq<nat>)
    ensures |vs| == |bytes| / 2
  {
    if |bytes| < 2 then [] else [bytes[0] + 256 * bytes[1]] + DecodeValues(bytes[2..])
  }

  /** The values of the pixels, in order. */
  function Values(ps: seq<Rgba>): (vs: seq<nat>)
    ensures |vs| == |ps|
  {
    if ps == [] then [] else [PixelValue(ps[0])] + Values(ps[1..])
  }

  /** Reading the emitted bytes back in pairs gives every pixel's RGB565 value. */
  lemma {:induction false} DecodeEncoded(ps: seq<Rgba>)
    ensures DecodeValues(EncodePixels(ps)) == Values(ps)
  {
    EncodePixelsIsEncodeValues(ps);
    DecodeEncodedValues(Values(ps));
  }

  /** Two bytes per value, low byte first. */
  function EncodeValues(vs: seq<nat>): (bytes: seq<nat>)
    requires forall k | 0 <= k < |vs| :: vs[k] < 0x1_0000
    ensures |bytes| == 2 * |vs|
  {
    if vs == [] then [] else LowHigh(vs[0]) + EncodeValues(vs[1..])
  }

  /** The pixel loop emits the pixels' values two bytes each. */
  lemma {:induction false} EncodePixelsIsEncodeValues(ps: seq<Rgba>)
    ensures (forall k | 0 <= k < |Values(ps)| :: Values(ps)[k] < 0x1_0000)
    ensures EncodePixels(ps) == EncodeValues(Values(ps))
  {
    if ps != [] {
      EncodePixelsIsEncodeValues(ps[1..]);
      var vs := Values(ps);
      assert vs[1..] == Values(ps[1..]);
      assert forall k | 1 <= k < |vs| :: vs[k] == Values(ps[1..])[k - 1];
    }
  }

  /** Reading pairs back inverts EncodeValues. */
  lemma {:induction false} DecodeEncodedValues(vs: seq<nat>)
    requires forall k | 0 <= k < |vs| :: vs[k] < 0x1_0000
    ensures DecodeValues(EncodeValues(vs)) == vs
  {
    if vs != [] {
      var bytes := EncodeValues(vs);
      assert bytes[2..] == EncodeValues(vs[1..]);
      DecodeEncodedValues(vs[1..]);
    }
  }

  // ---------------------------------------------------------------------------
  // Descriptors
  // ---------------------------------------------------------------------------

  /** The header fields and data size of an emitted `lv_image_dsc_t` (RGB565, flags 0). */
  datatype Descriptor = Descriptor(w: nat, h: nat, stride: nat, dataSize: nat)

  /** convert_png_to_lvgl on an image resized to size x size, and the descriptor written for it. */
  function Convert(size: nat, ps: seq<Rgba>): (r: (Descriptor, seq<nat>))
    requires |ps| == size * size
    ensures r.0.w == size && r.0.h == size && r.0.stride == 2 * size
    ensures r.0.dataSize == |r.1| == 2 * (size * size)
  {
    var data := EncodePixels(ps);
    assert |data| == 2 * |ps|;
    (Descriptor(size, size, size * 2, |data|), data)
  }

  // ---------------------------------------------------------------------------
  // get_weather_icon and get_wind_icon
  // ---------------------------------------------------------------------------

  datatype Family = ClearDay | ClearNight | PartlyCloudyDay | PartlyCloudyNight | Cloudy
                  | Fog | Drizzle | Rain | Snow | Thunderstorm

  /** An emitted weather icon: its family and whether it is the small variant. */
  datatype IconRef = IconRef(family: Family, small: bool)

  /** The icon family of a WMO code, by the first matching bound. */
  function WeatherFamily(code: int, isDay: bool): Family
  {
    if code == 0 then (if isDay then ClearDay else ClearNight)
    else if code <= 3 then (if isDay then PartlyCloudyDay else PartlyCloudyNight)
    else if code <= 48 then Fog
    else if code <= 57 then Drizzle
    else if code <= 67 then Rain
    else if code <= 77 then Snow
    else if code <= 82 then Rain
    else if code <= 86 then Snow
    else if code >= 95 then Thunderstorm
    else Cloudy
  }

  /** get_weather_icon: never NULL; the variant follows small_size and only codes up to 3 depend on is_day. */
  function WeatherIcon(code: int, isDay: bool, small: bool): (icon: IconRef)
    ensures icon.small == small
    ensures icon.family in {ClearDay, ClearNight, PartlyCloudyDay, PartlyCloudyNight} <==> code <= 3
  {
    IconRef(WeatherFamily(code, isDay), small)
  }

  /** Whether it is day only decides between the clear and partly cloudy variants. */
  lemma {:induction false} DayOnlyForClearSkies(code: int, isDay: bool, small: bool)
    ensures WeatherIcon(code, isDay, small) != WeatherIcon(code, !isDay, small) <==> code <= 3
  {
  }

  /** The size an emitted weather icon was converted at. */
  function IconSize(icon: IconRef): nat {
    if icon.small then ICON_SIZE_SMALL else ICON_SIZE_LARGE
  }

  /** The descriptor behind a chosen weather icon: 28 x 28 for the small variant, else 56 x 56, stride 2w, 2w^2 bytes. */
  lemma {:induction false} WeatherIconDescriptor(code: int, isDay: bool, small: bool, ps: seq<Rgba>)
    requires |ps| == IconSize(WeatherIcon(code, isDay, small)) * IconSize(WeatherIcon(code, isDay, small))
    ensures var d := Convert(IconSize(WeatherIcon(code, isDay, small)), ps).0;
            d.w == d.h == (if small then 28 else 56) && d.stride == 2 * d.w && d.dataSize == 2 * d.w * d.w
  {
  }

  /** The upper bounds (inclusive) of Beaufort forces 0 to 11 in miles per hour; force 0 is below 1. */
  const BEAUFORT_UPPER: seq<int> := [0, 3, 7, 12, 18, 24, 31, 38, 46, 54, 63, 72]

  /** The Beaufort force of a wind speed, by the first matching bound. */
  function Beaufort(speed: int): (force: nat)
    ensures force <= 12
  {
    if speed < 1 then 0
    else if speed <= 3 then 1
    else if speed <= 7 then 2
    else if speed <= 12 then 3
    else if speed <= 18 then 4
    else if speed <= 24 then 5
    else if speed <= 31 then 6
    else if speed <= 38 then 7
    else if speed <= 46 then 8
    else if speed <= 54 then 9
    else if speed <= 63 then 10
    else if speed <= 72 then 11
    else 12
  }

  /** The number of bounds in BEAUFORT_UPPER[k..] that the speed exceeds. */
  function BoundsExceeded(speed: int, k: nat): (n: nat)
    requires k <= |BEAUFORT_UPPER|
    ensures n <= |BEAUFORT_UPPER| - k
    decreases |BEAUFORT_UPPER| - k
  {
    if k == |BEAUFORT_UPPER| then 0
    else (if BEAUFORT_UPPER[k] < speed then 1 else 0) + BoundsExceeded(speed, k + 1)
  }

  /** The force is the number of bounds the speed exceeds. */
  lemma {:induction false} BeaufortCountsBounds(speed: int)
    ensures Beaufort(speed) == BoundsExceeded(speed, 0)
  {
    var b := BEAUFORT_UPPER;
    assert BoundsExceeded(speed, 12) == 0;
    assert BoundsExceeded(speed, 11) == if 72 < speed then 1 else 0;
    assert BoundsExceeded(speed, 10) == (if 63 < speed then 1 else 0) + BoundsExceeded(speed, 11);
    assert BoundsExceeded(speed, 9) == (if 54 < speed then 1 else 0) + BoundsExceeded(speed, 10);
    assert BoundsExceeded(speed, 8) == (if 46 < speed then 1 else 0) + BoundsExceeded(speed, 9);
    assert BoundsExceeded(speed, 7) == (if 38 < speed then 1 else 0) + BoundsExceeded(speed, 8);
    assert BoundsExceeded(speed, 6) == (if 31 < speed then 1 else 0) + BoundsExceeded(speed, 7);
    assert BoundsExceeded(speed, 5) == (if 24 < speed then 1 else 0) + BoundsExceeded(speed, 6);
    assert BoundsExceeded(speed, 4) == (if 18 < speed then 1 else 0) + BoundsExceeded(speed, 5);
    assert BoundsExceeded(speed, 3) == (if 12 < speed then 1 else 0) + BoundsExceeded(speed, 4);
    assert BoundsExceeded(speed, 2) == (if 7 < speed then 1 else 0) + BoundsExceeded(speed, 3);
    assert BoundsExceeded(speed, 1) == (if 3 < speed then 1 else 0) + BoundsExceeded(speed, 2);
    assert BoundsExceeded(speed, 0) == (if 0 < speed then 1 else 0) + BoundsExceeded(speed, 1);
  }

  /** A faster wind never gets a lower force. */
  lemma {:induction false} BeaufortMonotone(s1: int, s2: int)
    requires s1 <= s2
    ensures Beaufort(s1) <= Beaufort(s2)
  {
  }

  /** The wind icons emitted: wind_0 to wind_12. */
  datatype WindIconRef = Wind(level: nat)

  /** The `switch` of get_wind_icon: one case per force, the default going to wind_3. */
  function WindIconOfForce(force: int): (icon: WindIconRef)
  {
    if 0 <= force <= 12 then Wind(force) else Wind(3)
  }

  /** get_wind_icon: the icon of the Beaufort force; the `default` case is never taken. */
  function WindIcon(speed: int): (icon: WindIconRef)
    ensures icon.level == Beaufort(speed) && icon.level <= 12
  {
    WindIconOfForce(Beaufort(speed))
  }
}
