/**
 The display: colours and their 32-bit ARGB form, rectangles, and drawing into
 the frame buffer. The buffer is held as rows: pixel (x, y) is `frame[y][x]`,
 the word the firmware addresses as `y * width + x`.
 */
module Display {
  import opened Wrappers
  import opened Machine

  // ---------------------------------------------------------------------------
  // Colours
  // ---------------------------------------------------------------------------

  datatype Color = Color(r: u8, g: u8, b: u8, a: u8)

  const BLACK: Color := Color(0, 0, 0, 255)
  const WHITE: Color := Color(255, 255, 255, 255)

  function Gray(v: u8): (c: Color)
    ensures c.r == c.g == c.b == v && c.a == 255
  {
    Color(v, v, v, 255)
  }

  function FromRGB(r: u8, g: u8, b: u8): (c: Color)
    ensures c.r == r && c.g == g && c.b == b && c.a == 255
  {
    Color(r, g, b, 255)
  }

  function FromRGBA(r: u8, g: u8, b: u8, a: u8): (c: Color)
    ensures c.r == r && c.g == g && c.b == b && c.a == a
  {
    Color(r, g, b, a)
  }

  /** ToARGB8888: alpha in the top byte, then red, green and blue. */
  function ToARGB8888(c: Color): (v: u32)
    ensures v < 0x100_0000 <==> c.a == 0
  {
    c.a * 0x100_0000 + c.r * 0x1_0000 + c.g * 0x100 + c.b
  }

  /** The bytes of a 32-bit pixel, top byte first. */
  function AlphaOf(v: u32): u8 { v / 0x100_0000 }
  function RedOf(v: u32): u8 { (v / 0x1_0000) % 0x100 }
  function GreenOf(v: u32): u8 { (v / 0x100) % 0x100 }
  function BlueOf(v: u32): u8 { v % 0x100 }

  /** Each channel of a colour reads back from its ARGB word, so the encoding is injective. */
  lemma {:induction false} ARGBChannels(c: Color)
    ensures AlphaOf(ToARGB8888(c)) == c.a && RedOf(ToARGB8888(c)) == c.r
    ensures GreenOf(ToARGB8888(c)) == c.g && BlueOf(ToARGB8888(c)) == c.b
  {
    var v := ToARGB8888(c);
    SplitAt24(c.a, c.r * 0x1_0000 + c.g * 0x100 + c.b);
    SplitAt16(c.a * 0x100 + c.r, c.g * 0x100 + c.b);
    SplitAt8(c.a, c.r);
    SplitAt8(c.a * 0x1_0000 + c.r * 0x100 + c.g, c.b);
    SplitAt8(c.a * 0x100 + c.r, c.g);
  }

  /** The quotient and remainder by 2^8 of q * 2^8 + r are q and r. */
  lemma {:induction false} SplitAt8(q: int, r: int)
    requires 0 <= r < 0x100
    ensures (q * 0x100 + r) / 0x100 == q && (q * 0x100 + r) % 0x100 == r
  {
  }

  /** The quotient by 2^16 of q * 2^16 + r is q. */
  lemma {:induction false} SplitAt16(q: int, r: int)
    requires 0 <= r < 0x1_0000
    ensures (q * 0x1_0000 + r) / 0x1_0000 == q
  {
  }

  /** The quotient by 2^24 of q * 2^24 + r is q. */
  lemma {:induction false} SplitAt24(q: int, r: int)
    requires 0 <= r < 0x100_0000
    ensures (q * 0x100_0000 + r) / 0x100_0000 == q
  {
  }

  /** Two colours with the same ARGB word are the same colour. */
  lemma {:induction false} ARGBInjective(c: Color, d: Color)
    requires ToARGB8888(c) == ToARGB8888(d)
    ensures c == d
  {
    ARGBChannels(c);
    ARGBChannels(d);
  }

  /** The named colours are opaque; black is 0xFF000000 and white 0xFFFFFFFF. */
  lemma {:induction false} NamedColors()
    ensures ToARGB8888(BLACK) == 0xFF00_0000 && ToARGB8888(WHITE) == 0xFFFF_FFFF
    ensures BLACK.a == WHITE.a == 255
  {
  }

  // ---------------------------------------------------------------------------
  // Rectangles
  // ---------------------------------------------------------------------------

  datatype Rect = Rect(x: int, y: int, width: int, height: int)

  /** Contains: half-open, the left and top edges inside, the right and bottom outside. */
  predicate Contains(rect: Rect, px: int, py: int) {
    px >= rect.x && px < rect.x + rect.width && py >= rect.y && py < rect.y + rect.height
  }

  /** Inset: every edge moved inwards by `amount` (outwards when it is negative). */
  function Inset(rect: Rect, amount: int): (r: Rect)
    ensures r.x + r.width == rect.x + rect.width - amount
    ensures r.y + r.height == rect.y + rect.height - amount
    ensures r.x == rect.x + amount && r.y == rect.y + amount
  {
    Rect(rect.x + amount, rect.y + amount, rect.width - 2 * amount, rect.height - 2 * amount)
  }

  /** Insets add up, and an inward inset keeps only points of the original. */
  lemma {:induction false} InsetCompose(rect: Rect, a: int, b: int, px: int, py: int)
    ensures Inset(Inset(rect, a), b) == Inset(rect, a + b)
    ensures a >= 0 && Contains(Inset(rect, a), px, py) ==> Contains(rect, px, py)
  {
  }

  /** A rectangle contains exactly width * height points: empty when either is not positive. */
  lemma {:induction false} EmptyRect(rect: Rect, px: int, py: int)
    requires rect.width <= 0 || rect.height <= 0
    ensures !Contains(rect, px, py)
  {
  }

  // ---------------------------------------------------------------------------
  // The frame buffer
  // ---------------------------------------------------------------------------

  /** The display: its size and, once initialised, its frame buffer. */
  datatype Screen = Screen(width: nat, height: nat, frame: Option<seq<seq<u32>>>)

  /** A frame buffer of `height` rows of `width` pixels. */
  predicate Sized(frame: seq<seq<u32>>, width: nat, height: nat) {
    |frame| == height && forall j | 0 <= j < height :: |frame[j]| == width
  }

  predicate Ready(s: Screen) {
    s.frame.Some? && Sized(s.frame.value, s.width, s.height)
  }

  predicate OnScreen(s: Screen, x: int, y: int) {
    0 <= x < s.width && 0 <= y < s.height
  }

  /**
   Initialize, given the screen device (None when there is none), its size and
   its frame buffer (None when the device has none): succeeds iff there is a
   frame buffer.
   */
  function Initialize(device: Option<Screen>): (r: (bool, Screen))
    ensures r.0 <==> device.Some? && device.value.frame.Some?
    ensures device.None? ==> r.1 == Screen(0, 0, None)
    ensures device.Some? ==> r.1 == device.value
  {
    if device.None? then (false, Screen(0, 0, None))
    else (device.value.frame.Some?, device.value)
  }

  /** The blend of one channel: source weighted by alpha, destination by 255 - alpha, rounded down. */
  function Blend(src: u8, dst: u8, alpha: u8): (v: u8)
    requires 0 < alpha < 255
  {
    BlendBound(src, dst, alpha);
    (src * alpha + dst * (255 - alpha)) / 255
  }

  /** A blended channel lies between the source and destination values. */
  lemma {:induction false} BlendBound(src: u8, dst: u8, alpha: u8)
    requires 0 < alpha < 255
    ensures var v := (src * alpha + dst * (255 - alpha)) / 255;
            (src <= dst ==> src <= v <= dst) && (dst <= src ==> dst <= v <= src)
  {
    var lo := if src <= dst then src else dst;
    var hi := if src <= dst then dst else src;
    var sum := src * alpha + dst * (255 - alpha);
    MulLe(lo, src, alpha);
    MulLe(src, hi, alpha);
    MulLe(lo, dst, 255 - alpha);
    MulLe(dst, hi, 255 - alpha);
    assert lo * alpha + lo * (255 - alpha) == lo * 255;
    assert hi * alpha + hi * (255 - alpha) == hi * 255;
  }

  /** Multiplying by a natural number keeps an inequality. */
  lemma {:induction false} MulLe(x: int, y: int, k: nat)
    requires x <= y
    ensures x * k <= y * k
  {
    assert y * k - x * k == (y - x) * k;
  }

  /**
   The pixel DrawPixel leaves over `dst`: the colour itself when opaque, the
   channel blend with alpha 0xFF when translucent, `dst` when fully transparent.
   */
  function Paint(dst: u32, c: Color): (v: u32)
    ensures c.a == 255 ==> v == ToARGB8888(c)
    ensures c.a == 0 ==> v == dst
    ensures 0 < c.a < 255 ==> v == ToARGB8888(Color(Blend(c.r, RedOf(dst), c.a),
                                                    Blend(c.g, GreenOf(dst), c.a),
                                                    Blend(c.b, BlueOf(dst), c.a), 255))
  {
    if c.a == 255 then ToARGB8888(c)
    else if c.a > 0 then
      0xFF * 0x100_0000 + Blend(c.r, RedOf(dst), c.a) * 0x1_0000
      + Blend(c.g, GreenOf(dst), c.a) * 0x100 + Blend(c.b, BlueOf(dst), c.a)
    else dst
  }

  /** A translucent paint is opaque, and each of its channels lies between the colour's and the old pixel's. */
  lemma {:induction false} PaintBetween(dst: u32, c: Color)
    requires 0 < c.a < 255
    ensures AlphaOf(Paint(dst, c)) == 255
    ensures var red := RedOf(Paint(dst, c));
            (c.r <= RedOf(dst) ==> c.r <= red <= RedOf(dst)) && (RedOf(dst) <= c.r ==> RedOf(dst) <= red <= c.r)
    ensures var blue := BlueOf(Paint(dst, c));
            (c.b <= BlueOf(dst) ==> c.b <= blue <= BlueOf(dst)) && (BlueOf(dst) <= c.b ==> BlueOf(dst) <= blue <= c.b)
  {
    var p := Color(Blend(c.r, RedOf(dst), c.a), Blend(c.g, GreenOf(dst), c.a), Blend(c.b, BlueOf(dst), c.a), 255);
    ARGBChannels(p);
    BlendBound(c.r, RedOf(dst), c.a);
    BlendBound(c.b, BlueOf(dst), c.a);
  }

  /** The frame with pixel (x, y) replaced. */
  function SetPixel(frame: seq<seq<u32>>, x: nat, y: nat, v: u32): (f: seq<seq<u32>>)
    requires y < |frame| && x < |frame[y]|
    ensures |f| == |frame| && forall j | 0 <= j < |f| :: |f[j]| == |frame[j]|
    ensures f[y][x] == v
    ensures forall j, i | 0 <= j < |f| && 0 <= i < |f[j]| && (j != y || i != x) :: f[j][i] == frame[j][i]
  {
    var row: seq<u32> := frame[y][x := v];
    frame[y := row]
  }

  /** DrawPixel: pixels off the screen are ignored; otherwise the pixel becomes Paint of itself. */
  function DrawPixel(s: Screen, x: int, y: int, c: Color): (t: Screen)
    requires Ready(s)
    ensures Ready(t) && t.width == s.width && t.height == s.height
    ensures !OnScreen(s, x, y) ==> t == s
    ensures OnScreen(s, x, y) ==> t.frame.value[y][x] == Paint(s.frame.value[y][x], c)
    ensures forall j, i | OnScreen(s, i, j) && (j != y || i != x) :: t.frame.value[j][i] == s.frame.value[j][i]
  {
    if x < 0 || x >= s.width || y < 0 || y >= s.height then s
    else
      var frame := s.frame.value;
      if c.a == 255 then s.(frame := Some(SetPixel(frame, x, y, ToARGB8888(c))))
      else if c.a > 0 then s.(frame := Some(SetPixel(frame, x, y, Paint(frame[y][x], c))))
      else s
  }

  /**
   Clear: every pixel takes the colour's ARGB word, except that opaque and
   transparent black both clear to 0.
   */
  function Clear(s: Screen, c: Color): (t: Screen)
    ensures s.frame.None? ==> t == s
    ensures Ready(s) ==> Ready(t) && t.width == s.width && t.height == s.height
    ensures Ready(s) ==> forall j, i | OnScreen(s, i, j) ::
              t.frame.value[j][i] == (if ToARGB8888(c) == 0xFF00_0000 then 0 else ToARGB8888(c))
  {
    if s.frame.None? then s
    else
      var v := ToARGB8888(c);
      var fill: u32 := if v == 0xFF00_0000 || v == 0 then 0 else v;
      s.(frame := Some(seq(s.height, j => seq(s.width, i => fill))))
  }

  /** After Clear every pixel shows the colour's red, green and blue. */
  lemma {:induction false} ClearShowsColor(s: Screen, c: Color, x: nat, y: nat)
    requires Ready(s) && OnScreen(s, x, y)
    ensures var p := Clear(s, c).frame.value[y][x];
            RedOf(p) == c.r && GreenOf(p) == c.g && BlueOf(p) == c.b
  {
    ARGBChannels(c);
    if ToARGB8888(c) == 0xFF00_0000 {
      ARGBInjective(c, BLACK);
    }
  }

  /** Clearing to black stores 0, not the 0xFF000000 that black encodes to. */
  lemma {:induction false} ClearBlackStoresZero(s: Screen, x: nat, y: nat)
    requires Ready(s) && OnScreen(s, x, y)
    ensures Clear(s, BLACK).frame.value[y][x] == 0 != ToARGB8888(BLACK)
  {
  }

  /** The clipped bounds FillRect loops over. */
  function Clip(rect: Rect, s: Screen): (b: (int, int, int, int))
    ensures forall x, y | OnScreen(s, x, y) :: Contains(rect, x, y) <==> b.0 <= x < b.2 && b.1 <= y < b.3
    ensures 0 <= b.0 && 0 <= b.1 && b.2 <= s.width && b.3 <= s.height
  {
    (if rect.x < 0 then 0 else rect.x,
     if rect.y < 0 then 0 else rect.y,
     if rect.x + rect.width > s.width then s.width else rect.x + rect.width,
     if rect.y + rect.height > s.height then s.height else rect.y + rect.height)
  }

  /**
   FillRect: paints exactly the pixels of the screen the rectangle contains,
   writing the ARGB word directly when the colour is opaque and going through
   DrawPixel otherwise.
   */
  method FillRect(s: Screen, rect: Rect, c: Color) returns (t: Screen)
    requires Ready(s)
    ensures Ready(t) && t.width == s.width && t.height == s.height
    ensures forall j, i | OnScreen(s, i, j) ::
              t.frame.value[j][i] == if Contains(rect, i, j) then Paint(s.frame.value[j][i], c) else s.frame.value[j][i]
  {
    var (x1, y1, x2, y2) := Clip(rect, s);
    var pixelValue := ToARGB8888(c);
    t := s;
    var y := y1;
    while y < y2
      invariant y1 <= y && (y <= y2 || y == y1)
      invariant Ready(t) && t.width == s.width && t.height == s.height
      invariant forall j, i | OnScreen(s, i, j) ::
                  t.frame.value[j][i] == if x1 <= i < x2 && y1 <= j < y then Paint(s.frame.value[j][i], c) else s.frame.value[j][i]
    {
      var x := x1;
      while x < x2
        invariant x1 <= x && (x <= x2 || x == x1)
        invariant Ready(t) && t.width == s.width && t.height == s.height
        invariant forall j, i | OnScreen(s, i, j) ::
                    t.frame.value[j][i] == if x1 <= i < x2 && (y1 <= j < y || (j == y && i < x)) then Paint(s.frame.value[j][i], c) else s.frame.value[j][i]
      {
        if c.a == 255 {
          t := t.(frame := Some(SetPixel(t.frame.value, x, y, pixelValue)));
        } else {
          t := DrawPixel(t, x, y, c);
        }
        x := x + 1;
      }
      y := y + 1;
    }
  }

  /** The top and bottom rows of the rectangle, the pixels DrawRect's first loop goes over. */
  predicate OnRows(rect: Rect, px: int, py: int) {
    rect.x <= px < rect.x + rect.width && (py == rect.y || py == rect.y + rect.height - 1)
  }

  /** The left and right columns of the rectangle, the pixels its second loop goes over. */
  predicate OnColumns(rect: Rect, px: int, py: int) {
    rect.y <= py < rect.y + rect.height && (px == rect.x || px == rect.x + rect.width - 1)
  }

  /** The pixels DrawRect goes over. */
  predicate OnBorder(rect: Rect, px: int, py: int) {
    OnRows(rect, px, py) || OnColumns(rect, px, py)
  }

  /** DrawRect's first loop: DrawPixel on the top and bottom rows, left to right. */
  method DrawRows(s: Screen, rect: Rect, c: Color) returns (t: Screen)
    requires Ready(s)
    ensures Ready(t) && t.width == s.width && t.height == s.height
    ensures forall j, i | OnScreen(s, i, j) && !OnRows(rect, i, j) :: t.frame.value[j][i] == s.frame.value[j][i]
    ensures c.a == 255 ==> forall j, i | OnScreen(s, i, j) && OnRows(rect, i, j) :: t.frame.value[j][i] == ToARGB8888(c)
    ensures c.a == 0 ==> t == s
  {
    t := s;
    var x := rect.x;
    while x < rect.x + rect.width
      invariant rect.x <= x && (x <= rect.x + rect.width || x == rect.x)
      invariant Ready(t) && t.width == s.width && t.height == s.height
      invariant c.a == 0 ==> t == s
      invariant forall j, i | OnScreen(s, i, j) && !(OnRows(rect, i, j) && i < x) :: t.frame.value[j][i] == s.frame.value[j][i]
      invariant c.a == 255 ==> forall j, i | OnScreen(s, i, j) && OnRows(rect, i, j) && i < x :: t.frame.value[j][i] == ToARGB8888(c)
    {
      t := DrawPixel(t, x, rect.y, c);
      t := DrawPixel(t, x, rect.y + rect.height - 1, c);
      x := x + 1;
    }
  }

  /** DrawRect's second loop: DrawPixel on the left and right columns, top to bottom. */
  method DrawColumns(s: Screen, rect: Rect, c: Color) returns (t: Screen)
    requires Ready(s)
    ensures Ready(t) && t.width == s.width && t.height == s.height
    ensures forall j, i | OnScreen(s, i, j) && !OnColumns(rect, i, j) :: t.frame.value[j][i] == s.frame.value[j][i]
    ensures c.a == 255 ==> forall j, i | OnScreen(s, i, j) && OnColumns(rect, i, j) :: t.frame.value[j][i] == ToARGB8888(c)
    ensures c.a == 0 ==> t == s
  {
    t := s;
    var y := rect.y;
    while y < rect.y + rect.height
      invariant rect.y <= y && (y <= rect.y + rect.height || y == rect.y)
      invariant Ready(t) && t.width == s.width && t.height == s.height
      invariant c.a == 0 ==> t == s
      invariant forall j, i | OnScreen(s, i, j) && !(OnColumns(rect, i, j) && j < y) :: t.frame.value[j][i] == s.frame.value[j][i]
      invariant c.a == 255 ==> forall j, i | OnScreen(s, i, j) && OnColumns(rect, i, j) && j < y :: t.frame.value[j][i] == ToARGB8888(c)
    {
      t := DrawPixel(t, rect.x, y, c);
      t := DrawPixel(t, rect.x + rect.width - 1, y, c);
      y := y + 1;
    }
  }

  /**
   DrawRect: the rows, then the columns. Pixels off the border keep their value;
   with an opaque colour every border pixel on the screen takes it.
   */
  method DrawRect(s: Screen, rect: Rect, c: Color) returns (t: Screen)
    requires Ready(s)
    ensures Ready(t) && t.width == s.width && t.height == s.height
    ensures forall j, i | OnScreen(s, i, j) && !OnBorder(rect, i, j) :: t.frame.value[j][i] == s.frame.value[j][i]
    ensures c.a == 255 ==> forall j, i | OnScreen(s, i, j) && OnBorder(rect, i, j) :: t.frame.value[j][i] == ToARGB8888(c)
    ensures c.a == 0 ==> t == s
  {
    var rows := DrawRows(s, rect, c);
    t := DrawColumns(rows, rect, c);
  }
}
