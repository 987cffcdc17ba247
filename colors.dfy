/**
 * A colour is one packed integer: red in bits 16..23, green in bits 8..15, blue in bits 0..7.
 * The components are read back with an arithmetic shift and a mask of `0xff`; on integers an
 * arithmetic right shift by `n` is floor division by `2^n` and the mask is the remainder modulo
 * 256, which is what Dafny's `/` and `%` by a positive divisor compute.
 */
module Colors {
  import opened Arithmetic

  /** Color(int rgb): the packed value is stored as given, whatever it is. */
  datatype Color = Color(rgb: int)

  const BLACK: int := 0x000000
  const WHITE: int := 0xffffff
  const GRAY: int := 0x808080
  const RED: int := 0xff0000
  const MAROON: int := 0x800000
  const LIME: int := 0x00ff00
  const GREEN: int := 0x008000
  const NAVY: int := 0x000080
  const YELLOW: int := 0xffff00
  const MAGENTA: int := 0xff00ff
  const CYAN: int := 0x00ffff
  const PINK: int := 0xffc0cb
  const ORANGE: int := 0xffa500

  /** A colour component: the range the three-component constructor accepts. */
  predicate IsComponent(v: int) {
    0 <= v <= 0xff
  }

  /** red(): bits 16..23 of the packed value. */
  function Red(c: Color): (r: int)
    ensures IsComponent(r)
  {
    (c.rgb / 0x1_0000) % 0x100
  }

  /** green(): bits 8..15 of the packed value. */
  function Green(c: Color): (g: int)
    ensures IsComponent(g)
  {
    (c.rgb / 0x100) % 0x100
  }

  /** blue(): bits 0..7 of the packed value. */
  function Blue(c: Color): (b: int)
    ensures IsComponent(b)
  {
    c.rgb % 0x100
  }

  /**
   * Color(red, green, blue): each component is asserted to lie in 0..255, masked with `0xff`
   * and shifted into place; the three fields occupy disjoint bits, so or-ing them is adding them.
   */
  function Compose(red: int, green: int, blue: int): (c: Color)
    requires IsComponent(red) && IsComponent(green) && IsComponent(blue)
    ensures Red(c) == red && Green(c) == green && Blue(c) == blue
    ensures 0 <= c.rgb < 0x100_0000
  {
    Masked(red);
    Masked(green);
    Masked(blue);
    var rgb := (red % 0x100) * 0x1_0000 + (green % 0x100) * 0x100 + blue % 0x100;
    Unpacks(rgb, red, green, blue);
    Color(rgb)
  }

  /** Masking a component with `0xff` leaves it as it is. */
  lemma Masked(v: int)
    requires IsComponent(v)
    ensures v % 0x100 == v
  {
    DivMod(v, 0x100, 0, v);
  }

  /** The packed value of three components unpacks to those components. */
  lemma Unpacks(rgb: int, red: int, green: int, blue: int)
    requires IsComponent(red) && IsComponent(green) && IsComponent(blue)
    requires rgb == red * 0x1_0000 + green * 0x100 + blue
    ensures (rgb / 0x1_0000) % 0x100 == red && (rgb / 0x100) % 0x100 == green && rgb % 0x100 == blue
    ensures 0 <= rgb < 0x100_0000
  {
    DivMod(rgb, 0x1_0000, red, green * 0x100 + blue);
    Masked(red);
    DivMod(rgb, 0x100, red * 0x100 + green, blue);
    DivMod(red * 0x100 + green, 0x100, red, green);
  }

  /** A packed value within 24 bits is rebuilt exactly from its three components. */
  lemma ComposeComponents(c: Color)
    requires 0 <= c.rgb < 0x100_0000
    ensures Compose(Red(c), Green(c), Blue(c)) == c
  {
    var hi, lo := c.rgb / 0x1_0000, c.rgb % 0x1_0000;
    var g, b := lo / 0x100, lo % 0x100;
    assert hi < 0x100;
    Masked(hi);
    DivMod(c.rgb, 0x100, hi * 0x100 + g, b);
    DivMod(hi * 0x100 + g, 0x100, hi, g);
    assert Red(c) == hi && Green(c) == g && Blue(c) == b;
    Masked(g);
    Masked(b);
    assert Compose(hi, g, b).rgb == hi * 0x1_0000 + g * 0x100 + b;
  }

  /** Two colours with the same components and packed values within 24 bits are the same. */
  lemma ComponentsDetermine(c: Color, d: Color)
    requires 0 <= c.rgb < 0x100_0000 && 0 <= d.rgb < 0x100_0000
    requires Red(c) == Red(d) && Green(c) == Green(d) && Blue(c) == Blue(d)
    ensures c == d
  {
    ComposeComponents(c);
    ComposeComponents(d);
  }

  /**
   * The named constants decode to the components their names promise. GREEN is `0x008000`,
   * whose green component is 128.
   */
  lemma NamedColors()
    ensures Red(Color(BLACK)) == 0 && Green(Color(BLACK)) == 0 && Blue(Color(BLACK)) == 0
    ensures Red(Color(WHITE)) == 255 && Green(Color(WHITE)) == 255 && Blue(Color(WHITE)) == 255
    ensures Red(Color(GRAY)) == 128 && Green(Color(GRAY)) == 128 && Blue(Color(GRAY)) == 128
    ensures Red(Color(RED)) == 255 && Green(Color(RED)) == 0 && Blue(Color(RED)) == 0
    ensures Red(Color(MAROON)) == 128 && Green(Color(MAROON)) == 0 && Blue(Color(MAROON)) == 0
    ensures Red(Color(LIME)) == 0 && Green(Color(LIME)) == 255 && Blue(Color(LIME)) == 0
    ensures Red(Color(GREEN)) == 0 && Green(Color(GREEN)) == 128 && Blue(Color(GREEN)) == 0
    ensures Red(Color(NAVY)) == 0 && Green(Color(NAVY)) == 0 && Blue(Color(NAVY)) == 128
    ensures Red(Color(YELLOW)) == 255 && Green(Color(YELLOW)) == 255 && Blue(Color(YELLOW)) == 0
    ensures Red(Color(MAGENTA)) == 255 && Green(Color(MAGENTA)) == 0 && Blue(Color(MAGENTA)) == 255
    ensures Red(Color(CYAN)) == 0 && Green(Color(CYAN)) == 255 && Blue(Color(CYAN)) == 255
    ensures Red(Color(PINK)) == 255 && Green(Color(PINK)) == 192 && Blue(Color(PINK)) == 203
    ensures Red(Color(ORANGE)) == 255 && Green(Color(ORANGE)) == 165 && Blue(Color(ORANGE)) == 0
  {
  }

  /** The packed value is within 24 bits, as every colour built from components is. */
  predicate IsPacked(c: Color) {
    0 <= c.rgb < 0x100_0000
  }

  /** All three components are equal. */
  predicate IsGrey(c: Color) {
    Red(c) == Green(c) == Blue(c)
  }

  function Max3(a: int, b: int, c: int): int {
    if a >= b && a >= c then a else if b >= c then b else c
  }

  function Min3(a: int, b: int, c: int): int {
    if a <= b && a <= c then a else if b <= c then b else c
  }

  /** The pixel of switchRedGreen: Color(green, red, blue). */
  function SwapRedGreen(c: Color): (d: Color)
    ensures IsPacked(d)
  {
    Compose(Green(c), Red(c), Blue(c))
  }

  /** The pixel of switchRedBlue: Color(blue, green, red). */
  function SwapRedBlue(c: Color): (d: Color)
    ensures IsPacked(d)
  {
    Compose(Blue(c), Green(c), Red(c))
  }

  /** The pixel of switchGreenBlue: Color(red, blue, green). */
  function SwapGreenBlue(c: Color): (d: Color)
    ensures IsPacked(d)
  {
    Compose(Red(c), Blue(c), Green(c))
  }

  /** The pixel of grayscaleAverage: the grey of the truncated mean of the three components. */
  function GreyAverage(c: Color): (d: Color)
    ensures IsPacked(d) && IsGrey(d)
    ensures Min3(Red(c), Green(c), Blue(c)) <= Red(d) <= Max3(Red(c), Green(c), Blue(c))
  {
    var v := (Red(c) + Green(c) + Blue(c)) / 3;
    Compose(v, v, v)
  }

  /** The pixel of grayscaleLightness: the grey halfway between the largest and smallest component. */
  function GreyLightness(c: Color): (d: Color)
    ensures IsPacked(d) && IsGrey(d)
    ensures Min3(Red(c), Green(c), Blue(c)) <= Red(d) <= Max3(Red(c), Green(c), Blue(c))
  {
    var v := (Max3(Red(c), Green(c), Blue(c)) + Min3(Red(c), Green(c), Blue(c))) / 2;
    Compose(v, v, v)
  }

  /** Each channel swap undoes itself on a packed colour. */
  lemma SwapsUndoThemselves(c: Color)
    requires IsPacked(c)
    ensures SwapRedGreen(SwapRedGreen(c)) == c
    ensures SwapRedBlue(SwapRedBlue(c)) == c
    ensures SwapGreenBlue(SwapGreenBlue(c)) == c
  {
    ComposeComponents(c);
  }

  /** A grey pixel is unchanged by either greyscale conversion, so both are idempotent. */
  lemma GreyIsFixed(c: Color)
    requires IsPacked(c) && IsGrey(c)
    ensures GreyAverage(c) == c && GreyLightness(c) == c
  {
    var v := Red(c);
    assert Green(c) == v && Blue(c) == v;
    DivMod(v + v + v, 3, v, 0);
    DivMod(v + v, 2, v, 0);
    assert GreyAverage(c) == Compose(v, v, v);
    assert GreyLightness(c) == Compose(v, v, v);
    ComposeComponents(c);
  }
}
