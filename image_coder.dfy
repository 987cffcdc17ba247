/**
 * The chained-pixel cipher. Pixels are visited row by row; the `k`-th pixel in that order is
 * combined, channel by channel, with the previous ciphertext pixel and with the key character
 * at `k` modulo the key's length. Decryption subtracts the same two quantities again.
 *
 * A Java `char` is a non-negative number; a key is modelled as a `seq<char>` whose characters
 * are read as their code points.
 */
module ImageCoder {
  import opened Wrappers
  import opened Arithmetic
  import opened Colors
  import opened Grids
  import opened Images

  /** key.charAt(k % key.length()); an empty key throws, so every caller needs a non-empty key. */
  function KeyChar(key: seq<char>, k: nat): (c: int)
    requires |key| > 0
    ensures c >= 0
  {
    key[k % |key|] as int
  }

  /** The number of pixels in the first `y` rows of a grid `w` wide. */
  function RowStart(w: nat, y: nat): nat {
    if y == 0 then 0 else RowStart(w, y - 1) + w
  }

  /** The position of `(x, y)` in row-major order: the key index of that pixel. */
  function KeyIndex(w: nat, x: nat, y: nat): nat {
    RowStart(w, y) + x
  }

  /** Row-major position is the row times the width plus the column. */
  lemma {:induction false} KeyIndexIsRowMajor(w: nat, x: nat, y: nat)
    ensures KeyIndex(w, x, y) == y * w + x
  {
    if y > 0 {
      KeyIndexIsRowMajor(w, 0, y - 1);
      assert y * w == (y - 1) * w + w;
    }
  }

  /** `red`, `green` and `blue` are the components of `c`. */
  predicate HasChannels(red: int, green: int, blue: int, c: Color) {
    red == Red(c) && green == Green(c) && blue == Blue(c)
  }

  /** One encrypted channel: the sum of the plain value, the previous cipher value and the key character, modulo 256. */
  function EncryptChannel(v: int, prev: int, keyChar: int): (e: int)
    ensures IsComponent(e)
  {
    (v + prev + keyChar) % 256
  }

  /**
   * One decrypted channel, reduced into 0..255: what `(c - prev - keyChar + 256) % 256` was
   * evidently meant to compute.
   */
  function DecryptChannel(c: int, prev: int, keyChar: int): (d: int)
    ensures IsComponent(d)
  {
    (c - prev - keyChar + 256) % 256
  }

  /** Decrypting a channel with the previous cipher value and key character that encrypted it gives it back. */
  lemma ChannelRoundTrip(v: int, prev: int, keyChar: int)
    requires IsComponent(v)
    ensures DecryptChannel(EncryptChannel(v, prev, keyChar), prev, keyChar) == v
  {
    var s := v + prev + keyChar;
    var q := s / 256;
    assert EncryptChannel(v, prev, keyChar) == s - q * 256;
    DivMod(s - q * 256 - prev - keyChar + 256, 256, 1 - q, v);
  }

  /** The encrypted pixel: each channel encrypted with the matching channel of `prev`. */
  function EncryptPixel(p: Color, prev: Color, keyChar: int): (e: Color)
    ensures IsPacked(e)
    ensures Red(e) == EncryptChannel(Red(p), Red(prev), keyChar)
    ensures Green(e) == EncryptChannel(Green(p), Green(prev), keyChar)
    ensures Blue(e) == EncryptChannel(Blue(p), Blue(prev), keyChar)
  {
    Compose(EncryptChannel(Red(p), Red(prev), keyChar),
            EncryptChannel(Green(p), Green(prev), keyChar),
            EncryptChannel(Blue(p), Blue(prev), keyChar))
  }

  /** The three channels computed in the loop of `encrypt` make up the encrypted pixel. */
  lemma EncryptedChannels(p: Color, prev: Color, prevRed: int, prevGreen: int, prevBlue: int, keyChar: int, red: int, green: int, blue: int)
    requires prevRed == Red(prev) && prevGreen == Green(prev) && prevBlue == Blue(prev)
    requires red == EncryptChannel(Red(p), prevRed, keyChar)
    requires green == EncryptChannel(Green(p), prevGreen, keyChar)
    requires blue == EncryptChannel(Blue(p), prevBlue, keyChar)
    ensures IsComponent(red) && IsComponent(green) && IsComponent(blue)
    ensures Compose(red, green, blue) == EncryptPixel(p, prev, keyChar)
  {
  }

  /** The decrypted pixel: each channel decrypted with the matching channel of `prev`. */
  function DecryptPixel(c: Color, prev: Color, keyChar: int): (d: Color)
    ensures IsPacked(d)
    ensures Red(d) == DecryptChannel(Red(c), Red(prev), keyChar)
    ensures Green(d) == DecryptChannel(Green(c), Green(prev), keyChar)
    ensures Blue(d) == DecryptChannel(Blue(c), Blue(prev), keyChar)
  {
    Compose(DecryptChannel(Red(c), Red(prev), keyChar),
            DecryptChannel(Green(c), Green(prev), keyChar),
            DecryptChannel(Blue(c), Blue(prev), keyChar))
  }

  /** The three channels computed in the loop of `decrypt` make up the decrypted pixel. */
  lemma DecryptedChannels(c: Color, prev: Color, prevRed: int, prevGreen: int, prevBlue: int, keyChar: int, red: int, green: int, blue: int)
    requires prevRed == Red(prev) && prevGreen == Green(prev) && prevBlue == Blue(prev)
    requires red == DecryptChannel(Red(c), prevRed, keyChar)
    requires green == DecryptChannel(Green(c), prevGreen, keyChar)
    requires blue == DecryptChannel(Blue(c), prevBlue, keyChar)
    ensures IsComponent(red) && IsComponent(green) && IsComponent(blue)
    ensures Compose(red, green, blue) == DecryptPixel(c, prev, keyChar)
  {
  }

  /** A packed pixel survives encryption followed by decryption with the same neighbour and key character. */
  lemma PixelRoundTrip(p: Color, prev: Color, keyChar: int)
    requires IsPacked(p)
    ensures DecryptPixel(EncryptPixel(p, prev, keyChar), prev, keyChar) == p
  {
    var e := EncryptPixel(p, prev, keyChar);
    ChannelRoundTrip(Red(p), Red(prev), keyChar);
    ChannelRoundTrip(Green(p), Green(prev), keyChar);
    ChannelRoundTrip(Blue(p), Blue(prev), keyChar);
    ComponentsDetermine(DecryptPixel(e, prev, keyChar), p);
  }

  /** One channel decrypted as written, with Java's remainder, which is negative for a negative dividend. */
  function DecryptChannelAsWritten(c: int, prev: int, keyChar: int): (r: int)
    ensures -256 < r < 256
    ensures r == DecryptChannel(c, prev, keyChar) || r == DecryptChannel(c, prev, keyChar) - 256
    ensures c - prev - keyChar + 256 >= 0 ==> r == DecryptChannel(c, prev, keyChar)
  {
    JavaRemCongruent(c - prev - keyChar + 256, 256);
    JavaRem(c - prev - keyChar + 256, 256)
  }

  /**
   * The decrypted pixel as written: each channel is `(c - prev - keyChar + 256) % 256` with
   * Java's remainder, and the three-component constructor asserts that each lies in 0..255.
   */
  function DecryptPixelAsWritten(c: Color, prev: Color, keyChar: int): (d: Result<Color>)
    ensures d.Ok? ==> IsPacked(d.value)
  {
    var red := DecryptChannelAsWritten(Red(c), Red(prev), keyChar);
    var green := DecryptChannelAsWritten(Green(c), Green(prev), keyChar);
    var blue := DecryptChannelAsWritten(Blue(c), Blue(prev), keyChar);
    if IsComponent(red) && IsComponent(green) && IsComponent(blue) then Ok(Compose(red, green, blue))
    else Err(AssertionFailed)
  }

  /** A channel the written decryption leaves non-negative is the corrected channel. */
  lemma ChannelAsWrittenAgrees(c: int, prev: int, keyChar: int)
    requires DecryptChannelAsWritten(c, prev, keyChar) >= 0
    ensures DecryptChannelAsWritten(c, prev, keyChar) == DecryptChannel(c, prev, keyChar)
  {
    SameRemainder(c - prev - keyChar + 256, 256);
  }

  /** Where the written decryption does not fail, it computes the corrected pixel. */
  lemma AsWrittenAgreesWhenDefined(c: Color, prev: Color, keyChar: int)
    ensures DecryptPixelAsWritten(c, prev, keyChar).Ok? ==>
      DecryptPixelAsWritten(c, prev, keyChar).value == DecryptPixel(c, prev, keyChar)
  {
    var red := DecryptChannelAsWritten(Red(c), Red(prev), keyChar);
    var green := DecryptChannelAsWritten(Green(c), Green(prev), keyChar);
    var blue := DecryptChannelAsWritten(Blue(c), Blue(prev), keyChar);
    if IsComponent(red) && IsComponent(green) && IsComponent(blue) {
      ChannelAsWrittenAgrees(Red(c), Red(prev), keyChar);
      ChannelAsWrittenAgrees(Green(c), Green(prev), keyChar);
      ChannelAsWrittenAgrees(Blue(c), Blue(prev), keyChar);
      var d := Compose(red, green, blue);
      assert DecryptPixelAsWritten(c, prev, keyChar) == Ok(d);
      assert DecryptPixel(c, prev, keyChar) == d;
    }
  }

  /**
   * The ciphertext of the pixel at `(x, y)` of the `w` by `h` grid `g`: the pixel combined with
   * the ciphertext of the pixel before it in row-major order and with the key character at
   * index `KeyIndex(w, x, y)`.
   */
  function EncryptedAt(g: Grid, w: nat, h: nat, key: seq<char>, x: int, y: int): (e: Color)
    requires IsRect(g, w, h) && |key| > 0 && 0 <= y < h && 0 <= x < w
    ensures IsPacked(e)
    decreases y, x, 1
  {
    EncryptPixel(g[y][x], EncryptedBefore(g, w, h, key, x, y), KeyChar(key, KeyIndex(w, x, y)))
  }

  /**
   * The ciphertext of the pixel visited just before `(x, y)`, or BLACK (all channels 0) for the
   * first pixel; `x == w` stands for the end of row `y`.
   */
  function EncryptedBefore(g: Grid, w: nat, h: nat, key: seq<char>, x: int, y: int): (e: Color)
    requires IsRect(g, w, h) && |key| > 0 && 0 <= y < h && 0 <= x <= w
    ensures IsPacked(e)
    decreases y, x, 0
  {
    if x > 0 then EncryptedAt(g, w, h, key, x - 1, y)
    else if y > 0 && w > 0 then EncryptedAt(g, w, h, key, w - 1, y - 1)
    else Color(BLACK)
  }

  /** encrypt(image, key) as a value: every pixel replaced by its ciphertext. */
  function Encrypted(g: Grid, w: nat, h: nat, key: seq<char>): (e: Grid)
    requires IsRect(g, w, h) && |key| > 0
    ensures IsRect(e, w, h)
  {
    seq(h, y requires 0 <= y < h => seq(w, x requires 0 <= x < w => EncryptedAt(g, w, h, key, x, y)))
  }

  /** The ciphertext pixel visited just before `(x, y)` in `c`, or BLACK for the first pixel. */
  function CipherBefore(c: Grid, w: nat, h: nat, x: int, y: int): Color
    requires IsRect(c, w, h) && 0 <= y < h && 0 <= x <= w
  {
    if x > 0 then c[y][x - 1]
    else if y > 0 && w > 0 then c[y - 1][w - 1]
    else Color(BLACK)
  }

  /** decrypt(image, key) as a value: every pixel decrypted with its predecessor in `c` and its key character. */
  function Decrypted(c: Grid, w: nat, h: nat, key: seq<char>): (d: Grid)
    requires IsRect(c, w, h) && |key| > 0
    ensures IsRect(d, w, h)
  {
    seq(h, y requires 0 <= y < h => seq(w, x requires 0 <= x < w => DecryptedAt(c, w, h, key, x, y)))
  }

  /** The pixel at `(x, y)` decrypted with its predecessor in `c` and the key character at its row-major index. */
  function DecryptedAt(c: Grid, w: nat, h: nat, key: seq<char>, x: int, y: int): (d: Color)
    requires IsRect(c, w, h) && |key| > 0 && 0 <= y < h && 0 <= x < w
    ensures IsPacked(d)
  {
    DecryptPixel(c[y][x], CipherBefore(c, w, h, x, y), KeyChar(key, KeyIndex(w, x, y)))
  }

  /** Every pixel of the grid is packed within 24 bits. */
  predicate AllPacked(g: Grid, w: nat, h: nat)
    requires IsRect(g, w, h)
  {
    forall y, x :: 0 <= y < h && 0 <= x < w ==> IsPacked(g[y][x])
  }

  /** Every channel of an encrypted image lies in 0..255. */
  lemma EncryptedIsPacked(g: Grid, w: nat, h: nat, key: seq<char>)
    requires IsRect(g, w, h) && |key| > 0
    ensures AllPacked(Encrypted(g, w, h, key), w, h)
  {
  }

  /** Decrypting with the key that encrypted an image restores every pixel. */
  lemma DecryptUndoesEncrypt(g: Grid, w: nat, h: nat, key: seq<char>)
    requires IsRect(g, w, h) && |key| > 0 && AllPacked(g, w, h)
    ensures Decrypted(Encrypted(g, w, h, key), w, h, key) == g
  {
    var e := Encrypted(g, w, h, key);
    var d := Decrypted(e, w, h, key);
    forall y, x | 0 <= y < h && 0 <= x < w
      ensures d[y][x] == g[y][x]
    {
      var k := KeyChar(key, KeyIndex(w, x, y));
      assert CipherBefore(e, w, h, x, y) == EncryptedBefore(g, w, h, key, x, y);
      PixelRoundTrip(g[y][x], EncryptedBefore(g, w, h, key, x, y), k);
    }
    PointwiseEqual(d, g, w, h);
  }

  /**
   * The written decryption stops with an assertion failure on a ciphertext it produced itself:
   * the 2 by 1 image of greys 103 and 215 encrypted with key "a" (character 97) becomes greys
   * 200 and 0, and the second pixel decrypts to channel `(0 - 200 - 97 + 256) % 256 == -41`.
   */
  lemma DecryptAsWrittenFails(g: Grid, key: seq<char>)
    requires g == [[Color(0x676767), Color(0xd7d7d7)]] && key == "a"
    ensures var e := Encrypted(g, 2, 1, key);
      e == [[Color(0xc8c8c8), Color(0)]] &&
      DecryptPixelAsWritten(e[0][1], e[0][0], KeyChar(key, 1)) == Err(AssertionFailed) &&
      Decrypted(e, 2, 1, key) == g
  {
    CipherOfPair(g, key);
    StuckChannel();
    GreyPixel(103, 0x676767);
    GreyPixel(215, 0xd7d7d7);
    assert g[0] == [Color(0x676767), Color(0xd7d7d7)];
    DecryptUndoesEncrypt(g, 2, 1, key);
  }

  /** Greys 103 and 215 encrypted with key "a" become greys 200 and 0. */
  lemma CipherOfPair(g: Grid, key: seq<char>)
    requires g == [[Color(0x676767), Color(0xd7d7d7)]] && key == "a"
    ensures Encrypted(g, 2, 1, key) == [[Color(0xc8c8c8), Color(0)]]
  {
    EncryptedPair(g, key);
    FirstCipher();
    SecondCipher(g[0][1], EncryptPixel(g[0][0], Color(BLACK), KeyChar(key, 0)), KeyChar(key, 0));
  }

  /**
   * A one-row grid of two pixels encrypted with a one-character key: the first pixel is chained
   * to BLACK, the second to the first one's ciphertext.
   */
  lemma EncryptedPair(g: Grid, key: seq<char>)
    requires IsRect(g, 2, 1) && |key| == 1
    ensures var first := EncryptPixel(g[0][0], Color(BLACK), KeyChar(key, 0));
      Encrypted(g, 2, 1, key) == [[first, EncryptPixel(g[0][1], first, KeyChar(key, 0))]]
  {
    var k := KeyChar(key, 0);
    var first := EncryptPixel(g[0][0], Color(BLACK), k);
    var second := EncryptPixel(g[0][1], first, k);
    assert KeyChar(key, 1) == k;
    assert EncryptedAt(g, 2, 1, key, 0, 0) == first;
    assert EncryptedAt(g, 2, 1, key, 1, 0) == second;
    PointwiseEqual(Encrypted(g, 2, 1, key), [[first, second]], 2, 1);
  }

  /** `Color(rgb)` is the grey whose three channels are `v`. */
  lemma GreyPixel(v: int, rgb: int)
    requires IsComponent(v) && rgb == v * 0x1_0000 + v * 0x100 + v
    ensures HasChannels(v, v, v, Color(rgb)) && IsPacked(Color(rgb))
  {
    Unpacks(rgb, v, v, v);
  }

  /** Grey 103 after BLACK with key character 97 encrypts to grey 200. */
  lemma FirstCipher()
    ensures EncryptPixel(Color(0x676767), Color(BLACK), 97) == Color(0xc8c8c8)
  {
    GreyPixel(103, 0x676767);
    GreyPixel(0, BLACK);
    GreyPixel(200, 0xc8c8c8);
    ComponentsDetermine(EncryptPixel(Color(0x676767), Color(BLACK), 97), Color(0xc8c8c8));
  }

  /** Grey 215 after grey 200 with key character 97 encrypts to BLACK: `(215 + 200 + 97) % 256 == 0`. */
  lemma SecondCipher(p: Color, prev: Color, keyChar: int)
    requires p == Color(0xd7d7d7) && prev == Color(0xc8c8c8) && keyChar == 97
    ensures EncryptPixel(p, prev, keyChar) == Color(0)
  {
    GreyPixel(215, 0xd7d7d7);
    GreyPixel(200, 0xc8c8c8);
    GreyPixel(0, 0);
    ComponentsDetermine(EncryptPixel(p, prev, keyChar), Color(0));
  }

  /** BLACK after grey 200 with key character 97 gives the negative channel -41 when decrypted as written. */
  lemma StuckChannel()
    ensures DecryptPixelAsWritten(Color(0), Color(0xc8c8c8), 97) == Err(AssertionFailed)
  {
    GreyPixel(0, 0);
    GreyPixel(200, 0xc8c8c8);
    assert DecryptChannelAsWritten(0, 200, 97) == -41;
  }

  /** A grid holding the ciphertext of every pixel is the encrypted grid. */
  lemma AllEncrypted(before: Grid, after: Grid, w: nat, h: nat, key: seq<char>)
    requires IsRect(before, w, h) && IsRect(after, w, h) && |key| > 0
    requires forall yy, xx :: 0 <= yy < h && 0 <= xx < w ==> after[yy][xx] == EncryptedAt(before, w, h, key, xx, yy)
    ensures after == Encrypted(before, w, h, key)
  {
    PointwiseEqual(after, Encrypted(before, w, h, key), w, h);
  }

  /** A grid holding the decryption of every pixel is the decrypted grid. */
  lemma AllDecrypted(before: Grid, after: Grid, w: nat, h: nat, key: seq<char>)
    requires IsRect(before, w, h) && IsRect(after, w, h) && |key| > 0
    requires forall yy, xx :: 0 <= yy < h && 0 <= xx < w ==> after[yy][xx] == DecryptedAt(before, w, h, key, xx, yy)
    ensures after == Decrypted(before, w, h, key)
  {
    PointwiseEqual(after, Decrypted(before, w, h, key), w, h);
  }

  /**
   * encrypt(image, key): visits the pixels row by row, replacing each by its ciphertext and
   * remembering that ciphertext as the previous value; the key index counts the pixels visited.
   */
  method Encrypt(img: Image, key: seq<char>)
    requires |key| > 0
    modifies img.grid
    ensures img.Rows() == Encrypted(old(img.Rows()), img.Width(), img.Height(), key)
  {
    var width, height := img.Width(), img.Height();
    ghost var before := img.Rows();
    var keyIndex := 0;
    var prevRed, prevGreen, prevBlue := 0, 0, 0;
    var y := 0;
    while y < height
      invariant 0 <= y <= height && keyIndex == RowStart(width, y)
      invariant y < height ==> HasChannels(prevRed, prevGreen, prevBlue, EncryptedBefore(before, width, height, key, 0, y))
      invariant forall yy, xx :: 0 <= yy < y && 0 <= xx < width ==> img.grid[yy, xx] == EncryptedAt(before, width, height, key, xx, yy)
      invariant forall yy, xx :: y <= yy < height && 0 <= xx < width ==> img.grid[yy, xx] == before[yy][xx]
    {
      keyIndex, prevRed, prevGreen, prevBlue := EncryptRow(img, key, before, y, keyIndex, prevRed, prevGreen, prevBlue);
      y := y + 1;
    }
    AllEncrypted(before, img.Rows(), width, height, key);
  }

  /** The inner loop of `encrypt`: encrypts row `y`, starting from key index `keyIndex` and the previous cipher channels. */
  method EncryptRow(img: Image, key: seq<char>, ghost before: Grid, y: int, keyIndex: int, prevRed: int, prevGreen: int, prevBlue: int)
      returns (keyIndex': int, prevRed': int, prevGreen': int, prevBlue': int)
    requires |key| > 0 && IsRect(before, img.grid.Length1, img.grid.Length0) && 0 <= y < img.grid.Length0
    requires keyIndex == RowStart(img.grid.Length1, y)
    requires HasChannels(prevRed, prevGreen, prevBlue, EncryptedBefore(before, img.grid.Length1, img.grid.Length0, key, 0, y))
    requires forall yy, xx :: y <= yy < img.grid.Length0 && 0 <= xx < img.grid.Length1 ==> img.grid[yy, xx] == before[yy][xx]
    modifies img.grid
    ensures keyIndex' == keyIndex + img.grid.Length1
    ensures y + 1 < img.grid.Length0 ==> HasChannels(prevRed', prevGreen', prevBlue', EncryptedBefore(before, img.grid.Length1, img.grid.Length0, key, 0, y + 1))
    ensures forall yy, xx :: 0 <= yy < img.grid.Length0 && 0 <= xx < img.grid.Length1 ==>
      img.grid[yy, xx] == if yy == y then EncryptedAt(before, img.grid.Length1, img.grid.Length0, key, xx, yy) else old(img.grid[yy, xx])
  {
    var width, height := img.Width(), img.Height();
    keyIndex', prevRed', prevGreen', prevBlue' := keyIndex, prevRed, prevGreen, prevBlue;
    var x := 0;
    while x < width
      invariant 0 <= x <= width && keyIndex' == KeyIndex(width, x, y)
      invariant HasChannels(prevRed', prevGreen', prevBlue', EncryptedBefore(before, width, height, key, x, y))
      invariant forall yy, xx :: 0 <= yy < height && 0 <= xx < width ==>
        img.grid[yy, xx] == if yy == y && xx < x then EncryptedAt(before, width, height, key, xx, yy) else old(img.grid[yy, xx])
    {
      prevRed', prevGreen', prevBlue' :=
        EncryptPixelAt(img, key, keyIndex', x, y, prevRed', prevGreen', prevBlue', EncryptedBefore(before, width, height, key, x, y));
      keyIndex' := keyIndex' + 1;
      x := x + 1;
    }
  }

  /**
   * The body of `encrypt`'s inner loop: encrypts the pixel at `(x, y)` with the previous cipher
   * channels and key character `keyIndex`, and answers the new cipher channels.
   */
  method EncryptPixelAt(img: Image, key: seq<char>, keyIndex: int, x: int, y: int, prevRed: int, prevGreen: int, prevBlue: int, ghost prev: Color)
      returns (red: int, green: int, blue: int)
    requires |key| > 0 && keyIndex >= 0 && 0 <= y < img.grid.Length0 && 0 <= x < img.grid.Length1
    requires HasChannels(prevRed, prevGreen, prevBlue, prev)
    modifies img.grid
    ensures img.grid[y, x] == EncryptPixel(old(img.grid[y, x]), prev, KeyChar(key, keyIndex))
    ensures red == Red(img.grid[y, x]) && green == Green(img.grid[y, x]) && blue == Blue(img.grid[y, x])
    ensures forall yy, xx :: 0 <= yy < img.grid.Length0 && 0 <= xx < img.grid.Length1 && (yy != y || xx != x) ==>
      img.grid[yy, xx] == old(img.grid[yy, xx])
  {
    var color := img.Pixel(x, y);
    red, green, blue := Red(color), Green(color), Blue(color);
    var keyChar := KeyChar(key, keyIndex);
    red := (red + prevRed + keyChar) % 256;
    green := (green + prevGreen + keyChar) % 256;
    blue := (blue + prevBlue + keyChar) % 256;
    EncryptedChannels(color, prev, prevRed, prevGreen, prevBlue, keyChar, red, green, blue);
    var encrypted := Compose(red, green, blue);
    img.SetPixel(x, y, encrypted);
  }

  /**
   * decrypt(image, key), with each channel reduced into 0..255: visits the pixels row by row,
   * replacing each by its decryption and remembering the ciphertext it read as the previous value.
   */
  method Decrypt(img: Image, key: seq<char>)
    requires |key| > 0
    modifies img.grid
    ensures img.Rows() == Decrypted(old(img.Rows()), img.Width(), img.Height(), key)
  {
    var width, height := img.Width(), img.Height();
    ghost var before := img.Rows();
    var keyIndex := 0;
    var prevRed, prevGreen, prevBlue := 0, 0, 0;
    var y := 0;
    while y < height
      invariant 0 <= y <= height && keyIndex == RowStart(width, y)
      invariant y < height ==> HasChannels(prevRed, prevGreen, prevBlue, CipherBefore(before, width, height, 0, y))
      invariant forall yy, xx :: 0 <= yy < y && 0 <= xx < width ==> img.grid[yy, xx] == DecryptedAt(before, width, height, key, xx, yy)
      invariant forall yy, xx :: y <= yy < height && 0 <= xx < width ==> img.grid[yy, xx] == before[yy][xx]
    {
      keyIndex, prevRed, prevGreen, prevBlue := DecryptRow(img, key, before, y, keyIndex, prevRed, prevGreen, prevBlue);
      y := y + 1;
    }
    AllDecrypted(before, img.Rows(), width, height, key);
  }

  /** The inner loop of `decrypt`: decrypts row `y`, starting from key index `keyIndex` and the previous cipher channels. */
  method DecryptRow(img: Image, key: seq<char>, ghost before: Grid, y: int, keyIndex: int, prevRed: int, prevGreen: int, prevBlue: int)
      returns (keyIndex': int, prevRed': int, prevGreen': int, prevBlue': int)
    requires |key| > 0 && IsRect(before, img.grid.Length1, img.grid.Length0) && 0 <= y < img.grid.Length0
    requires keyIndex == RowStart(img.grid.Length1, y)
    requires HasChannels(prevRed, prevGreen, prevBlue, CipherBefore(before, img.grid.Length1, img.grid.Length0, 0, y))
    requires forall yy, xx :: y <= yy < img.grid.Length0 && 0 <= xx < img.grid.Length1 ==> img.grid[yy, xx] == before[yy][xx]
    modifies img.grid
    ensures keyIndex' == keyIndex + img.grid.Length1
    ensures y + 1 < img.grid.Length0 ==> HasChannels(prevRed', prevGreen', prevBlue', CipherBefore(before, img.grid.Length1, img.grid.Length0, 0, y + 1))
    ensures forall yy, xx :: 0 <= yy < img.grid.Length0 && 0 <= xx < img.grid.Length1 ==>
      img.grid[yy, xx] == if yy == y then DecryptedAt(before, img.grid.Length1, img.grid.Length0, key, xx, yy) else old(img.grid[yy, xx])
  {
    var width, height := img.Width(), img.Height();
    keyIndex', prevRed', prevGreen', prevBlue' := keyIndex, prevRed, prevGreen, prevBlue;
    var x := 0;
    while x < width
      invariant 0 <= x <= width && keyIndex' == KeyIndex(width, x, y)
      invariant HasChannels(prevRed', prevGreen', prevBlue', CipherBefore(before, width, height, x, y))
      invariant forall yy, xx :: 0 <= yy < height && 0 <= xx < width ==>
        img.grid[yy, xx] == if yy == y && xx < x then DecryptedAt(before, width, height, key, xx, yy) else old(img.grid[yy, xx])
    {
      prevRed', prevGreen', prevBlue' :=
        DecryptPixelAt(img, key, keyIndex', x, y, prevRed', prevGreen', prevBlue', CipherBefore(before, width, height, x, y));
      keyIndex' := keyIndex' + 1;
      x := x + 1;
    }
  }

  /**
   * The body of `decrypt`'s inner loop: decrypts the pixel at `(x, y)` with the previous cipher
   * channels and key character `keyIndex`, and answers the cipher channels it read.
   */
  method DecryptPixelAt(img: Image, key: seq<char>, keyIndex: int, x: int, y: int, prevRed: int, prevGreen: int, prevBlue: int, ghost prev: Color)
      returns (red: int, green: int, blue: int)
    requires |key| > 0 && keyIndex >= 0 && 0 <= y < img.grid.Length0 && 0 <= x < img.grid.Length1
    requires HasChannels(prevRed, prevGreen, prevBlue, prev)
    modifies img.grid
    ensures img.grid[y, x] == DecryptPixel(old(img.grid[y, x]), prev, KeyChar(key, keyIndex))
    ensures red == Red(old(img.grid[y, x])) && green == Green(old(img.grid[y, x])) && blue == Blue(old(img.grid[y, x]))
    ensures forall yy, xx :: 0 <= yy < img.grid.Length0 && 0 <= xx < img.grid.Length1 && (yy != y || xx != x) ==>
      img.grid[yy, xx] == old(img.grid[yy, xx])
  {
    var color := img.Pixel(x, y);
    red, green, blue := Red(color), Green(color), Blue(color);
    var keyChar := KeyChar(key, keyIndex);
    var decryptedRed := (red - prevRed - keyChar + 256) % 256;
    var decryptedGreen := (green - prevGreen - keyChar + 256) % 256;
    var decryptedBlue := (blue - prevBlue - keyChar + 256) % 256;
    DecryptedChannels(color, prev, prevRed, prevGreen, prevBlue, keyChar, decryptedRed, decryptedGreen, decryptedBlue);
    var decrypted := Compose(decryptedRed, decryptedGreen, decryptedBlue);
    img.SetPixel(x, y, decrypted);
  }
}
