/** Conversion between packed pixels and grayscale, for the three formats of the display. */
module Pixels {
  import opened Arithmetic
  import opened Bytes

  /** A colour field in the 32-bit word of a pixel, as powers of two: the place of its lowest
      bit, the number of its values, and the weight of its lowest bit in an 8-bit colour. */
  datatype Field = Field(unit: nat, range: nat, step: nat)

  datatype Format = RGB565 | RGB32 | A2R10G10B10 {
    /** Offsets 11, 16 and 22; five bits, then eight and eight. */
    function Red(): Field {
      match this
      case RGB565 => Field(0x800, 0x20, 8)
      case RGB32 => Field(0x1_0000, 0x100, 1)
      case A2R10G10B10 => Field(0x40_0000, 0x100, 1)
    }

    /** Offsets 5, 8 and 12; six bits, then eight and eight. */
    function Green(): Field {
      match this
      case RGB565 => Field(0x20, 0x40, 4)
      case RGB32 => Field(0x100, 0x100, 1)
      case A2R10G10B10 => Field(0x1000, 0x100, 1)
    }

    /** Offsets 0, 0 and 2; five bits, then eight and eight. */
    function Blue(): Field {
      match this
      case RGB565 => Field(1, 0x20, 8)
      case RGB32 => Field(1, 0x100, 1)
      case A2R10G10B10 => Field(4, 0x100, 1)
    }

    function PixelBytes(): (n: nat)
      ensures 0 < n <= 4
    {
      if RGB565? then 2 else 4
    }
  }

  /** A field of a word. */
  function Extract(word: nat, f: Field): nat
    requires f.unit > 0 && f.range > 0
  {
    (word / f.unit) % f.range
  }

  /** The top bits of a gray value, as many as the field has, in the field's place. */
  function Place(gray: Byte, f: Field): nat
    requires f.step > 0 && f.range > 0
  {
    ((gray / f.step) % f.range) * f.unit
  }

  /** Bitwise or. */
  function Or(a: nat, b: nat): nat {
    if a == 0 then b
    else 2 * Or(a / 2, b / 2) + if a % 2 == 1 || b % 2 == 1 then 1 else 0
  }

  /** The word of a gray pixel: its three fields in one word. */
  function GrayWord(gray: Byte, format: Format): nat {
    Or(Or(Place(gray, format.Red()), Place(gray, format.Green())), Place(gray, format.Blue()))
  }

  /** A colour field scaled to 8 bits. */
  function Scaled(word: nat, f: Field): nat
    requires f.unit > 0 && f.range > 0
  {
    f.step * Extract(word, f)
  }

  /** The gray value before the clamp: weights 0.299, 0.587 and 0.114, rounded down. */
  function Intensity(word: nat, format: Format): nat {
    (299 * Scaled(word, format.Red()) + 587 * Scaled(word, format.Green()) + 114 * Scaled(word, format.Blue())) / 1000
  }

  function GrayOf(word: nat, format: Format): Byte {
    if Intensity(word, format) <= 0xff then Intensity(word, format) else 0xff
  }

  /** The 32-bit word that starts at a position, lowest byte first. */
  function WordAt(b: seq<Byte>, p: nat): nat
    requires p + 4 <= |b|
  {
    (b[p] as int) + 0x100 * (b[p + 1] as int) + 0x1_0000 * (b[p + 2] as int) + 0x100_0000 * (b[p + 3] as int)
  }

  function ByteOf(word: nat, j: nat): Byte
    requires j < 4
  {
    if j == 0 then word % 0x100
    else if j == 1 then (word / 0x100) % 0x100
    else if j == 2 then (word / 0x1_0000) % 0x100
    else (word / 0x100_0000) % 0x100
  }

  /** The first n bytes of a word. */
  function WordBytes(word: nat, n: nat): (b: seq<Byte>)
    requires 0 < n <= 4
    ensures |b| == n
  {
    [ByteOf(word, 0), ByteOf(word, 1), ByteOf(word, 2), ByteOf(word, 3)][..n]
  }

  /** Words packed at n bytes each. */
  function Pack(words: seq<nat>, n: nat): (b: seq<Byte>)
    requires 0 < n <= 4
    ensures |b| == |words| * n
  {
    if words == [] then []
    else
      var last := |words| - 1;
      assert (last + 1) * n == last * n + n;
      Pack(words[..last], n) + WordBytes(words[last], n)
  }

  function GrayWords(gray: seq<Byte>, format: Format): (words: seq<nat>)
    ensures |words| == |gray|
  {
    seq(|gray|, i requires 0 <= i < |gray| => GrayWord(gray[i], format))
  }

  /** The bytes of a gray image in a format. */
  function ToRgb(gray: seq<Byte>, format: Format): (b: seq<Byte>)
    ensures |b| == |gray| * format.PixelBytes()
  {
    Pack(GrayWords(gray, format), format.PixelBytes())
  }

  /** The gray image of a packed one; each pixel is read as a whole word, so that the buffer
      must go on a little after the last pixel of a two-byte format. */
  function ToGray(b: seq<Byte>, count: nat, format: Format): (gray: seq<Byte>)
    requires count == 0 || (count - 1) * format.PixelBytes() + 4 <= |b|
    ensures |gray| == count
  {
    seq(count, i requires 0 <= i < count =>
      assert i * format.PixelBytes() <= (count - 1) * format.PixelBytes();
      GrayOf(WordAt(b, i * format.PixelBytes()), format))
  }

  predicate IsPowerOfTwo(n: nat) {
    n == 1 || (n > 0 && n % 2 == 0 && IsPowerOfTwo(n / 2))
  }

  /** Or is addition where one number lies above all bits of the other. */
  lemma {:induction false} OrOfTwo(a: nat, high: nat, low: nat, unit: nat)
    requires IsPowerOfTwo(unit) && low < unit && a == high * unit
    ensures Or(a, low) == a + low
    decreases unit
  {
    if unit == 1 {
      OrWithZero(a);
    } else if a > 0 {
      var half := unit / 2;
      var upper := high * half;
      assert a == 2 * upper by {
        assert unit == 2 * half;
      }
      OrOfTwo(upper, high, low / 2, half);
      OrDoubled(upper, low);
    }
  }

  lemma OrDoubled(a: nat, b: nat)
    requires a > 0
    ensures Or(2 * a, b) == 2 * Or(a, b / 2) + b % 2
  {
    assert (2 * a) / 2 == a;
  }

  lemma {:induction false} OrWithZero(a: nat)
    ensures Or(a, 0) == a
  {
    if a > 0 {
      OrWithZero(a / 2);
    }
  }

  /** Three fields, each below the place of the next. */
  lemma OrOfThree(a: nat, b: nat, c: nat, high: nat, highUnit: nat, above: nat, unit: nat)
    requires IsPowerOfTwo(highUnit) && a == high * highUnit && b < highUnit
    requires IsPowerOfTwo(unit) && a + b == above * unit && c < unit
    ensures Or(Or(a, b), c) == a + b + c
  {
    OrOfTwo(a, high, b, highUnit);
    OrOfTwo(a + b, above, c, unit);
  }

  /** The fields of a format lie apart and within its pixel, so that placing them in one word
      by or is the same as adding them, for any values of the three fields. */
  lemma FieldsApart(format: Format, r: nat, g: nat, b: nat)
    requires r < format.Red().range && g < format.Green().range && b < format.Blue().range
    ensures var red, green, blue := r * format.Red().unit, g * format.Green().unit, b * format.Blue().unit;
            && Or(Or(red, green), blue) == red + green + blue
            && red + green + blue < if format == RGB565 then 0x1_0000 else 0x1_0000_0000
  {
    PowersOfTwo();
    match format {
      case RGB565 => OrOfThree(r * 0x800, g * 0x20, b * 1, r, 0x800, r * 0x40 + g, 0x20);
      case RGB32 => OrOfThree(r * 0x1_0000, g * 0x100, b * 1, r, 0x1_0000, r * 0x100 + g, 0x100);
      case A2R10G10B10 => OrOfThree(r * 0x40_0000, g * 0x1000, b * 4, r, 0x40_0000, r * 0x400 + g, 0x1000);
    }
  }

  lemma PowersOfTwo()
    ensures IsPowerOfTwo(0x20) && IsPowerOfTwo(0x100) && IsPowerOfTwo(0x800) && IsPowerOfTwo(0x1000)
    ensures IsPowerOfTwo(0x1_0000) && IsPowerOfTwo(0x40_0000)
  {
    TimesSixteen(1);
    TimesTwo(0x10);
    TimesSixteen(0x10);
    TimesTwo(0x400);
    TimesTwo(0x200);
    TimesTwo(0x100);
    TimesSixteen(0x100);
    TimesSixteen(0x1000);
    TimesSixteen(0x1_0000);
    TimesTwo(0x10_0000);
    TimesTwo(0x20_0000);
  }

  lemma TimesTwo(n: nat)
    ensures IsPowerOfTwo(n) ==> IsPowerOfTwo(2 * n)
  {
  }

  lemma TimesSixteen(n: nat)
    ensures IsPowerOfTwo(n) ==> IsPowerOfTwo(16 * n)
  {
    TimesTwo(n);
    TimesTwo(2 * n);
    TimesTwo(4 * n);
    TimesTwo(8 * n);
  }

  /** The word of a gray value from its values in the three fields. */
  lemma GrayWordIsSum(gray: Byte, format: Format, r: nat, g: nat, b: nat)
    requires r == gray / format.Red().step && g == gray / format.Green().step && b == gray / format.Blue().step
    ensures r < format.Red().range && g < format.Green().range && b < format.Blue().range
    ensures GrayWord(gray, format) == r * format.Red().unit + g * format.Green().unit + b * format.Blue().unit
    ensures GrayWord(gray, format) < if format == RGB565 then 0x1_0000 else 0x1_0000_0000
  {
    PlaceOf(gray, format.Red(), r);
    PlaceOf(gray, format.Green(), g);
    PlaceOf(gray, format.Blue(), b);
    FieldsApart(format, r, g, b);
  }

  lemma GrayWordBound(gray: Byte, format: Format)
    ensures GrayWord(gray, format) < if format == RGB565 then 0x1_0000 else 0x1_0000_0000
  {
    GrayWordIsSum(gray, format, gray / format.Red().step, gray / format.Green().step, gray / format.Blue().step);
  }

  lemma PlaceOf(gray: Byte, f: Field, value: nat)
    requires f.step in {1, 4, 8} && f.step * f.range == 0x100 && value == gray / f.step
    ensures f.range > 0 && value < f.range && Place(gray, f) == value * f.unit
  {
    assert f.range == if f.step == 1 then 0x100 else if f.step == 4 then 0x40 else 0x20;
  }

  /** No pixel at all is bright enough for the clamp. */
  lemma ClampNeverFires(word: nat, format: Format)
    ensures Intensity(word, format) <= 0xff
    ensures GrayOf(word, format) == Intensity(word, format)
  {
    var r, g, b := Extract(word, format.Red()), Extract(word, format.Green()), Extract(word, format.Blue());
    if format == RGB565 {
      assert 299 * (8 * r) + 587 * (4 * g) + 114 * (8 * b) <= 299 * 248 + 587 * 252 + 114 * 248;
    } else {
      assert 299 * r + 587 * g + 114 * b <= 255_000;
    }
  }

  /** A field does not see the bits `turns` times its range above it. */
  lemma FieldSeesOwnBits(own: nat, beyond: nat, unit: nat, range: nat, turns: nat)
    requires unit > 0 && range > 0
    ensures ((own + beyond * turns * range * unit) / unit) % range == (own / unit) % range
  {
    AddMultiple(own, beyond * turns * range, unit);
    AddMultiple(own / unit, beyond * turns, range);
  }

  /** Bits beyond the pixel's own do not matter, although the word read has them. */
  lemma OwnBitsOnly(own: nat, beyond: nat)
    ensures GrayOf(own + 0x1_0000 * beyond, RGB565) == GrayOf(own, RGB565)
  {
    FieldSeesOwnBits(own, beyond, 0x800, 0x20, 1);
    FieldSeesOwnBits(own, beyond, 0x20, 0x40, 0x20);
    FieldSeesOwnBits(own, beyond, 1, 0x20, 0x800);
    SameFields(own + 0x1_0000 * beyond, own, RGB565);
  }

  lemma SameFields(word: nat, other: nat, format: Format)
    requires Extract(word, format.Red()) == Extract(other, format.Red())
    requires Extract(word, format.Green()) == Extract(other, format.Green())
    requires Extract(word, format.Blue()) == Extract(other, format.Blue())
    ensures GrayOf(word, format) == GrayOf(other, format)
  {
  }

  /** The gray value of a pixel depends on its own bytes only. */
  lemma OwnBytesOnly(b: seq<Byte>, c: seq<Byte>, p: nat, format: Format)
    requires p + 4 <= |b| && p + 4 <= |c|
    requires b[p..p + format.PixelBytes()] == c[p..p + format.PixelBytes()]
    ensures GrayOf(WordAt(b, p), format) == GrayOf(WordAt(c, p), format)
  {
    var n := format.PixelBytes();
    assert b[p..p + n][0] == c[p..p + n][0] && b[p..p + n][1] == c[p..p + n][1];
    if format == RGB565 {
      LowBytes(b, p);
      LowBytes(c, p);
    } else {
      assert b[p..p + n][2] == c[p..p + n][2] && b[p..p + n][3] == c[p..p + n][3];
    }
  }

  lemma LowBytes(b: seq<Byte>, p: nat)
    requires p + 4 <= |b|
    ensures GrayOf(WordAt(b, p), RGB565) == GrayOf((b[p] as int) + 0x100 * (b[p + 1] as int), RGB565)
  {
    OwnBitsOnly((b[p] as int) + 0x100 * (b[p + 1] as int), (b[p + 2] as int) + 0x100 * (b[p + 3] as int));
  }

  /** A gray value comes back from its word: exactly where the fields have eight bits, and at
      most five lower where they have five and six. */
  lemma GrayIsRecovered(gray: Byte, format: Format)
    ensures GrayWord(gray, format) < if format == RGB565 then 0x1_0000 else 0x1_0000_0000
    ensures Near(gray, GrayOf(GrayWord(gray, format), format), format)
  {
    GrayWordBound(gray, format);
    if format == RGB565 {
      Gray565(gray);
    } else {
      Gray8888(gray, format);
    }
  }

  /** How close a gray value comes back in each format. */
  predicate Near(gray: Byte, back: Byte, format: Format) {
    if format == RGB565 then gray - 5 <= back <= gray else back == gray
  }

  /** Any colour packed into a word comes out of it again, field by field, and its gray value
      weighs the three 8-bit colours with 0.299, 0.587 and 0.114. */
  lemma ColourIsWeighed(r: nat, g: nat, b: nat, format: Format)
    requires r < format.Red().range && g < format.Green().range && b < format.Blue().range
    ensures var word := r * format.Red().unit + g * format.Green().unit + b * format.Blue().unit;
            && Extract(word, format.Red()) == r && Extract(word, format.Green()) == g
                && Extract(word, format.Blue()) == b
            && GrayOf(word, format) ==
                 (299 * (format.Red().step * r) + 587 * (format.Green().step * g)
                     + 114 * (format.Blue().step * b)) / 1000
  {
    var word := r * format.Red().unit + g * format.Green().unit + b * format.Blue().unit;
    match format {
      case RGB565 => Fields565(r, g, b);
      case RGB32 => Fields32(r, g, b);
      case A2R10G10B10 => Fields1010(r, g, b);
    }
    ClampNeverFires(word, format);
  }

  lemma Fields565(r: nat, g: nat, b: nat)
    requires r < 32 && g < 64 && b < 32
    ensures var word := r * 0x800 + g * 0x20 + b * 1;
            (word / 0x800) % 0x20 == r && (word / 0x20) % 0x40 == g && (word / 1) % 0x20 == b
  {
    var word := r * 0x800 + g * 0x20 + b * 1;
    DivModUnique(word, 0x800, r, g * 0x20 + b);
    DivModUnique(word, 0x20, r * 64 + g, b);
    DivModUnique(r * 64 + g, 64, r, g);
  }

  lemma Fields32(r: nat, g: nat, b: nat)
    requires r < 0x100 && g < 0x100 && b < 0x100
    ensures var word := r * 0x1_0000 + g * 0x100 + b * 1;
            (word / 0x1_0000) % 0x100 == r && (word / 0x100) % 0x100 == g && (word / 1) % 0x100 == b
  {
    var word := r * 0x1_0000 + g * 0x100 + b * 1;
    DivModUnique(word, 0x1_0000, r, g * 0x100 + b);
    DivModUnique(word, 0x100, r * 0x100 + g, b);
    DivModUnique(r * 0x100 + g, 0x100, r, g);
  }

  lemma Fields1010(r: nat, g: nat, b: nat)
    requires r < 0x100 && g < 0x100 && b < 0x100
    ensures var word := r * 0x40_0000 + g * 0x1000 + b * 4;
            (word / 0x40_0000) % 0x100 == r && (word / 0x1000) % 0x100 == g && (word / 4) % 0x100 == b
  {
    var word := r * 0x40_0000 + g * 0x1000 + b * 4;
    DivModUnique(word, 0x40_0000, r, g * 0x1000 + b * 4);
    DivModUnique(word, 0x1000, r * 0x400 + g, b * 4);
    DivModUnique(r * 0x400 + g, 0x100, r * 4, g);
    DivModUnique(word, 4, r * 0x10_0000 + g * 0x400 + b, 0);
    DivModUnique(r * 0x10_0000 + g * 0x400 + b, 0x100, r * 0x1000 + g * 4, b);
  }

  lemma Gray565(gray: Byte)
    ensures gray - 5 <= GrayOf(GrayWord(gray, RGB565), RGB565) <= gray
  {
    var five, six := gray / 8, gray / 4;
    GrayWordIsSum(gray, RGB565, five, six, five);
    GrayOfFiveSixFive(GrayWord(gray, RGB565), gray, five, six);
  }

  lemma GrayOfFiveSixFive(word: nat, gray: Byte, five: nat, six: nat)
    requires five == gray / 8 && six == gray / 4
    requires word == five * 0x800 + six * 0x20 + five * 1
    ensures gray - 5 <= GrayOf(word, RGB565) <= gray
  {
    ColourIsWeighed(five, six, five, RGB565);
    Weights565(gray, five, six);
  }

  lemma Weights565(gray: int, five: int, six: int)
    requires 0 <= five && 0 <= six && gray - 7 <= 8 * five <= gray && gray - 3 <= 4 * six <= gray
    ensures gray - 5 <= (299 * (8 * five) + 587 * (4 * six) + 114 * (8 * five)) / 1000 <= gray
  {
  }

  lemma Gray8888(gray: Byte, format: Format)
    requires format != RGB565
    ensures GrayOf(GrayWord(gray, format), format) == gray
  {
    GrayWordIsSum(gray, format, gray, gray, gray);
    GrayOfEightEightEight(GrayWord(gray, format), gray, format);
  }

  lemma GrayOfEightEightEight(word: nat, gray: Byte, format: Format)
    requires format != RGB565
    requires word == gray * format.Red().unit + gray * format.Green().unit + gray * format.Blue().unit
    ensures GrayOf(word, format) == gray
  {
    ColourIsWeighed(gray, gray, gray, format);
    Weights8888(gray);
  }

  lemma Weights8888(gray: int)
    ensures (299 * (1 * gray) + 587 * (1 * gray) + 114 * (1 * gray)) / 1000 == gray
  {
  }

  /** Gray to RGB and back over a whole image, whatever follows it in memory. */
  lemma ImageIsRecovered(gray: seq<Byte>, format: Format, after: seq<Byte>)
    requires |after| >= 4 - format.PixelBytes()
    ensures gray != [] ==> (|gray| - 1) * format.PixelBytes() + 4 <= |ToRgb(gray, format) + after|
    ensures var back := ToGray(ToRgb(gray, format) + after, |gray|, format);
            forall i :: 0 <= i < |gray| ==> Near(gray[i], back[i], format)
  {
    var words := GrayWords(gray, format);
    forall i | 0 <= i < |gray|
      ensures i * format.PixelBytes() + 4 <= |Pack(words, format.PixelBytes()) + after|
      ensures Near(gray[i], GrayOf(WordAt(Pack(words, format.PixelBytes()) + after,
          i * format.PixelBytes()), format), format)
    {
      GrayIsRecovered(gray[i], format);
      PixelIsRead(words, format, after, i);
    }
  }

  /** The bytes of pixel i are those of its word. */
  lemma {:induction false} PixelAt(words: seq<nat>, n: nat, i: nat, j: nat)
    requires i < |words| && j < n <= 4
    ensures i * n + j < |words| * n
    ensures Pack(words, n)[i * n + j] == ByteOf(words[i], j)
  {
    var last := |words| - 1;
    MulMonotone(i + 1, |words|, n);
    assert (i + 1) * n == i * n + n;
    if i < last {
      PixelAt(words[..last], n, i, j);
    }
  }

  lemma PixelIsRead(words: seq<nat>, format: Format, after: seq<Byte>, i: nat)
    requires |after| >= 4 - format.PixelBytes() && i < |words|
    requires words[i] < if format == RGB565 then 0x1_0000 else 0x1_0000_0000
    ensures i * format.PixelBytes() + 4 <= |Pack(words, format.PixelBytes()) + after|
    ensures GrayOf(WordAt(Pack(words, format.PixelBytes()) + after, i * format.PixelBytes()), format)
        == GrayOf(words[i], format)
  {
    if format == RGB565 {
      TwoBytePixelIsRead(words, after, i);
    } else {
      FourBytePixelIsRead(words, after, i);
    }
  }

  lemma TwoBytePixelIsRead(words: seq<nat>, after: seq<Byte>, i: nat)
    requires |after| >= 2 && i < |words| && words[i] < 0x1_0000
    ensures i * 2 + 4 <= |Pack(words, 2) + after|
    ensures GrayOf(WordAt(Pack(words, 2) + after, i * 2), RGB565) == GrayOf(words[i], RGB565)
  {
    PixelAt(words, 2, i, 0);
    PixelAt(words, 2, i, 1);
    GrayOfTwoBytes(Pack(words, 2) + after, i * 2, words[i]);
  }

  lemma FourBytePixelIsRead(words: seq<nat>, after: seq<Byte>, i: nat)
    requires i < |words| && words[i] < 0x1_0000_0000
    ensures i * 4 + 4 <= |Pack(words, 4) + after|
    ensures WordAt(Pack(words, 4) + after, i * 4) == words[i]
  {
    PixelAt(words, 4, i, 0);
    PixelAt(words, 4, i, 1);
    PixelAt(words, 4, i, 2);
    PixelAt(words, 4, i, 3);
    WordOfBytes(Pack(words, 4) + after, i * 4, words[i]);
  }

  /** Reading a word where its own bytes were written gives its gray value. */
  lemma GrayOfTwoBytes(b: seq<Byte>, p: nat, word: nat)
    requires p + 4 <= |b| && word < 0x1_0000
    requires b[p] == ByteOf(word, 0) && b[p + 1] == ByteOf(word, 1)
    ensures GrayOf(WordAt(b, p), RGB565) == GrayOf(word, RGB565)
  {
    TwoBytes(word, b[p], b[p + 1]);
    LowBytes(b, p);
  }

  lemma TwoBytes(word: nat, b0: Byte, b1: Byte)
    requires word < 0x1_0000 && b0 == ByteOf(word, 0) && b1 == ByteOf(word, 1)
    ensures (b0 as int) + 0x100 * (b1 as int) == word
  {
  }

  lemma WordOfBytes(b: seq<Byte>, p: nat, word: nat)
    requires p + 4 <= |b| && word < 0x1_0000_0000
    requires b[p] == ByteOf(word, 0) && b[p + 1] == ByteOf(word, 1)
    requires b[p + 2] == ByteOf(word, 2) && b[p + 3] == ByteOf(word, 3)
    ensures WordAt(b, p) == word
  {
    FourBytes(word);
  }

  lemma FourBytes(word: nat)
    requires word < 0x1_0000_0000
    ensures (ByteOf(word, 0) as int) + 0x100 * (ByteOf(word, 1) as int) + 0x1_0000 * (ByteOf(word, 2) as int)
            + 0x100_0000 * (ByteOf(word, 3) as int) == word
  {
    DivDiv(word, 0x100, 0x100);
    DivDiv(word, 0x1_0000, 0x100);
    var high := word / 0x1_0000;
    assert word / 0x100_0000 == high / 0x100 < 0x100;
    assert high == high % 0x100 + 0x100 * (high / 0x100);
    assert word == word % 0x100 + 0x100 * (word / 0x100);
    assert word / 0x100 == (word / 0x100) % 0x100 + 0x100 * high;
  }

  // ----- Samples of each format

  /** Full red, green and blue: where the fields are, and how much each colour weighs. */
  lemma FullColours()
    ensures GrayOf(0xF800, RGB565) == 74 && GrayOf(0x07E0, RGB565) == 147 && GrayOf(0x001F, RGB565) == 28
    ensures GrayOf(0xFF_0000, RGB32) == 76 && GrayOf(0x00_FF00, RGB32) == 149 && GrayOf(0x00_00FF, RGB32) == 29
    ensures GrayOf(0x3FC0_0000, A2R10G10B10) == 76 && GrayOf(0x000F_F000, A2R10G10B10) == 149
    ensures GrayOf(0x0000_03FC, A2R10G10B10) == 29
  {
    ColourIsWeighed(31, 0, 0, RGB565);
    ColourIsWeighed(0, 63, 0, RGB565);
    ColourIsWeighed(0, 0, 31, RGB565);
    ColourIsWeighed(255, 0, 0, RGB32);
    ColourIsWeighed(0, 255, 0, RGB32);
    ColourIsWeighed(0, 0, 255, RGB32);
    ColourIsWeighed(255, 0, 0, A2R10G10B10);
    ColourIsWeighed(0, 255, 0, A2R10G10B10);
    ColourIsWeighed(0, 0, 255, A2R10G10B10);
  }

  /** A gray pixel in each format, byte by byte: the lowest byte first. */
  lemma GrayBytes(gray: seq<Byte>, format: Format)
    requires gray == [0x80]
    ensures ToRgb(gray, format) ==
            match format
            case RGB565 => [0x10, 0x84]
            case RGB32 => [0x80, 0x80, 0x80, 0x00]
            case A2R10G10B10 => [0x00, 0x02, 0x08, 0x20]
  {
    var five, six := 16, 32;
    match format {
      case RGB565 => OnePixel(gray, format, five, six, five, 0x8410);
      case RGB32 => OnePixel(gray, format, gray[0], gray[0], gray[0], 0x80_8080);
      case A2R10G10B10 => OnePixel(gray, format, gray[0], gray[0], gray[0], 0x2008_0200);
    }
    SampleWords();
  }

  lemma SampleWords()
    ensures WordBytes(0x8410, 2) == [0x10, 0x84] && WordBytes(0x80_8080, 4) == [0x80, 0x80, 0x80, 0x00]
    ensures WordBytes(0x2008_0200, 4) == [0x00, 0x02, 0x08, 0x20]
  {
  }

  lemma OnePixel(gray: seq<Byte>, format: Format, r: nat, g: nat, b: nat, word: nat)
    requires |gray| == 1
    requires r == gray[0] / format.Red().step && g == gray[0] / format.Green().step && b == gray[0] / format.Blue().step
    requires word == r * format.Red().unit + g * format.Green().unit + b * format.Blue().unit
    ensures ToRgb(gray, format) == WordBytes(word, format.PixelBytes())
  {
    GrayWordIsSum(gray[0], format, r, g, b);
    OneWord(GrayWords(gray, format), word, format.PixelBytes());
  }

  lemma OneWord(words: seq<nat>, word: nat, n: nat)
    requires words == [word] && 0 < n <= 4
    ensures Pack(words, n) == WordBytes(word, n)
  {
    assert words[..0] == [] && Pack(words[..0], n) == [];
  }

  // ----- The conversions in place

  method RgbToGrayscale(source: array<Byte>, dest: array<Byte>, count: nat, format: Format)
    requires source != dest && count <= dest.Length
    requires count == 0 || (count - 1) * format.PixelBytes() + 4 <= source.Length
    modifies dest
    ensures dest[..] == ToGray(source[..], count, format) + old(dest[count..])
  {
    var position, n := 0, format.PixelBytes();
    for i := 0 to count
      invariant position == i * n
      invariant forall k :: 0 <= k < i ==> dest[k] == ToGray(source[..], count, format)[k]
      invariant forall k :: i <= k < dest.Length ==> dest[k] == old(dest[k])
    {
      assert i * n <= (count - 1) * n;
      var intensity := Intensity(WordAt(source[position..position + 4], 0), format);
      assert WordAt(source[position..position + 4], 0) == WordAt(source[..], position);
      dest[i] := if intensity <= 0xff then intensity else 0xff;
      position := position + n;
    }
  }

  /** Copy the bytes of a pixel's word. */
  method PutPixel(dest: array<Byte>, position: nat, word: nat, n: nat)
    requires 0 < n <= 4 && position + n <= dest.Length
    modifies dest
    ensures dest[..] == old(dest[..position]) + WordBytes(word, n) + old(dest[position + n..])
  {
    var bytes := WordBytes(word, n);
    for j := 0 to n
      invariant forall k :: 0 <= k < dest.Length ==>
                  dest[k] == if position <= k < position + j then bytes[k - position] else old(dest[k])
    {
      dest[position + j] := bytes[j];
    }
  }

  /** The least and the greatest value of an image, with the values logged for an empty one. */
  function Least(gray: seq<Byte>): Byte {
    if gray == [] then 0xff
    else
      var before, last := Least(gray[..|gray| - 1]), gray[|gray| - 1];
      if last < before then last else before
  }

  function Greatest(gray: seq<Byte>): Byte {
    if gray == [] then 0
    else
      var before, last := Greatest(gray[..|gray| - 1]), gray[|gray| - 1];
      if last > before then last else before
  }

  /** They bound every pixel, and some pixel has each of them. */
  lemma {:induction false} RangeOfImage(gray: seq<Byte>)
    ensures forall k :: 0 <= k < |gray| ==> Least(gray) <= gray[k] <= Greatest(gray)
    ensures gray != [] ==> Least(gray) in gray && Greatest(gray) in gray
    ensures gray == [] ==> Least(gray) == 0xff && Greatest(gray) == 0
  {
    if gray != [] {
      var before := gray[..|gray| - 1];
      RangeOfImage(before);
      assert gray == before + [gray[|gray| - 1]];
    }
  }

  lemma PackStep(words: seq<nat>, n: nat, i: nat)
    requires i < |words| && 0 < n <= 4
    ensures Pack(words[..i + 1], n) == Pack(words[..i], n) + WordBytes(words[i], n)
  {
    assert words[..i + 1][..i] == words[..i];
  }

  lemma PixelEnd(words: seq<nat>, n: nat, i: nat)
    requires i < |words|
    ensures (i + 1) * n == i * n + n <= |words| * n
  {
    MulMonotone(i + 1, |words|, n);
    Distribute(i, 1, n);
  }

  /** Store the word of pixel i behind those of the pixels before it. */
  method StorePixel(dest: array<Byte>, position: nat, word: nat, n: nat,
      ghost words: seq<nat>, ghost i: nat, ghost before: seq<Byte>)
    returns (next: nat)
    requires 0 < n <= 4 && i < |words| && words[i] == word
    requires position == i * n && |words| * n <= dest.Length == |before|
    requires dest[..] == Pack(words[..i], n) + before[position..]
    modifies dest
    ensures next == (i + 1) * n <= dest.Length
    ensures dest[..] == Pack(words[..i + 1], n) + before[next..]
  {
    PixelEnd(words, n, i);
    FilledUpTo(Pack(words[..i], n), before, position, n);
    PutPixel(dest, position, word, n);
    PackStep(words, n, i);
    next := position + n;
  }

  lemma RangeStep(gray: seq<Byte>, i: nat)
    requires i < |gray|
    ensures Least(gray[..i + 1]) == if gray[i] < Least(gray[..i]) then gray[i] else Least(gray[..i])
    ensures Greatest(gray[..i + 1]) == if gray[i] > Greatest(gray[..i]) then gray[i] else Greatest(gray[..i])
  {
    assert gray[..i + 1][..i] == gray[..i];
  }

  /** Widen the range of the pixels before pixel i to hold it too. */
  method WidenRange(gray: seq<Byte>, i: nat, minimum: Byte, maximum: Byte) returns (low: Byte, high: Byte)
    requires i < |gray|
    requires minimum == Least(gray[..i]) && maximum == Greatest(gray[..i])
    ensures low == Least(gray[..i + 1]) && high == Greatest(gray[..i + 1])
  {
    low, high := minimum, maximum;
    RangeStep(gray, i);
    if gray[i] > maximum {
      high := gray[i];
    }
    if gray[i] < minimum {
      low := gray[i];
    }
  }

  lemma FilledUpTo(packed: seq<Byte>, before: seq<Byte>, position: nat, n: nat)
    requires |packed| == position && position + n <= |before|
    ensures (packed + before[position..])[..position] == packed
    ensures (packed + before[position..])[position + n..] == before[position + n..]
  {
  }

  /** The loop over the pixels, for any way of making a word from a gray value. */
  method ConvertPixels(gray: seq<Byte>, dest: array<Byte>, n: nat, word: Byte -> nat, ghost words: seq<nat>)
    returns (minimum: Byte, maximum: Byte)
    requires 0 < n <= 4 && |gray| * n <= dest.Length
    requires |words| == |gray| && forall i :: 0 <= i < |gray| ==> words[i] == word(gray[i])
    modifies dest
    ensures dest[..] == Pack(words, n) + old(dest[|gray| * n..])
    ensures minimum == Least(gray) && maximum == Greatest(gray)
  {
    minimum, maximum := 0xff, 0x00;
    var position := 0;
    ghost var before := dest[..];
    for i := 0 to |gray|
      invariant position == i * n <= dest.Length
      invariant dest[..] == Pack(words[..i], n) + before[position..]
      invariant minimum == Least(gray[..i]) && maximum == Greatest(gray[..i])
    {
      var color := word(gray[i]);
      minimum, maximum := WidenRange(gray, i, minimum, maximum);
      position := StorePixel(dest, position, color, n, words, i, before);
    }
    assert words[..|gray|] == words && gray[..|gray|] == gray;
  }

  /** Also the least and the greatest gray value, which the source logs. */
  method GrayscaleToRgb(source: array<Byte>, dest: array<Byte>, count: nat, format: Format)
    returns (minimum: Byte, maximum: Byte)
    requires source != dest && count <= source.Length && count * format.PixelBytes() <= dest.Length
    modifies dest
    ensures dest[..] == ToRgb(source[..count], format) + old(dest[count * format.PixelBytes()..])
    ensures minimum == Least(source[..count]) && maximum == Greatest(source[..count])
  {
    ghost var words := GrayWords(source[..count], format);
    minimum, maximum :=
      ConvertPixels(source[..count], dest, format.PixelBytes(), (gray: Byte) => GrayWord(gray, format), words);
  }
}
