/** The FRM container of raw camera frames: a text header of six lines, then the samples. */
module FrmCodec {
  import opened Arithmetic
  import opened Bytes
  import opened Sequences
  import Decimal

  // ----- Text in a binary file

  const NEWLINE: Byte := 10

  predicate IsLine(s: string) {
    forall i :: 0 <= i < |s| ==> s[i] as int < 256 && s[i] != '\n'
  }

  function Encode(s: string): (b: seq<Byte>)
    requires IsLine(s)
    ensures |b| == |s|
  {
    if s == "" then [] else [s[0] as int] + Encode(s[1..])
  }

  function Text(b: seq<Byte>): (s: string)
    ensures |s| == |b|
  {
    if b == [] then "" else [b[0] as char] + Text(b[1..])
  }

  lemma {:induction false} TextOfEncoded(s: string)
    requires IsLine(s)
    ensures Text(Encode(s)) == s
  {
    if s != "" {
      TextOfEncoded(s[1..]);
      assert Encode(s)[1..] == Encode(s[1..]);
    }
  }

  /** A line of the file with its end. */
  function Line(s: string): seq<Byte>
    requires IsLine(s)
  {
    Encode(s) + [NEWLINE]
  }

  /** Length of the first line, its newline included; the rest of the file if there is none. */
  function LineLength(b: seq<Byte>): (n: nat)
    ensures n <= |b| && (n == 0 <==> b == [])
  {
    if b == [] then 0
    else if b[0] == NEWLINE then 1
    else 1 + LineLength(b[1..])
  }

  lemma {:induction false} LineIsRead(s: string, rest: seq<Byte>)
    requires IsLine(s)
    ensures LineLength(Line(s) + rest) == |s| + 1
  {
    var b := Line(s) + rest;
    if s == "" {
      assert b[0] == NEWLINE;
    } else {
      assert b[1..] == Line(s[1..]) + rest;
      LineIsRead(s[1..], rest);
    }
  }

  datatype Parsed = Number(value: nat) | NotANumber

  /** The number on a line, which may or may not end in a newline. */
  function ParseNumber(line: seq<Byte>): Parsed {
    var b := if line != [] && line[|line| - 1] == NEWLINE then line[..|line| - 1] else line;
    var text := Text(b);
    if text != "" && Decimal.IsDigits(text) then Number(Decimal.Parse(text)) else NotANumber
  }

  lemma NumberIsRead(s: string)
    requires s != "" && Decimal.IsDigits(s)
    ensures IsLine(s) && ParseNumber(Line(s)) == Number(Decimal.Parse(s))
  {
    TextOfEncoded(s);
    assert Line(s)[..|s|] == Encode(s);
  }

  // ----- Samples

  function Pow2(n: nat): (p: nat)
    ensures p > 0
  {
    if n == 0 then 1 else 2 * Pow2(n - 1)
  }

  lemma {:induction false} Pow2Sum(a: nat, b: nat)
    ensures Pow2(a + b) == Pow2(a) * Pow2(b)
  {
    if a > 0 {
      Pow2Sum(a - 1, b);
      Associate(2, Pow2(a - 1), Pow2(b));
    }
  }

  predicate IsContainer(container: nat) {
    container in {8, 16, 32}
  }

  /** An 8-bit sample as stored: shifted up to the depth, cut to the container. */
  function Stored(sample: Byte, depth: nat, container: nat): (v: nat)
    requires depth >= 8
    ensures v < Pow2(container)
  {
    (sample * Pow2(depth - 8)) % Pow2(container)
  }

  /** A stored sample shifted back down to 8 bits. */
  function Recovered(value: nat, depth: nat): Byte
    requires depth >= 8
  {
    (value / Pow2(depth - 8)) % 256
  }

  /** Every sample survives exactly when the depth fits the container. */
  lemma SamplesRecovered(depth: nat, container: nat)
    requires depth >= 8
    ensures (forall sample: Byte :: Recovered(Stored(sample, depth, container), depth) == sample)
       <==> depth <= container
  {
    var shift := Pow2(depth - 8);
    if depth <= container {
      forall sample: Byte ensures Recovered(Stored(sample, depth, container), depth) == sample {
        SampleRecovered(sample, depth, container);
      }
    } else {
      Pow2Sum(7, depth - 8);
      assert Pow2(7) == 128;
      Pow2Sum(depth - 1 - container, container);
      DivModUnique(128 * shift, Pow2(container), Pow2(depth - 1 - container), 0);
      assert Stored(128, depth, container) == 0;
      assert Recovered(0, depth) == 0 by { DivModUnique(0, shift, 0, 0); }
      assert Recovered(Stored(128, depth, container), depth) != 128;
    }
  }

  lemma SampleRecovered(sample: Byte, depth: nat, container: nat)
    requires 8 <= depth <= container
    ensures Recovered(Stored(sample, depth, container), depth) == sample
  {
    Pow2Sum(8, depth - 8);
    assert Pow2(8) == 256;
    Pow2Sum(depth, container - depth);
    ShiftFits(sample, Pow2(depth - 8), Pow2(container - depth), Pow2(container));
  }

  lemma ShiftFits(sample: Byte, shift: nat, room: nat, limit: nat)
    requires shift > 0 && room > 0 && limit == (256 * shift) * room
    ensures limit > 0 && (sample * shift) % limit == sample * shift && (sample * shift) / shift == sample
  {
    MulMonotone(sample, 255, shift);
    MulMonotone(0, sample, shift);
    MultipleSize(room, 256 * shift);
    DivModUnique(sample * shift, limit, 0, sample * shift);
    DivModUnique(sample * shift, shift, sample, 0);
  }

  /** The container chosen when none is given always fits the depth. */
  function DefaultContainer(depth: nat): (container: nat)
    ensures IsContainer(container)
    ensures depth <= 32 ==> depth <= container
    ensures forall smaller :: IsContainer(smaller) && depth <= smaller ==> container <= smaller
  {
    if depth > 16 then 32 else if depth > 8 then 16 else 8
  }

  /** A sample as little-endian bytes. */
  function SampleBytes(value: nat, count: nat): (b: seq<Byte>)
    ensures |b| == count
  {
    if count == 0 then [] else [value % 256] + SampleBytes(value / 256, count - 1)
  }

  function SampleValue(b: seq<Byte>): nat {
    if b == [] then 0 else b[0] + 256 * SampleValue(b[1..])
  }

  lemma {:induction false} SampleBytesRead(value: nat, count: nat)
    requires value < Pow2(8 * count)
    ensures SampleValue(SampleBytes(value, count)) == value
  {
    if count > 0 {
      UpperBytes(value, count);
      SampleBytesRead(value / 256, count - 1);
      assert SampleBytes(value, count)[1..] == SampleBytes(value / 256, count - 1);
    }
  }

  lemma UpperBytes(value: nat, count: nat)
    requires count > 0 && value < Pow2(8 * count)
    ensures value / 256 < Pow2(8 * (count - 1))
  {
    Pow2Sum(8, 8 * (count - 1));
    assert Pow2(8) == 256;
    var rest := Pow2(8 * (count - 1));
    assert value < 256 * rest;
  }

  function Payload(samples: seq<nat>, count: nat): (b: seq<Byte>)
    ensures |b| == |samples| * count
  {
    if samples == [] then []
    else
      assert |samples| * count == count + |samples[1..]| * count;
      SampleBytes(samples[0], count) + Payload(samples[1..], count)
  }

  /** The first n samples of a payload. */
  function Samples(b: seq<Byte>, count: nat, n: nat): (samples: seq<nat>)
    requires n * count <= |b|
    ensures |samples| == n
  {
    if n == 0 then []
    else
      assert n * count == count + (n - 1) * count;
      [SampleValue(b[..count])] + Samples(b[count..], count, n - 1)
  }

  lemma {:induction false} PayloadRead(samples: seq<nat>, count: nat)
    requires forall i :: 0 <= i < |samples| ==> samples[i] < Pow2(8 * count)
    ensures Samples(Payload(samples, count), count, |samples|) == samples
  {
    if samples != [] {
      SampleBytesRead(samples[0], count);
      var b := Payload(samples, count);
      assert b[..count] == SampleBytes(samples[0], count);
      assert b[count..] == Payload(samples[1..], count);
      PayloadRead(samples[1..], count);
    }
  }

  // ----- Frames

  datatype Frame = Frame(width: nat, height: nat, depth: nat, container: nat, layers: nat, samples: seq<nat>) {
    /** What the writer produces: one layer in a known container. */
    predicate Valid() {
      && IsContainer(container)
      && layers == 1
      && |samples| == width * height
      && forall i :: 0 <= i < |samples| ==> samples[i] < Pow2(container)
    }
  }

  const TITLE := "#ISP1.width.height.depth.type.layers:"

  function NumberLine(s: string, rest: seq<Byte>): seq<Byte>
    requires Decimal.IsDigits(s)
  {
    Line(s) + rest
  }

  predicate AllNumbers(texts: seq<string>) {
    forall i :: 0 <= i < |texts| ==> texts[i] != "" && Decimal.IsDigits(texts[i])
  }

  /** Lines of numbers before the rest of a file. */
  function NumberLines(texts: seq<string>, rest: seq<Byte>): seq<Byte>
    requires AllNumbers(texts)
  {
    if texts == [] then rest else NumberLine(texts[0], NumberLines(texts[1..], rest))
  }

  function HeaderTexts(f: Frame): (texts: seq<string>)
    ensures |texts| == 5 && AllNumbers(texts)
  {
    [Decimal.PrintPadded(f.width, 7), Decimal.PrintPadded(f.height, 7), Decimal.Print(f.depth),
     Decimal.Print(f.container), Decimal.PrintPadded(f.layers, 3)]
  }

  /** A file that starts with a frame: the title, five lines of numbers, the samples. */
  function WithFrame(title: string, f: Frame, rest: seq<Byte>): seq<Byte>
    requires IsLine(title) && f.Valid()
  {
    Line(title) + NumberLines(HeaderTexts(f), Payload(f.samples, f.container / 8) + rest)
  }

  /** What a read returns: the end of the file, a frame, or an exception. */
  datatype ReadResult = EndOfFile | Read(frame: Frame) | Raised

  /** The next line as a number, and the file after it. */
  function NextNumber(b: seq<Byte>): (r: (Parsed, seq<Byte>))
    ensures |r.1| <= |b|
  {
    (ParseNumber(b[..LineLength(b)]), b[LineLength(b)..])
  }

  /** The numbers of a header, or an exception at the first line that is not one. */
  datatype Header = Numbers(values: seq<nat>) | BadHeader

  function NextNumbers(b: seq<Byte>, k: nat): (r: (Header, seq<Byte>))
    ensures |r.1| <= |b|
    ensures r.0.Numbers? ==> |r.0.values| == k
  {
    if k == 0 then (Numbers([]), b)
    else
      var first := NextNumber(b);
      if first.0.NotANumber? then (BadHeader, [])
      else
        var others := NextNumbers(first.1, k - 1);
        if others.0.BadHeader? then (BadHeader, [])
        else (Numbers([first.0.value] + others.0.values), others.1)
  }

  /** Read one frame from the start of `b`, and the file after it. */
  function Parse(b: seq<Byte>): (r: (ReadResult, seq<Byte>))
    ensures r.0.Read? ==> |r.1| < |b|
  {
    if LineLength(b) == 0 then (EndOfFile, b)
    else
      var header := NextNumbers(b[LineLength(b)..], 5);
      if header.0.BadHeader? then (Raised, []) else ParsePayload(header.0.values, header.1)
  }

  /** The samples after a header: the sample size must be one of the known ones, and the file
      must hold them all. */
  function ParsePayload(header: seq<nat>, b: seq<Byte>): (r: (ReadResult, seq<Byte>))
    requires |header| == 5
    ensures |r.1| <= |b|
  {
    var count, n := header[3] / 8, header[0] * header[1] * header[4];
    if count !in {1, 2, 4} || n * count > |b| then (Raised, [])
    else (Read(Frame(header[0], header[1], header[2], header[3], header[4], Samples(b, count, n))), b[n * count..])
  }

  lemma NumberLineRead(s: string, rest: seq<Byte>)
    requires s != "" && Decimal.IsDigits(s)
    ensures NextNumber(NumberLine(s, rest)) == (Number(Decimal.Parse(s)), rest)
  {
    NumberIsRead(s);
    LineIsRead(s, rest);
    assert NumberLine(s, rest)[..|s| + 1] == Line(s);
    assert NumberLine(s, rest)[|s| + 1..] == rest;
  }

  lemma SamplesBefore(b: seq<Byte>, rest: seq<Byte>, count: nat, n: nat)
    requires n * count <= |b|
    ensures Samples(b + rest, count, n) == Samples(b, count, n)
  {
    if n > 0 {
      Distribute(n, -1, count);
      MulMonotone(0, n - 1, count);
      assert (b + rest)[..count] == b[..count];
      assert (b + rest)[count..] == b[count..] + rest;
      SamplesBefore(b[count..], rest, count, n - 1);
    }
  }

  lemma NumbersStep(s: string, rest: seq<Byte>, k: nat)
    requires s != "" && Decimal.IsDigits(s) && NextNumbers(rest, k).0.Numbers?
    ensures NextNumbers(NumberLine(s, rest), k + 1) ==
            (Numbers([Decimal.Parse(s)] + NextNumbers(rest, k).0.values), NextNumbers(rest, k).1)
  {
    NumberLineRead(s, rest);
  }

  function Values(texts: seq<string>): (values: seq<nat>)
    requires AllNumbers(texts)
    ensures |values| == |texts|
  {
    seq(|texts|, i requires 0 <= i < |texts| => Decimal.Parse(texts[i]))
  }

  lemma ValuesStep(texts: seq<string>)
    requires AllNumbers(texts) && texts != []
    ensures Values(texts) == [Decimal.Parse(texts[0])] + Values(texts[1..])
  {
  }

  lemma {:induction false} NumberLinesRead(texts: seq<string>, rest: seq<Byte>)
    requires AllNumbers(texts)
    ensures NextNumbers(NumberLines(texts, rest), |texts|) == (Numbers(Values(texts)), rest)
  {
    if texts == [] {
      assert Values(texts) == [];
    } else {
      NumberLinesRead(texts[1..], rest);
      var others := NumberLines(texts[1..], rest);
      NumbersStep(texts[0], others, |texts| - 1);
      ValuesStep(texts);
    }
  }

  lemma FiveValues(texts: seq<string>, values: seq<nat>)
    requires AllNumbers(texts) && |texts| == |values|
    requires forall i :: 0 <= i < |texts| ==> Decimal.Parse(texts[i]) == values[i]
    ensures Values(texts) == values
  {
  }

  lemma HeaderValues(f: Frame)
    ensures Values(HeaderTexts(f)) == [f.width, f.height, f.depth, f.container, f.layers]
  {
    Decimal.ParsePadded(f.width, 7);
    Decimal.ParsePadded(f.height, 7);
    Decimal.ParsePadded(f.layers, 3);
    Decimal.ParsePrint(f.depth);
    Decimal.ParsePrint(f.container);
    FiveValues(HeaderTexts(f), [f.width, f.height, f.depth, f.container, f.layers]);
  }

  lemma HeaderRead(f: Frame, rest: seq<Byte>)
    ensures NextNumbers(NumberLines(HeaderTexts(f), rest), 5) ==
            (Numbers([f.width, f.height, f.depth, f.container, f.layers]), rest)
  {
    NumberLinesRead(HeaderTexts(f), rest);
    HeaderValues(f);
  }

  lemma PayloadParsed(f: Frame, rest: seq<Byte>)
    requires f.Valid()
    ensures ParsePayload([f.width, f.height, f.depth, f.container, f.layers],
        Payload(f.samples, f.container / 8) + rest)
            == (Read(f), rest)
  {
    var count := f.container / 8;
    var payload := Payload(f.samples, count);
    assert f.width * f.height * f.layers == |f.samples|;
    PayloadRead(f.samples, count);
    SamplesBefore(payload, rest, count, |f.samples|);
    assert (payload + rest)[|payload|..] == rest;
  }

  /** Reading a file that starts with a written frame gives that frame and the rest. */
  lemma FrameIsRead(title: string, f: Frame, rest: seq<Byte>)
    requires IsLine(title) && f.Valid()
    ensures Parse(WithFrame(title, f, rest)) == (Read(f), rest)
  {
    var body := Payload(f.samples, f.container / 8) + rest;
    var numbers := NumberLines(HeaderTexts(f), body);
    LineIsRead(title, numbers);
    assert WithFrame(title, f, rest)[|title| + 1..] == numbers;
    HeaderRead(f, body);
    PayloadParsed(f, rest);
  }

  lemma TitleIsLine()
    ensures IsLine(TITLE)
  {
  }

  ghost predicate AllValid(frames: seq<Frame>) {
    forall i :: 0 <= i < |frames| ==> frames[i].Valid()
  }

  /** The file that the writer makes of a list of frames. */
  ghost function FileOf(title: string, frames: seq<Frame>): seq<Byte>
    requires IsLine(title) && AllValid(frames)
  {
    if frames == [] then [] else WithFrame(title, frames[0], FileOf(title, frames[1..]))
  }

  /** The reading loop: frames up to the end of the file, or up to an exception. */
  function ParseAll(b: seq<Byte>): (r: (seq<Frame>, ReadResult))
    ensures !r.1.Read?
    decreases |b|
  {
    var first := Parse(b);
    if !first.0.Read? then ([], first.0)
    else
      var others := ParseAll(first.1);
      ([first.0.frame] + others.0, others.1)
  }

  lemma FileStep(title: string, frames: seq<Frame>, rest: seq<Byte>)
    requires IsLine(title) && frames != [] && frames[0].Valid()
    requires ParseAll(rest) == (frames[1..], EndOfFile)
    ensures ParseAll(WithFrame(title, frames[0], rest)) == (frames, EndOfFile)
  {
    FrameIsRead(title, frames[0], rest);
    assert [frames[0]] + frames[1..] == frames;
  }

  lemma EmptyFile()
    ensures ParseAll([]) == ([], EndOfFile)
  {
    assert Parse([]).0 == EndOfFile;
  }

  /** A file made of any list of written frames reads back as the same list, in order. */
  lemma {:induction false} FileIsRead(title: string, frames: seq<Frame>)
    requires IsLine(title) && AllValid(frames)
    ensures ParseAll(FileOf(title, frames)) == (frames, EndOfFile)
  {
    if frames == [] {
      EmptyFile();
    } else {
      FileIsRead(title, frames[1..]);
      FileStep(title, frames, FileOf(title, frames[1..]));
    }
  }

  // ----- From an image to a frame and back

  /** A pixel with its three channels in the order of the decoded image. */
  datatype Pixel = Pixel(c0: Byte, c1: Byte, c2: Byte) {
    function Channel(k: nat): Byte
      requires k < 3
    {
      if k == 0 then c0 else if k == 1 then c1 else c2
    }
  }

  /** Which channel the mosaic keeps, by filter mode and parity of row and column. */
  function MosaicChannel(mode: nat, row: nat, column: nat): (k: nat)
    requires mode < 4 && row < 2 && column < 2
    ensures k < 3
  {
    match mode
    case 0 => if row == column then (if row == 0 then 2 else 0) else 1
    case 1 => if row == column then 1 else if row == 0 then 0 else 2
    case 2 => if row == column then 1 else if row == 0 then 2 else 0
    case _ => if row == column then (if row == 0 then 0 else 2) else 1
  }

  /** Each square of four samples has two of the middle channel, on a diagonal, and one of
      each other, whatever the mode; two modes differ somewhere in the square. */
  lemma MosaicIsBayer(mode: nat, other: nat)
    requires mode < 4 && other < 4 && other != mode
    ensures multiset{MosaicChannel(mode, 0, 0), MosaicChannel(mode, 0, 1),
        MosaicChannel(mode, 1, 0), MosaicChannel(mode, 1, 1)}
            == multiset{0, 1, 1, 2}
    ensures (MosaicChannel(mode, 0, 0) == 1 && MosaicChannel(mode, 1, 1) == 1)
         || (MosaicChannel(mode, 0, 1) == 1 && MosaicChannel(mode, 1, 0) == 1)
    ensures MosaicChannel(mode, 0, 0) != MosaicChannel(other, 0, 0)
         || MosaicChannel(mode, 0, 1) != MosaicChannel(other, 0, 1)
  {
  }

  /** The order of an image's channels: as the writer's parameter is named, or as the images
      that are passed to it are read. */
  datatype Order = BlueGreenRed | RedGreenBlue

  function Letter(order: Order, channel: nat): char
    requires channel < 3
  {
    if channel == 1 then 'G' else if (channel == 2) == (order == BlueGreenRed) then 'R' else 'B'
  }

  /** The names that the command line gives to the modes 0 to 3. */
  const MODE_NAMES: seq<string> := ["RG", "GR", "GB", "BG"]

  /** The default of the command line is "GB". */
  const DEFAULT_MODE: nat := 2

  /** The first two letters of the square that is written for a mode. */
  function WrittenName(order: Order, mode: nat): string
    requires mode < 4
  {
    [Letter(order, MosaicChannel(mode, 0, 0)), Letter(order, MosaicChannel(mode, 0, 1))]
  }

  /** The mosaic written is the one that the command line names exactly for the modes 0 and 3
      if the image is blue-green-red, and exactly for the modes 1 and 2 if it is
      red-green-blue: no order of channels suits all names, and the default suits the latter. */
  lemma WrittenAsNamed(order: Order, mode: nat)
    requires mode < 4
    ensures WrittenName(order, mode) == MODE_NAMES[mode] <==>
              if order == BlueGreenRed then mode in {0, 3} else mode in {1, 2}
    ensures MODE_NAMES[DEFAULT_MODE] == "GB"
    ensures WrittenName(BlueGreenRed, DEFAULT_MODE) == "GR" && WrittenName(RedGreenBlue, DEFAULT_MODE) == "GB"
  {
    var written := WrittenName(order, mode);
    assert |written| == 2;
    assert written[0] == Letter(order, MosaicChannel(mode, 0, 0))
        && written[1] == Letter(order, MosaicChannel(mode, 0, 1));
  }

  /** The 8-bit mosaic of an image. */
  function Mosaic(image: seq<Pixel>, width: nat, mode: nat): (m: seq<Byte>)
    requires mode < 4 && (image != [] ==> width > 0)
    ensures |m| == |image|
  {
    seq(|image|, i requires 0 <= i < |image| =>
      image[i].Channel(MosaicChannel(mode, (i / width) % 2, (i % width) % 2)))
  }

  function ImageFrame(image: seq<Pixel>, width: nat, height: nat, depth: nat, mode: nat, container: nat): (f: Frame)
    requires |image| == width * height && mode < 4 && depth >= 8 && IsContainer(container)
    ensures f.Valid()
  {
    assert image != [] ==> width > 0;
    var mosaic := Mosaic(image, width, mode);
    Frame(width, height, depth, container, 1,
          seq(|mosaic|, i requires 0 <= i < |mosaic| => Stored(mosaic[i], depth, container)))
  }

  /** The mosaic by position: the pixel's parity of row and of column picks the channel. */
  lemma MosaicAt(image: seq<Pixel>, width: nat, height: nat, mode: nat, row: nat, column: nat)
    requires |image| == width * height && mode < 4 && row < height && column < width
    ensures row * width + column < |image|
    ensures Mosaic(image, width, mode)[row * width + column] ==
            image[row * width + column].Channel(MosaicChannel(mode, row % 2, column % 2))
  {
    MulMonotone(row + 1, height, width);
    Distribute(row, 1, width);
    DivModUnique(row * width + column, width, row, column);
  }

  /** The sample that is written for a pixel: its channel, shifted up. */
  lemma WrittenSampleAt(image: seq<Pixel>, width: nat, height: nat, depth: nat, mode: nat, container: nat,
                        row: nat, column: nat)
    requires |image| == width * height && mode < 4 && depth >= 8 && IsContainer(container)
    requires row < height && column < width
    ensures row * width + column < |image|
    ensures ImageFrame(image, width, height, depth, mode, container).samples[row * width + column] ==
            Stored(image[row * width + column].Channel(MosaicChannel(mode, row % 2, column % 2)), depth, container)
  {
    MosaicAt(image, width, height, mode, row, column);
  }

  /** Two pixels, beside each other or one below the other. */
  lemma TwoPixels(image: seq<Pixel>, width: nat, height: nat, mode: nat)
    requires |image| == 2 && mode < 4
    requires (width == 2 && height == 1) || (width == 1 && height == 2)
    ensures Mosaic(image, width, mode) ==
            [image[0].Channel(MosaicChannel(mode, 0, 0)), image[1].Channel(MosaicChannel(mode, height - 1, width - 1))]
  {
    MosaicAt(image, width, height, mode, 0, 0);
    MosaicAt(image, width, height, mode, height - 1, width - 1);
  }

  /** The channels that are kept in the first row and in the first column, by mode. */
  lemma ChannelsInEachMode(mode: nat, first: Pixel, second: Pixel)
    requires mode < 4 && first == Pixel(1, 2, 3) && second == Pixel(4, 5, 6)
    ensures Mosaic([first, second], 2, mode) ==
            if mode == 0 then [3, 5] else if mode == 1 then [2, 4] else if mode == 2 then [2, 6] else [1, 5]
    ensures Mosaic([first, second], 1, mode) ==
            if mode == 0 then [3, 5] else if mode == 1 then [2, 6] else if mode == 2 then [2, 4] else [1, 5]
  {
    TwoPixels([first, second], 2, 1, mode);
    TwoPixels([first, second], 1, 2, mode);
  }

  /** A whole file, byte by byte: two pixels in the default mode, with twelve bits in sixteen. */
  lemma SampleFile(title: string, texts: seq<string>, first: Pixel, second: Pixel, frame: Frame)
    requires IsLine(title)
    requires first == Pixel(1, 2, 3) && second == Pixel(4, 5, 6)
    requires texts == ["0000002", "0000001", "12", "16", "001"]
    requires frame == ImageFrame([first, second], 2, 1, 12, DEFAULT_MODE, 16)
    ensures AllNumbers(texts)
    ensures WithFrame(title, frame, []) ==
            Line(title) + (Line(texts[0]) + (Line(texts[1]) + (Line(texts[2]) + (Line(texts[3]) + (Line(texts[4])
            + [32, 0, 96, 0])))))
  {
    SampleSamples(frame, first, second);
    SampleHeader(frame, texts);
    SampleLines(title, frame, texts, [32, 0, 96, 0]);
  }

  lemma TitleText(title: string)
    requires title == "#ISP1.width.height.depth.type.layers:"
    ensures TITLE == title
  {
  }

  lemma SampleLines(title: string, f: Frame, texts: seq<string>, payload: seq<Byte>)
    requires IsLine(title) && f.Valid() && HeaderTexts(f) == texts && Payload(f.samples, f.container / 8) == payload
    ensures WithFrame(title, f, []) ==
            Line(title) + (Line(texts[0]) + (Line(texts[1]) + (Line(texts[2]) + (Line(texts[3]) + (Line(texts[4])
            + payload)))))
  {
    assert payload + [] == payload;
    FiveLines(texts, payload);
  }

  lemma SampleSamples(frame: Frame, first: Pixel, second: Pixel)
    requires first == Pixel(1, 2, 3) && second == Pixel(4, 5, 6)
    requires frame == ImageFrame([first, second], 2, 1, 12, DEFAULT_MODE, 16)
    ensures frame.Valid() && Payload(frame.samples, frame.container / 8) == [32, 0, 96, 0]
  {
    ChannelsInEachMode(DEFAULT_MODE, first, second);
    TwelveInSixteen(2);
    TwelveInSixteen(6);
    TwoSamples(frame.samples, 32, 96);
  }

  lemma TwelveInSixteen(sample: Byte)
    ensures Stored(sample, 12, 16) == 16 * sample
  {
    assert Pow2(4) == 16 && Pow2(8) == 256;
    Pow2Sum(8, 8);
  }

  lemma TwoSamples(samples: seq<nat>, a: nat, b: nat)
    requires samples == [a, b] && a < 256 && b < 256
    ensures Payload(samples, 2) == [a, 0, b, 0]
  {
    TwoByteSample(a);
    TwoByteSample(b);
    assert samples[1..] == [b] && [b][1..] == [];
    assert Payload([b], 2) == SampleBytes(b, 2) + Payload([], 2);
  }

  lemma TwoByteSample(value: nat)
    requires value < 256
    ensures SampleBytes(value, 2) == [value, 0]
  {
    assert SampleBytes(value / 256, 1) == [0] + SampleBytes(0, 0);
  }

  lemma SampleHeader(frame: Frame, texts: seq<string>)
    requires frame.width == 2 && frame.height == 1 && frame.depth == 12 && frame.container == 16 && frame.layers == 1
    requires texts == ["0000002", "0000001", "12", "16", "001"]
    ensures HeaderTexts(frame) == texts
  {
    Decimal.PaddedDigit(2, 6);
    Decimal.PaddedDigit(1, 6);
    Decimal.PaddedDigit(1, 2);
    Decimal.TwoDigits(12);
    Decimal.TwoDigits(16);
    Decimal.SixZeros();
    assert texts[0] == "000000" + "2" && texts[1] == "000000" + "1" && texts[4] == "00" + "1";
  }

  lemma FiveLines(texts: seq<string>, rest: seq<Byte>)
    requires |texts| == 5 && AllNumbers(texts)
    ensures NumberLines(texts, rest) ==
            Line(texts[0]) + (Line(texts[1]) + (Line(texts[2]) + (Line(texts[3]) + (Line(texts[4]) + rest))))
  {
    assert texts[0..] == texts && NumberLines(texts[5..], rest) == rest;
    OneLine(texts, 4, rest);
    OneLine(texts, 3, rest);
    OneLine(texts, 2, rest);
    OneLine(texts, 1, rest);
    OneLine(texts, 0, rest);
  }

  lemma OneLine(texts: seq<string>, k: nat, rest: seq<Byte>)
    requires AllNumbers(texts) && k < |texts|
    ensures NumberLines(texts[k..], rest) == Line(texts[k]) + NumberLines(texts[k + 1..], rest)
  {
    assert texts[k..][0] == texts[k] && texts[k..][1..] == texts[k + 1..];
  }

  /** A file that ends within the samples of a frame raises an exception: no frame is read. */
  lemma CutPayloadRaises(title: string, f: Frame, kept: nat)
    requires IsLine(title) && f.Valid() && kept < |Payload(f.samples, f.container / 8)|
    ensures Parse(Line(title) + NumberLines(HeaderTexts(f), Payload(f.samples, f.container / 8)[..kept])).0 == Raised
  {
    var payload := Payload(f.samples, f.container / 8)[..kept];
    LineIsRead(title, NumberLines(HeaderTexts(f), payload));
    assert (Line(title) + NumberLines(HeaderTexts(f), payload))[|title| + 1..] == NumberLines(HeaderTexts(f), payload);
    HeaderRead(f, payload);
    assert f.width * f.height * f.layers == |f.samples|;
  }

  /** After a header an exception is raised exactly when the sample size is not one, two or
      four bytes, or the file ends too early. */
  lemma PayloadRaises(width: nat, height: nat, depth: nat, container: nat, layers: nat, b: seq<Byte>)
    ensures ParsePayload([width, height, depth, container, layers], b).0 == Raised <==>
              container / 8 !in {1, 2, 4} || width * height * layers * (container / 8) > |b|
  {
  }

  /** A line that is not a number in the header raises an exception. */
  lemma BadNumberRaises(title: string, bad: string, rest: seq<Byte>)
    requires IsLine(title) && IsLine(bad) && !(bad != "" && Decimal.IsDigits(bad))
    ensures Parse(Line(title) + (Line(bad) + rest)).0 == Raised
  {
    var b := Line(title) + (Line(bad) + rest);
    LineIsRead(title, Line(bad) + rest);
    assert b[|title| + 1..] == Line(bad) + rest;
    LineIsRead(bad, rest);
    assert (Line(bad) + rest)[..|bad| + 1] == Line(bad);
    TextOfEncoded(bad);
    assert Line(bad)[..|bad|] == Encode(bad);
  }

  /** The decoder's shift back to 8 bits. */
  function RawToMosaic(f: Frame): seq<Byte>
    requires f.depth >= 8
  {
    seq(|f.samples|, i requires 0 <= i < |f.samples| => Recovered(f.samples[i], f.depth))
  }

  /** The frame of an image decodes to the image's mosaic when the depth fits the container. */
  lemma ImageIsRecovered(image: seq<Pixel>, width: nat, height: nat, depth: nat, mode: nat, container: nat)
    requires |image| == width * height && mode < 4 && IsContainer(container) && 8 <= depth <= container
    ensures image != [] ==> width > 0
    ensures RawToMosaic(ImageFrame(image, width, height, depth, mode, container)) == Mosaic(image, width, mode)
  {
    assert image != [] ==> width > 0;
    var mosaic := Mosaic(image, width, mode);
    forall i | 0 <= i < |mosaic| ensures Recovered(Stored(mosaic[i], depth, container), depth) == mosaic[i] {
      SampleRecovered(mosaic[i], depth, container);
    }
  }

  /** An image with the settings it is written with. */
  datatype Image = Image(pixels: seq<Pixel>, width: nat, height: nat, depth: nat, mode: nat, container: nat) {
    predicate Valid() {
      |pixels| == width * height && mode < 4 && IsContainer(container) && 8 <= depth <= container
    }

    function ToFrame(): (f: Frame)
      requires Valid()
      ensures f.Valid()
    {
      ImageFrame(pixels, width, height, depth, mode, container)
    }

    function ToMosaic(): seq<Byte>
      requires Valid()
    {
      assert pixels != [] ==> width > 0;
      Mosaic(pixels, width, mode)
    }
  }

  function Frames(images: seq<Image>): (frames: seq<Frame>)
    requires forall i :: 0 <= i < |images| ==> images[i].Valid()
    ensures |frames| == |images| && AllValid(frames)
  {
    seq(|images|, i requires 0 <= i < |images| => images[i].ToFrame())
  }

  /** Any list of images whose depths fit their containers, written to one file, reads back
      as as many frames, and each frame decodes to the mosaic of its image. */
  lemma ImagesAreRecovered(title: string, images: seq<Image>)
    requires IsLine(title) && forall i :: 0 <= i < |images| ==> images[i].Valid()
    ensures var r := ParseAll(FileOf(title, Frames(images)));
            && r.1 == EndOfFile && |r.0| == |images|
            && forall i :: 0 <= i < |images| ==> r.0[i].depth >= 8 && RawToMosaic(r.0[i]) == images[i].ToMosaic()
  {
    FileIsRead(title, Frames(images));
    forall i | 0 <= i < |images| ensures RawToMosaic(Frames(images)[i]) == images[i].ToMosaic() {
      var image := images[i];
      ImageIsRecovered(image.pixels, image.width, image.height, image.depth, image.mode, image.container);
    }
  }

  // ----- The files as the program uses them

  class OutputFile {
    var bytes: seq<Byte>

    constructor ()
      ensures bytes == []
    {
      bytes := [];
    }

    method Write(more: seq<Byte>)
      modifies this
      ensures bytes == old(bytes) + more
    {
      bytes := bytes + more;
    }

    method WriteNumber(s: string)
      requires Decimal.IsDigits(s)
      modifies this
      ensures bytes == old(bytes) + Line(s)
    {
      Write(Encode(s));
      Write([NEWLINE]);
    }

    /** Write an image as one frame. */
    method WriteFrame(image: seq<Pixel>, width: nat, height: nat, depth: nat, mode: nat, container: nat)
      requires |image| == width * height && mode < 4 && depth >= 8 && IsContainer(container)
      modifies this
      ensures IsLine(TITLE)
      ensures bytes == old(bytes) + WithFrame(TITLE, ImageFrame(image, width, height, depth, mode, container), [])
    {
      TitleIsLine();
      WriteBytes(TITLE, ImageFrame(image, width, height, depth, mode, container));
    }

    method WriteBytes(title: string, frame: Frame)
      requires IsLine(title) && frame.Valid()
      modifies this
      ensures bytes == old(bytes) + WithFrame(title, frame, [])
    {
      var payload := Payload(frame.samples, frame.container / 8);
      ghost var start, numbers := bytes, NumberLines(HeaderTexts(frame), payload);
      Write(Line(title));
      Regroup(start, Line(title), numbers);
      WriteHeader(frame, payload);
      Write(payload);
      assert payload + [] == payload;
    }

    /** The five numbers of the header, one line each. */
    method WriteHeader(frame: Frame, ghost rest: seq<Byte>)
      modifies this
      ensures bytes + rest == old(bytes) + NumberLines(HeaderTexts(frame), rest)
    {
      ghost var texts := HeaderTexts(frame);
      assert texts[0..] == texts && NumberLines(texts[5..], rest) == rest;
      WriteStep(bytes, texts, 0, rest);
      WriteNumber(Decimal.PrintPadded(frame.width, 7));
      WriteStep(bytes, texts, 1, rest);
      WriteNumber(Decimal.PrintPadded(frame.height, 7));
      WriteStep(bytes, texts, 2, rest);
      WriteNumber(Decimal.Print(frame.depth));
      WriteStep(bytes, texts, 3, rest);
      WriteNumber(Decimal.Print(frame.container));
      WriteStep(bytes, texts, 4, rest);
      WriteNumber(Decimal.PrintPadded(frame.layers, 3));
    }
  }

  /** Writing one line moves it from what is still to be written to what has been. */
  lemma WriteStep(written: seq<Byte>, texts: seq<string>, k: nat, rest: seq<Byte>)
    requires AllNumbers(texts) && k < |texts|
    ensures written + NumberLines(texts[k..], rest) == (written + Line(texts[k])) + NumberLines(texts[k + 1..], rest)
  {
    assert texts[k..][0] == texts[k] && texts[k..][1..] == texts[k + 1..];
    Regroup(written, Line(texts[k]), NumberLines(texts[k + 1..], rest));
  }

  class InputFile {
    const bytes: seq<Byte>
    var position: nat

    ghost predicate Valid()
      reads this
    {
      position <= |bytes|
    }

    constructor (bytes: seq<Byte>)
      ensures Valid() && this.bytes == bytes && position == 0
    {
      this.bytes, position := bytes, 0;
    }

    method ReadLine() returns (line: seq<Byte>)
      requires Valid()
      modifies this
      ensures Valid()
      ensures var b := old(bytes[position..]);
              line == b[..LineLength(b)] && bytes[position..] == b[LineLength(b)..]
    {
      var n := LineLength(bytes[position..]);
      line := bytes[position..][..n];
      position := position + n;
    }

    /** Read one frame; after an exception the position means nothing. */
    method ReadFrame() returns (r: ReadResult)
      requires Valid()
      modifies this
      ensures Valid()
      ensures r == Parse(old(bytes[position..])).0
      ensures !r.Raised? ==> bytes[position..] == Parse(old(bytes[position..])).1
    {
      var title := ReadLine();
      if title == [] {
        return EndOfFile;
      }
      var header := ReadNumbers(5);
      if header.BadHeader? {
        return Raised;
      }
      r := ReadPayload(header.values);
    }

    method ReadNumber() returns (n: Parsed)
      requires Valid()
      modifies this
      ensures Valid() && (n, bytes[position..]) == NextNumber(old(bytes[position..]))
    {
      var line := ReadLine();
      n := ParseNumber(line);
    }

    /** The k numbers of a header, one line each. */
    method ReadNumbers(k: nat) returns (header: Header)
      requires Valid()
      modifies this
      ensures Valid() && header == NextNumbers(old(bytes[position..]), k).0
      ensures header.Numbers? ==> bytes[position..] == NextNumbers(old(bytes[position..]), k).1
    {
      if k == 0 {
        return Numbers([]);
      }
      var n := ReadNumber();
      if n.NotANumber? {
        return BadHeader;
      }
      var others := ReadNumbers(k - 1);
      header := if others.BadHeader? then BadHeader else Numbers([n.value] + others.values);
    }

    method ReadPayload(header: seq<nat>) returns (r: ReadResult)
      requires Valid() && |header| == 5
      modifies this
      ensures Valid()
      ensures r == ParsePayload(header, old(bytes[position..])).0
      ensures r.Read? ==> bytes[position..] == ParsePayload(header, old(bytes[position..])).1
    {
      var width, height, depth, container, layers := header[0], header[1], header[2], header[3], header[4];
      var count, n := container / 8, width * height * layers;
      if count !in {1, 2, 4} || n * count > |bytes| - position {
        return Raised;
      }
      var rest := bytes[position..];
      position := position + n * count;
      return Read(Frame(width, height, depth, container, layers, Samples(rest, count, n)));
    }

    /** The loop of the decoder. */
    method ReadFrames() returns (frames: seq<Frame>, last: ReadResult)
      requires Valid()
      modifies this
      ensures Valid() && (frames, last) == ParseAll(old(bytes[position..]))
    {
      frames := [];
      ghost var start := bytes[position..];
      assert [] + ParseAll(start).0 == ParseAll(start).0;
      while true
        invariant Valid()
        invariant ParseAll(start) == (frames + ParseAll(bytes[position..]).0, ParseAll(bytes[position..]).1)
        decreases |bytes| - position
      {
        ghost var b := bytes[position..];
        NextFrame(b, frames);
        last := ReadFrame();
        if !last.Read? {
          return;
        }
        assert |bytes[position..]| < |b|;
        frames := frames + [last.frame];
      }
    }
  }

  lemma NextFrame(b: seq<Byte>, frames: seq<Frame>)
    ensures var first := Parse(b);
            (frames + ParseAll(b).0, ParseAll(b).1) ==
              if first.0.Read? then ((frames + [first.0.frame]) + ParseAll(first.1).0, ParseAll(first.1).1)
              else (frames, first.0)
  {
    var first := Parse(b);
    if first.0.Read? {
      assert frames + ([first.0.frame] + ParseAll(first.1).0) == (frames + [first.0.frame]) + ParseAll(first.1).0;
    } else {
      assert frames + [] == frames;
    }
  }

  /** A file written frame by frame is the file of the list of frames. */
  lemma {:induction false} FileGrows(title: string, frames: seq<Frame>, f: Frame)
    requires IsLine(title) && f.Valid() && AllValid(frames)
    ensures FileOf(title, frames + [f]) == FileOf(title, frames) + WithFrame(title, f, [])
  {
    if frames == [] {
      assert ([f])[1..] == [];
    } else {
      assert (frames + [f])[1..] == frames[1..] + [f];
      FileGrows(title, frames[1..], f);
      WithFrameAppend(title, frames[0], FileOf(title, frames[1..]), WithFrame(title, f, []));
    }
  }

  lemma WithFrameAppend(title: string, f: Frame, rest: seq<Byte>, more: seq<Byte>)
    requires IsLine(title) && f.Valid()
    ensures WithFrame(title, f, rest + more) == WithFrame(title, f, rest) + more
  {
    var payload := Payload(f.samples, f.container / 8);
    assert payload + (rest + more) == (payload + rest) + more;
    NumbersAppend(HeaderTexts(f), payload + rest, more);
  }

  lemma {:induction false} NumbersAppend(texts: seq<string>, rest: seq<Byte>, more: seq<Byte>)
    requires AllNumbers(texts)
    ensures NumberLines(texts, rest + more) == NumberLines(texts, rest) + more
  {
    if texts != [] {
      NumbersAppend(texts[1..], rest, more);
    }
  }
}
