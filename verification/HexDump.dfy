/** The console dump of the device's public key: rows of sixteen bytes in hex, a space after
    every second byte, written through a row buffer of fixed size. */
module HexDump {
  import opened Arithmetic
  import opened Bytes
  import opened Sequences

  const ROW_BYTES: nat := 16

  /** Two digits for each byte, a space for each pair, and the terminating zero. */
  const ROW_SIZE: nat := 1 + ROW_BYTES * 2 + ROW_BYTES / 2

  function HexDigit(n: nat): (c: char)
    requires n < 16
    ensures HexValue(c) == n
    ensures if n < 10 then c as int == '0' as int + n else c as int == 'a' as int + (n - 10)
    ensures c !in {' ', '\r', '\n', '\0'}
  {
    "0123456789abcdef"[n]
  }

  function HexValue(c: char): (n: nat)
    ensures n < 16
  {
    if '0' <= c <= '9' then c as int - '0' as int
    else if 'a' <= c <= 'f' then c as int - 'a' as int + 10
    else 0
  }

  function HexByte(b: Byte): string {
    [HexDigit(b / 16), HexDigit(b % 16)]
  }

  /** The characters that follow the n-th byte. */
  function Separator(n: nat): string {
    (if n % 2 == 0 then " " else "") + (if n % ROW_BYTES == 0 then "\r\n" else "")
  }

  /** The dump before the last partial row is ended. */
  function Body(data: seq<Byte>): string {
    if data == [] then ""
    else Body(data[..|data| - 1]) + HexByte(data[|data| - 1]) + Separator(|data|)
  }

  function Dump(data: seq<Byte>): string {
    Body(data) + if |data| % ROW_BYTES != 0 then "\r\n" else ""
  }

  /** Where the next character of the row goes after i bytes. */
  function Cursor(i: nat): (c: nat)
    ensures c < ROW_SIZE
  {
    2 * (i % ROW_BYTES) + (i % ROW_BYTES) / 2
  }

  /** A C string: the characters before the first zero. */
  function CString(s: seq<char>): string {
    if s == [] || s[0] == '\0' then "" else [s[0]] + CString(s[1..])
  }

  lemma {:induction false} CStringOf(text: string, rest: seq<char>)
    requires '\0' !in text
    ensures CString(text + ['\0'] + rest) == text
  {
    var s := text + ['\0'] + rest;
    if text == [] {
      assert s[0] == '\0';
    } else {
      assert s[1..] == text[1..] + ['\0'] + rest;
      CStringOf(text[1..], rest);
    }
  }

  /** Print a row buffer whose text ends at `end`. */
  method PrintRow(row: array<char>, end: nat) returns (text: string)
    requires end < row.Length && row[end] == '\0' && '\0' !in row[..end]
    ensures text == row[..end] + "\r\n"
  {
    CStringOf(row[..end], row[end + 1..]);
    assert row[..] == row[..end] + ['\0'] + row[end + 1..];
    text := CString(row[..]) + "\r\n";
  }

  /** Write one byte as snprintf does, with its terminating zero, and the space of a pair. */
  method PutByte(row: array<char>, start: nat, b: Byte, pairEnds: bool) returns (next: nat)
    requires row.Length == ROW_SIZE && start + 2 < ROW_SIZE && '\0' !in row[..start]
    modifies row
    ensures next == start + if pairEnds then 3 else 2
    ensures row[..next] == old(row[..start]) + HexByte(b) + (if pairEnds then " " else "")
    ensures '\0' !in row[..next]
  {
    row[start] := HexDigit(b / 16);
    row[start + 1] := HexDigit(b % 16);
    row[start + 2] := '\0';
    next := start + 2;
    assert row[..next] == old(row[..start]) + HexByte(b);
    if pairEnds {
      row[next] := ' ';
      next := next + 1;
      assert row[..next] == old(row[..start]) + HexByte(b) + " ";
    }
  }

  /** End the row at `end` and print it. */
  method EndRow(row: array<char>, end: nat) returns (text: string)
    requires end < row.Length && '\0' !in row[..end]
    modifies row
    ensures text == old(row[..end]) + "\r\n"
  {
    row[end] := '\0';
    assert row[..end] == old(row[..end]);
    text := PrintRow(row, end);
  }

  lemma CursorStep(i: nat)
    ensures Cursor(i) + 2 < ROW_SIZE
    ensures Cursor(i) + (if (i + 1) % 2 == 0 then 3 else 2) ==
            if (i + 1) % ROW_BYTES == 0 then ROW_SIZE - 1 else Cursor(i + 1)
    ensures Cursor(i) == 0 <==> i % ROW_BYTES == 0
    ensures (i + 1) % ROW_BYTES == 0 ==> Cursor(i + 1) == 0
  {
    var q, k := i / 16, i % 16;
    DivModUnique(i + 1, 16, if k == 15 then q + 1 else q, if k == 15 then 0 else k + 1);
    DivModUnique(i + 1, 2, 8 * q + (k + 1) / 2, (k + 1) % 2);
  }

  lemma BodyStep(console: string, row: string, data: seq<Byte>, i: nat)
    requires i < |data| && console + row == Body(data[..i])
    ensures Body(data[..i + 1]) ==
            console + (row + HexByte(data[i]) + (if (i + 1) % 2 == 0 then " " else ""))
            + (if (i + 1) % ROW_BYTES == 0 then "\r\n" else "")
  {
    assert data[..i + 1][..i] == data[..i];
  }

  /** The dump as it reaches the console. Every access to the row is inside its array. */
  method WriteHexBytes(data: seq<Byte>) returns (console: string)
    ensures console == Dump(data)
  {
    console := "";
    var row := new char[ROW_SIZE];
    var next := 0;
    for i := 0 to |data|
      invariant next == Cursor(i)
      invariant '\0' !in row[..next]
      invariant console + row[..next] == Body(data[..i])
    {
      CursorStep(i);
      BodyStep(console, row[..next], data, i);
      next := PutByte(row, next, data[i], (i + 1) % 2 == 0);
      ghost var text := row[..next];
      if (i + 1) % ROW_BYTES == 0 {
        var printed := EndRow(row, next);
        assert console + printed == console + text + "\r\n";
        console := console + printed;
        next := 0;
      }
    }
    assert data[..|data|] == data;
    CursorStep(|data|);
    if next > 0 {
      ghost var text := row[..next];
      var printed := EndRow(row, next);
      assert console + printed == console + text + "\r\n";
      console := console + printed;
    }
  }

  // ----- The dump can be read back

  /** The digits without layout. */
  function Digits(text: string): string {
    if text == "" then ""
    else if text[|text| - 1] in {' ', '\r', '\n'} then Digits(text[..|text| - 1])
    else Digits(text[..|text| - 1]) + [text[|text| - 1]]
  }

  function Decode(digits: string): seq<Byte> {
    if |digits| < 2 then []
    else Decode(digits[..|digits| - 2]) + [16 * HexValue(digits[|digits| - 2]) + HexValue(digits[|digits| - 1])]
  }

  lemma {:induction false} DigitsOfParts(a: string, b: string)
    ensures Digits(a + b) == Digits(a) + Digits(b)
  {
    if b == "" {
      assert a + b == a;
    } else {
      assert (a + b)[..|a + b| - 1] == a + b[..|b| - 1];
      DigitsOfParts(a, b[..|b| - 1]);
    }
  }

  lemma DigitsOfByte(b: Byte)
    ensures Digits(HexByte(b)) == HexByte(b)
  {
    var text := HexByte(b);
    assert text[..1] == [text[0]] && text[..1][..0] == "";
  }

  lemma LayoutHasNoDigits(n: nat)
    ensures Digits(Separator(n)) == "" && Digits("\r\n") == ""
  {
    assert "\r\n"[..1] == "\r" && "\r"[..0] == "" && " "[..0] == "";
    DigitsOfParts(if n % 2 == 0 then " " else "", if n % ROW_BYTES == 0 then "\r\n" else "");
  }

  lemma {:induction false} BodyDecodes(data: seq<Byte>)
    ensures Decode(Digits(Body(data))) == data
  {
    if data != [] {
      var before, b := data[..|data| - 1], data[|data| - 1];
      BodyDecodes(before);
      DigitsOfStep(Body(before), b, |data|);
      DecodeStep(Digits(Body(before)), b);
      assert data == before + [b];
    }
  }

  lemma DigitsOfStep(before: string, b: Byte, n: nat)
    ensures Digits(before + HexByte(b) + Separator(n)) == Digits(before) + HexByte(b)
  {
    DigitsOfParts(before + HexByte(b), Separator(n));
    DigitsOfParts(before, HexByte(b));
    LayoutHasNoDigits(n);
    DigitsOfByte(b);
  }

  lemma DecodeStep(digits: string, b: Byte)
    ensures Decode(digits + HexByte(b)) == Decode(digits) + [b]
  {
    var all := digits + HexByte(b);
    assert all[..|all| - 2] == digits;
    assert all[|all| - 2] == HexDigit(b / 16) && all[|all| - 1] == HexDigit(b % 16);
  }

  // ----- The layout

  /** Where byte i stands in a dump: rows of 16 bytes take 42 characters. */
  function Place(i: nat): nat {
    42 * (i / 16) + 2 * (i % 16) + (i % 16) / 2
  }

  lemma PlaceStep(i: nat)
    ensures Place(i + 1) == Place(i) + 2 + |Separator(i + 1)|
    ensures Separator(i + 1) == (if i % 2 == 1 then " " else "") + (if i % 16 == 15 then "\r\n" else "")
  {
    var q, k := i / 16, i % 16;
    DivModUnique(i + 1, 16, if k == 15 then q + 1 else q, if k == 15 then 0 else k + 1);
    DivModUnique(i, 2, 8 * q + k / 2, k % 2);
    DivModUnique(i + 1, 2, 8 * q + (k + 1) / 2, (k + 1) % 2);
  }

  lemma {:induction false} BodyLength(data: seq<Byte>)
    ensures |Body(data)| == Place(|data|)
  {
    if data != [] {
      BodyLength(data[..|data| - 1]);
      PlaceStep(|data| - 1);
    }
  }

  lemma BodyNext(data: seq<Byte>)
    requires data != []
    ensures Body(data) == Body(data[..|data| - 1]) + (HexByte(data[|data| - 1]) + Separator(|data|))
  {
    Regroup(Body(data[..|data| - 1]), HexByte(data[|data| - 1]), Separator(|data|));
  }

  lemma {:induction false} BodyLayout(data: seq<Byte>, i: nat, place: nat, end: nat)
    requires i < |data| && place == Place(i) && end == Place(i + 1)
    ensures place + 2 + |Separator(i + 1)| == end <= |Body(data)|
    ensures Body(data)[place..end] == HexByte(data[i]) + Separator(i + 1)
  {
    var before, last := data[..|data| - 1], data[|data| - 1];
    BodyLength(before);
    BodyNext(data);
    PlaceStep(i);
    if i < |before| {
      BodyLayout(before, i, place, end);
    }
    SliceOf(Body(data), Body(before), HexByte(last) + Separator(|data|), place, end,
            HexByte(data[i]) + Separator(i + 1));
  }

  lemma SliceOf(whole: string, a: string, b: string, from: nat, to: nat, slice: string)
    requires whole == a + b && from <= to
    requires (to <= |a| && a[from..to] == slice) || (from == |a| && to == |a| + |b| && b == slice)
    ensures to <= |whole| && whole[from..to] == slice
  {
  }

  lemma SliceKept(a: string, b: string, from: nat, to: nat)
    requires from <= to <= |a|
    ensures (a + b)[from..to] == a[from..to]
  {
  }

  /** A byte's characters at a place of a text. */
  predicate StandsAt(text: string, place: nat, b: Byte, pairEnds: bool, rowEnds: bool) {
    && place + 2 <= |text| && text[place] == HexDigit(b / 16) && text[place + 1] == HexDigit(b % 16)
    && (pairEnds ==> place + 2 < |text| && text[place + 2] == ' ')
    && (pairEnds && rowEnds ==> place + 4 < |text| && text[place + 3] == '\r' && text[place + 4] == '\n')
  }

  lemma PieceStands(text: string, place: nat, end: nat, b: Byte, pairEnds: bool, rowEnds: bool)
    requires place <= end <= |text|
    requires text[place..end] == HexByte(b) + ((if pairEnds then " " else "") + (if rowEnds then "\r\n" else ""))
    ensures StandsAt(text, place, b, pairEnds, rowEnds)
  {
    var piece := text[place..end];
    assert forall k :: 0 <= k < |piece| ==> text[place + k] == piece[k];
    assert piece[0] == HexDigit(b / 16) && piece[1] == HexDigit(b % 16);
    assert pairEnds ==> piece[2] == ' ';
    assert pairEnds && rowEnds ==> piece[3] == '\r' && piece[4] == '\n';
  }

  /** Each byte stands at its place, high digit first, in digits from 0 to 9 and a to f; a
      space follows every second byte and a row's end every sixteenth. */
  lemma DumpLayout(data: seq<Byte>, i: nat)
    requires i < |data|
    ensures StandsAt(Dump(data), Place(i), data[i], i % 2 == 1, i % 16 == 15)
  {
    BodyLayout(data, i, Place(i), Place(i + 1));
    PlaceStep(i);
    SliceKept(Body(data), if |data| % ROW_BYTES != 0 then "\r\n" else "", Place(i), Place(i + 1));
    PieceStands(Dump(data), Place(i), Place(i + 1), data[i], i % 2 == 1, i % 16 == 15);
  }

  /** Nothing else is in a dump but the end of a last row that is not full. */
  lemma DumpLength(data: seq<Byte>)
    ensures |Dump(data)| == Place(|data|) + if |data| % 16 != 0 then 2 else 0
    ensures |data| % 16 != 0 ==> Dump(data)[Place(|data|)..] == "\r\n"
  {
    BodyLength(data);
  }

  /** Removing spaces and row ends from a dump and reading the hex gives the bytes back, for
      data of every length. */
  lemma DumpDecodes(data: seq<Byte>)
    ensures Decode(Digits(Dump(data))) == data
  {
    BodyDecodes(data);
    assert Digits(Body(data)) + "" == Digits(Body(data));
    DigitsOfParts(Body(data), if |data| % ROW_BYTES != 0 then "\r\n" else "");
    LayoutHasNoDigits(0);
  }
}
