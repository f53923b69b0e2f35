/** Composing one log message in a buffer of fixed size, by bounded appends. */
module LogMessage {
  import Decimal

  /** What a formatted print would write, or the negative value it returns instead. */
  datatype Outcome = Text(s: string) | EncodingError(code: int)

  const INT_LIMIT: int := 0x8000_0000
  const SIZE_RANGE: int := 0x1_0000_0000

  /** Conversion of an int to the unsigned type of buffer sizes. */
  function AsSize(i: int): int {
    if i < 0 then i + SIZE_RANGE else i
  }

  /** The value that vsnprintf returns. */
  function Returned(outcome: Outcome): int {
    match outcome
    case Text(s) => |s|
    case EncodingError(code) => code
  }

  predicate InRange(outcome: Outcome) {
    match outcome
    case Text(s) => |s| < INT_LIMIT
    case EncodingError(code) => -INT_LIMIT <= code < 0
  }

  /** The characters said to have been written: the comparison of the returned int with the
      unsigned size comes first, so a negative value never reaches the second test. */
  function SafeLength(returned: int, n: int): int {
    if AsSize(returned) >= n then n - 1
    else if returned < 0 then 0
    else returned
  }

  /** The comment above the wrappers: the characters actually written, and 0 on an encoding error. */
  function DocumentedLength(returned: int, n: int): int {
    if returned < 0 then 0 else if returned >= n then n - 1 else returned
  }

  /** The wrapper does what its comment says exactly when there is no encoding error, or
      there is room for nothing but the terminating zero. */
  lemma WhenDocumented(returned: int, n: int)
    requires -INT_LIMIT <= returned < INT_LIMIT && 1 <= n <= INT_LIMIT
    ensures SafeLength(returned, n) == DocumentedLength(returned, n) <==> returned >= 0 || n == 1
  {
    assert returned < 0 ==> SafeLength(returned, n) == n - 1;
  }

  function Min(a: int, b: int): int {
    if a < b then a else b
  }

  function Truncate(s: string, limit: nat): string {
    s[..Min(|s|, limit)]
  }

  // ----- The pieces of a message

  datatype Level = None | Error | Warn | Info | Debug

  /** One call: its arguments, the state that goes into the metadata, and what the formatter
      makes of each part. */
  datatype Request = Request(
    level: Level,
    hasFile: bool,
    file: string,             // path of the source file
    line: nat,
    format: string,
    body: string,             // the format applied to its arguments
    number: nat,
    ticks: nat,
    task: string,
    metadataOutcome: Outcome,
    levelOutcome: Outcome,
    fileOutcome: Outcome,
    bodyOutcome: Outcome,
    newlineOutcome: Outcome)

  function LevelName(level: Level): string
    requires level != None
  {
    match level
    case Error => "ERROR"
    case Warn => "WARN"
    case Info => "INFO"
    case Debug => "DEBUG"
  }

  /** Position after the last occurrence of c, or 0. */
  function AfterLast(s: string, c: char): (n: nat)
    ensures n <= |s|
    ensures c !in s[n..]
    ensures if n > 0 then s[n - 1] == c else c !in s
  {
    if s == "" then 0
    else if s[|s| - 1] == c then |s|
    else
      assert s[..|s| - 1] + [s[|s| - 1]] == s;
      AfterLast(s[..|s| - 1], c)
  }

  /** The file name of a path: a backslash decides before a slash does. */
  function FileName(path: string): (name: string)
    ensures |name| <= |path| && name == path[|path| - |name|..]
    ensures '\\' in path ==> '\\' !in name && |name| < |path| && path[|path| - |name| - 1] == '\\'
    ensures '\\' !in path && '/' in path ==> '/' !in name && |name| < |path| && path[|path| - |name| - 1] == '/'
    ensures '\\' !in path && '/' !in path ==> name == path
  {
    if '\\' in path then path[AfterLast(path, '\\')..]
    else path[AfterLast(path, '/')..]
  }

  function MetadataText(number: nat, ticks: nat, task: string): string {
    Decimal.Print(number) + " " + Decimal.Print(ticks) + " [" + task + "] "
  }

  function FileText(path: string, line: nat): string {
    "[" + FileName(path) + ":" + Decimal.Print(line) + "] "
  }

  predicate NeedsNewline(format: string) {
    |format| >= 1 && format[|format| - 1] != '\n'
  }

  /** A part of a message: whether the call includes it, what the formatter does, and the
      text it stands for. */
  datatype Part = Part(included: bool, outcome: Outcome, text: string)

  function Parts(r: Request): seq<Part> {
    var metadata := MetadataText(r.number, r.ticks, r.task);
    var file := FileText(r.file, r.line);
    PartsWith(r, metadata, LevelText(r.level), file)
  }

  function LevelText(level: Level): string {
    if level == None then "" else "[" + LevelName(level) + "] "
  }

  function PartsWith(r: Request, metadata: string, level: string, file: string): seq<Part> {
    [Part(r.format != "\n", r.metadataOutcome, metadata),
     Part(r.level != None, r.levelOutcome, level),
     Part(r.hasFile, r.fileOutcome, file),
     Part(true, r.bodyOutcome, r.body),
     Part(NeedsNewline(r.format), r.newlineOutcome, "\n")]
  }

  /** The whole message without any limit. */
  function WholeText(parts: seq<Part>): string {
    if parts == [] then ""
    else
      var last := parts[|parts| - 1];
      var before := WholeText(parts[..|parts| - 1]);
      if last.included then before + last.text else before
  }

  /** The outcomes of the included parts, in order. */
  function Pieces(parts: seq<Part>): seq<Outcome> {
    if parts == [] then []
    else
      var last := parts[|parts| - 1];
      var before := Pieces(parts[..|parts| - 1]);
      if last.included then before + [last.outcome] else before
  }

  /** A formatter that does not fail writes the text of its part. */
  predicate Honest(parts: seq<Part>) {
    forall i :: 0 <= i < |parts| && parts[i].included && parts[i].outcome.Text? ==> parts[i].outcome.s == parts[i].text
  }

  predicate HasError(pieces: seq<Outcome>) {
    !forall i :: 0 <= i < |pieces| ==> pieces[i].Text?
  }

  /** The text of the pieces before the first encoding error. */
  function KnownText(pieces: seq<Outcome>): string {
    if pieces == [] then ""
    else if HasError(pieces[..|pieces| - 1]) || pieces[|pieces| - 1].EncodingError?
        then KnownText(pieces[..|pieces| - 1])
    else KnownText(pieces[..|pieces| - 1]) + pieces[|pieces| - 1].s
  }

  /** The buffer after some pieces: as much of the known text as fits, and after an encoding
      error the rest counts as written although its content is unknown. */
  ghost predicate Holds(buffer: seq<char>, length: nat, pieces: seq<Outcome>) {
    && length < |buffer|
    && length == (if HasError(pieces) then |buffer| - 1 else Min(|KnownText(pieces)|, |buffer| - 1))
    && Truncate(KnownText(pieces), |buffer| - 1) <= buffer
  }

  /** A formatted print of at most n characters, the terminating zero included. */
  method PrintBounded(buffer: array<char>, start: nat, n: nat, s: string)
    requires start + n == buffer.Length && 1 <= n
    modifies buffer
    ensures start + Min(|s|, n - 1) < buffer.Length
    ensures buffer[..start + Min(|s|, n - 1)] == old(buffer[..start]) + s[..Min(|s|, n - 1)]
    ensures buffer[start + Min(|s|, n - 1)] == '\0'
  {
    var count := Min(|s|, n - 1);
    for i := 0 to count
      invariant buffer[..start + i] == old(buffer[..start]) + s[..i]
    {
      buffer[start + i] := s[i];
    }
    buffer[start + count] := '\0';
    assert buffer[..start + count] == old(buffer[..start]) + s[..count];
  }

  /** Appending what fits to a truncated text is truncating the longer text. */
  lemma HoldsAppend(before: seq<char>, after: seq<char>, length: nat, pieces: seq<Outcome>, s: string)
    requires Holds(before, length, pieces) && |after| == |before|
    requires var count := Min(|s|, |before| - length - 1);
             after[..length + count] == before[..length] + s[..count]
    ensures Holds(after, length + Min(|s|, |before| - length - 1), pieces + [Text(s)])
  {
    HasErrorAppend(pieces, Text(s));
    var limit, count, known := |before| - 1, Min(|s|, |before| - length - 1), KnownText(pieces);
    if HasError(pieces) {
      assert after[..length + count] == before[..length];
    } else {
      TruncateAppend(known, s, limit);
    }
  }

  lemma TruncateAppend(known: string, s: string, limit: nat)
    ensures var length := Min(|known|, limit);
            Truncate(known + s, limit) == Truncate(known, limit) + s[..Min(|s|, limit - length)]
  {
  }

  /** Append one formatted piece. After an encoding error the room left may hold anything. */
  method Append(buffer: array<char>, length: nat, outcome: Outcome, ghost pieces: seq<Outcome>) returns (newLength: nat)
    requires InRange(outcome) && buffer.Length < INT_LIMIT
    requires Holds(buffer[..], length, pieces)
    modifies buffer
    ensures Holds(buffer[..], newLength, pieces + [outcome])
  {
    var n := buffer.Length - length;
    match outcome
    case Text(s) =>
      ghost var before := buffer[..];
      PrintBounded(buffer, length, n, s);
      HoldsAppend(before, buffer[..], length, pieces, s);
      newLength := length + SafeLength(|s|, n);
    case EncodingError(code) =>
      HasErrorAppend(pieces, outcome);
      newLength := length + SafeLength(code, n);
  }

  lemma HasErrorAppend(pieces: seq<Outcome>, outcome: Outcome)
    ensures HasError(pieces + [outcome]) <==> HasError(pieces) || outcome.EncodingError?
    ensures KnownText(pieces + [outcome]) ==
            if HasError(pieces) || outcome.EncodingError? then KnownText(pieces) else KnownText(pieces) + outcome.s
  {
    var all := pieces + [outcome];
    assert all[..|all| - 1] == pieces && all[|pieces|] == outcome;
    assert forall i :: 0 <= i < |pieces| ==> all[i] == pieces[i];
  }

  /** One guarded append of the composition, for part number k. */
  method AppendIf(included: bool, buffer: array<char>, length: nat, outcome: Outcome,
      ghost parts: seq<Part>, ghost k: nat)
    returns (newLength: nat)
    requires InRange(outcome) && buffer.Length < INT_LIMIT
    requires k < |parts| && parts[k].included == included && parts[k].outcome == outcome
    requires Holds(buffer[..], length, Pieces(parts[..k]))
    modifies buffer
    ensures Holds(buffer[..], newLength, Pieces(parts[..k + 1]))
  {
    assert parts[..k + 1][..k] == parts[..k];
    newLength := length;
    if included && length < buffer.Length {
      newLength := Append(buffer, length, outcome, Pieces(parts[..k]));
    }
  }

  /** The parts are those the code appends, whatever their texts. */
  ghost predicate Shape(parts: seq<Part>, r: Request) {
    && |parts| == 5
    && parts[0].included == (r.format != "\n") && parts[0].outcome == r.metadataOutcome
    && parts[1].included == (r.level != None) && parts[1].outcome == r.levelOutcome
    && parts[2].included == (r.hasFile) && parts[2].outcome == r.fileOutcome
    && parts[3].included && parts[3].outcome == r.bodyOutcome
    && parts[4].included == NeedsNewline(r.format) && parts[4].outcome == r.newlineOutcome
    && forall i :: 0 <= i < 5 ==> InRange(parts[i].outcome)
  }

  /** Metadata, level and file. */
  method ComposePrefix(buffer: array<char>, r: Request, ghost parts: seq<Part>) returns (length: nat)
    requires 0 < buffer.Length < INT_LIMIT
    requires Shape(parts, r)
    modifies buffer
    ensures Holds(buffer[..], length, Pieces(parts[..3]))
  {
    length := AppendIf(r.format != "\n", buffer, 0, r.metadataOutcome, parts, 0);
    length := AppendIf(r.level != None, buffer, length, r.levelOutcome, parts, 1);
    length := AppendIf(r.hasFile, buffer, length, r.fileOutcome, parts, 2);
  }

  /** Body and newline. */
  method ComposeSuffix(buffer: array<char>, r: Request, ghost parts: seq<Part>, prefixLength: nat) returns (length: nat)
    requires buffer.Length < INT_LIMIT
    requires Shape(parts, r) && Holds(buffer[..], prefixLength, Pieces(parts[..3]))
    modifies buffer
    ensures Holds(buffer[..], length, Pieces(parts))
  {
    length := AppendIf(true, buffer, prefixLength, r.bodyOutcome, parts, 3);
    length := AppendIf(NeedsNewline(r.format), buffer, length, r.newlineOutcome, parts, 4);
    assert parts[..5] == parts;
  }

  /** All five appends: each sees only the room the earlier ones left. */
  method ComposeParts(buffer: array<char>, r: Request, ghost parts: seq<Part>, ghost pieces: seq<Outcome>)
    returns (length: nat)
    requires 0 < buffer.Length < INT_LIMIT
    requires Shape(parts, r) && pieces == Pieces(parts)
    modifies buffer
    ensures Holds(buffer[..], length, pieces)
    ensures length < buffer.Length && buffer[length] == '\0'
  {
    length := ComposePrefix(buffer, r, parts);
    length := ComposeSuffix(buffer, r, parts, length);
    TerminateKeepsText(buffer[..], length, pieces);
    buffer[length] := '\0';
  }

  lemma TerminateKeepsText(buffer: seq<char>, length: nat, pieces: seq<Outcome>)
    requires Holds(buffer, length, pieces)
    ensures Holds(buffer[length := '\0'], length, pieces)
  {
  }

  lemma {:induction false} KnownIsWhole(parts: seq<Part>)
    requires Honest(parts) && !HasError(Pieces(parts))
    ensures KnownText(Pieces(parts)) == WholeText(parts)
  {
    if parts != [] {
      var before, last := parts[..|parts| - 1], parts[|parts| - 1];
      HasErrorAppend(Pieces(before), last.outcome);
      KnownIsWhole(before);
    }
  }

  /** Without an encoding error the message in the buffer is one truncation of the whole
      text: all the bounded appends together lose nothing but its end. */
  lemma MessageIsTruncation(buffer: seq<char>, length: nat, parts: seq<Part>)
    requires Holds(buffer, length, Pieces(parts))
    requires Honest(parts) && !HasError(Pieces(parts))
    ensures buffer[..length] == Truncate(WholeText(parts), |buffer| - 1)
  {
    KnownIsWhole(parts);
  }

  predicate OutcomesInRange(r: Request) {
    && InRange(r.metadataOutcome) && InRange(r.levelOutcome) && InRange(r.fileOutcome)
    && InRange(r.bodyOutcome) && InRange(r.newlineOutcome)
  }

  lemma PartsHaveShape(r: Request, metadata: string, level: string, file: string)
    requires OutcomesInRange(r)
    ensures Shape(PartsWith(r, metadata, level, file), r)
  {
  }

  /** The message of a call: metadata unless the format is a lone newline, level, file, body,
      and a newline if the format does not end in one. */
  function MessageText(r: Request): string {
    MessageWith(r, MetadataText(r.number, r.ticks, r.task), LevelText(r.level), FileText(r.file, r.line), "\n")
  }

  function MessageWith(r: Request, metadata: string, level: string, file: string, newline: string): string {
    (if r.format != newline then metadata else "")
    + (if r.level != None then level else "")
    + (if r.hasFile then file else "")
    + r.body
    + (if NeedsNewline(r.format) then newline else "")
  }

  /** No formatter that the call uses fails: each writes the text of its part. */
  predicate NoFailure(r: Request) {
    NoFailureWith(r, MetadataText(r.number, r.ticks, r.task), LevelText(r.level), FileText(r.file, r.line), "\n")
  }

  predicate NoFailureWith(r: Request, metadata: string, level: string, file: string, newline: string) {
    && (r.format != newline ==> r.metadataOutcome == Text(metadata))
    && (r.level != None ==> r.levelOutcome == Text(level))
    && (r.hasFile ==> r.fileOutcome == Text(file))
    && r.bodyOutcome == Text(r.body)
    && (NeedsNewline(r.format) ==> r.newlineOutcome == Text(newline))
  }

  /** Parts that are all formatted as they should be. */
  predicate Written(parts: seq<Part>) {
    forall i :: 0 <= i < |parts| && parts[i].included ==> parts[i].outcome == Text(parts[i].text)
  }

  lemma {:induction false} WrittenIsHonest(parts: seq<Part>)
    requires Written(parts)
    ensures Honest(parts) && !HasError(Pieces(parts))
  {
    if parts != [] {
      var before, last := parts[..|parts| - 1], parts[|parts| - 1];
      WrittenIsHonest(before);
      HasErrorAppend(Pieces(before), last.outcome);
    }
  }

  predicate Gives(part: Part, text: string) {
    text == if part.included then part.text else ""
  }

  lemma WholeTextStep(parts: seq<Part>, k: nat, before: string, text: string)
    requires k < |parts| && WholeText(parts[..k]) == before && Gives(parts[k], text)
    ensures WholeText(parts[..k + 1]) == before + text
  {
    assert parts[..k + 1][..k] == parts[..k];
  }

  lemma WholeTextOfThree(parts: seq<Part>, t0: string, t1: string, t2: string)
    requires |parts| >= 3 && Gives(parts[0], t0) && Gives(parts[1], t1) && Gives(parts[2], t2)
    ensures WholeText(parts[..3]) == t0 + t1 + t2
  {
    assert parts[..0] == [];
    WholeTextStep(parts, 0, "", t0);
    WholeTextStep(parts, 1, t0, t1);
    WholeTextStep(parts, 2, t0 + t1, t2);
  }

  lemma WholeTextOfFive(parts: seq<Part>, t: string, t3: string, t4: string)
    requires |parts| == 5 && WholeText(parts[..3]) == t && Gives(parts[3], t3) && Gives(parts[4], t4)
    ensures WholeText(parts) == t + t3 + t4
  {
    WholeTextStep(parts, 3, t, t3);
    WholeTextStep(parts, 4, t + t3, t4);
    assert parts[..5] == parts;
  }

  lemma MessageOfParts(r: Request, parts: seq<Part>, metadata: string, level: string, file: string, newline: string)
    requires newline == "\n" && parts == PartsWith(r, metadata, level, file)
    ensures WholeText(parts) == MessageWith(r, metadata, level, file, newline)
    ensures NoFailureWith(r, metadata, level, file, newline) ==> Written(parts)
  {
    var t0, t1 := if r.format != newline then metadata else "", if r.level != None then level else "";
    var t2, t4 := if r.hasFile then file else "", if NeedsNewline(r.format) then newline else "";
    WholeTextOfThree(parts, t0, t1, t2);
    WholeTextOfFive(parts, t0 + t1 + t2, r.body, t4);
  }

  /** Compose a message in a buffer. Whatever the formatters return, the length stays below
      the buffer's and the text is terminated; when none fails, the buffer holds one
      truncation of the whole message, and in general what is known of it. */
  method Compose(buffer: array<char>, r: Request) returns (length: nat)
    requires 0 < buffer.Length < INT_LIMIT && OutcomesInRange(r)
    modifies buffer
    ensures length < buffer.Length && buffer[length] == '\0'
    ensures Holds(buffer[..], length, Pieces(Parts(r)))
    ensures NoFailure(r) ==> buffer[..length] == Truncate(MessageText(r), buffer.Length - 1)
  {
    ghost var metadata, level := MetadataText(r.number, r.ticks, r.task), LevelText(r.level);
    ghost var file, newline := FileText(r.file, r.line), "\n";
    ghost var parts := PartsWith(r, metadata, level, file);
    length := ComposeWith(buffer, r, parts, metadata, level, file, newline);
  }

  /** The same with the texts given. */
  method ComposeWith(buffer: array<char>, r: Request, ghost parts: seq<Part>, ghost metadata: string,
                     ghost level: string, ghost file: string, ghost newline: string) returns (length: nat)
    requires 0 < buffer.Length < INT_LIMIT && OutcomesInRange(r)
    requires newline == "\n" && parts == PartsWith(r, metadata, level, file)
    modifies buffer
    ensures length < buffer.Length && buffer[length] == '\0'
    ensures Holds(buffer[..], length, Pieces(parts))
    ensures NoFailureWith(r, metadata, level, file, newline) ==>
              buffer[..length] == Truncate(MessageWith(r, metadata, level, file, newline), buffer.Length - 1)
  {
    PartsHaveShape(r, metadata, level, file);
    MessageOfParts(r, parts, metadata, level, file, newline);
    length := ComposeParts(buffer, r, parts, Pieces(parts));
    ghost var text := MessageWith(r, metadata, level, file, newline);
    if NoFailureWith(r, metadata, level, file, newline) {
      WrittenIsHonest(parts);
      MessageIsTruncation(buffer[..], length, parts);
    }
  }

  /** The message that is sent on is empty exactly when the buffer has no room for a
      character, or there is neither text nor encoding error. */
  lemma WhenEmpty(buffer: seq<char>, length: nat, pieces: seq<Outcome>)
    requires Holds(buffer, length, pieces)
    ensures length == 0 <==> |buffer| == 1 || (!HasError(pieces) && KnownText(pieces) == "")
  {
    assert Min(|KnownText(pieces)|, |buffer| - 1) == 0 <==> |buffer| == 1 || |KnownText(pieces)| == 0;
  }

  /** The assertion that follows the file name holds exactly when the buffer has room for a
      character: the text of a file is never empty. */
  lemma FileAssertion(buffer: seq<char>, length: nat, pieces: seq<Outcome>, path: string, line: nat)
    requires pieces != []
    requires var last := pieces[|pieces| - 1]; last.Text? ==> last.s == FileText(path, line)
    requires Holds(buffer, length, pieces)
    ensures length > 0 <==> |buffer| > 1
  {
    var n := |pieces| - 1;
    assert pieces == pieces[..n] + [pieces[n]];
    HasErrorAppend(pieces[..n], pieces[n]);
  }

  // ----- What a message looks like

  predicate EndsInNewline(text: string) {
    text != "" && text[|text| - 1] == '\n'
  }

  /** A message ends in a newline if its format is not empty, and nothing is added behind a
      body whose format has one already. */
  lemma MessageEndsInNewline(r: Request)
    requires r.format != "" && (EndsInNewline(r.format) ==> EndsInNewline(r.body))
    ensures EndsInNewline(MessageText(r))
  {
    MessageEndsWith(r, MetadataText(r.number, r.ticks, r.task), LevelText(r.level), FileText(r.file, r.line), "\n");
  }

  lemma MessageEndsWith(r: Request, metadata: string, level: string, file: string, newline: string)
    requires newline == "\n"
    ensures var text, end := MessageWith(r, metadata, level, file, newline),
                             r.body + if r.format == "" || EndsInNewline(r.format) then "" else newline;
            |end| <= |text| && text[|text| - |end|..] == end
  {
    var prefix := (if r.format != newline then metadata else "") + (if r.level != None then level else "")
                  + (if r.hasFile then file else "");
    var tail := if NeedsNewline(r.format) then newline else "";
    assert MessageWith(r, metadata, level, file, newline) == prefix + (r.body + tail);
  }

  lemma LevelTexts()
    ensures LevelText(Error) == "[ERROR] " && LevelText(Warn) == "[WARN] "
    ensures LevelText(Info) == "[INFO] " && LevelText(Debug) == "[DEBUG] " && LevelText(None) == ""
  {
  }

  lemma SampleMetadata(number: nat, ticks: nat, task: string)
    requires number == 7 && ticks == 12 && task == "main"
    ensures MetadataText(number, ticks, task) == "7 12 [main] "
  {
    Decimal.TwoDigits(12);
    assert Decimal.Print(7) == "7" && Decimal.Print(12) == "12";
  }

  lemma SampleFileText(path: string, line: nat)
    requires path == "src/a.c" && line == 9
    ensures FileText(path, line) == "[a.c:9] "
  {
    assert path[3] == '/' && path[4..] == "a.c";
    var name := FileName(path);
    assert |name| == 3 by {
      assert path[|path| - |name| - 1] == '/';
      assert forall k :: 0 <= k < |path| && k != 3 ==> path[k] != '/';
    }
    assert name == "a.c" && Decimal.Print(9) == "9";
  }

  /** A whole message, part by part. */
  lemma SampleMessage(r: Request, metadata: string, level: string, file: string, newline: string)
    requires r.level == Warn && r.hasFile && r.file == "src/a.c" && r.line == 9 && r.format == "%s"
    requires r.number == 7 && r.ticks == 12 && r.task == "main"
    requires metadata == "7 12 [main] " && level == "[WARN] " && file == "[a.c:9] " && newline == "\n"
    ensures MessageText(r) == metadata + level + file + r.body + newline
  {
    SampleMetadata(r.number, r.ticks, r.task);
    SampleFileText(r.file, r.line);
    LevelTexts();
    SampleWith(r, metadata, level, file, newline);
  }

  lemma SampleWith(r: Request, metadata: string, level: string, file: string, newline: string)
    requires r.level == Warn && r.hasFile && r.format == "%s" && newline == "\n"
    ensures MessageWith(r, metadata, level, file, newline) == metadata + level + file + r.body + newline
  {
  }

  /** An empty format has its metadata and no newline. */
  lemma EmptyFormat(r: Request, metadata: string, level: string, file: string, newline: string)
    requires r.format == "" && r.level != None && r.hasFile && newline == "\n"
    ensures MessageWith(r, metadata, level, file, newline) == metadata + level + file + r.body
  {
  }

  /** A format that is a newline and nothing else gets no metadata: the message is the newline. */
  lemma LoneNewline(r: Request)
    requires r.format == "\n" && r.body == "\n" && r.level == None && !r.hasFile
    ensures MessageText(r) == "\n"
  {
  }
}
