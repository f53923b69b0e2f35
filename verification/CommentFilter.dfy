/** Removal of C comments before the search for banned functions. */
module CommentFilter {
  import opened Sequences

  datatype Token = Plain | LineComment | Open | Close

  /** A match of the comment pattern at a position of a line. */
  datatype Match = Match(token: Token, start: nat) {
    function End(): nat { start + 2 }
  }

  /** The comment token at a position, or a plain character. */
  function TokenAt(line: string, p: nat): (t: Token)
    ensures t != Plain ==> p + 2 <= |line|
  {
    if p + 2 > |line| then Plain
    else if line[p] == '/' && line[p + 1] == '/' then LineComment
    else if line[p] == '/' && line[p + 1] == '*' then Open
    else if line[p] == '*' && line[p + 1] == '/' then Close
    else Plain
  }

  /** The leftmost matches that do not overlap, from position p on. */
  function Matches(line: string, p: nat): (ms: seq<Match>)
    ensures ms != [] ==> p <= ms[0].start && ms[0].End() <= |line|
    decreases |line| - p
  {
    if p >= |line| then []
    else if TokenAt(line, p) != Plain then [Match(TokenAt(line, p), p)] + Matches(line, p + 2)
    else Matches(line, p + 1)
  }

  // ----- The meaning: an automaton that reads one token or one character at a time

  /** The code characters of a stretch of a line, and whether a block comment is open after it. */
  datatype Scanned = Scanned(text: string, inComment: bool) {
    function After(before: string): Scanned {
      Scanned(before + text, inComment)
    }
  }

  /** The rest of a line from position p on. */
  function Scan(line: string, p: nat, inComment: bool): Scanned
    decreases |line| - p
  {
    if p >= |line| then Scanned("", inComment)
    else match TokenAt(line, p)
      case Plain =>
        if inComment then Scan(line, p + 1, true) else Scan(line, p + 1, false).After([line[p]])
      case LineComment =>
        if inComment then Scan(line, p + 2, true) else Scanned("", false)
      case Open => Scan(line, p + 2, true)
      case Close =>
        if inComment then Scan(line, p + 2, false) else Scan(line, p + 2, false).After(line[p..p + 2])
  }

  /** Line numbers and texts of the lines that have code, from a line number on. */
  function ScanLines(lines: seq<string>, number: nat, inComment: bool): seq<(nat, string)>
    decreases |lines|
  {
    if lines == [] then []
    else
      var scanned := Scan(StripNewlines(lines[0]), 0, inComment);
      var rest := ScanLines(lines[1..], number + 1, scanned.inComment);
      if scanned.text != "" then [(number, scanned.text)] + rest else rest
  }

  /** Whether a block comment is open after the lines. */
  function CommentAfter(lines: seq<string>, inComment: bool): bool
    decreases |lines|
  {
    if lines == [] then inComment
    else CommentAfter(lines[1..], Scan(StripNewlines(lines[0]), 0, inComment).inComment)
  }

  function StripNewlines(line: string): string {
    if line != "" && line[|line| - 1] == '\n' then StripNewlines(line[..|line| - 1]) else line
  }

  // ----- The code: slices of the line between the matches

  /** Between two tokens every character is copied, or dropped inside a comment. */
  lemma {:induction false} ScanToToken(line: string, p: nat, q: nat, inComment: bool)
    requires p <= q <= |line|
    requires forall k :: p <= k < q ==> TokenAt(line, k) == Plain
    ensures Scan(line, p, inComment) ==
            if inComment then Scan(line, q, true) else Scan(line, q, false).After(line[p..q])
    decreases q - p
  {
    if p < q {
      ScanToToken(line, p + 1, q, inComment);
      assert line[p..q] == [line[p]] + line[p + 1..q];
    }
    assert line[q..q] == "";
  }

  /** The next match is the first token at or after p. */
  lemma {:induction false} FirstMatch(line: string, p: nat)
    requires p <= |line|
    ensures var ms := Matches(line, p);
            var first := if ms == [] then |line| else ms[0].start;
            && (forall k :: p <= k < first ==> TokenAt(line, k) == Plain)
            && (ms != [] ==> TokenAt(line, first) == ms[0].token != Plain && ms[1..] == Matches(line, ms[0].End()))
    decreases |line| - p
  {
    if p < |line| {
      if TokenAt(line, p) == Plain {
        FirstMatch(line, p + 1);
      } else {
        assert Matches(line, p) == [Match(TokenAt(line, p), p)] + Matches(line, p + 2);
      }
    }
  }

  /** One token, read by the automaton. */
  lemma ScanToken(line: string, m: Match, inComment: bool)
    requires TokenAt(line, m.start) == m.token != Plain
    ensures var here := Scan(line, m.start, inComment);
            var after := Scan(line, m.End(), if inComment then m.token != Close else m.token == Open);
            if !inComment && m.token == LineComment then here == Scanned("", false)
            else if !inComment && m.token == Close then here == after.After(line[m.start..m.End()])
            else here == after
  {
  }

  /** What the loop has still to add to its text if it gives the line out from `breaker` on. */
  function Pending(line: string, breaker: nat, p: nat, inComment: bool): string
    requires breaker <= |line| && p <= |line| && (!inComment ==> breaker <= p)
  {
    if inComment then Scan(line, p, inComment).text else line[breaker..p] + Scan(line, p, inComment).text
  }

  /** One match, in terms of the pending text. */
  lemma PendingStep(line: string, breaker: nat, p: nat, inComment: bool)
    requires breaker <= |line| && p <= |line| && (!inComment ==> breaker <= p)
    requires Matches(line, p) != []
    ensures var m, pending := Matches(line, p)[0], Pending(line, breaker, p, inComment);
            && (inComment && m.token == Close ==> pending == Pending(line, m.End(), m.End(), false))
            && (inComment && m.token != Close ==> pending == Pending(line, breaker, m.End(), true))
            && (!inComment && m.token == LineComment ==> pending == line[breaker..m.start])
            && (!inComment && m.token == Open ==> pending == line[breaker..m.start] + Scan(line, m.End(), true).text)
            && (!inComment && m.token == Close ==> pending == Pending(line, breaker, m.End(), false))
    ensures var m, state := Matches(line, p)[0], Scan(line, p, inComment).inComment;
            if !inComment && m.token == LineComment then !state
            else state == Scan(line, m.End(), if inComment then m.token != Close else m.token == Open).inComment
  {
    var m := Matches(line, p)[0];
    FirstMatch(line, p);
    ScanToToken(line, p, m.start, inComment);
    ScanToken(line, m, inComment);
    if inComment {
      assert line[m.End()..m.End()] + Scan(line, m.End(), false).text == Scan(line, m.End(), false).text;
    } else {
      PendingParts(line, breaker, p, m, Scan(line, m.End(), m.token == Open).text);
    }
  }

  lemma PendingParts(line: string, breaker: nat, p: nat, m: Match, rest: string)
    requires breaker <= p <= m.start && m.End() <= |line|
    ensures line[breaker..p] + (line[p..m.start] + "") == line[breaker..m.start]
    ensures line[breaker..p] + (line[p..m.start] + rest) == line[breaker..m.start] + rest
    ensures line[breaker..p] + (line[p..m.start] + (line[m.start..m.End()] + rest)) == line[breaker..m.End()] + rest
  {
  }

  lemma ScanRest(line: string, breaker: nat, p: nat, inComment: bool)
    requires breaker <= |line| && p <= |line| && (!inComment ==> breaker <= p)
    requires Matches(line, p) == []
    ensures Scan(line, p, inComment).inComment == inComment
    ensures Pending(line, breaker, p, inComment) == if inComment then "" else line[breaker..]
  {
    FirstMatch(line, p);
    ScanToToken(line, p, |line|, inComment);
    assert Scan(line, |line|, inComment) == Scanned("", inComment);
    assert !inComment ==> line[breaker..p] + (line[p..|line|] + "") == line[breaker..];
  }

  /** One line: the loop over the matches with its `breaker`, the position from which the
      line has not been given out yet. */
  method FilterLine(line: string, wasInComment: bool) returns (temp: string, inComment: bool)
    ensures Scanned(temp, inComment) == Scan(line, 0, wasInComment)
  {
    temp, inComment := "", wasInComment;
    var breaker: nat := if inComment then |line| else 0;
    var matches := Matches(line, 0);
    var i := 0;
    ghost var p: nat := 0;  // where the scan has got to: the end of the last match
    assert line[0..0] + Scan(line, 0, false).text == Scan(line, 0, false).text;
    while i < |matches|
      invariant i <= |matches| && p <= |line|
      invariant matches[i..] == Matches(line, p)
      invariant if inComment then breaker == |line| else breaker <= p
      invariant temp + Pending(line, breaker, p, inComment) == Scan(line, 0, wasInComment).text
      invariant Scan(line, p, inComment).inComment == Scan(line, 0, wasInComment).inComment
    {
      var m := matches[i];
      var start, end := m.start, m.End();
      assert matches[i..][0] == m && matches[i..][1..] == matches[i + 1..];
      FirstMatch(line, p);
      PendingStep(line, breaker, p, inComment);
      if inComment {
        if m.token == Close {
          inComment := false;
          breaker := end;
        }
      } else {
        if m.token == Open {
          inComment := true;
          Regroup(temp, line[breaker..start], Scan(line, end, true).text);
          temp := temp + line[breaker..start];
          breaker := |line|;
        } else if m.token == LineComment {
          temp := temp + line[breaker..start];
          return;
        }
      }
      p := end;
      i := i + 1;
    }
    ScanRest(line, breaker, p, inComment);
    assert inComment ==> line[breaker..] == "";
    temp := temp + line[breaker..];
  }

  /** All lines: block comments carry over, and lines left empty are not given out. */
  method FilterComments(lines: seq<string>) returns (output: seq<(nat, string)>)
    ensures output == ScanLines(lines, 1, false)
  {
    output := [];
    var inComment := false;
    assert lines[0..] == lines;
    for number := 0 to |lines|
      invariant output + ScanLines(lines[number..], number + 1, inComment) == ScanLines(lines, 1, false)
    {
      NextLine(lines, number, inComment, output);
      var line := StripNewlines(lines[number]);
      var temp;
      temp, inComment := FilterLine(line, inComment);
      if temp != "" {
        output := output + [(number + 1, temp)];
      }
    }
    assert lines[|lines|..] == [] && output + [] == output;
  }

  lemma NextLine(lines: seq<string>, number: nat, inComment: bool, output: seq<(nat, string)>)
    requires number < |lines|
    ensures var scanned := Scan(StripNewlines(lines[number]), 0, inComment);
            output + ScanLines(lines[number..], number + 1, inComment) ==
              (if scanned.text != "" then output + [(number + 1, scanned.text)] else output)
              + ScanLines(lines[number + 1..], number + 2, scanned.inComment)
  {
    var scanned := Scan(StripNewlines(lines[number]), 0, inComment);
    assert lines[number..][0] == lines[number] && lines[number..][1..] == lines[number + 1..];
    var later := ScanLines(lines[number + 1..], number + 2, scanned.inComment);
    assert output + ([(number + 1, scanned.text)] + later) == (output + [(number + 1, scanned.text)]) + later;
  }

  // ----- Laws of the automaton

  /** Texts with line numbers in a range, increasing strictly, and none of them empty. */
  predicate Numbered(output: seq<(nat, string)>, from: nat, to: nat) {
    output == [] || (from <= output[0].0 < to && output[0].1 != "" && Numbered(output[1..], output[0].0 + 1, to))
  }

  lemma {:induction false} NumberedFrom(output: seq<(nat, string)>, from: nat, later: nat, to: nat)
    requires Numbered(output, later, to) && from <= later
    ensures Numbered(output, from, to)
  {
  }

  /** The lines given out are numbered like the file's, and none is empty. */
  lemma {:induction false} OutputIsNumbered(lines: seq<string>, number: nat, inComment: bool)
    ensures Numbered(ScanLines(lines, number, inComment), number, number + |lines|)
    decreases |lines|
  {
    if lines != [] {
      var scanned := Scan(StripNewlines(lines[0]), 0, inComment);
      OutputIsNumbered(lines[1..], number + 1, scanned.inComment);
      var rest := ScanLines(lines[1..], number + 1, scanned.inComment);
      if scanned.text != "" {
        assert ([(number, scanned.text)] + rest)[1..] == rest;
      } else {
        NumberedFrom(rest, number, number + 1, number + |lines|);
      }
    }
  }

  /** A file can be filtered in parts: only the open comment is carried from one to the next. */
  lemma {:induction false} FilterInParts(first: seq<string>, second: seq<string>, number: nat, inComment: bool)
    ensures ScanLines(first + second, number, inComment) ==
            ScanLines(first, number, inComment) + ScanLines(second, number + |first|, CommentAfter(first, inComment))
    ensures CommentAfter(first + second, inComment) == CommentAfter(second, CommentAfter(first, inComment))
    decreases |first|
  {
    if first == [] {
      assert first + second == second;
    } else {
      assert (first + second)[1..] == first[1..] + second;
      FilterInParts(first[1..], second, number + 1, Scan(StripNewlines(first[0]), 0, inComment).inComment);
    }
  }

  /** Code without a comment token is left alone, and inside a comment nothing is given out. */
  lemma NoTokens(line: string, inComment: bool)
    requires Matches(line, 0) == []
    ensures Scan(line, 0, inComment) == Scanned(if inComment then "" else line, inComment)
  {
    ScanRest(line, 0, 0, inComment);
    assert line[0..0] + Scan(line, 0, inComment).text == Scan(line, 0, inComment).text;
  }

  // ----- What is left of texts with comment marks

  /** A stretch without the characters that comment marks are made of. */
  predicate NoMarks(text: string) {
    '/' !in text && '*' !in text
  }

  /** A line whose first mark is at a position. */
  lemma FirstMark(line: string, p: nat, a: string, mark: string, rest: string, inComment: bool)
    requires NoMarks(a) && |mark| == 2 && p <= |line| && line[p..] == a + mark + rest
    requires TokenAt(line, p + |a|) != Plain
    ensures Scan(line, p, inComment) ==
            if inComment then Scan(line, p + |a|, true) else Scan(line, p + |a|, false).After(a)
  {
    forall k | p <= k < p + |a| ensures TokenAt(line, k) == Plain {
      assert line[k] == line[p..][k - p] == a[k - p];
    }
    ScanToToken(line, p, p + |a|, inComment);
    assert line[p..p + |a|] == line[p..][..|a|] == a;
  }

  /** The rest of a line without marks. */
  lemma NoMoreMarks(line: string, p: nat, inComment: bool)
    requires p <= |line| && NoMarks(line[p..])
    ensures Scan(line, p, inComment) == Scanned(if inComment then "" else line[p..], inComment)
  {
    forall k | p <= k < |line| ensures TokenAt(line, k) == Plain {
      assert line[k] == line[p..][k - p];
    }
    ScanToToken(line, p, |line|, inComment);
    assert line[p..|line|] == line[p..] && line[p..] + "" == line[p..];
  }

  lemma MarkAt(line: string, p: nat, a: string, mark: string, rest: string)
    requires p <= |line| && line[p..] == a + mark + rest && |mark| == 2
    ensures p + |a| + 2 <= |line| && line[p + |a|] == mark[0] && line[p + |a| + 1] == mark[1]
    ensures line[p + |a| + 2..] == rest && line[p + |a|..p + |a| + 2] == mark
  {
    assert forall k :: 0 <= k < |line[p..]| ==> line[p + k] == line[p..][k];
    assert line[p + |a| + 2..] == line[p..][|a| + 2..];
    assert line[p + |a|..p + |a| + 2] == line[p..][|a|..|a| + 2];
  }

  // Outside a comment the line mark drops the rest of the line, the opening mark opens a
  // comment and the closing mark is code. Inside, only the closing mark means anything.
  lemma OneMark(line: string, p: nat, a: string, mark: string, rest: string)
    requires NoMarks(a) && p <= |line| && line[p..] == a + mark + rest
    ensures mark == "//" ==> Scan(line, p, false) == Scanned(a, false)
    ensures mark == "//" ==> Scan(line, p, true) == Scan(line, p + |a| + 2, true)
    ensures mark == "/*" ==> Scan(line, p, false) == Scan(line, p + |a| + 2, true).After(a)
    ensures mark == "/*" ==> Scan(line, p, true) == Scan(line, p + |a| + 2, true)
    ensures mark == "*/" ==> Scan(line, p, false) == Scan(line, p + |a| + 2, false).After("*/").After(a)
    ensures mark == "*/" ==> Scan(line, p, true) == Scan(line, p + |a| + 2, false)
  {
    if mark in {"//", "/*", "*/"} {
      MarkAt(line, p, a, mark, rest);
      FirstMark(line, p, a, mark, rest, false);
      FirstMark(line, p, a, mark, rest, true);
      assert a + "" == a;
    }
  }

  /** A line comment leaves what is before it, whatever follows. */
  lemma LineCommentIsCut(line: string, a: string, mark: string, rest: string)
    requires NoMarks(a) && mark == "//" && line == a + mark + rest
    ensures Scan(line, 0, false) == Scanned(a, false)
  {
    assert line[0..] == line;
    OneMark(line, 0, a, mark, rest);
  }

  /** The rest of a line inside a comment, up to its end. */
  lemma CommentEnds(line: string, p: nat, b: string, close: string, c: string)
    requires NoMarks(b) && NoMarks(c) && close == "*/" && p <= |line| && line[p..] == b + close + c
    ensures Scan(line, p, true) == Scanned(c, false)
  {
    var q := p + |b| + 2;
    ClosingMark(line, p, q, b, close, c);
    NoMoreMarks(line, q, false);
  }

  lemma ClosingMark(line: string, p: nat, q: nat, b: string, close: string, c: string)
    requires NoMarks(b) && close == "*/" && p <= |line| && line[p..] == b + close + c && q == p + |b| + 2
    ensures q <= |line| && line[q..] == c && Scan(line, p, true) == Scan(line, q, false)
  {
    OneMark(line, p, b, close, c);
    MarkAt(line, p, b, close, c);
  }

  /** A comment within a line is cut out. */
  lemma BlockCommentIsCut(line: string, a: string, open: string, b: string, close: string, c: string)
    requires NoMarks(a) && NoMarks(b) && NoMarks(c) && open == "/*" && close == "*/"
    requires line == a + open + (b + close + c)
    ensures Scan(line, 0, false) == Scanned(a + c, false)
  {
    assert line[0..] == line;
    OneMark(line, 0, a, open, b + close + c);
    MarkAt(line, 0, a, open, b + close + c);
    CommentEnds(line, |a| + 2, b, close, c);
  }

  /** A comment that is opened goes on to the next line. */
  lemma OpenedGoesOn(line: string, a: string, open: string, b: string)
    requires NoMarks(a) && NoMarks(b) && open == "/*" && line == a + open + b
    ensures Scan(line, 0, false) == Scanned(a, true)
  {
    assert line[0..] == line;
    OneMark(line, 0, a, open, b);
    MarkAt(line, 0, a, open, b);
    NoMoreMarks(line, |a| + 2, true);
    assert a + "" == a;
  }

  /** Inside a comment the other marks mean nothing. */
  lemma MarksInComment(line: string, a: string, mark: string, b: string)
    requires NoMarks(a) && NoMarks(b) && mark in {"/*", "//"} && line == a + mark + b
    ensures Scan(line, 0, true) == Scanned("", true)
  {
    assert line[0..] == line;
    OneMark(line, 0, a, mark, b);
    MarkAt(line, 0, a, mark, b);
    NoMoreMarks(line, |a| + 2, true);
  }

  /** Outside a comment a closing mark is code. */
  lemma LoneCloseIsCode(line: string, a: string, close: string, b: string)
    requires NoMarks(a) && NoMarks(b) && close == "*/" && line == a + close + b
    ensures Scan(line, 0, false) == Scanned(line, false)
  {
    assert line[0..] == line;
    OneMark(line, 0, a, close, b);
    MarkAt(line, 0, a, close, b);
    NoMoreMarks(line, |a| + 2, false);
    assert a + (close + b) == line;
  }

  /** Marks do not overlap: the slash that opens a comment does not close it. */
  lemma OpeningDoesNotClose()
    ensures Scan("/*/", 0, false) == Scanned("", true)
  {
    var line := "/*/";
    assert TokenAt(line, 0) == Open && TokenAt(line, 2) == Plain;
    assert Scan(line, 3, true) == Scanned("", true);
    assert Scan(line, 2, true) == Scan(line, 3, true);
  }

  /** Only newlines are stripped, and all of them at the end. */
  lemma {:induction false} StrippedLine(line: string)
    ensures var s := StripNewlines(line);
            && s <= line && (forall k :: |s| <= k < |line| ==> line[k] == '\n')
            && (s != "" ==> s[|s| - 1] != '\n')
  {
    if line != "" && line[|line| - 1] == '\n' {
      StrippedLine(line[..|line| - 1]);
    }
  }

  /** Each line's code is given out under the line's own number, exactly if there is any. */
  lemma LineIsGivenOut(lines: seq<string>, number: nat, inComment: bool, k: nat)
    requires k < |lines|
    ensures var before := CommentAfter(lines[..k], inComment);
            var scanned := Scan(StripNewlines(lines[k]), 0, before);
            ScanLines(lines, number, inComment) ==
              ScanLines(lines[..k], number, inComment)
              + (if scanned.text != "" then [(number + k, scanned.text)] else [])
              + ScanLines(lines[k + 1..], number + k + 1, scanned.inComment)
  {
    var before := CommentAfter(lines[..k], inComment);
    var scanned := Scan(StripNewlines(lines[k]), 0, before);
    assert lines == lines[..k] + lines[k..];
    FilterInParts(lines[..k], lines[k..], number, inComment);
    assert lines[k..][0] == lines[k] && lines[k..][1..] == lines[k + 1..];
    var first := ScanLines(lines[..k], number, inComment);
    var rest := ScanLines(lines[k + 1..], number + k + 1, scanned.inComment);
    if scanned.text != "" {
      Regroup(first, [(number + k, scanned.text)], rest);
    } else {
      assert first + [] + rest == first + rest;
    }
  }
}
