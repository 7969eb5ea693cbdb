/** cpplint's bracket finders as the loops they are, each proved against its specification. */
module ExpressionFinder {
  import opened Basics
  import opened BracketMatching
  import opened LineScanners
  import opened BracketGrammar

  /** The pair a line finder returns: (position or -1, stack or None). */
  ghost function AsPair(r: Scan): (int, Option<seq<char>>) {
    if r.Found? then (r.pos as int, None)
    else if r.Broken? then (-1, None)
    else (-1, Some(r.stack))
  }

  method FindEndOfExpressionInLine(isWord: char -> bool, line: string, startpos: nat, initial: seq<char>)
    returns (end: int, rest: Option<seq<char>>)
    requires startpos <= |line|
    ensures (end, rest) == AsPair(LineForward(isWord, line, startpos, initial))
  {
    var stack := initial;
    for i := startpos to |line|
      invariant LineForward(isWord, line, startpos, initial) == LineForward(isWord, line, i, stack)
    {
      var c := line[i];
      if IsOpener(c) {
        stack := stack + [c];
      } else if c == '<' {
        if i > 0 && line[i - 1] == '<' {
          if stack != [] && Top(stack) == '<' {
            stack := Pop(stack);
            if stack == [] {
              return -1, None;
            }
          }
        } else if i > 0 && EndsWithOperator(isWord, line[..i]) {
          continue;
        } else {
          stack := stack + ['<'];
        }
      } else if IsCloser(c) {
        stack := PopAngles(stack, '<');
        if stack == [] {
          return -1, None;
        }
        if Top(stack) == OpenerOf(c) {
          stack := Pop(stack);
          if stack == [] {
            return i + 1, None;
          }
        } else {
          return -1, None;
        }
      } else if c == '>' {
        if i > 0 && (line[i - 1] == '-' || EndsWithOperator(isWord, line[..i - 1])) {
          continue;
        }
        if stack != [] {
          if Top(stack) == '<' {
            stack := Pop(stack);
            if stack == [] {
              return i + 1, None;
            }
          }
        }
      } else if c == ';' {
        stack := PopAngles(stack, '<');
        if stack == [] {
          return -1, None;
        }
      }
    }
    return -1, Some(stack);
  }

  method PopAngles(initial: seq<char>, angle: char) returns (stack: seq<char>)
    ensures stack == DropAngles(initial, angle)
  {
    stack := initial;
    while stack != [] && Top(stack) == angle
      invariant DropAngles(stack, angle) == DropAngles(initial, angle)
      decreases |stack|
    {
      stack := Pop(stack);
    }
  }

  /** Where the search goes on after line `l` has left `rest`. */
  ghost function CloseLater(isWord: char -> bool, lines: seq<string>, l: nat, rest: Option<seq<char>>): Option<Position>
    requires l < |lines|
  {
    if rest.None? || rest.value == [] || l + 1 == |lines| then None
    else CloseFrom(isWord, lines, l + 1, 0, rest.value)
  }

  lemma CloseFromUnfolds(isWord: char -> bool, lines: seq<string>, l: nat, i: nat, stack: seq<char>)
    requires l < |lines| && i <= |lines[l]|
    ensures var r := AsPair(LineForward(isWord, lines[l], i, stack));
            CloseFrom(isWord, lines, l, i, stack) ==
            if r.0 > -1 then Some(Position(l, r.0)) else CloseLater(isWord, lines, l, r.1)
  {}

  /** Returns the line and position past the closing bracket, or (number of lines, -1). */
  method CloseExpression(isWord: char -> bool, lines: seq<string>, at: Position)
    returns (line: string, linenum: int, pos: int)
    requires InFile(lines, at)
    ensures match Close(isWord, lines, at)
            case Some(p) => p.line < |lines| && line == lines[p.line] && linenum == p.line && pos == p.pos
            case None => line in lines && linenum == |lines| && pos == -1
  {
    line, linenum := lines[at.line], at.line;
    var isLess := line[at.pos] == '<' && at.pos + 1 < |line| && (line[at.pos + 1] == '<' || line[at.pos + 1] == '=');
    if !(IsOpener(line[at.pos]) || line[at.pos] == '<') || isLess {
      return line, |lines|, -1;
    }
    CloseFromUnfolds(isWord, lines, linenum, at.pos, []);
    var stack;
    pos, stack := FindEndOfExpressionInLine(isWord, line, at.pos, []);
    if pos > -1 {
      return;
    }
    line, linenum, pos := CloseInLaterLines(isWord, lines, linenum, stack);
  }

  /** Continue scanning forward. */
  method CloseInLaterLines(isWord: char -> bool, lines: seq<string>, l: nat, rest: Option<seq<char>>)
    returns (line: string, linenum: int, pos: int)
    requires l < |lines|
    ensures match CloseLater(isWord, lines, l, rest)
            case Some(p) => p.line < |lines| && line == lines[p.line] && linenum == p.line && pos == p.pos
            case None => line in lines && linenum == |lines| && pos == -1
  {
    line, linenum := lines[l], l;
    var stack := rest;
    while stack.Some? && stack.value != [] && linenum < |lines| - 1
      invariant 0 <= linenum < |lines| && line == lines[linenum]
      invariant CloseLater(isWord, lines, l, rest) == CloseLater(isWord, lines, linenum, stack)
      decreases |lines| - linenum
    {
      linenum := linenum + 1;
      line := lines[linenum];
      CloseFromUnfolds(isWord, lines, linenum, 0, stack.value);
      pos, stack := FindEndOfExpressionInLine(isWord, line, 0, stack.value);
      if pos > -1 {
        return;
      }
    }
    return line, |lines|, -1;
  }

  method FindStartOfExpressionInLine(isWord: char -> bool, line: string, endpos: int, initial: seq<char>)
    returns (start: int, rest: Option<seq<char>>)
    requires -1 <= endpos < |line|
    ensures (start, rest) == AsPair(LineBackward(isWord, line, endpos + 1, initial))
  {
    var stack := initial;
    var i := endpos;
    while i >= 0
      invariant -1 <= i < |line|
      invariant LineBackward(isWord, line, endpos + 1, initial) == LineBackward(isWord, line, i + 1, stack)
    {
      var c := line[i];
      if IsCloser(c) {
        stack := stack + [c];
      } else if c == '>' {
        if i > 0 && (line[i - 1] == '-' || IsSpacedGreaterEqual(line, i) || EndsWithOperator(isWord, line[..i])) {
          i := i - 1;
        } else {
          stack := stack + ['>'];
        }
      } else if c == '<' {
        if i > 0 && line[i - 1] == '<' {
          i := i - 1;
        } else if stack != [] && Top(stack) == '>' {
          stack := Pop(stack);
          if stack == [] {
            return i, None;
          }
        }
      } else if IsOpener(c) {
        stack := PopAngles(stack, '>');
        if stack == [] {
          return -1, None;
        }
        if IsCloser(Top(stack)) && OpenerOf(Top(stack)) == c {
          stack := Pop(stack);
          if stack == [] {
            return i, None;
          }
        } else {
          return -1, None;
        }
      } else if c == ';' {
        stack := PopAngles(stack, '>');
        if stack == [] {
          return -1, None;
        }
      }
      i := i - 1;
    }
    return -1, Some(stack);
  }

  /** Where the search goes on before line `l` has left `rest`. */
  ghost function OpenEarlier(
      isWord: char -> bool, lines: seq<string>, l: nat, rest: Option<seq<char>>): Option<Position>
    requires l < |lines|
  {
    if rest.None? || rest.value == [] || l == 0 then None
    else OpenFrom(isWord, lines, l - 1, |lines[l - 1]|, rest.value)
  }

  lemma OpenFromUnfolds(isWord: char -> bool, lines: seq<string>, l: nat, j: nat, stack: seq<char>)
    requires l < |lines| && j <= |lines[l]|
    ensures var r := AsPair(LineBackward(isWord, lines[l], j, stack));
            OpenFrom(isWord, lines, l, j, stack) ==
            if r.0 > -1 then Some(Position(l, r.0)) else OpenEarlier(isWord, lines, l, r.1)
  {}

  /** The line, its number and the position of the opening bracket, or (0, -1) with some line. */
  ghost predicate ReportsOpening(lines: seq<string>, r: Option<Position>, line: string, linenum: int, pos: int) {
    match r
    case Some(p) => p.line < |lines| && line == lines[p.line] && linenum == p.line && pos == p.pos
    case None => line in lines && linenum == 0 && pos == -1
  }

  /** Returns the line and position of the opening bracket, or (0, -1). */
  method ReverseCloseExpression(isWord: char -> bool, lines: seq<string>, at: Position)
    returns (line: string, linenum: int, pos: int)
    requires InFile(lines, at)
    ensures ReportsOpening(lines, ReverseClose(isWord, lines, at), line, linenum, pos)
  {
    line, linenum := lines[at.line], at.line;
    if !IsCloser(line[at.pos]) && line[at.pos] != '>' {
      return line, 0, -1;
    }
    OpenFromUnfolds(isWord, lines, linenum, at.pos + 1, []);
    var stack;
    pos, stack := FindStartOfExpressionInLine(isWord, line, at.pos, []);
    if pos > -1 {
      return;
    }
    line, linenum, pos := OpenInEarlierLines(isWord, lines, linenum, stack);
  }

  /** Continue scanning backward. */
  method OpenInEarlierLines(isWord: char -> bool, lines: seq<string>, l: nat, rest: Option<seq<char>>)
    returns (line: string, linenum: int, pos: int)
    requires l < |lines|
    ensures ReportsOpening(lines, OpenEarlier(isWord, lines, l, rest), line, linenum, pos)
  {
    line, linenum := lines[l], l;
    var stack := rest;
    while stack.Some? && stack.value != [] && linenum > 0
      invariant 0 <= linenum < |lines| && line == lines[linenum]
      invariant OpenEarlier(isWord, lines, l, rest) == OpenEarlier(isWord, lines, linenum, stack)
      decreases linenum
    {
      linenum := linenum - 1;
      line := lines[linenum];
      OpenFromUnfolds(isWord, lines, linenum, |line|, stack.value);
      pos, stack := FindStartOfExpressionInLine(isWord, line, |line| - 1, stack.value);
      if pos > -1 {
        return;
      }
    }
    return line, 0, -1;
  }

  // ---- The third matcher ---------------------------------------------------------------------------

  function CloserOf(c: char): (r: char)
    requires IsOpener(c)
    ensures IsCloser(r) && OpenerOf(r) == c
  {
    if c == '(' then ')' else if c == '[' then ']' else '}'
  }

  ghost function Openers(closers: seq<char>): seq<char>
    requires forall c :: c in closers ==> IsCloser(c)
  {
    seq(|closers|, i requires 0 <= i < |closers| => OpenerOf(closers[i]))
  }

  lemma OpenersMatch(closers: seq<char>, c: char)
    requires closers != [] && (forall d :: d in closers ==> IsCloser(d)) && IsCloser(c)
    ensures Top(Openers(closers)) == OpenerOf(c) <==> Top(closers) == c
    ensures Pop(Openers(closers)) == Openers(Pop(closers))
  {
    assert Top(closers) in closers;
    assert Top(Openers(closers)) == OpenerOf(Top(closers));
  }

  lemma GroupsFrom(text: string, i: nat)
    requires i < |text| && text[i] in "([{"
    ensures forall k :: i < k <= |text| ==> (ScanForward(text, i, []) == Found(k) <==> IsBracketed(text[i..k]))
  {
    forall k | i < k <= |text| ensures ScanForward(text, i, []) == Found(k) <==> IsBracketed(text[i..k]) {
      FoundExactlyOnGroups(text, i, k);
    }
  }

  /** The text inside the group that starts with the bracket before `start`, the end of the pattern match. */
  method GetTextInside(text: string, start: Option<nat>) returns (inside: Option<string>)
    requires start.Some? ==> 0 < start.value <= |text| && text[start.value - 1] in "([{"
    ensures start.None? ==> inside.None?
    ensures start.Some? ==>
              match inside
              case Some(s) =>
                var k := start.value + |s| + 1;
                k <= |text| && IsBracketed(text[start.value - 1..k]) && s == text[start.value..k - 1]
              case None => var i := start.value - 1; forall k :: i < k <= |text| ==> !IsBracketed(text[i..k])
    ensures start.Some? ==>
              match ScanForward(text, start.value - 1, [])
              case Found(k) => start.value < k <= |text| && inside == Some(text[start.value..k - 1])
              case _ => inside.None?
  {
    if start.None? {
      return None;
    }
    var first := start.value;
    GroupsFrom(text, first - 1);
    var stack := [CloserOf(text[first - 1])];
    var position := first;
    ghost var plain := ScanForward(text, first - 1, []);
    assert [] + [text[first - 1]] == Openers(stack);
    while stack != [] && position < |text|
      invariant first <= position <= |text|
      invariant forall c :: c in stack ==> IsCloser(c)
      invariant if stack == [] then first < position && plain == Found(position)
                else plain == ScanForward(text, position, Openers(stack))
      decreases |text| - position
    {
      var c := text[position];
      if IsCloser(c) {
        OpenersMatch(stack, c);
      }
      if c == Top(stack) {
        stack := Pop(stack);
      } else if IsCloser(c) {
        return None;
      } else if IsOpener(c) {
        assert Openers(stack + [CloserOf(c)]) == Openers(stack) + [c];
        stack := stack + [CloserOf(c)];
      }
      position := position + 1;
    }
    if stack != [] {
      return None;
    }
    return Some(text[first..position - 1]);
  }

  /** On a text of one line, the forward finder and the text extractor see the same match. */
  lemma TextInsideIsCloseExpression(isWord: char -> bool, text: string, start: nat)
    requires 0 < start <= |text| && IsOpener(text[start - 1])
    ensures Close(isWord, [text], Position(0, start - 1)) ==
            match ScanForward(text, start - 1, [])
            case Found(k) => Some(Position(0, k))
            case _ => None
  {
    var lines, at := [text], Position(0, start - 1);
    assert lines[1..] == [] && Flat(lines[1..]) == [];
    assert Flat(lines) == text + [] == text;
    assert lines[..0] == [] && LineStart(lines, 0) == 0;
    CloseIsPlain(isWord, lines, at);
  }
}
