/** cpplint's line scanners with their `<`, `>` and `;` heuristics, and what they amount to. */
module LineScanners {
  import opened Basics
  import opened BracketMatching

  // ---- The regular expressions the scanners use -----------------------------------------------

  /** Python's `\s`. */
  predicate IsSpace(c: char) {
    || '\t' <= c <= '\r' || '\U{1C}' <= c <= ' '
    || c == '\U{85}' || c == '\U{A0}' || c == '\U{1680}'
    || '\U{2000}' <= c <= '\U{200A}'
    || c == '\U{2028}' || c == '\U{2029}' || c == '\U{202F}' || c == '\U{205F}' || c == '\U{3000}'
  }

  function TrimRight(s: string): string {
    if s != [] && IsSpace(s[|s| - 1]) then TrimRight(s[..|s| - 1]) else s
  }

  /** `\boperator\s*$`, for any notion of word character that letters satisfy. */
  predicate EndsWithOperator(isWord: char -> bool, s: string) {
    var t := TrimRight(s);
    && |t| >= 8 && t[|t| - 8..] == "operator"
    && (|t| == 8 || !isWord(t[|t| - 9]))
  }

  /** `\s>=\s` matched one position before the `>` at `i`. */
  predicate IsSpacedGreaterEqual(line: string, i: nat) {
    && 0 < i && i + 2 < |line|
    && IsSpace(line[i - 1]) && line[i] == '>' && line[i + 1] == '=' && IsSpace(line[i + 2])
  }

  lemma {:induction false} OperatorEndsPlainly(isWord: char -> bool, s: string)
    requires EndsWithOperator(isWord, s)
    ensures s != [] && !IsOpener(s[|s| - 1]) && !IsCloser(s[|s| - 1])
  {
    if !IsSpace(s[|s| - 1]) {
      var t := TrimRight(s);
      assert t == s;
      assert t[|t| - 8..][7] == "operator"[7];
    }
  }

  // ---- One character of each scan ---------------------------------------------------------------

  /** Either the scan is over, or it goes on with this stack after consuming `width` characters. */
  datatype Step = Stop(result: Scan) | Next(stack: seq<char>, width: nat)

  function DropAngles(s: seq<char>, angle: char): seq<char> {
    if s != [] && Top(s) == angle then DropAngles(Pop(s), angle) else s
  }

  /** A `;` ends whatever `<` or `>` was still open. */
  function SemicolonStep(stack: seq<char>, angle: char): Step {
    var s := DropAngles(stack, angle);
    if s == [] then Stop(Broken) else Next(s, 1)
  }

  /** Take a matching angle off the top, or leave the stack alone. */
  function PopAngle(stack: seq<char>, angle: char, emptied: Scan): Step {
    if stack != [] && Top(stack) == angle then
      if |stack| == 1 then Stop(emptied) else Next(Pop(stack), 1)
    else Next(stack, 1)
  }

  function ForwardLess(isWord: char -> bool, line: string, i: nat, stack: seq<char>): Step
    requires i < |line|
  {
    if i > 0 && line[i - 1] == '<' then PopAngle(stack, '<', Broken)
    else if i > 0 && EndsWithOperator(isWord, line[..i]) then Next(stack, 1)
    else Next(stack + ['<'], 1)
  }

  function ForwardGreater(isWord: char -> bool, line: string, i: nat, stack: seq<char>): Step
    requires i < |line|
  {
    if i > 0 && (line[i - 1] == '-' || EndsWithOperator(isWord, line[..i - 1])) then Next(stack, 1)
    else PopAngle(stack, '<', Found(i + 1))
  }

  function ForwardCloser(c: char, i: nat, stack: seq<char>): Step
    requires IsCloser(c)
  {
    var s := DropAngles(stack, '<');
    if s == [] || Top(s) != OpenerOf(c) then Stop(Broken)
    else if |s| == 1 then Stop(Found(i + 1))
    else Next(Pop(s), 1)
  }

  function ForwardStep(isWord: char -> bool, line: string, i: nat, stack: seq<char>): Step
    requires i < |line|
  {
    var c := line[i];
    if IsOpener(c) then Next(stack + [c], 1)
    else if c == '<' then ForwardLess(isWord, line, i, stack)
    else if IsCloser(c) then ForwardCloser(c, i, stack)
    else if c == '>' then ForwardGreater(isWord, line, i, stack)
    else if c == ';' then SemicolonStep(stack, '<')
    else Next(stack, 1)
  }

  function BackwardGreater(isWord: char -> bool, line: string, i: nat, stack: seq<char>): Step
    requires i < |line|
  {
    if i > 0 && (line[i - 1] == '-' || IsSpacedGreaterEqual(line, i) || EndsWithOperator(isWord, line[..i]))
    then Next(stack, 2)
    else Next(stack + ['>'], 1)
  }

  function BackwardLess(line: string, i: nat, stack: seq<char>): Step
    requires i < |line|
  {
    if i > 0 && line[i - 1] == '<' then Next(stack, 2) else PopAngle(stack, '>', Found(i))
  }

  function BackwardOpener(c: char, i: nat, stack: seq<char>): Step {
    var s := DropAngles(stack, '>');
    if s == [] || !IsCloser(Top(s)) || OpenerOf(Top(s)) != c then Stop(Broken)
    else if |s| == 1 then Stop(Found(i))
    else Next(Pop(s), 1)
  }

  function BackwardStep(isWord: char -> bool, line: string, i: nat, stack: seq<char>): (r: Step)
    requires i < |line|
    ensures r.Next? ==> 1 <= r.width <= i + 1
  {
    var c := line[i];
    if IsCloser(c) then Next(stack + [c], 1)
    else if c == '>' then BackwardGreater(isWord, line, i, stack)
    else if c == '<' then BackwardLess(line, i, stack)
    else if IsOpener(c) then BackwardOpener(c, i, stack)
    else if c == ';' then SemicolonStep(stack, '>')
    else Next(stack, 1)
  }

  // ---- Whole lines and whole files ------------------------------------------------------------------

  function LineForward(isWord: char -> bool, line: string, i: nat, stack: seq<char>): Scan
    requires i <= |line|
    decreases |line| - i
  {
    if i == |line| then Open(stack)
    else
      match ForwardStep(isWord, line, i, stack)
      case Stop(r) => r
      case Next(s, _) => LineForward(isWord, line, i + 1, s)
  }

  /** Scans `line[..j]` from its end. */
  function LineBackward(isWord: char -> bool, line: string, j: nat, stack: seq<char>): Scan
    requires j <= |line|
  {
    if j == 0 then Open(stack)
    else
      match BackwardStep(isWord, line, j - 1, stack)
      case Stop(r) => r
      case Next(s, width) => LineBackward(isWord, line, j - width, s)
  }

  datatype Position = Position(line: nat, pos: nat)

  function CloseFrom(isWord: char -> bool, lines: seq<string>, l: nat, i: nat, stack: seq<char>): Option<Position>
    requires l < |lines| && i <= |lines[l]|
    decreases |lines| - l
  {
    match LineForward(isWord, lines[l], i, stack)
    case Found(k) => Some(Position(l, k))
    case Broken => None
    case Open(s) => if s == [] || l + 1 == |lines| then None else CloseFrom(isWord, lines, l + 1, 0, s)
  }

  function OpenFrom(isWord: char -> bool, lines: seq<string>, l: nat, j: nat, stack: seq<char>): Option<Position>
    requires l < |lines| && j <= |lines[l]|
    decreases l
  {
    match LineBackward(isWord, lines[l], j, stack)
    case Found(k) => Some(Position(l, k))
    case Broken => None
    case Open(s) => if s == [] || l == 0 then None else OpenFrom(isWord, lines, l - 1, |lines[l - 1]|, s)
  }

  predicate InFile(lines: seq<string>, at: Position) {
    at.line < |lines| && at.pos < |lines[at.line]|
  }

  function CharAt(lines: seq<string>, at: Position): char
    requires InFile(lines, at)
  {
    lines[at.line][at.pos]
  }

  /** `<<` and `<=` are never the start of an expression. */
  predicate StartsExpression(line: string, pos: nat)
    requires pos < |line|
  {
    || IsOpener(line[pos])
    || (line[pos] == '<' && !(pos + 1 < |line| && (line[pos + 1] == '<' || line[pos + 1] == '=')))
  }

  /** Just past the end of the expression that starts at `at`. */
  function Close(isWord: char -> bool, lines: seq<string>, at: Position): Option<Position>
    requires InFile(lines, at)
  {
    if !StartsExpression(lines[at.line], at.pos) then None
    else CloseFrom(isWord, lines, at.line, at.pos, [])
  }

  /** The start of the expression that ends at `at`. */
  function ReverseClose(isWord: char -> bool, lines: seq<string>, at: Position): Option<Position>
    requires InFile(lines, at)
  {
    if !IsCloser(CharAt(lines, at)) && CharAt(lines, at) != '>' then None
    else OpenFrom(isWord, lines, at.line, at.pos + 1, [])
  }

  // ---- Forward: the heuristics do not matter above a bracket ------------------------------------------

  /** The openers on a forward stack, without the tentative `<`. */
  ghost function Pending(s: seq<char>): seq<char> {
    if s == [] then [] else Pending(Pop(s)) + if IsOpener(Top(s)) then [Top(s)] else []
  }

  ghost predicate OpenAnchored(s: seq<char>) {
    && s != [] && IsOpener(s[0])
    && forall c :: c in s ==> IsOpener(c) || c == '<'
  }

  lemma {:induction false} PendingGrows(s: seq<char>, c: char)
    ensures Pending(s + [c]) == Pending(s) + if IsOpener(c) then [c] else []
  {
    assert Pop(s + [c]) == s;
  }

  lemma {:induction false} PendingAnchored(s: seq<char>)
    requires OpenAnchored(s)
    ensures Pending(s) != [] && Pending(s)[0] == s[0]
    ensures IsOpener(Top(s)) ==> Top(Pending(s)) == Top(s) && Pop(Pending(s)) == Pending(Pop(s))
    ensures IsOpener(Top(s)) ==> (|Pending(s)| == 1 <==> |s| == 1)
  {
    if |s| > 1 {
      PendingAnchored(Pop(s));
    }
  }

  lemma {:induction false} DropAnglesAnchored(s: seq<char>)
    requires OpenAnchored(s)
    ensures var d := DropAngles(s, '<');
            OpenAnchored(d) && IsOpener(Top(d)) && Pending(d) == Pending(s)
  {
    if Top(s) == '<' {
      DropAnglesAnchored(Pop(s));
    }
  }

  ghost predicate PlainStepForward(r: Step, i: nat, plain: Run) {
    match r
    case Next(s, _) => OpenAnchored(s) && plain == At(Pending(s))
    case Stop(Found(k)) => k == i + 1 && plain == At([])
    case Stop(Broken) => plain == Stuck
    case Stop(Open(_)) => false
  }

  lemma ForwardCloserIsPlain(c: char, i: nat, stack: seq<char>)
    requires OpenAnchored(stack) && IsCloser(c)
    ensures PlainStepForward(ForwardCloser(c, i, stack), i, StepForward(c, Pending(stack)))
  {
    var d := DropAngles(stack, '<');
    DropAnglesAnchored(stack);
    PendingAnchored(d);
    if |d| > 1 {
      assert OpenAnchored(Pop(d));
    }
  }

  /** Popping a tentative `<` never empties a stack that rests on a bracket. */
  lemma PopAngleIsPlain(stack: seq<char>, emptied: Scan)
    requires OpenAnchored(stack)
    ensures var r := PopAngle(stack, '<', emptied);
            r.Next? && OpenAnchored(r.stack) && Pending(r.stack) == Pending(stack)
  {
    if Top(stack) == '<' {
      assert OpenAnchored(Pop(stack));
    }
  }

  lemma ForwardAngleIsPlain(isWord: char -> bool, line: string, i: nat, stack: seq<char>)
    requires i < |line| && OpenAnchored(stack)
    ensures PlainStepForward(ForwardLess(isWord, line, i, stack), i, At(Pending(stack)))
    ensures PlainStepForward(ForwardGreater(isWord, line, i, stack), i, At(Pending(stack)))
  {
    PendingGrows(stack, '<');
    PopAngleIsPlain(stack, Broken);
    PopAngleIsPlain(stack, Found(i + 1));
  }

  /** Above a bracket, one step of the heuristic scan is one step of the plain one. */
  lemma ForwardStepIsPlain(isWord: char -> bool, line: string, i: nat, stack: seq<char>)
    requires i < |line| && OpenAnchored(stack)
    ensures PlainStepForward(ForwardStep(isWord, line, i, stack), i, StepForward(line[i], Pending(stack)))
  {
    if IsCloser(line[i]) {
      ForwardCloserIsPlain(line[i], i, stack);
    } else if line[i] == '<' || line[i] == '>' {
      ForwardAngleIsPlain(isWord, line, i, stack);
    } else if line[i] == ';' {
      DropAnglesAnchored(stack);
    } else if IsOpener(line[i]) {
      PendingGrows(stack, line[i]);
    }
  }

  lemma {:induction false} LineForwardIsPlain(isWord: char -> bool, line: string, i: nat, stack: seq<char>)
    requires i <= |line| && OpenAnchored(stack)
    ensures match LineForward(isWord, line, i, stack)
            case Open(s) => OpenAnchored(s) && ScanForward(line, i, Pending(stack)) == Open(Pending(s))
            case r => ScanForward(line, i, Pending(stack)) == r
    decreases |line| - i
  {
    PendingAnchored(stack);
    if i < |line| {
      ForwardStepIsPlain(isWord, line, i, stack);
      var step := ForwardStep(isWord, line, i, stack);
      if step.Next? {
        PendingAnchored(step.stack);
        LineForwardIsPlain(isWord, line, i + 1, step.stack);
      }
    }
  }

  // ---- Backward ----------------------------------------------------------------------------------------

  /** The openers a backward stack still waits for, without the tentative `>`. */
  ghost function Awaited(s: seq<char>): seq<char> {
    if s == [] then [] else Awaited(Pop(s)) + if IsCloser(Top(s)) then [OpenerOf(Top(s))] else []
  }

  ghost predicate CloseAnchored(s: seq<char>) {
    && s != [] && IsCloser(s[0])
    && forall c :: c in s ==> IsCloser(c) || c == '>'
  }

  lemma {:induction false} AwaitedGrows(s: seq<char>, c: char)
    ensures Awaited(s + [c]) == Awaited(s) + if IsCloser(c) then [OpenerOf(c)] else []
  {
    assert Pop(s + [c]) == s;
  }

  lemma {:induction false} AwaitedAnchored(s: seq<char>)
    requires CloseAnchored(s)
    ensures Awaited(s) != [] && Awaited(s)[0] == OpenerOf(s[0])
    ensures IsCloser(Top(s)) ==> Top(Awaited(s)) == OpenerOf(Top(s)) && Pop(Awaited(s)) == Awaited(Pop(s))
    ensures IsCloser(Top(s)) ==> (|Awaited(s)| == 1 <==> |s| == 1)
  {
    if |s| > 1 {
      AwaitedAnchored(Pop(s));
    }
  }

  lemma {:induction false} DropAnglesAnchoredBack(s: seq<char>)
    requires CloseAnchored(s)
    ensures var d := DropAngles(s, '>');
            CloseAnchored(d) && IsCloser(Top(d)) && Awaited(d) == Awaited(s)
  {
    if Top(s) == '>' {
      DropAnglesAnchoredBack(Pop(s));
    }
  }

  /** A backward step never swallows a bracket along with the character it looks at. */
  lemma BackwardStepSkipsPlainly(isWord: char -> bool, line: string, i: nat, stack: seq<char>)
    requires i < |line|
    ensures var r := BackwardStep(isWord, line, i, stack);
            r.Next? && r.width != 1 ==>
              && r.width == 2 && i >= 1 && r.stack == stack
              && !IsOpener(line[i]) && !IsCloser(line[i])
              && !IsOpener(line[i - 1]) && !IsCloser(line[i - 1])
  {
    if line[i] == '>' && i > 0 && EndsWithOperator(isWord, line[..i]) {
      OperatorEndsPlainly(isWord, line[..i]);
    }
  }

  ghost predicate PlainStepBackward(r: Step, i: nat, plain: Run) {
    match r
    case Next(s, _) => CloseAnchored(s) && plain == At(Awaited(s))
    case Stop(Found(k)) => k == i && plain == At([])
    case Stop(Broken) => plain == Stuck
    case Stop(Open(_)) => false
  }

  lemma BackwardOpenerIsPlain(c: char, i: nat, stack: seq<char>)
    requires CloseAnchored(stack) && IsOpener(c)
    ensures PlainStepBackward(BackwardOpener(c, i, stack), i, StepBackward(c, Awaited(stack)))
  {
    var d := DropAngles(stack, '>');
    DropAnglesAnchoredBack(stack);
    AwaitedAnchored(d);
    if |d| > 1 {
      assert CloseAnchored(Pop(d));
    }
  }

  lemma PopAngleIsPlainBack(stack: seq<char>, emptied: Scan)
    requires CloseAnchored(stack)
    ensures var r := PopAngle(stack, '>', emptied);
            r.Next? && CloseAnchored(r.stack) && Awaited(r.stack) == Awaited(stack)
  {
    if Top(stack) == '>' {
      assert CloseAnchored(Pop(stack));
    }
  }

  lemma BackwardAngleIsPlain(isWord: char -> bool, line: string, i: nat, stack: seq<char>)
    requires i < |line| && CloseAnchored(stack)
    ensures PlainStepBackward(BackwardGreater(isWord, line, i, stack), i, At(Awaited(stack)))
    ensures PlainStepBackward(BackwardLess(line, i, stack), i, At(Awaited(stack)))
  {
    AwaitedGrows(stack, '>');
    PopAngleIsPlainBack(stack, Found(i));
  }

  lemma BackwardStepIsPlain(isWord: char -> bool, line: string, i: nat, stack: seq<char>)
    requires i < |line| && CloseAnchored(stack)
    ensures PlainStepBackward(BackwardStep(isWord, line, i, stack), i, StepBackward(line[i], Awaited(stack)))
  {
    if IsOpener(line[i]) {
      BackwardOpenerIsPlain(line[i], i, stack);
    } else if line[i] == '<' || line[i] == '>' {
      BackwardAngleIsPlain(isWord, line, i, stack);
    } else if line[i] == ';' {
      DropAnglesAnchoredBack(stack);
    } else if IsCloser(line[i]) {
      AwaitedGrows(stack, line[i]);
    }
  }

  lemma ScanBackwardStep(t: string, j: nat, s: seq<char>)
    requires 0 < j <= |t| && s != []
    ensures ScanBackward(t, j, s) ==
            match StepBackward(t[j - 1], s)
            case Stuck => Broken
            case At(s1) => if s1 == [] then Found(j - 1) else ScanBackward(t, j - 1, s1)
  {}

  lemma BackwardStepAdvances(isWord: char -> bool, line: string, i: nat, stack: seq<char>)
    requires i < |line| && CloseAnchored(stack)
    ensures var plain := ScanBackward(line, i + 1, Awaited(stack));
            match BackwardStep(isWord, line, i, stack)
            case Next(s, width) => CloseAnchored(s) && plain == ScanBackward(line, i + 1 - width, Awaited(s))
            case Stop(r) => !r.Open? && plain == r
  {
    AwaitedAnchored(stack);
    BackwardStepIsPlain(isWord, line, i, stack);
    ScanBackwardStep(line, i + 1, Awaited(stack));
    var step := BackwardStep(isWord, line, i, stack);
    if step.Next? {
      AwaitedAnchored(step.stack);
      BackwardStepSkipsPlainly(isWord, line, i, stack);
      if step.width == 2 {
        ScanBackwardStep(line, i, Awaited(stack));
      }
    }
  }

  ghost predicate PlainLineBackward(r: Scan, plain: Scan) {
    match r
    case Open(s) => CloseAnchored(s) && plain == Open(Awaited(s))
    case _ => plain == r
  }

  lemma {:induction false} LineBackwardIsPlain(isWord: char -> bool, line: string, j: nat, stack: seq<char>)
    requires j <= |line| && CloseAnchored(stack)
    ensures PlainLineBackward(LineBackward(isWord, line, j, stack), ScanBackward(line, j, Awaited(stack)))
  {
    if j > 0 {
      BackwardStepAdvances(isWord, line, j - 1, stack);
      var step := BackwardStep(isWord, line, j - 1, stack);
      if step.Next? {
        LineBackwardIsPlain(isWord, line, j - step.width, step.stack);
      }
    }
  }

  // ---- Lines laid end to end ------------------------------------------------------------------------------

  ghost function Flat(lines: seq<string>): string {
    if lines == [] then [] else lines[0] + Flat(lines[1..])
  }

  /** Where line `l` starts in `Flat(lines)`. */
  ghost function LineStart(lines: seq<string>, l: nat): nat
    requires l <= |lines|
  {
    |Flat(lines[..l])|
  }

  ghost function Offset(lines: seq<string>, at: Position): nat
    requires at.line < |lines|
  {
    LineStart(lines, at.line) + at.pos
  }

  lemma {:induction false} FlatSplits(lines: seq<string>, l: nat)
    requires l < |lines|
    ensures Flat(lines) == Flat(lines[..l]) + lines[l] + Flat(lines[l + 1..])
  {
    if l == 0 {
      assert lines[..0] == [];
      assert Flat(lines[..0]) + lines[0] == lines[0];
    } else {
      FlatSplits(lines[1..], l - 1);
      assert lines[1..][..l - 1] == lines[..l][1..];
      assert lines[1..][l..] == lines[l + 1..];
    }
  }

  lemma NextLineStart(lines: seq<string>, l: nat)
    requires l < |lines|
    ensures LineStart(lines, l + 1) == LineStart(lines, l) + |lines[l]|
  {
    var a := lines[..l + 1];
    FlatSplits(a, l);
    assert a[..l] == lines[..l];
    assert a[l + 1..] == [];
    assert Flat(a[l + 1..]) == [];
  }

  lemma {:induction false} LineStartsAscend(lines: seq<string>, l: nat, m: nat)
    requires l < m <= |lines|
    ensures LineStart(lines, l) + |lines[l]| <= LineStart(lines, m)
    decreases m - l
  {
    NextLineStart(lines, l);
    if l + 1 < m {
      LineStartsAscend(lines, l + 1, m);
    }
  }

  lemma OffsetInjective(lines: seq<string>, a: Position, b: Position)
    requires InFile(lines, a) && InFile(lines, b) && Offset(lines, a) == Offset(lines, b)
    ensures a == b
  {
    if a.line < b.line {
      LineStartsAscend(lines, a.line, b.line);
    } else if b.line < a.line {
      LineStartsAscend(lines, b.line, a.line);
    }
  }

  lemma OffsetInFlat(lines: seq<string>, at: Position)
    requires InFile(lines, at)
    ensures Offset(lines, at) < |Flat(lines)| && Flat(lines)[Offset(lines, at)] == CharAt(lines, at)
  {
    var pre, line, post := Flat(lines[..at.line]), lines[at.line], Flat(lines[at.line + 1..]);
    FlatSplits(lines, at.line);
    assert (pre + line + post)[|pre| + at.pos] == line[at.pos];
  }

  /** A position just past a character of the file. */
  ghost predicate PastChar(lines: seq<string>, at: Position) {
    at.line < |lines| && 0 < at.pos <= |lines[at.line]|
  }

  ghost predicate ForwardAgrees(lines: seq<string>, r: Option<Position>, plain: Scan) {
    match r
    case None => !plain.Found?
    case Some(at) => PastChar(lines, at) && plain == Found(Offset(lines, at))
  }

  lemma {:induction false} CloseFromIsPlain(isWord: char -> bool, lines: seq<string>, l: nat, i: nat, stack: seq<char>)
    requires l < |lines| && i <= |lines[l]| && OpenAnchored(stack)
    requires LineStart(lines, l) + i <= |Flat(lines)|
    ensures ForwardAgrees(lines, CloseFrom(isWord, lines, l, i, stack),
                          ScanForward(Flat(lines), LineStart(lines, l) + i, Pending(stack)))
    decreases |lines| - l
  {
    FlatSplits(lines, l);
    LineForwardIsPlain(isWord, lines[l], i, stack);
    ScanForwardPiece(Flat(lines[..l]), lines[l], Flat(lines[l + 1..]), i, Pending(stack));
    ScanForwardProgress(lines[l], i, Pending(stack));
    var r := LineForward(isWord, lines[l], i, stack);
    if r.Open? {
      NextLineStart(lines, l);
      if l + 1 < |lines| {
        CloseFromIsPlain(isWord, lines, l + 1, 0, r.stack);
      } else {
        assert lines[..l + 1] == lines;
      }
    }
  }

  /** From a bracket, the scan over lines is plain matching on the text they form. */
  lemma CloseIsPlain(isWord: char -> bool, lines: seq<string>, at: Position)
    requires InFile(lines, at) && IsOpener(CharAt(lines, at))
    ensures Offset(lines, at) < |Flat(lines)|
    ensures ForwardAgrees(lines, Close(isWord, lines, at), ScanForward(Flat(lines), Offset(lines, at), []))
  {
    var l, p := at.line, at.pos;
    var first := [lines[l][p]];
    OffsetInFlat(lines, at);
    assert [] + first == first;
    assert ForwardStep(isWord, lines[l], p, []) == Next(first, 1);
    assert Pending(first) == first by { PendingGrows([], first[0]); }
    CloseFromIsPlain(isWord, lines, l, p + 1, first);
  }

  ghost predicate BackwardAgrees(lines: seq<string>, r: Option<Position>, plain: Scan) {
    match r
    case None => !plain.Found?
    case Some(at) => InFile(lines, at) && plain == Found(Offset(lines, at))
  }

  lemma {:induction false} OpenFromIsPlain(isWord: char -> bool, lines: seq<string>, l: nat, j: nat, stack: seq<char>)
    requires l < |lines| && j <= |lines[l]| && CloseAnchored(stack)
    requires LineStart(lines, l) + j <= |Flat(lines)|
    ensures BackwardAgrees(lines, OpenFrom(isWord, lines, l, j, stack),
                           ScanBackward(Flat(lines), LineStart(lines, l) + j, Awaited(stack)))
    decreases l
  {
    FlatSplits(lines, l);
    LineBackwardIsPlain(isWord, lines[l], j, stack);
    ScanBackwardPiece(Flat(lines[..l]), lines[l], Flat(lines[l + 1..]), j, Awaited(stack));
    ScanBackwardProgress(lines[l], j, Awaited(stack));
    var r := LineBackward(isWord, lines[l], j, stack);
    if r.Open? {
      if l > 0 {
        NextLineStart(lines, l - 1);
        OpenFromIsPlain(isWord, lines, l - 1, |lines[l - 1]|, r.stack);
      } else {
        assert lines[..0] == [];
      }
    }
  }

  lemma ReverseCloseIsPlain(isWord: char -> bool, lines: seq<string>, at: Position)
    requires InFile(lines, at) && IsCloser(CharAt(lines, at))
    ensures Offset(lines, at) < |Flat(lines)|
    ensures BackwardAgrees(lines, ReverseClose(isWord, lines, at), ScanBackward(Flat(lines), Offset(lines, at) + 1, []))
  {
    var l, p := at.line, at.pos;
    var first := [lines[l][p]];
    OffsetInFlat(lines, at);
    assert [] + first == first;
    assert BackwardStep(isWord, lines[l], p, []) == Next(first, 1);
    assert Awaited(first) == [OpenerOf(first[0])] by { AwaitedGrows([], first[0]); }
    OpenFromIsPlain(isWord, lines, l, p, first);
  }

  /** The two scanners are inverse to each other on brackets, whatever lies in between. */
  lemma CloseAndReverseCloseAreInverse(isWord: char -> bool, lines: seq<string>, open: Position, close: Position)
    requires InFile(lines, open) && InFile(lines, close)
    requires IsOpener(CharAt(lines, open)) && IsCloser(CharAt(lines, close))
    ensures Close(isWord, lines, open) == Some(Position(close.line, close.pos + 1))
       <==> ReverseClose(isWord, lines, close) == Some(open)
  {
    OffsetInFlat(lines, open);
    OffsetInFlat(lines, close);
    CloseIsPlain(isWord, lines, open);
    ReverseCloseIsPlain(isWord, lines, close);
    ScansAreInverse(Flat(lines), Offset(lines, open), Offset(lines, close));
    var past := Position(close.line, close.pos + 1);
    var fwd, bwd := Close(isWord, lines, open), ReverseClose(isWord, lines, close);
    if bwd.Some? && Offset(lines, bwd.value) == Offset(lines, open) {
      OffsetInjective(lines, bwd.value, open);
    }
    if fwd.Some? && Offset(lines, fwd.value) == Offset(lines, past) {
      OffsetInjective(lines, Position(fwd.value.line, fwd.value.pos - 1), close);
    }
  }
}
