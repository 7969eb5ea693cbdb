/** Which `>` ends the template argument list that starts at a `<`, and when a `<` starts one at all. */
module AngleBrackets {
  import opened Basics
  import opened BracketMatching
  import opened LineScanners

  /** The `<` at `i` is taken as a tentative start, not as part of `<<` or of an operator name. */
  predicate StartsTentatively(isWord: char -> bool, line: string, i: nat)
    requires i < |line|
  {
    line[i] == '<' && (i == 0 || (line[i - 1] != '<' && !EndsWithOperator(isWord, line[..i])))
  }

  /** The second `<` of `<<` takes back the first. */
  predicate TakesBack(line: string, i: nat)
    requires i < |line|
  {
    line[i] == '<' && i > 0 && line[i - 1] == '<'
  }

  /** The `>` at `i` belongs neither to an arrow nor to an operator name. */
  predicate EndsTentatively(isWord: char -> bool, line: string, i: nat)
    requires i < |line|
  {
    line[i] == '>' && (i == 0 || (line[i - 1] != '-' && !EndsWithOperator(isWord, line[..i - 1])))
  }

  // ---- Counting angles outside brackets ---------------------------------------------------------------

  /** How many `<` are open outside all brackets, and the brackets that are open now. */
  datatype Angles = Angles(depth: nat, pending: seq<char>)

  /** One character; None where the list cannot go on. Angles and `;` inside brackets do not count. */
  function AngleStep(isWord: char -> bool, line: string, i: nat, a: Angles): Option<Angles>
    requires i < |line| && a.depth > 0
  {
    var c := line[i];
    if IsOpener(c) then Some(a.(pending := a.pending + [c]))
    else if IsCloser(c) then
      if a.pending != [] && Top(a.pending) == OpenerOf(c) then Some(a.(pending := Pop(a.pending))) else None
    else if a.pending != [] then Some(a)
    else if StartsTentatively(isWord, line, i) then Some(a.(depth := a.depth + 1))
    else if TakesBack(line, i) then if a.depth == 1 then None else Some(a.(depth := a.depth - 1))
    else if EndsTentatively(isWord, line, i) then Some(a.(depth := a.depth - 1))
    else if c == ';' then None
    else Some(a)
  }

  datatype AngleScan = Closed(pos: nat) | Failed | Unclosed(angles: Angles)

  /** Up to the first character that leaves no `<` open. */
  function AngleLine(isWord: char -> bool, line: string, i: nat, a: Angles): AngleScan
    requires i <= |line| && a.depth > 0
    decreases |line| - i
  {
    if i == |line| then Unclosed(a)
    else
      match AngleStep(isWord, line, i, a)
      case None => Failed
      case Some(b) => if b.depth == 0 then Closed(i + 1) else AngleLine(isWord, line, i + 1, b)
  }

  lemma {:induction false} UnclosedIsDeep(isWord: char -> bool, line: string, i: nat, a: Angles)
    requires i <= |line| && a.depth > 0
    ensures var r := AngleLine(isWord, line, i, a); r.Unclosed? ==> r.angles.depth > 0
    decreases |line| - i
  {
    if i < |line| {
      var b := AngleStep(isWord, line, i, a);
      if b.Some? && b.value.depth > 0 {
        UnclosedIsDeep(isWord, line, i + 1, b.value);
      }
    }
  }

  function AngleEnd(isWord: char -> bool, lines: seq<string>, l: nat, i: nat, a: Angles): Option<Position>
    requires l < |lines| && i <= |lines[l]| && a.depth > 0
    decreases |lines| - l
  {
    UnclosedIsDeep(isWord, lines[l], i, a);
    match AngleLine(isWord, lines[l], i, a)
    case Closed(k) => Some(Position(l, k))
    case Failed => None
    case Unclosed(b) => if l + 1 == |lines| then None else AngleEnd(isWord, lines, l + 1, 0, b)
  }

  // ---- The scanner's stack and the count -----------------------------------------------------------------

  /** The stack starts with the open `<`; what lies above them rests on a bracket. */
  ghost predicate Represents(stack: seq<char>, a: Angles) {
    && 0 < a.depth <= |stack|
    && (forall k :: 0 <= k < a.depth ==> stack[k] == '<')
    && var above := stack[a.depth..];
       if above == [] then a.pending == [] else OpenAnchored(above) && Pending(above) == a.pending
  }

  ghost predicate SameStep(r: Step, i: nat, b: Option<Angles>) {
    match r
    case Next(s, _) => b.Some? && Represents(s, b.value)
    case Stop(Found(k)) => k == i + 1 && b.Some? && b.value.depth == 0
    case Stop(Broken) => b.None?
    case Stop(Open(_)) => false
  }

  lemma {:induction false} OnlyAnglesDrop(s: seq<char>)
    requires OnlyAngles(s)
    ensures DropAngles(s, '<') == []
  {
    if s != [] {
      OnlyAnglesDrop(Pop(s));
    }
  }

  lemma {:induction false} DropAnglesAbove(pre: seq<char>, above: seq<char>)
    requires OpenAnchored(above)
    ensures DropAngles(pre + above, '<') == pre + DropAngles(above, '<')
  {
    assert Top(pre + above) == Top(above) && Pop(pre + above) == pre + Pop(above);
    if Top(above) == '<' {
      DropAnglesAbove(pre, Pop(above));
    }
  }

  lemma RepresentsAbove(pre: seq<char>, above: seq<char>, a: Angles)
    requires a.depth == |pre| > 0 && forall k :: 0 <= k < |pre| ==> pre[k] == '<'
    requires if above == [] then a.pending == [] else OpenAnchored(above) && Pending(above) == a.pending
    ensures Represents(pre + above, a)
  {
    assert (pre + above)[|pre|..] == above;
  }

  ghost predicate OnlyAngles(s: seq<char>) {
    forall k :: 0 <= k < |s| ==> s[k] == '<'
  }

  lemma RepresentsOnly(s: seq<char>)
    requires OnlyAngles(s) && s != []
    ensures Represents(s, Angles(|s|, []))
  {}

  lemma OuterPop(s: seq<char>, emptied: Scan)
    requires OnlyAngles(s) && s != []
    ensures PopAngle(s, '<', emptied) == if |s| == 1 then Stop(emptied) else Next(Pop(s), 1)
    ensures |s| > 1 ==> Represents(Pop(s), Angles(|s| - 1, []))
  {
    if |s| > 1 {
      RepresentsOnly(Pop(s));
    }
  }

  lemma OuterAngle(isWord: char -> bool, line: string, i: nat, stack: seq<char>)
    requires i < |line| && OnlyAngles(stack) && stack != [] && (line[i] == '<' || line[i] == '>')
    ensures SameStep(ForwardStep(isWord, line, i, stack), i, AngleStep(isWord, line, i, Angles(|stack|, [])))
  {
    RepresentsOnly(stack);
    RepresentsOnly(stack + ['<']);
    OuterPop(stack, Broken);
    OuterPop(stack, Found(i + 1));
  }

  lemma OuterOther(isWord: char -> bool, line: string, i: nat, stack: seq<char>)
    requires i < |line| && OnlyAngles(stack) && stack != [] && line[i] != '<' && line[i] != '>'
    ensures SameStep(ForwardStep(isWord, line, i, stack), i, AngleStep(isWord, line, i, Angles(|stack|, [])))
  {
    RepresentsOnly(stack);
    OnlyAnglesDrop(stack);
    if IsOpener(line[i]) {
      var first := [line[i]];
      PendingGrows([], line[i]);
      assert [] + first == first;
      RepresentsAbove(stack, first, Angles(|stack|, first));
    }
  }

  /** Outside brackets the stack is nothing but the open `<`. */
  lemma OuterStep(isWord: char -> bool, line: string, i: nat, stack: seq<char>, a: Angles)
    requires i < |line| && Represents(stack, a) && a.pending == []
    ensures SameStep(ForwardStep(isWord, line, i, stack), i, AngleStep(isWord, line, i, a))
  {
    var above := stack[a.depth..];
    if above != [] {
      PendingAnchored(above);
    }
    assert |stack| == a.depth && OnlyAngles(stack);
    if line[i] == '<' || line[i] == '>' {
      OuterAngle(isWord, line, i, stack);
    } else {
      OuterOther(isWord, line, i, stack);
    }
  }

  lemma InnerCloser(c: char, i: nat, pre: seq<char>, above: seq<char>, a: Angles)
    requires IsCloser(c) && OpenAnchored(above) && Pending(above) == a.pending
    requires a.depth == |pre| > 0 && forall k :: 0 <= k < |pre| ==> pre[k] == '<'
    ensures var closes := a.pending != [] && Top(a.pending) == OpenerOf(c);
            SameStep(ForwardCloser(c, i, pre + above), i, if closes then Some(a.(pending := Pop(a.pending))) else None)
  {
    var d := DropAngles(above, '<');
    DropAnglesAbove(pre, above);
    DropAnglesAnchored(above);
    PendingAnchored(d);
    assert Top(pre + d) == Top(d) && Pop(pre + d) == pre + Pop(d);
    if Top(d) == OpenerOf(c) {
      assert |d| > 1 ==> OpenAnchored(Pop(d));
      RepresentsAbove(pre, Pop(d), a.(pending := Pop(a.pending)));
    }
  }

  /** Inside brackets only brackets matter. */
  lemma InnerStep(isWord: char -> bool, line: string, i: nat, stack: seq<char>, a: Angles)
    requires i < |line| && Represents(stack, a) && a.pending != []
    ensures SameStep(ForwardStep(isWord, line, i, stack), i, AngleStep(isWord, line, i, a))
  {
    var pre, above, c := stack[..a.depth], stack[a.depth..], line[i];
    assert stack == pre + above;
    if IsCloser(c) {
      InnerCloser(c, i, pre, above, a);
    } else if IsOpener(c) || c == '<' {
      PendingGrows(above, c);
      assert stack + [c] == pre + (above + [c]);
      RepresentsAbove(pre, above + [c], if IsOpener(c) then a.(pending := a.pending + [c]) else a);
      InnerPop(pre, above, a);
    } else if c == ';' {
      DropAnglesAbove(pre, above);
      DropAnglesAnchored(above);
      RepresentsAbove(pre, DropAngles(above, '<'), a);
    } else {
      InnerPop(pre, above, a);
    }
  }

  lemma InnerPop(pre: seq<char>, above: seq<char>, a: Angles)
    requires OpenAnchored(above) && Pending(above) == a.pending
    requires a.depth == |pre| > 0 && forall k :: 0 <= k < |pre| ==> pre[k] == '<'
    ensures forall emptied :: var r := PopAngle(pre + above, '<', emptied); r.Next? && Represents(r.stack, a)
  {
    RepresentsAbove(pre, above, a);
    assert Top(pre + above) == Top(above) && Pop(pre + above) == pre + Pop(above);
    if Top(above) == '<' {
      assert OpenAnchored(Pop(above)) && Pending(Pop(above)) == Pending(above) + [];
      RepresentsAbove(pre, Pop(above), a);
    }
  }

  ghost predicate SameScan(r: Scan, b: AngleScan) {
    match r
    case Found(k) => b == Closed(k)
    case Broken => b == Failed
    case Open(s) => b.Unclosed? && Represents(s, b.angles)
  }

  lemma {:induction false} LineCountsAngles(isWord: char -> bool, line: string, i: nat, stack: seq<char>, a: Angles)
    requires i <= |line| && Represents(stack, a)
    ensures SameScan(LineForward(isWord, line, i, stack), AngleLine(isWord, line, i, a))
    decreases |line| - i
  {
    if i < |line| {
      if a.pending == [] {
        OuterStep(isWord, line, i, stack, a);
      } else {
        InnerStep(isWord, line, i, stack, a);
      }
      var step := ForwardStep(isWord, line, i, stack);
      if step.Next? {
        LineCountsAngles(isWord, line, i + 1, step.stack, AngleStep(isWord, line, i, a).value);
      }
    }
  }

  lemma {:induction false} CloseFromCountsAngles(
      isWord: char -> bool, lines: seq<string>, l: nat, i: nat, stack: seq<char>, a: Angles)
    requires l < |lines| && i <= |lines[l]| && Represents(stack, a)
    ensures CloseFrom(isWord, lines, l, i, stack) == AngleEnd(isWord, lines, l, i, a)
    decreases |lines| - l
  {
    LineCountsAngles(isWord, lines[l], i, stack, a);
    var scan := LineForward(isWord, lines[l], i, stack);
    if scan.Open? && l + 1 < |lines| {
      CloseFromCountsAngles(isWord, lines, l + 1, 0, scan.stack, AngleLine(isWord, lines[l], i, a).angles);
    }
  }

  lemma OpensTentatively(isWord: char -> bool, line: string, i: nat)
    requires i < |line| && StartsTentatively(isWord, line, i)
    ensures LineForward(isWord, line, i, []) == LineForward(isWord, line, i + 1, ['<'])
    ensures Represents(['<'], Angles(1, []))
  {
    assert [] + ['<'] == ['<'];
    assert ForwardStep(isWord, line, i, []) == Next(['<'], 1);
  }

  /** From a tentative `<` the finder returns the place just past the first `>` that leaves no `<` open, brackets
      skipped as a whole, and nothing where brackets do not match or a `;` comes first. */
  lemma AngleCloseCounts(isWord: char -> bool, lines: seq<string>, at: Position)
    requires InFile(lines, at) && StartsTentatively(isWord, lines[at.line], at.pos)
    ensures Close(isWord, lines, at) ==
            if StartsExpression(lines[at.line], at.pos)
            then AngleEnd(isWord, lines, at.line, at.pos + 1, Angles(1, [])) else None
  {
    if StartsExpression(lines[at.line], at.pos) {
      OpensTentatively(isWord, lines[at.line], at.pos);
      CloseFromCountsAngles(isWord, lines, at.line, at.pos + 1, ['<'], Angles(1, []));
    }
  }

  // ---- Brackets in between match up -----------------------------------------------------------------------

  ghost predicate LineStaysBalanced(r: AngleScan, line: string, i: nat, s: seq<char>)
    requires i <= |line|
  {
    match r
    case Closed(k) => i < k <= |line| && line[k - 1] == '>' && RunForward(line, i, k - 1, s) == At([])
    case Unclosed(b) => RunForward(line, i, |line|, s) == At(b.pending)
    case Failed => true
  }

  lemma {:induction false} AngleLineStaysBalanced(isWord: char -> bool, line: string, i: nat, a: Angles)
    requires i <= |line| && a.depth > 0
    ensures LineStaysBalanced(AngleLine(isWord, line, i, a), line, i, a.pending)
    decreases |line| - i
  {
    if i < |line| {
      var b := AngleStep(isWord, line, i, a);
      if b.Some? && b.value.depth > 0 {
        assert StepForward(line[i], a.pending) == At(b.value.pending);
        AngleLineStaysBalanced(isWord, line, i + 1, b.value);
      }
    }
  }

  lemma {:induction false} RunForwardPiece(pre: string, a: string, post: string, i: nat, j: nat, s: seq<char>)
    requires i <= j <= |a|
    ensures RunForward(pre + a + post, |pre| + i, |pre| + j, s) == RunForward(a, i, j, s)
    decreases j - i
  {
    if i < j {
      assert (pre + a + post)[|pre| + i] == a[i];
      var step := StepForward(a[i], s);
      if step.At? {
        RunForwardPiece(pre, a, post, i + 1, j, step.stack);
      }
    }
  }

  /** `end` lies past a `>`, and the brackets between offset `from` and that `>` match up. */
  ghost predicate EndsBalanced(lines: seq<string>, from: nat, s: seq<char>, end: Position) {
    && PastChar(lines, end)
    && CharAt(lines, Position(end.line, end.pos - 1)) == '>'
    && from < Offset(lines, end) <= |Flat(lines)|
    && RunForward(Flat(lines), from, Offset(lines, end) - 1, s) == At([])
  }

  lemma EndsInLine(lines: seq<string>, l: nat, i: nat, s: seq<char>, k: nat)
    requires l < |lines| && i < k <= |lines[l]|
    requires lines[l][k - 1] == '>' && RunForward(lines[l], i, k - 1, s) == At([])
    ensures EndsBalanced(lines, LineStart(lines, l) + i, s, Position(l, k))
  {
    FlatSplits(lines, l);
    RunForwardPiece(Flat(lines[..l]), lines[l], Flat(lines[l + 1..]), i, k - 1, s);
  }

  lemma EndsInLaterLine(lines: seq<string>, l: nat, i: nat, s: seq<char>, s1: seq<char>, end: Position)
    requires l + 1 < |lines| && i <= |lines[l]|
    requires RunForward(lines[l], i, |lines[l]|, s) == At(s1)
    requires EndsBalanced(lines, LineStart(lines, l + 1), s1, end)
    ensures EndsBalanced(lines, LineStart(lines, l) + i, s, end)
  {
    FlatSplits(lines, l);
    NextLineStart(lines, l);
    RunForwardPiece(Flat(lines[..l]), lines[l], Flat(lines[l + 1..]), i, |lines[l]|, s);
    RunForwardSplits(Flat(lines), LineStart(lines, l) + i, LineStart(lines, l + 1), Offset(lines, end) - 1, s);
  }

  lemma {:induction false} AngleEndIsBalanced(isWord: char -> bool, lines: seq<string>, l: nat, i: nat, a: Angles)
    requires l < |lines| && i <= |lines[l]| && a.depth > 0
    ensures var r := AngleEnd(isWord, lines, l, i, a);
            r.Some? ==> EndsBalanced(lines, LineStart(lines, l) + i, a.pending, r.value)
    decreases |lines| - l
  {
    UnclosedIsDeep(isWord, lines[l], i, a);
    AngleLineStaysBalanced(isWord, lines[l], i, a);
    var scan := AngleLine(isWord, lines[l], i, a);
    if scan.Closed? {
      EndsInLine(lines, l, i, a.pending, scan.pos);
    } else if scan.Unclosed? && l + 1 < |lines| {
      AngleEndIsBalanced(isWord, lines, l + 1, 0, scan.angles);
      var r := AngleEnd(isWord, lines, l + 1, 0, scan.angles);
      if r.Some? {
        EndsInLaterLine(lines, l, i, a.pending, scan.angles.pending, r.value);
      }
    }
  }

  /** From a tentative `<`, success means a `>` with balanced brackets in between. */
  lemma AngleCloseIsBalanced(isWord: char -> bool, lines: seq<string>, at: Position)
    requires InFile(lines, at) && StartsTentatively(isWord, lines[at.line], at.pos)
    ensures var r := Close(isWord, lines, at);
            r.Some? ==> EndsBalanced(lines, Offset(lines, at) + 1, [], r.value)
  {
    AngleCloseCounts(isWord, lines, at);
    AngleEndIsBalanced(isWord, lines, at.line, at.pos + 1, Angles(1, []));
  }

  // ---- Exactly the tentative starts behave ----------------------------------------------------------------

  /** Whatever follows `prefix`, a search from its last character that succeeds ends at a balanced `>`. */
  ghost predicate AlwaysBalanced(isWord: char -> bool, prefix: string) {
    forall lines, at ::
      InFile(lines, at) && lines[at.line][..at.pos + 1] == prefix && Close(isWord, lines, at).Some? ==>
        EndsBalanced(lines, Offset(lines, at) + 1, [], Close(isWord, lines, at).value)
  }

  lemma TentativeByPrefix(isWord: char -> bool, line: string, i: nat)
    requires i < |line|
    ensures StartsTentatively(isWord, line, i) <==> StartsTentatively(isWord, line[..i + 1], i)
  {
    assert line[..i + 1][..i] == line[..i];
  }

  /** Any other `<`, of `<<` or of an operator name, is passed over: the search ends on the next bracket pair. */
  lemma OtherAngleClosesOnParenthesis(isWord: char -> bool, line: string, i: nat)
    requires i < |line| && line[i] == '<' && !StartsTentatively(isWord, line, i)
    ensures Close(isWord, [line[..i + 1] + "()"], Position(0, i)) == Some(Position(0, i + 3))
  {
    var text := line[..i + 1] + "()";
    assert text[..i] == line[..i] && text[i] == '<' && text[i + 1] == '(' && text[i + 2] == ')';
    assert i > 0 && text[i - 1] == line[i - 1];
    assert ForwardStep(isWord, text, i, []) == Next([], 1);
    assert [] + ['('] == ['('];
    assert ForwardStep(isWord, text, i + 1, []) == Next(['('], 1);
    assert DropAngles(['('], '<') == ['('];
    assert ForwardStep(isWord, text, i + 2, ['(']) == Stop(Found(i + 3));
    assert LineForward(isWord, text, i + 1, []) == Found(i + 3);
    assert LineForward(isWord, text, i, []) == Found(i + 3);
  }

  /** A `<` closes balanced in every continuation of its line and file if and only if it is a tentative start. */
  lemma BalancedExactlyFromTentative(isWord: char -> bool, prefix: string)
    requires prefix != [] && prefix[|prefix| - 1] == '<'
    ensures AlwaysBalanced(isWord, prefix) <==> StartsTentatively(isWord, prefix, |prefix| - 1)
  {
    var i := |prefix| - 1;
    if StartsTentatively(isWord, prefix, i) {
      forall lines, at | InFile(lines, at) && lines[at.line][..at.pos + 1] == prefix && Close(isWord, lines, at).Some?
        ensures EndsBalanced(lines, Offset(lines, at) + 1, [], Close(isWord, lines, at).value)
      {
        assert at.pos == i;
        TentativeByPrefix(isWord, lines[at.line], i);
        AngleCloseIsBalanced(isWord, lines, at);
      }
    } else {
      assert prefix[..i + 1] == prefix;
      OtherAngleClosesOnParenthesis(isWord, prefix, i);
      var lines, at := [prefix + "()"], Position(0, i);
      assert lines[0][..i + 1] == prefix && lines[0][i + 2] == ')';
      assert !EndsBalanced(lines, Offset(lines, at) + 1, [], Close(isWord, lines, at).value);
    }
  }
}
