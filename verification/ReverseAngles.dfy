/** Which `<` a backward search from a `>` finds: the mirror image of counting forwards. */
module ReverseAngles {
  import opened Basics
  import opened BracketMatching
  import opened LineScanners

  /** An arrow, a spaced `>=`, an operator name or a shift: the `<` or `>` goes with the character before it. */
  predicate Swallows(isWord: char -> bool, line: string, i: nat)
    requires i < |line|
  {
    i > 0 &&
    match line[i]
    case '<' => line[i - 1] == '<'
    case '>' =>
      || line[i - 1] == '-'
      || (IsSpace(line[i - 1]) && i + 2 < |line| && line[i + 1] == '=' && IsSpace(line[i + 2]))
      || EndsWithOperator(isWord, line[..i])
    case _ => false
  }

  // ---- Counting angles outside brackets ---------------------------------------------------------------

  /** How many `>` are open outside all brackets, and the opening brackets that are due. */
  datatype Angles = Angles(depth: nat, due: seq<char>)

  /** One character; None where the search cannot go on. Angles and `;` inside brackets do not count. */
  function StepBack(isWord: char -> bool, line: string, i: nat, a: Angles): Option<Angles>
    requires i < |line| && a.depth > 0
  {
    var c := line[i];
    if IsCloser(c) then Some(a.(due := a.due + [OpenerOf(c)]))
    else if IsOpener(c) then
      if a.due != [] && Top(a.due) == c then Some(a.(due := Pop(a.due))) else None
    else if a.due != [] || Swallows(isWord, line, i) then Some(a)
    else if c == '>' then Some(a.(depth := a.depth + 1))
    else if c == '<' then Some(a.(depth := a.depth - 1))
    else if c == ';' then None
    else Some(a)
  }

  datatype AngleScan = Opened(pos: nat) | Failed | Unopened(angles: Angles)

  /** Down to the first character that leaves no `>` open. */
  function LineBack(isWord: char -> bool, line: string, j: nat, a: Angles): (r: AngleScan)
    requires j <= |line| && a.depth > 0
    ensures r.Unopened? ==> r.angles.depth > 0
  {
    if j == 0 then Unopened(a)
    else
      match StepBack(isWord, line, j - 1, a)
      case None => Failed
      case Some(b) =>
        if b.depth == 0 then Opened(j - 1)
        else LineBack(isWord, line, j - if Swallows(isWord, line, j - 1) then 2 else 1, b)
  }

  function AngleStart(isWord: char -> bool, lines: seq<string>, l: nat, j: nat, a: Angles): Option<Position>
    requires l < |lines| && j <= |lines[l]| && a.depth > 0
    decreases l
  {
    match LineBack(isWord, lines[l], j, a)
    case Opened(k) => Some(Position(l, k))
    case Failed => None
    case Unopened(b) => if l == 0 then None else AngleStart(isWord, lines, l - 1, |lines[l - 1]|, b)
  }

  // ---- The scanner's stack and the count -----------------------------------------------------------------

  ghost predicate OnlyAngles(s: seq<char>) {
    forall k :: 0 <= k < |s| ==> s[k] == '>'
  }

  ghost predicate Above(above: seq<char>, due: seq<char>) {
    if above == [] then due == [] else CloseAnchored(above) && Awaited(above) == due
  }

  /** The stack starts with the open `>`; what lies above them rests on a bracket. */
  ghost predicate Represents(stack: seq<char>, a: Angles) {
    0 < a.depth <= |stack| && OnlyAngles(stack[..a.depth]) && Above(stack[a.depth..], a.due)
  }

  lemma RepresentsParts(pre: seq<char>, above: seq<char>, due: seq<char>)
    requires pre != [] && OnlyAngles(pre) && Above(above, due)
    ensures Represents(pre + above, Angles(|pre|, due))
  {
    assert (pre + above)[..|pre|] == pre && (pre + above)[|pre|..] == above;
  }

  ghost predicate SameStep(r: Step, i: nat, width: nat, b: Option<Angles>) {
    match r
    case Next(s, w) => w == width && b.Some? && Represents(s, b.value)
    case Stop(Found(k)) => k == i && b.Some? && b.value.depth == 0
    case Stop(Broken) => b.None?
    case Stop(Open(_)) => false
  }

  ghost function Width(isWord: char -> bool, line: string, i: nat): nat
    requires i < |line|
  {
    if Swallows(isWord, line, i) then 2 else 1
  }

  lemma {:induction false} OnlyAnglesDrop(s: seq<char>)
    requires OnlyAngles(s)
    ensures DropAngles(s, '>') == []
  {
    if s != [] {
      OnlyAnglesDrop(Pop(s));
    }
  }

  lemma {:induction false} DropAnglesAbove(pre: seq<char>, above: seq<char>)
    requires CloseAnchored(above)
    ensures DropAngles(pre + above, '>') == pre + DropAngles(above, '>')
  {
    assert Top(pre + above) == Top(above) && Pop(pre + above) == pre + Pop(above);
    if Top(above) == '>' {
      DropAnglesAbove(pre, Pop(above));
    }
  }

  lemma RepresentsOnly(s: seq<char>)
    requires OnlyAngles(s) && s != []
    ensures Represents(s, Angles(|s|, []))
  {
    RepresentsParts(s, [], []);
    assert s + [] == s;
  }

  lemma OuterAngle(isWord: char -> bool, line: string, i: nat, stack: seq<char>)
    requires i < |line| && OnlyAngles(stack) && stack != [] && (line[i] == '<' || line[i] == '>')
    ensures SameStep(BackwardStep(isWord, line, i, stack), i, Width(isWord, line, i),
                     StepBack(isWord, line, i, Angles(|stack|, [])))
  {
    RepresentsOnly(stack);
    RepresentsOnly(stack + ['>']);
    if |stack| > 1 {
      RepresentsOnly(Pop(stack));
    }
  }

  lemma OuterOther(isWord: char -> bool, line: string, i: nat, stack: seq<char>)
    requires i < |line| && OnlyAngles(stack) && stack != [] && line[i] != '<' && line[i] != '>'
    ensures SameStep(BackwardStep(isWord, line, i, stack), i, Width(isWord, line, i),
                     StepBack(isWord, line, i, Angles(|stack|, [])))
  {
    RepresentsOnly(stack);
    OnlyAnglesDrop(stack);
    if IsCloser(line[i]) {
      var first, due := [line[i]], [OpenerOf(line[i])];
      AwaitedGrows([], line[i]);
      assert [] + first == first && [] + due == due;
      RepresentsParts(stack, first, due);
    }
  }

  lemma InnerOpener(c: char, i: nat, pre: seq<char>, above: seq<char>)
    requires IsOpener(c) && CloseAnchored(above) && pre != [] && OnlyAngles(pre)
    ensures var due := Awaited(above);
            SameStep(BackwardOpener(c, i, pre + above), i, 1,
                     if due != [] && Top(due) == c then Some(Angles(|pre|, Pop(due))) else None)
  {
    var d := DropAngles(above, '>');
    DropAnglesAbove(pre, above);
    DropAnglesAnchoredBack(above);
    AwaitedAnchored(d);
    assert Top(pre + d) == Top(d) && Pop(pre + d) == pre + Pop(d);
    if OpenerOf(Top(d)) == c {
      assert |d| > 1 ==> CloseAnchored(Pop(d));
      RepresentsParts(pre, Pop(d), Pop(Awaited(above)));
    }
  }

  lemma InnerPop(pre: seq<char>, above: seq<char>, emptied: Scan)
    requires CloseAnchored(above) && pre != [] && OnlyAngles(pre)
    ensures var r := PopAngle(pre + above, '>', emptied);
            r.Next? && r.width == 1 && Represents(r.stack, Angles(|pre|, Awaited(above)))
  {
    RepresentsParts(pre, above, Awaited(above));
    assert Top(pre + above) == Top(above) && Pop(pre + above) == pre + Pop(above);
    if Top(above) == '>' {
      assert CloseAnchored(Pop(above)) && Awaited(Pop(above)) == Awaited(above) + [];
      RepresentsParts(pre, Pop(above), Awaited(above));
    }
  }

  lemma InnerPush(pre: seq<char>, above: seq<char>, c: char)
    requires CloseAnchored(above) && pre != [] && OnlyAngles(pre) && (IsCloser(c) || c == '>')
    ensures Represents(pre + above + [c], Angles(|pre|, Awaited(above) + if IsCloser(c) then [OpenerOf(c)] else []))
  {
    AwaitedGrows(above, c);
    assert pre + above + [c] == pre + (above + [c]);
    RepresentsParts(pre, above + [c], Awaited(above + [c]));
  }

  lemma InnerStep(isWord: char -> bool, line: string, i: nat, pre: seq<char>, above: seq<char>)
    requires i < |line| && CloseAnchored(above) && pre != [] && OnlyAngles(pre)
    ensures SameStep(BackwardStep(isWord, line, i, pre + above), i, Width(isWord, line, i),
                     StepBack(isWord, line, i, Angles(|pre|, Awaited(above))))
  {
    var c := line[i];
    AwaitedAnchored(above);
    RepresentsParts(pre, above, Awaited(above));
    if IsOpener(c) {
      InnerOpener(c, i, pre, above);
    } else if IsCloser(c) || c == '>' {
      InnerPush(pre, above, c);
      assert Awaited(above) + [] == Awaited(above);
    } else if c == '<' {
      InnerPop(pre, above, Found(i));
    } else if c == ';' {
      DropAnglesAbove(pre, above);
      DropAnglesAnchoredBack(above);
      RepresentsParts(pre, DropAngles(above, '>'), Awaited(above));
    }
  }

  lemma StepCounts(isWord: char -> bool, line: string, i: nat, stack: seq<char>, a: Angles)
    requires i < |line| && Represents(stack, a)
    ensures SameStep(BackwardStep(isWord, line, i, stack), i, Width(isWord, line, i), StepBack(isWord, line, i, a))
  {
    var pre, above := stack[..a.depth], stack[a.depth..];
    assert stack == pre + above;
    if above != [] {
      InnerStep(isWord, line, i, pre, above);
    } else {
      assert stack == pre;
      if line[i] == '<' || line[i] == '>' {
        OuterAngle(isWord, line, i, stack);
      } else {
        OuterOther(isWord, line, i, stack);
      }
    }
  }

  ghost predicate SameScan(r: Scan, b: AngleScan) {
    match r
    case Found(k) => b == Opened(k)
    case Broken => b == Failed
    case Open(s) => b.Unopened? && Represents(s, b.angles)
  }

  lemma LineBackwardGoesOn(isWord: char -> bool, line: string, j: nat, stack: seq<char>, step: Step)
    requires 0 < j <= |line| && step == BackwardStep(isWord, line, j - 1, stack)
    ensures LineBackward(isWord, line, j, stack) ==
            match step
            case Stop(r) => r
            case Next(s, width) => LineBackward(isWord, line, j - width, s)
  {}

  lemma LineBackGoesOn(isWord: char -> bool, line: string, j: nat, a: Angles, b: Option<Angles>, width: nat)
    requires 0 < j <= |line| && a.depth > 0
    requires b == StepBack(isWord, line, j - 1, a) && width == Width(isWord, line, j - 1)
    ensures LineBack(isWord, line, j, a) ==
            if b.None? then Failed
            else if b.value.depth == 0 then Opened(j - 1)
            else LineBack(isWord, line, j - width, b.value)
  {}

  /** Where a step of the scanner and a step of the count lead. */
  ghost predicate LeadTo(
      isWord: char -> bool, line: string, j: nat, step: Step, next: Option<Angles>, width: nat, r: Scan, b: AngleScan)
    requires j <= |line|
  {
    && 1 <= width <= j && SameStep(step, j - 1, width, next)
    && r == (match step case Stop(r') => r' case Next(s, _) => LineBackward(isWord, line, j - width, s))
    && b == if next.None? then Failed
            else if next.value.depth == 0 then Opened(j - 1)
            else LineBack(isWord, line, j - width, next.value)
  }

  lemma BothStep(isWord: char -> bool, line: string, j: nat, stack: seq<char>, a: Angles)
    returns (step: Step, next: Option<Angles>, width: nat)
    requires 0 < j <= |line| && Represents(stack, a)
    ensures LeadTo(isWord, line, j, step, next, width,
                   LineBackward(isWord, line, j, stack), LineBack(isWord, line, j, a))
  {
    step, next := BackwardStep(isWord, line, j - 1, stack), StepBack(isWord, line, j - 1, a);
    width := Width(isWord, line, j - 1);
    StepCounts(isWord, line, j - 1, stack, a);
    LineBackwardGoesOn(isWord, line, j, stack, step);
    LineBackGoesOn(isWord, line, j, a, next, width);
  }

  lemma {:induction false} LineCounts(
      isWord: char -> bool, line: string, j: nat, stack: seq<char>, a: Angles, r: Scan, b: AngleScan)
    requires j <= |line| && Represents(stack, a)
    requires r == LineBackward(isWord, line, j, stack) && b == LineBack(isWord, line, j, a)
    ensures SameScan(r, b)
  {
    if j > 0 {
      var step, next, width := BothStep(isWord, line, j, stack, a);
      if step.Next? {
        LineCounts(isWord, line, j - width, step.stack, next.value, r, b);
      }
    }
  }

  lemma {:induction false} OpenFromCounts(
      isWord: char -> bool, lines: seq<string>, l: nat, j: nat, stack: seq<char>, a: Angles)
    requires l < |lines| && j <= |lines[l]| && Represents(stack, a)
    ensures OpenFrom(isWord, lines, l, j, stack) == AngleStart(isWord, lines, l, j, a)
    decreases l
  {
    var scan, count := LineBackward(isWord, lines[l], j, stack), LineBack(isWord, lines[l], j, a);
    LineCounts(isWord, lines[l], j, stack, a, scan, count);
    if scan.Open? && l > 0 {
      OpenFromCounts(isWord, lines, l - 1, |lines[l - 1]|, scan.stack, count.angles);
    }
  }

  /** From a `>` of its own the backward finder returns the first `<` that leaves no `>` open, brackets skipped as a
      whole, and nothing where brackets do not match or a `;` comes first. */
  lemma AngleOpenCounts(isWord: char -> bool, lines: seq<string>, at: Position)
    requires InFile(lines, at) && CharAt(lines, at) == '>' && !Swallows(isWord, lines[at.line], at.pos)
    ensures ReverseClose(isWord, lines, at) == AngleStart(isWord, lines, at.line, at.pos, Angles(1, []))
  {
    var line := lines[at.line];
    assert [] + ['>'] == ['>'];
    assert BackwardStep(isWord, line, at.pos, []) == Next(['>'], 1);
    assert LineBackward(isWord, line, at.pos + 1, []) == LineBackward(isWord, line, at.pos, ['>']);
    RepresentsOnly(['>']);
    OpenFromCounts(isWord, lines, at.line, at.pos, ['>'], Angles(1, []));
  }

  // ---- Operator names -------------------------------------------------------------------------------------

  ghost predicate AllSpace(s: string) {
    forall c :: c in s ==> IsSpace(c)
  }

  lemma {:induction false} TrimmedSplits(s: string) returns (spaces: string)
    ensures s == TrimRight(s) + spaces && AllSpace(spaces)
    ensures TrimRight(s) == "" || !IsSpace(TrimRight(s)[|TrimRight(s)| - 1])
  {
    if s != [] && IsSpace(s[|s| - 1]) {
      var rest := TrimmedSplits(s[..|s| - 1]);
      spaces := rest + [s[|s| - 1]];
      assert s == s[..|s| - 1] + [s[|s| - 1]];
    } else {
      spaces := "";
    }
  }

  lemma {:induction false} TrimsSpaces(s: string, spaces: string)
    requires AllSpace(spaces) && (s == "" || !IsSpace(s[|s| - 1]))
    ensures TrimRight(s + spaces) == s
    decreases |spaces|
  {
    if spaces == "" {
      assert s + spaces == s;
    } else {
      var n := |spaces| - 1;
      assert spaces[n] in spaces && forall c :: c in spaces[..n] ==> c in spaces;
      TrimsSpaces(s, spaces[..n]);
      assert (s + spaces)[..|s| + n] == s + spaces[..n];
    }
  }

  ghost predicate IsOperatorName(isWord: char -> bool, s: string, u: string, spaces: string) {
    s == u + "operator" + spaces && AllSpace(spaces) && (u == "" || !isWord(u[|u| - 1]))
  }

  /** The operator test, spelled out: `operator` as a whole word, and then nothing but spaces. */
  lemma OperatorNameExactly(isWord: char -> bool, s: string)
    ensures EndsWithOperator(isWord, s) <==> exists u, spaces :: IsOperatorName(isWord, s, u, spaces)
  {
    if EndsWithOperator(isWord, s) {
      var spaces := TrimmedSplits(s);
      var t := TrimRight(s);
      var u := t[..|t| - 8];
      assert t == u + "operator";
      assert IsOperatorName(isWord, s, u, spaces);
    }
    if exists u, spaces :: IsOperatorName(isWord, s, u, spaces) {
      var u, spaces :| IsOperatorName(isWord, s, u, spaces);
      var t := u + "operator";
      assert t[|t| - 1] == "operator"[7] == 'r';
      TrimsSpaces(t, spaces);
      assert t[|t| - 8..] == "operator";
    }
  }
}
