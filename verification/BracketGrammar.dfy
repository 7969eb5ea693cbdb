/** Bracketed text spelled out as a grammar, and what the bracket finders make of it. */
module BracketGrammar {
  import opened Basics
  import opened BracketMatching
  import opened LineScanners

  /** Letters, and the three kinds of groups, one after another. */
  datatype Nested =
    | Nothing
    | Letter(c: char, rest: Nested)
    | Round(inner: Nested, rest: Nested)
    | Square(inner: Nested, rest: Nested)
    | Curly(inner: Nested, rest: Nested)

  function Text(n: Nested): string {
    match n
    case Nothing => ""
    case Letter(c, rest) => [c] + Text(rest)
    case Round(inner, rest) => "(" + Text(inner) + ")" + Text(rest)
    case Square(inner, rest) => "[" + Text(inner) + "]" + Text(rest)
    case Curly(inner, rest) => "{" + Text(inner) + "}" + Text(rest)
  }

  /** Letters are no brackets. */
  predicate IsProper(n: Nested) {
    match n
    case Nothing => true
    case Letter(c, rest) => c !in "()[]{}" && IsProper(rest)
    case Round(inner, rest) => IsProper(inner) && IsProper(rest)
    case Square(inner, rest) => IsProper(inner) && IsProper(rest)
    case Curly(inner, rest) => IsProper(inner) && IsProper(rest)
  }

  /** A single group: `(...)`, `[...]` or `{...}` around text in which all brackets match. */
  ghost predicate IsBracketed(s: string) {
    exists n :: IsProper(n) && (s == "(" + Text(n) + ")" || s == "[" + Text(n) + "]" || s == "{" + Text(n) + "}")
  }

  ghost predicate IsPair(open: char, close: char) {
    (open == '(' && close == ')') || (open == '[' && close == ']') || (open == '{' && close == '}')
  }

  lemma PairsAreOpeners(open: char, close: char)
    ensures IsPair(open, close) <==> IsCloser(close) && OpenerOf(close) == open
  {}

  // ---- Groups are found -----------------------------------------------------------------------------------

  /** `n` stands in `t` from `i` on. */
  ghost predicate StandsAt(t: string, i: nat, s: string) {
    i + |s| <= |t| && t[i..i + |s|] == s
  }

  lemma StandsSplits(t: string, i: nat, a: string, b: string)
    requires StandsAt(t, i, a + b)
    ensures StandsAt(t, i, a) && StandsAt(t, i + |a|, b)
  {
    var s := a + b;
    assert s[..|a|] == a && s[|a|..] == b;
    assert t[i..i + |a|] == t[i..i + |s|][..|a|];
    assert t[i + |a|..i + |s|] == t[i..i + |s|][|a|..];
  }

  lemma StandsOne(t: string, i: nat, c: char)
    requires StandsAt(t, i, [c])
    ensures t[i] == c
  {
    assert t[i] == t[i..i + 1][0];
  }

  lemma StandsGroup(t: string, i: nat, open: char, a: string, close: char, b: string)
    requires StandsAt(t, i, [open] + a + [close] + b)
    ensures t[i] == open && StandsAt(t, i + 1, a) && t[i + 1 + |a|] == close && StandsAt(t, i + 2 + |a|, b)
  {
    StandsSplits(t, i, [open] + a + [close], b);
    StandsSplits(t, i, [open] + a, [close]);
    StandsSplits(t, i, [open], a);
    StandsOne(t, i, open);
    StandsOne(t, i + 1 + |a|, close);
  }

  /** Matched text leaves the open brackets as they are. */
  lemma {:induction false} ScanPassesNested(t: string, i: nat, n: Nested, s: seq<char>)
    requires IsProper(n) && StandsAt(t, i, Text(n)) && s != []
    ensures ScanForward(t, i, s) == ScanForward(t, i + |Text(n)|, s)
    decreases |Text(n)|
  {
    match n
    case Nothing =>
    case Letter(c, rest) =>
      StandsSplits(t, i, [c], Text(rest));
      StandsOne(t, i, c);
      ScanPassesNested(t, i + 1, rest, s);
    case Round(inner, rest) =>
      ScanPassesGroup(t, i, '(', inner, ')', rest, s);
    case Square(inner, rest) =>
      ScanPassesGroup(t, i, '[', inner, ']', rest, s);
    case Curly(inner, rest) =>
      ScanPassesGroup(t, i, '{', inner, '}', rest, s);
  }

  lemma {:induction false} ScanPassesGroup(
      t: string, i: nat, open: char, inner: Nested, close: char, rest: Nested, s: seq<char>)
    requires IsProper(inner) && IsProper(rest) && s != [] && IsPair(open, close)
    requires StandsAt(t, i, [open] + Text(inner) + [close] + Text(rest))
    ensures ScanForward(t, i, s) == ScanForward(t, i + 2 + |Text(inner)| + |Text(rest)|, s)
    decreases |Text(inner)| + |Text(rest)| + 1
  {
    StandsGroup(t, i, open, Text(inner), close, Text(rest));
    var j := i + 1 + |Text(inner)|;
    assert ScanForward(t, i, s) == ScanForward(t, i + 1, s + [open]);
    ScanPassesNested(t, i + 1, inner, s + [open]);
    assert Pop(s + [open]) == s;
    assert ScanForward(t, j, s + [open]) == ScanForward(t, j + 1, s);
    ScanPassesNested(t, j + 1, rest, s);
  }

  ghost predicate IsGroup(s: string, open: char, n: Nested, close: char) {
    IsPair(open, close) && IsProper(n) && s == [open] + Text(n) + [close]
  }

  lemma BracketedIsGroup(s: string)
    ensures IsBracketed(s) <==> exists open, n, close :: IsGroup(s, open, n, close)
  {
    if IsBracketed(s) {
      var n :| IsProper(n) && (s == "(" + Text(n) + ")" || s == "[" + Text(n) + "]" || s == "{" + Text(n) + "}");
      assert IsGroup(s, '(', n, ')') || IsGroup(s, '[', n, ']') || IsGroup(s, '{', n, '}');
    }
  }

  lemma GroupIsFound(t: string, i: nat, k: nat, open: char, n: Nested, close: char)
    requires i < k <= |t| && IsGroup(t[i..k], open, n, close)
    ensures ScanForward(t, i, []) == Found(k)
  {
    var s := [open] + Text(n) + [close];
    assert s + [] == s;
    StandsGroup(t, i, open, Text(n), close, []);
    assert [] + [open] == [open];
    assert ScanForward(t, i, []) == ScanForward(t, i + 1, [open]);
    ScanPassesNested(t, i + 1, n, [open]);
  }

  // ---- What is found is a group ---------------------------------------------------------------------------

  /** The text `n` from `i` up to the bracket at `j` that closes the top of `s`, on the way to `k`. */
  ghost predicate ClosesTop(t: string, i: nat, s: seq<char>, k: nat, n: Nested, j: nat) {
    && IsProper(n) && StandsAt(t, i, Text(n)) && j == i + |Text(n)| < |t|
    && s != [] && IsPair(Top(s), t[j])
    && (if |s| == 1 then k == j + 1 else ScanForward(t, j + 1, Pop(s)) == Found(k))
  }

  lemma StandsJoins(t: string, i: nat, a: string, b: string)
    requires StandsAt(t, i, a) && StandsAt(t, i + |a|, b)
    ensures StandsAt(t, i, a + b)
  {
    assert t[i..i + |a + b|] == t[i..i + |a|] + t[i + |a|..i + |a| + |b|];
  }

  lemma StandsHere(t: string, i: nat)
    requires i < |t|
    ensures StandsAt(t, i, [t[i]])
  {}

  lemma StandsAsGroup(t: string, i: nat, a: string, b: string)
    requires i < |t| && StandsAt(t, i + 1, a) && i + 1 + |a| < |t| && StandsAt(t, i + 2 + |a|, b)
    ensures StandsAt(t, i, [t[i]] + a + [t[i + 1 + |a|]] + b)
  {
    StandsHere(t, i);
    StandsHere(t, i + 1 + |a|);
    StandsJoins(t, i, [t[i]], a);
    StandsJoins(t, i, [t[i]] + a, [t[i + 1 + |a|]]);
    StandsJoins(t, i, [t[i]] + a + [t[i + 1 + |a|]], b);
  }

  function Grouped(open: char, inner: Nested, rest: Nested): Nested {
    if open == '(' then Round(inner, rest) else if open == '[' then Square(inner, rest) else Curly(inner, rest)
  }

  lemma GroupedText(open: char, close: char, inner: Nested, rest: Nested)
    requires IsPair(open, close) && IsProper(inner) && IsProper(rest)
    ensures IsProper(Grouped(open, inner, rest))
    ensures Text(Grouped(open, inner, rest)) == [open] + Text(inner) + [close] + Text(rest)
  {}

  lemma JoinGroup(t: string, i: nat, s: seq<char>, k: nat, inner: Nested, m: nat, rest: Nested, j: nat)
    requires i < |t| && IsOpener(t[i])
    requires ClosesTop(t, i + 1, s + [t[i]], k, inner, m) && ClosesTop(t, m + 1, s, k, rest, j)
    ensures ClosesTop(t, i, s, k, Grouped(t[i], inner, rest), j)
  {
    StandsAsGroup(t, i, Text(inner), Text(rest));
    GroupedText(t[i], t[m], inner, rest);
  }

  lemma JoinLetter(t: string, i: nat, s: seq<char>, k: nat, rest: Nested, j: nat)
    requires i < |t| && !IsOpener(t[i]) && !IsCloser(t[i]) && ClosesTop(t, i + 1, s, k, rest, j)
    ensures ClosesTop(t, i, s, k, Letter(t[i], rest), j)
  {
    StandsHere(t, i);
    StandsJoins(t, i, [t[i]], Text(rest));
  }

  /** Reading back what a successful scan has passed. */
  lemma {:induction false} ReadNested(t: string, i: nat, s: seq<char>, k: nat) returns (n: Nested, j: nat)
    requires i <= |t| && s != [] && ScanForward(t, i, s) == Found(k)
    ensures ClosesTop(t, i, s, k, n, j)
    decreases |t| - i
  {
    var c := t[i];
    if IsOpener(c) {
      var inner, m := ReadNested(t, i + 1, s + [c], k);
      assert Pop(s + [c]) == s;
      var rest;
      rest, j := ReadNested(t, m + 1, s, k);
      n := Grouped(c, inner, rest);
      JoinGroup(t, i, s, k, inner, m, rest, j);
    } else if IsCloser(c) {
      n, j := Nothing, i;
      PairsAreOpeners(Top(s), c);
    } else {
      var rest;
      rest, j := ReadNested(t, i + 1, s, k);
      n := Letter(c, rest);
      JoinLetter(t, i, s, k, rest, j);
    }
  }

  lemma FoundIsGroup(t: string, i: nat, k: nat)
    requires i < |t| && IsOpener(t[i]) && ScanForward(t, i, []) == Found(k)
    ensures i < k <= |t| && IsBracketed(t[i..k])
  {
    assert [] + [t[i]] == [t[i]];
    var n, j := ReadNested(t, i + 1, [t[i]], k);
    StandsAsGroup(t, i, Text(n), []);
    assert [t[i]] + Text(n) + [t[j]] + [] == [t[i]] + Text(n) + [t[j]];
    assert IsGroup(t[i..k], t[i], n, t[j]);
    BracketedIsGroup(t[i..k]);
  }

  /** Plain matching from a bracket ends at `k` exactly when the text up to `k` is one group. */
  lemma FoundExactlyOnGroups(t: string, i: nat, k: nat)
    requires i < k <= |t|
    ensures t[i] in "([{" && ScanForward(t, i, []) == Found(k) <==> IsBracketed(t[i..k])
  {
    BracketedIsGroup(t[i..k]);
    if IsBracketed(t[i..k]) {
      var open, n, close :| IsGroup(t[i..k], open, n, close);
      assert t[i] == t[i..k][0] == open;
      GroupIsFound(t, i, k, open, n, close);
    }
    if t[i] in "([{" && ScanForward(t, i, []) == Found(k) {
      FoundIsGroup(t, i, k);
    }
  }

  // ---- The finders over lines -----------------------------------------------------------------------------

  /** The text from `from` up to `to`, over all lines. */
  ghost function Between(lines: seq<string>, from: nat, to: nat): string {
    if from <= to <= |Flat(lines)| then Flat(lines)[from..to] else ""
  }

  lemma PastCharInFlat(lines: seq<string>, p: Position)
    requires PastChar(lines, p)
    ensures 0 < Offset(lines, p) <= |Flat(lines)|
  {
    OffsetInFlat(lines, Position(p.line, p.pos - 1));
  }

  lemma PastInjective(lines: seq<string>, p: Position, q: Position)
    requires PastChar(lines, p) && PastChar(lines, q) && Offset(lines, p) == Offset(lines, q)
    ensures p == q
  {
    OffsetInjective(lines, Position(p.line, p.pos - 1), Position(q.line, q.pos - 1));
  }

  /** From an opening bracket the forward finder ends at `p` exactly when the text up to `p` is one group. */
  lemma CloseFindsGroups(isWord: char -> bool, lines: seq<string>, at: Position, p: Position)
    requires InFile(lines, at) && CharAt(lines, at) in "([{" && PastChar(lines, p)
    ensures Close(isWord, lines, at) == Some(p) <==> IsBracketed(Between(lines, Offset(lines, at), Offset(lines, p)))
  {
    var t, i, k := Flat(lines), Offset(lines, at), Offset(lines, p);
    OffsetInFlat(lines, at);
    PastCharInFlat(lines, p);
    CloseIsPlain(isWord, lines, at);
    ScanForwardProgress(t, i, []);
    if i < k {
      FoundExactlyOnGroups(t, i, k);
      var r := Close(isWord, lines, at);
      if r.Some? && Offset(lines, r.value) == k {
        PastInjective(lines, r.value, p);
      }
    } else {
      BracketedIsGroup("");
      BracketedIsGroup(Between(lines, i, k));
    }
  }

  /** Without such a position the forward finder fails. */
  lemma CloseFailsWithoutGroup(isWord: char -> bool, lines: seq<string>, at: Position)
    requires InFile(lines, at) && CharAt(lines, at) in "([{"
    ensures Close(isWord, lines, at).Some? <==>
            exists p :: PastChar(lines, p) && IsBracketed(Between(lines, Offset(lines, at), Offset(lines, p)))
  {
    var r := Close(isWord, lines, at);
    if r.Some? {
      CloseIsPlain(isWord, lines, at);
      CloseFindsGroups(isWord, lines, at, r.value);
    }
    if exists p :: PastChar(lines, p) && IsBracketed(Between(lines, Offset(lines, at), Offset(lines, p))) {
      var p :| PastChar(lines, p) && IsBracketed(Between(lines, Offset(lines, at), Offset(lines, p)));
      CloseFindsGroups(isWord, lines, at, p);
    }
  }

  lemma SpanToPast(lines: seq<string>, from: nat, at: Position, past: Position)
    requires InFile(lines, at) && past == Position(at.line, at.pos + 1)
    ensures PastChar(lines, past)
    ensures Between(lines, from, Offset(lines, past)) == Between(lines, from, Offset(lines, at) + 1)
  {}

  lemma ReverseFromOpener(isWord: char -> bool, lines: seq<string>, at: Position, p: Position, span: string)
    requires InFile(lines, at) && CharAt(lines, at) in ")]}" && InFile(lines, p) && CharAt(lines, p) in "([{"
    requires span == Between(lines, Offset(lines, p), Offset(lines, at) + 1)
    ensures ReverseClose(isWord, lines, at) == Some(p) <==> IsBracketed(span)
  {
    var past := Position(at.line, at.pos + 1);
    SpanToPast(lines, Offset(lines, p), at, past);
    CloseFindsGroups(isWord, lines, p, past);
    CloseAndReverseCloseAreInverse(isWord, lines, p, at);
  }

  lemma ReverseFromOther(isWord: char -> bool, lines: seq<string>, at: Position, p: Position)
    requires InFile(lines, at) && CharAt(lines, at) in ")]}" && InFile(lines, p) && CharAt(lines, p) !in "([{"
    ensures ReverseClose(isWord, lines, at) != Some(p)
    ensures !IsBracketed(Between(lines, Offset(lines, p), Offset(lines, at) + 1))
  {
    OffsetInFlat(lines, p);
    StartsOpen(isWord, lines, at);
    NotBracketed(lines, Offset(lines, p), Offset(lines, at) + 1);
  }

  /** From a closing bracket the backward finder ends at `p` exactly when the text from `p` on is one group. */
  lemma ReverseCloseFindsGroups(isWord: char -> bool, lines: seq<string>, at: Position, p: Position)
    requires InFile(lines, at) && CharAt(lines, at) in ")]}" && InFile(lines, p)
    ensures ReverseClose(isWord, lines, at) == Some(p) <==>
            IsBracketed(Between(lines, Offset(lines, p), Offset(lines, at) + 1))
  {
    if CharAt(lines, p) in "([{" {
      ReverseFromOpener(isWord, lines, at, p, Between(lines, Offset(lines, p), Offset(lines, at) + 1));
    } else {
      ReverseFromOther(isWord, lines, at, p);
    }
  }

  /** What the backward finder returns from a closing bracket is an opening one. */
  lemma StartsOpen(isWord: char -> bool, lines: seq<string>, at: Position)
    requires InFile(lines, at) && CharAt(lines, at) in ")]}"
    ensures var r := ReverseClose(isWord, lines, at);
            r.Some? ==> InFile(lines, r.value) && CharAt(lines, r.value) in "([{"
  {
    OffsetInFlat(lines, at);
    ReverseCloseIsPlain(isWord, lines, at);
    var r := ReverseClose(isWord, lines, at);
    if r.Some? {
      OffsetInFlat(lines, r.value);
      BackwardEndsOnOpener(Flat(lines), Offset(lines, at) + 1, []);
    }
  }

  lemma {:induction false} BackwardEndsOnOpener(t: string, j: nat, s: seq<char>)
    requires j <= |t|
    ensures var r := ScanBackward(t, j, s); r.Found? ==> r.pos < |t| && t[r.pos] in "([{"
  {
    if j > 0 {
      var step := StepBackward(t[j - 1], s);
      if step.At? {
        BackwardEndsOnOpener(t, j - 1, step.stack);
      }
    }
  }

  lemma NotBracketed(lines: seq<string>, from: nat, to: nat)
    requires from < |Flat(lines)| && Flat(lines)[from] !in "([{"
    ensures !IsBracketed(Between(lines, from, to))
  {
    var s := Between(lines, from, to);
    if s != [] {
      assert s[0] == Flat(lines)[from];
    }
    BracketedIsGroup(s);
  }

  // ---- Where no expression starts -------------------------------------------------------------------------

  /** The forward finder fails on anything but a bracket or a `<`, and on `<<` and `<=`. */
  lemma NothingStarts(isWord: char -> bool, lines: seq<string>, at: Position)
    requires InFile(lines, at)
    requires var line, i := lines[at.line], at.pos;
             || line[i] !in "([{<"
             || (line[i] == '<' && i + 1 < |line| && line[i + 1] in "<=")
    ensures Close(isWord, lines, at) == None
  {}

  /** Every other `<` is tried. */
  lemma LessIsTried(line: string, i: nat)
    requires i < |line| && line[i] == '<' && (i + 1 == |line| || line[i + 1] !in "<=")
    ensures StartsExpression(line, i)
  {}

  /** The backward finder fails on anything but a closing bracket or a `>`. */
  lemma NothingEnds(isWord: char -> bool, lines: seq<string>, at: Position)
    requires InFile(lines, at) && CharAt(lines, at) !in ")]}>"
    ensures ReverseClose(isWord, lines, at) == None
  {}
}
