/** The nesting stack across `#if` / `#else` / `#endif`, as values. */
module Preprocessor {

  datatype Directive = Other | If | Else | Endif

  /** What a line does to the nesting stack after its directive has been handled. */
  datatype Effect<!T> = Mutate(f: T -> T) | Push(info: T) | PopTop

  /** A line of code: its directive, and an arbitrary decision made from the stack it meets. */
  datatype Line<!T> = Line(directive: Directive, effects: seq<T> -> seq<Effect<T>>)

  /** `_PreprocessorInfo`: what is remembered for one open `#if`. */
  datatype Frame<T> = Frame(beforeIf: seq<T>, beforeElse: seq<T>, seenElse: bool)

  datatype Nesting<T> = Nesting(stack: seq<T>, pp: seq<Frame<T>>)

  function Last<T>(s: seq<T>): T
    requires s != []
  {
    s[|s| - 1]
  }

  function Front<T>(s: seq<T>): seq<T>
    requires s != []
  {
    s[..|s| - 1]
  }

  function UpdatePreprocessor<T>(n: Nesting<T>, d: Directive): Nesting<T> {
    match d
    case Other => n
    case If => n.(pp := n.pp + [Frame(n.stack, [], false)])
    case Else =>
      if n.pp == [] then n
      else
        var top := Last(n.pp);
        var top' := if top.seenElse then top else Frame(top.beforeIf, n.stack, true);
        Nesting(top.beforeIf, Front(n.pp) + [top'])
    case Endif =>
      if n.pp == [] then n
      else Nesting(if Last(n.pp).seenElse then Last(n.pp).beforeElse else n.stack, Front(n.pp))
  }

  function ApplyEffect<T>(stack: seq<T>, e: Effect<T>): seq<T> {
    match e
    case Push(info) => stack + [info]
    case PopTop => if stack == [] then stack else Front(stack)
    case Mutate(f) => if stack == [] then stack else Front(stack) + [f(Last(stack))]
  }

  function ApplyEffects<T>(stack: seq<T>, es: seq<Effect<T>>): seq<T>
    decreases |es|
  {
    if es == [] then stack else ApplyEffects(ApplyEffect(stack, es[0]), es[1..])
  }

  function Update<T>(n: Nesting<T>, line: Line<T>): Nesting<T> {
    var m := UpdatePreprocessor(n, line.directive);
    m.(stack := ApplyEffects(m.stack, line.effects(m.stack)))
  }

  function Run<T>(n: Nesting<T>, lines: seq<Line<T>>): Nesting<T>
    decreases |lines|
  {
    if lines == [] then n else Run(Update(n, lines[0]), lines[1..])
  }

  // ---- Deleting the branches that count as false -----------------------------------------------------

  /** For each open `#if`, outermost first, whether its `#else` part has begun. */
  type Flags = seq<bool>

  function NextFlags(flags: Flags, d: Directive): Flags {
    match d
    case Other => flags
    case If => flags + [false]
    case Else => if flags == [] then flags else Front(flags) + [true]
    case Endif => if flags == [] then flags else Front(flags)
  }

  predicate InElse(flags: Flags) {
    true in flags
  }

  /** A line goes when it lies between an `#else` or `#elif` and the matching `#endif`. */
  predicate IsDeleted(flags: Flags, d: Directive) {
    if d == Endif && flags != [] then InElse(Front(flags)) else InElse(NextFlags(flags, d))
  }

  function WithoutElse<T>(flags: Flags, lines: seq<Line<T>>): seq<Line<T>>
    decreases |lines|
  {
    if lines == [] then []
    else (if IsDeleted(flags, lines[0].directive) then [] else [lines[0]])
         + WithoutElse(NextFlags(flags, lines[0].directive), lines[1..])
  }

  function FlagsAfter<T>(flags: Flags, lines: seq<Line<T>>): Flags
    decreases |lines|
  {
    if lines == [] then flags else FlagsAfter(NextFlags(flags, lines[0].directive), lines[1..])
  }

  // ---- Both runs in step -------------------------------------------------------------------------------

  /** The frames of a run match the flags, and nothing is remembered before an `#else`. */
  ghost predicate FramesMatch<T>(flags: Flags, pp: seq<Frame<T>>) {
    && |pp| == |flags|
    && forall i :: 0 <= i < |pp| ==> pp[i].seenElse == flags[i] && (!flags[i] ==> pp[i].beforeElse == [])
  }

  /** The outermost `#else` part in which the full run currently is. */
  ghost predicate IsOutermost(flags: Flags, j: nat) {
    j < |flags| && flags[j] && !InElse(flags[..j])
  }

  /** The shortened run stands where the full run stood when it entered that part. */
  ghost predicate Paused<T>(full: Nesting<T>, short: Nesting<T>, j: nat) {
    && j < |full.pp|
    && short.stack == full.pp[j].beforeElse
    && short.pp == full.pp[..j] + [Frame(full.pp[j].beforeIf, [], false)]
  }

  ghost predicate InStep<T>(flags: Flags, full: Nesting<T>, short: Nesting<T>) {
    && FramesMatch(flags, full.pp)
    && (if InElse(flags) then exists j :: IsOutermost(flags, j) && Paused(full, short, j) else full == short)
  }

  lemma FramesKeepMatching<T>(flags: Flags, n: Nesting<T>, line: Line<T>)
    requires FramesMatch(flags, n.pp)
    ensures FramesMatch(NextFlags(flags, line.directive), Update(n, line).pp)
  {}

  /** A frame below the innermost one is out of reach, and the innermost keeps what it saved. */
  lemma PausedStaysPaused<T>(flags: Flags, full: Nesting<T>, short: Nesting<T>, line: Line<T>, j: nat)
    requires FramesMatch(flags, full.pp) && IsOutermost(flags, j) && Paused(full, short, j)
    requires line.directive == Endif ==> j < |flags| - 1
    ensures IsOutermost(NextFlags(flags, line.directive), j) && Paused(Update(full, line), short, j)
  {
    var flags', pp' := NextFlags(flags, line.directive), Update(full, line).pp;
    assert flags'[..j] == flags[..j];
    assert pp'[..j] == full.pp[..j];
  }

  /** The first `#else` of a conditional pauses the shortened run where both runs stand. */
  lemma FirstElsePauses<T>(flags: Flags, n: Nesting<T>, line: Line<T>)
    requires FramesMatch(flags, n.pp) && !InElse(flags) && flags != [] && line.directive == Else
    ensures var j := |flags| - 1; IsOutermost(NextFlags(flags, Else), j) && Paused(Update(n, line), n, j)
  {
    var j := |flags| - 1;
    var pp' := Update(n, line).pp;
    assert NextFlags(flags, Else)[..j] == flags[..j];
    assert !flags[j] by { assert flags[j] in flags; }
    assert pp'[..j] == n.pp[..j];
    assert n.pp == n.pp[..j] + [n.pp[j]];
  }

  /** Deleted lines leave the shortened run paused. */
  lemma DeletedLineKeepsStep<T>(flags: Flags, full: Nesting<T>, short: Nesting<T>, line: Line<T>)
    requires InStep(flags, full, short) && IsDeleted(flags, line.directive)
    ensures InStep(NextFlags(flags, line.directive), Update(full, line), short)
  {
    FramesKeepMatching(flags, full, line);
    if InElse(flags) {
      var j: nat :| IsOutermost(flags, j) && Paused(full, short, j);
      assert flags[..|flags| - 1] == Front(flags);
      PausedStaysPaused(flags, full, short, line, j);
      assert NextFlags(flags, line.directive)[j] in NextFlags(flags, line.directive);
    } else {
      FirstElsePauses(flags, full, line);
    }
  }

  /** Kept lines do the same to both runs; a kept `#endif` brings a paused run back into step. */
  lemma KeptLineKeepsStep<T>(flags: Flags, full: Nesting<T>, short: Nesting<T>, line: Line<T>)
    requires InStep(flags, full, short) && !IsDeleted(flags, line.directive)
    ensures InStep(NextFlags(flags, line.directive), Update(full, line), Update(short, line))
  {
    FramesKeepMatching(flags, full, line);
    if InElse(flags) {
      var j: nat :| IsOutermost(flags, j) && Paused(full, short, j);
      assert line.directive == Endif;
      assert forall i :: 0 <= i < |flags| - 1 ==> Front(flags)[i] == flags[i];
      assert Front(short.pp) == Front(full.pp);
    }
  }

  lemma {:induction false} RunsInStep<T>(flags: Flags, full: Nesting<T>, short: Nesting<T>, lines: seq<Line<T>>)
    requires InStep(flags, full, short)
    ensures InStep(FlagsAfter(flags, lines), Run(full, lines), Run(short, WithoutElse(flags, lines)))
    decreases |lines|
  {
    if lines != [] {
      var line, flags' := lines[0], NextFlags(flags, lines[0].directive);
      var rest := WithoutElse(flags', lines[1..]);
      if IsDeleted(flags, line.directive) {
        DeletedLineKeepsStep(flags, full, short, line);
        assert [] + rest == rest;
        RunsInStep(flags', Update(full, line), short, lines[1..]);
      } else {
        KeptLineKeepsStep(flags, full, short, line);
        assert ([line] + rest)[0] == line && ([line] + rest)[1..] == rest;
        RunsInStep(flags', Update(full, line), Update(short, line), lines[1..]);
      }
    }
  }

  /** Unless a file ends inside an `#else` part, its `#else` parts leave no trace on the nesting stack. */
  lemma ElsePartsLeaveNoTrace<T>(lines: seq<Line<T>>)
    requires !InElse(FlagsAfter([], lines))
    ensures Run(Nesting([], []), lines) == Run(Nesting([], []), WithoutElse([], lines))
  {
    RunsInStep([], Nesting([], []), Nesting([], []), lines);
  }

  // ---- Directives themselves do nothing ----------------------------------------------------------------

  /** The lines as if none of them were a directive. */
  function PlainRun<T>(stack: seq<T>, lines: seq<Line<T>>): seq<T>
    decreases |lines|
  {
    if lines == [] then stack else PlainRun(ApplyEffects(stack, lines[0].effects(stack)), lines[1..])
  }

  lemma ShortRunSeesNoElse<T>(flags: Flags, full: Nesting<T>, short: Nesting<T>)
    requires InStep(flags, full, short)
    ensures forall i :: 0 <= i < |short.pp| ==> !short.pp[i].seenElse
  {
    if InElse(flags) {
      var j: nat :| IsOutermost(flags, j) && Paused(full, short, j);
      forall i | 0 <= i < j ensures !full.pp[i].seenElse {
        assert flags[..j][i] in flags[..j];
      }
    } else {
      assert forall i :: 0 <= i < |flags| ==> flags[i] in flags;
    }
  }

  lemma KeptLineIsPlain<T>(flags: Flags, full: Nesting<T>, short: Nesting<T>, line: Line<T>)
    requires InStep(flags, full, short) && !IsDeleted(flags, line.directive)
    ensures Update(short, line).stack == ApplyEffects(short.stack, line.effects(short.stack))
  {
    ShortRunSeesNoElse(flags, full, short);
    if line.directive == Else && flags != [] {
      ElseIsDeleted(flags);
    }
  }

  lemma ElseIsDeleted(flags: Flags)
    requires flags != []
    ensures IsDeleted(flags, Else)
  {
    assert NextFlags(flags, Else)[|flags| - 1];
  }

  lemma {:induction false} KeptRunIsPlain<T>(flags: Flags, full: Nesting<T>, short: Nesting<T>, lines: seq<Line<T>>)
    requires InStep(flags, full, short)
    ensures Run(short, WithoutElse(flags, lines)).stack == PlainRun(short.stack, WithoutElse(flags, lines))
    decreases |lines|
  {
    if lines != [] {
      var line, flags' := lines[0], NextFlags(flags, lines[0].directive);
      var rest := WithoutElse(flags', lines[1..]);
      if IsDeleted(flags, line.directive) {
        DeletedLineKeepsStep(flags, full, short, line);
        assert [] + rest == rest;
        KeptRunIsPlain(flags', Update(full, line), short, lines[1..]);
      } else {
        KeptLineKeepsStep(flags, full, short, line);
        KeptLineIsPlain(flags, full, short, line);
        assert ([line] + rest)[0] == line && ([line] + rest)[1..] == rest;
        KeptRunIsPlain(flags', Update(full, line), Update(short, line), lines[1..]);
      }
    }
  }

  /** The final stack is what the lines outside `#else` parts make of the empty stack, directives aside. */
  lemma OnlyFirstBranchesCount<T>(lines: seq<Line<T>>)
    requires !InElse(FlagsAfter([], lines))
    ensures Run(Nesting([], []), lines).stack == PlainRun([], WithoutElse([], lines))
  {
    ElsePartsLeaveNoTrace(lines);
    KeptRunIsPlain([], Nesting([], []), Nesting([], []), lines);
  }

  // ---- What an `#else` part starts from -------------------------------------------------------------------

  /** How many conditionals are open after a directive. */
  function OpenAfter(open: int, d: Directive): int {
    if d == If then open + 1 else if d == Endif then open - 1 else open
  }

  /** The lines never close the outermost of `open` conditionals, and leave just that one open. */
  ghost predicate StaysInside<T>(open: int, lines: seq<Line<T>>)
    decreases |lines|
  {
    open >= 1 && if lines == [] then open == 1 else StaysInside(OpenAfter(open, lines[0].directive), lines[1..])
  }

  lemma {:induction false} FrameStays<T>(n: Nesting<T>, base: nat, before: seq<T>, lines: seq<Line<T>>)
    requires base < |n.pp| && n.pp[base].beforeIf == before && StaysInside(|n.pp| - base, lines)
    ensures var r := Run(n, lines); |r.pp| == base + 1 && r.pp[base].beforeIf == before
    decreases |lines|
  {
    if lines != [] {
      var n' := Update(n, lines[0]);
      assert |n'.pp| - base == OpenAfter(|n.pp| - base, lines[0].directive);
      assert base < |n'.pp| && n'.pp[base].beforeIf == before;
      FrameStays(n', base, before, lines[1..]);
    }
  }

  lemma {:induction false} RunAppends<T>(n: Nesting<T>, a: seq<Line<T>>, b: seq<Line<T>>)
    ensures Run(n, a + b) == Run(Run(n, a), b)
    decreases |a|
  {
    if a == [] {
      assert a + b == b;
    } else {
      assert (a + b)[0] == a[0] && (a + b)[1..] == a[1..] + b;
      RunAppends(Update(n, a[0]), a[1..], b);
    }
  }

  /** Every `#else` or `#elif` of a conditional, not only the first, meets the stack from before its `#if`. */
  lemma ElseStartsFromBeforeIf<T>(n: Nesting<T>, open: Line<T>, body: seq<Line<T>>, line: Line<T>)
    requires open.directive == If && line.directive == Else && StaysInside(1, body)
    ensures Run(n, [open] + body + [line]).stack == ApplyEffects(n.stack, line.effects(n.stack))
  {
    var n1 := Update(n, open);
    var n2 := Run(n1, body);
    FrameStays(n1, |n.pp|, n.stack, body);
    RunAppends(n, [open] + body, [line]);
    RunAppends(n, [open], body);
    RunOne(n, open);
    RunOne(n2, line);
    assert Last(n2.pp).beforeIf == n.stack;
  }

  lemma RunOne<T>(n: Nesting<T>, line: Line<T>)
    ensures Run(n, [line]) == Update(n, line)
  {
    assert [line][1..] == [];
  }
}
