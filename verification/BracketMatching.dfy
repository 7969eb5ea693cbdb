/** Plain bracket matching on one text, forwards and backwards: the yardstick for the line scanners. */
module BracketMatching {

  predicate IsOpener(c: char) {
    c == '(' || c == '[' || c == '{'
  }

  predicate IsCloser(c: char) {
    c == ')' || c == ']' || c == '}'
  }

  function OpenerOf(c: char): (o: char)
    requires IsCloser(c)
    ensures IsOpener(o)
  {
    if c == ')' then '(' else if c == ']' then '[' else '{'
  }

  function Top(s: seq<char>): char
    requires s != []
  {
    s[|s| - 1]
  }

  function Pop(s: seq<char>): seq<char>
    requires s != []
  {
    s[..|s| - 1]
  }

  /** How a scan ends: at a match, at a mismatch, or at the end of the text with this stack. */
  datatype Scan = Found(pos: nat) | Broken | Open(stack: seq<char>)

  /** Match forwards from `i`; `stack` holds the openers still to be closed. */
  function ScanForward(t: string, i: nat, stack: seq<char>): Scan
    requires i <= |t|
    decreases |t| - i
  {
    if i == |t| then Open(stack)
    else if IsOpener(t[i]) then ScanForward(t, i + 1, stack + [t[i]])
    else if IsCloser(t[i]) then
      if stack == [] || Top(stack) != OpenerOf(t[i]) then Broken
      else if |stack| == 1 then Found(i + 1)
      else ScanForward(t, i + 1, Pop(stack))
    else ScanForward(t, i + 1, stack)
  }

  /** Match backwards from just before `j`; `stack` holds the openers still to be met. */
  function ScanBackward(t: string, j: nat, stack: seq<char>): Scan
    requires j <= |t|
  {
    if j == 0 then Open(stack)
    else if IsCloser(t[j - 1]) then ScanBackward(t, j - 1, stack + [OpenerOf(t[j - 1])])
    else if IsOpener(t[j - 1]) then
      if stack == [] || Top(stack) != t[j - 1] then Broken
      else if |stack| == 1 then Found(j - 1)
      else ScanBackward(t, j - 1, Pop(stack))
    else ScanBackward(t, j - 1, stack)
  }

  // ---- Both scans as runs of one reversible step ----------------------------------------------

  datatype Run = Stuck | At(stack: seq<char>)

  ghost function StepForward(c: char, s: seq<char>): Run {
    if IsOpener(c) then At(s + [c])
    else if !IsCloser(c) then At(s)
    else if s != [] && Top(s) == OpenerOf(c) then At(Pop(s))
    else Stuck
  }

  ghost function StepBackward(c: char, s: seq<char>): Run {
    if IsCloser(c) then At(s + [OpenerOf(c)])
    else if !IsOpener(c) then At(s)
    else if s != [] && Top(s) == c then At(Pop(s))
    else Stuck
  }

  lemma StepsAreInverse(c: char, s: seq<char>, s': seq<char>)
    ensures StepForward(c, s) == At(s') <==> StepBackward(c, s') == At(s)
  {}

  ghost function RunForward(t: string, i: nat, j: nat, s: seq<char>): Run
    requires i <= j <= |t|
    decreases j - i
  {
    if i == j then At(s)
    else
      match StepForward(t[i], s)
      case Stuck => Stuck
      case At(s1) => RunForward(t, i + 1, j, s1)
  }

  ghost function RunBackward(t: string, i: nat, j: nat, s: seq<char>): Run
    requires i <= j <= |t|
    decreases j - i
  {
    if i == j then At(s)
    else
      match StepBackward(t[j - 1], s)
      case Stuck => Stuck
      case At(s1) => RunBackward(t, i, j - 1, s1)
  }

  lemma {:induction false} RunForwardSplits(t: string, i: nat, k: nat, j: nat, s: seq<char>)
    requires i <= k <= j <= |t|
    ensures RunForward(t, i, j, s) ==
            var r := RunForward(t, i, k, s);
            if r.Stuck? then Stuck else RunForward(t, k, j, r.stack)
    decreases k - i
  {
    if i < k && StepForward(t[i], s).At? {
      RunForwardSplits(t, i + 1, k, j, StepForward(t[i], s).stack);
    }
  }

  lemma {:induction false} RunsAreInverse(t: string, i: nat, j: nat, s: seq<char>, s': seq<char>)
    requires i <= j <= |t|
    ensures RunForward(t, i, j, s) == At(s') <==> RunBackward(t, i, j, s') == At(s)
    decreases j - i
  {
    if i < j {
      RunForwardSplits(t, i, j - 1, j, s);
      if RunForward(t, i, j, s) == At(s') {
        var s1 := RunForward(t, i, j - 1, s).stack;
        assert RunForward(t, j - 1, j, s1) == StepForward(t[j - 1], s1);
        StepsAreInverse(t[j - 1], s1, s');
        RunsAreInverse(t, i, j - 1, s, s1);
      }
      if RunBackward(t, i, j, s') == At(s) {
        var s1 := StepBackward(t[j - 1], s').stack;
        assert RunForward(t, j - 1, j, s1) == StepForward(t[j - 1], s1);
        StepsAreInverse(t[j - 1], s1, s');
        RunsAreInverse(t, i, j - 1, s, s1);
      }
    }
  }

  /** The run from `i` first empties its stack at `k`. */
  ghost predicate FirstEmptyForward(t: string, i: nat, k: nat, s: seq<char>)
    requires i <= k <= |t|
  {
    && RunForward(t, i, k, s) == At([])
    && forall m :: i < m < k ==> RunForward(t, i, m, s) != At([])
  }

  ghost predicate FirstEmptyBackward(t: string, k: nat, j: nat, s: seq<char>)
    requires k <= j <= |t|
  {
    && RunBackward(t, k, j, s) == At([])
    && forall m :: k < m < j ==> RunBackward(t, m, j, s) != At([])
  }

  lemma {:induction false} ScanForwardFinds(t: string, i: nat, s: seq<char>, k: nat)
    requires i < k <= |t| && (s != [] || IsOpener(t[i]))
    ensures ScanForward(t, i, s) == Found(k) <==> FirstEmptyForward(t, i, k, s)
    decreases |t| - i
  {
    var step := StepForward(t[i], s);
    if step.At? {
      var s1 := step.stack;
      assert forall m :: i < m <= k ==> RunForward(t, i, m, s) == RunForward(t, i + 1, m, s1);
      if s1 == [] {
        assert RunForward(t, i, i + 1, s) == At([]);
      } else if i + 1 < k {
        ScanForwardFinds(t, i + 1, s1, k);
        assert RunForward(t, i, i + 1, s) == At(s1);
        assert FirstEmptyForward(t, i, k, s) <==> FirstEmptyForward(t, i + 1, k, s1) by {
          if FirstEmptyForward(t, i, k, s) {
            var i1 := i + 1;
            forall m | i1 < m < k ensures RunForward(t, i1, m, s1) != At([]) {
              assert RunForward(t, i, m, s) != At([]);
            }
          }
        }
      } else {
        ScanForwardProgress(t, i + 1, s1);
      }
    }
  }

  lemma {:induction false} ScanForwardProgress(t: string, i: nat, s: seq<char>)
    requires i <= |t|
    ensures ScanForward(t, i, s).Found? ==> i < ScanForward(t, i, s).pos <= |t|
    decreases |t| - i
  {
    if i < |t| {
      var step := StepForward(t[i], s);
      if step.At? {
        ScanForwardProgress(t, i + 1, step.stack);
      }
    }
  }

  lemma {:induction false} ScanBackwardFinds(t: string, j: nat, s: seq<char>, k: nat)
    requires k < j <= |t| && (s != [] || IsCloser(t[j - 1]))
    ensures ScanBackward(t, j, s) == Found(k) <==> FirstEmptyBackward(t, k, j, s)
  {
    var step := StepBackward(t[j - 1], s);
    if step.At? {
      var s1 := step.stack;
      assert forall m :: k <= m < j ==> RunBackward(t, m, j, s) == RunBackward(t, m, j - 1, s1);
      if s1 == [] {
        assert RunBackward(t, j - 1, j, s) == At([]);
      } else if k < j - 1 {
        ScanBackwardFinds(t, j - 1, s1, k);
        assert RunBackward(t, j - 1, j, s) == At(s1);
        assert FirstEmptyBackward(t, k, j, s) <==> FirstEmptyBackward(t, k, j - 1, s1) by {
          if FirstEmptyBackward(t, k, j, s) {
            var j1 := j - 1;
            forall m | k < m < j1 ensures RunBackward(t, m, j1, s1) != At([]) {
              assert RunBackward(t, m, j, s) != At([]);
            }
          }
        }
      } else {
        ScanBackwardProgress(t, j - 1, s1);
      }
    }
  }

  lemma {:induction false} ScanBackwardProgress(t: string, j: nat, s: seq<char>)
    requires j <= |t|
    ensures ScanBackward(t, j, s).Found? ==> ScanBackward(t, j, s).pos < j
  {
    if 0 < j {
      var step := StepBackward(t[j - 1], s);
      if step.At? {
        ScanBackwardProgress(t, j - 1, step.stack);
      }
    }
  }

  /** Forward from an opener ends past `q` exactly when backward from `q` ends on that opener. */
  lemma ScansAreInverse(t: string, p: nat, q: nat)
    requires p < |t| && q < |t| && IsOpener(t[p]) && IsCloser(t[q])
    ensures ScanForward(t, p, []) == Found(q + 1) <==> ScanBackward(t, q + 1, []) == Found(p)
  {
    var e := q + 1;
    ScanForwardProgress(t, p, []);
    ScanBackwardProgress(t, e, []);
    if p < e {
      ScanForwardFinds(t, p, [], e);
      ScanBackwardFinds(t, e, [], p);
      RunsAreInverse(t, p, e, [], []);
      if RunForward(t, p, e, []) == At([]) {
        forall m | p < m < e ensures RunForward(t, p, m, []) == RunBackward(t, m, e, []) {
          RunForwardSplits(t, p, m, e, []);
          RunsAreInverse(t, m, e, RunForward(t, p, m, []).stack, []);
        }
        assert FirstEmptyForward(t, p, e, []) <==> FirstEmptyBackward(t, p, e, []) by {
          if FirstEmptyForward(t, p, e, []) {
            forall m | p < m < e ensures RunBackward(t, m, e, []) != At([]) {
              assert RunForward(t, p, m, []) != At([]);
            }
          }
        }
      }
    }
  }

  // ---- Texts made of pieces ---------------------------------------------------------------------

  lemma {:induction false} ScanForwardPiece(pre: string, a: string, post: string, i: nat, s: seq<char>)
    requires i <= |a|
    ensures ScanForward(pre + a + post, |pre| + i, s) ==
            match ScanForward(a, i, s)
            case Found(k) => Found(|pre| + k)
            case Broken => Broken
            case Open(s') => ScanForward(pre + a + post, |pre| + |a|, s')
    decreases |a| - i
  {
    if i < |a| {
      assert (pre + a + post)[|pre| + i] == a[i];
      var step := StepForward(a[i], s);
      if step.At? {
        ScanForwardPiece(pre, a, post, i + 1, step.stack);
      }
    }
  }

  lemma {:induction false} ScanBackwardPiece(pre: string, a: string, post: string, j: nat, s: seq<char>)
    requires j <= |a|
    ensures ScanBackward(pre + a + post, |pre| + j, s) ==
            match ScanBackward(a, j, s)
            case Found(k) => Found(|pre| + k)
            case Broken => Broken
            case Open(s') => ScanBackward(pre + a + post, |pre|, s')
  {
    if 0 < j {
      assert (pre + a + post)[|pre| + j - 1] == a[j - 1];
      var step := StepBackward(a[j - 1], s);
      if step.At? {
        ScanBackwardPiece(pre, a, post, j - 1, step.stack);
      }
    }
  }
}
