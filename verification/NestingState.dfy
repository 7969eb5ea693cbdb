/** cpplint's `NestingState` with blocks that are mutated in place: snapshots must not share them. */
module NestingState {
  import opened Basics
  import opened Preprocessor
  import P = Preprocessor

  /** A block on the nesting stack; later lines change its fields in place. */
  class Block<T> {
    var info: T

    constructor (info: T)
      ensures this.info == info
    {
      this.info := info;
    }
  }

  /** `_PreprocessorInfo`, holding stacks of block objects. */
  datatype Snapshot<!T> = Snapshot(beforeIf: seq<Block<T>>, beforeElse: seq<Block<T>>, seenElse: bool)

  ghost function Infos<T>(blocks: seq<Block<T>>): seq<T>
    reads blocks
  {
    seq(|blocks|, i requires 0 <= i < |blocks| reads blocks => blocks[i].info)
  }

  ghost predicate Saves<T>(s: Snapshot<T>, b: Block<T>) {
    b in s.beforeIf || b in s.beforeElse
  }

  /** All blocks that snapshots hold. */
  ghost function Saved<T>(pp: seq<Snapshot<T>>): set<Block<T>> {
    (set f, b | 0 <= f < |pp| && b in pp[f].beforeIf :: b) + (set f, b | 0 <= f < |pp| && b in pp[f].beforeElse :: b)
  }

  ghost function FrameAt<T>(pp: seq<Snapshot<T>>, f: nat): Frame<T>
    requires f < |pp|
    reads Saved(pp)
  {
    assert forall b | b in pp[f].beforeIf :: b in Saved(pp);
    assert forall b | b in pp[f].beforeElse :: b in Saved(pp);
    Frame(Infos(pp[f].beforeIf), Infos(pp[f].beforeElse), pp[f].seenElse)
  }

  ghost function Frames<T>(pp: seq<Snapshot<T>>): seq<Frame<T>>
    reads Saved(pp)
  {
    seq(|pp|, f requires 0 <= f < |pp| reads Saved(pp) => FrameAt(pp, f))
  }

  /** No block of the stack is in a snapshot. */
  ghost predicate StackApart<T>(stack: seq<Block<T>>, pp: seq<Snapshot<T>>) {
    && Distinct(stack)
    && forall b, f :: b in stack && 0 <= f < |pp| ==> !Saves(pp[f], b)
  }

  /** The stack a frame will restore shares no block with the frames below it. */
  ghost predicate FramesApart<T>(pp: seq<Snapshot<T>>) {
    && (forall f :: 0 <= f < |pp| ==> Distinct(pp[f].beforeElse))
    && (forall f, g, b :: 0 <= g < f < |pp| && b in pp[f].beforeElse ==> !Saves(pp[g], b))
  }

  /** Deep copy. */
  method Copy<T>(blocks: seq<Block<T>>) returns (copies: seq<Block<T>>)
    ensures fresh(copies) && Distinct(copies)
    ensures Infos(copies) == Infos(blocks)
  {
    copies := [];
    for i := 0 to |blocks|
      invariant fresh(copies) && Distinct(copies) && |copies| == i
      invariant forall j :: 0 <= j < i ==> copies[j].info == blocks[j].info
    {
      var b := new Block(blocks[i].info);
      copies := copies + [b];
    }
  }

  class State<T> {
    var stack: seq<Block<T>>
    var ppStack: seq<Snapshot<T>>
    var previousTop: Block?<T>

    ghost predicate Valid()
      reads this
    {
      StackApart(stack, ppStack) && FramesApart(ppStack)
    }

    /** The state as a value. */
    ghost function Value(): Nesting<T>
      reads this, stack, Saved(ppStack)
    {
      Nesting(Infos(stack), Frames(ppStack))
    }

    constructor ()
      ensures Valid() && Value() == Nesting([], [])
    {
      stack, ppStack, previousTop := [], [], null;
    }

    method EnterIf()
      requires Valid()
      modifies this`ppStack
      ensures Valid() && Value() == P.UpdatePreprocessor(old(Value()), If)
    {
      var copy := Copy(stack);
      ppStack := ppStack + [Snapshot(copy, [], false)];
      assert Infos<T>([]) == [];
    }

    /** The first `#else` of the innermost `#if`: remember the stack that `#endif` will bring back. */
    method SaveBeforeElse()
      requires Valid() && ppStack != []
      modifies this`ppStack
      ensures Valid() && ppStack != [] && |ppStack| == |old(ppStack)|
      ensures var before := old(Value());
              Value() == before.(pp := Front(before.pp) + [Frame(Last(before.pp).beforeIf, before.stack, true)])
    {
      var top := Last(ppStack);
      var copy := Copy(stack);
      ppStack := Front(ppStack) + [Snapshot(top.beforeIf, copy, true)];
    }

    method RestoreBeforeIf()
      requires Valid() && ppStack != []
      modifies this`stack
      ensures Valid() && fresh(stack)
      ensures Value() == old(Value()).(stack := Last(old(Value()).pp).beforeIf)
    {
      stack := Copy(Last(ppStack).beforeIf);
    }

    method EnterElse()
      requires Valid()
      modifies this`stack, this`ppStack
      ensures forall b :: b in stack ==> b in old(stack) || b in old(Saved(ppStack)) || fresh(b)
      ensures Valid() && Value() == P.UpdatePreprocessor(old(Value()), Else)
      ensures old(ppStack) != [] ==> Value().stack == Last(old(Value()).pp).beforeIf
    {
      if ppStack != [] {
        if !Last(ppStack).seenElse {
          SaveBeforeElse();
        }
        RestoreBeforeIf();
      }
    }

    method EnterEndif()
      requires Valid()
      modifies this`stack, this`ppStack
      ensures forall b :: b in stack ==> b in old(stack) || b in old(Saved(ppStack)) || fresh(b)
      ensures Valid() && Value() == P.UpdatePreprocessor(old(Value()), Endif)
      ensures old(ppStack) != [] ==>
                var top := Last(old(Value()).pp);
                Value().stack == if top.seenElse then top.beforeElse else old(Value()).stack
    {
      if ppStack != [] {
        if Last(ppStack).seenElse {
          stack := Last(ppStack).beforeElse;
        }
        ppStack := Front(ppStack);
      }
    }

    method UpdatePreprocessor(d: Directive)
      requires Valid()
      modifies this`stack, this`ppStack
      ensures forall b :: b in stack ==> b in old(stack) || b in old(Saved(ppStack)) || fresh(b)
      ensures Valid() && Value() == P.UpdatePreprocessor(old(Value()), d)
    {
      match d
      case If => EnterIf();
      case Else => EnterElse();
      case Endif => EnterEndif();
      case Other =>
    }

    method PushBlock(info: T)
      requires Valid()
      modifies this`stack
      ensures Valid() && Infos(stack) == old(Infos(stack)) + [info]
      ensures Frames(ppStack) == old(Frames(ppStack))
      ensures forall k :: 0 <= k < |stack| ==> stack[k] in old(stack) || fresh(stack[k])
    {
      var b := new Block(info);
      stack := stack + [b];
    }

    method PopBlock()
      requires Valid() && stack != []
      modifies this`stack
      ensures Valid() && stack == Front(old(stack))
    {
      assert forall b :: b in Front(stack) ==> b in stack;
      stack := Front(stack);
    }

    /** Changing the top block in place reaches no other block and no snapshot. */
    method MutateTop(f: T -> T)
      requires Valid() && stack != []
      modifies stack
      ensures Valid() && Infos(stack) == Front(old(Infos(stack))) + [f(Last(old(Infos(stack))))]
      ensures Frames(ppStack) == old(Frames(ppStack))
    {
      var top := Last(stack);
      assert top in stack && forall g :: 0 <= g < |ppStack| ==> !Saves(ppStack[g], top);
      top.info := f(top.info);
    }

    method ApplyEffect(e: Effect<T>)
      requires Valid()
      modifies this`stack, stack
      ensures Valid() && Infos(stack) == P.ApplyEffect(old(Infos(stack)), e)
      ensures Frames(ppStack) == old(Frames(ppStack))
      ensures forall k :: 0 <= k < |stack| ==> stack[k] in old(stack) || fresh(stack[k])
    {
      match e
      case Push(info) => PushBlock(info);
      case PopTop =>
        if stack != [] {
          PopBlock();
        }
      case Mutate(f) =>
        if stack != [] {
          MutateTop(f);
        }
    }

    method ReadInfos() returns (infos: seq<T>)
      ensures infos == Infos(stack)
    {
      infos := [];
      for i := 0 to |stack|
        invariant infos == Infos(stack)[..i]
      {
        infos := infos + [stack[i].info];
      }
    }

    /** The part of `Update` after the directive: whatever the line decides, given the stack. */
    method ApplyLine(line: Line<T>)
      requires Valid()
      modifies this`stack, stack
      ensures Valid() && ppStack == old(ppStack)
      ensures Value() == old(Value()).(stack := ApplyEffects(old(Value()).stack, line.effects(old(Value()).stack)))
    {
      var infos := ReadInfos();
      var es := line.effects(infos);
      ghost var want := ApplyEffects(infos, es);
      for i := 0 to |es|
        invariant Valid()
        invariant forall k :: 0 <= k < |stack| ==> stack[k] in old(stack) || fresh(stack[k])
        invariant Frames(ppStack) == old(Frames(ppStack))
        invariant want == ApplyEffects(Infos(stack), es[i..])
      {
        ApplyEffect(es[i]);
        assert es[i..][1..] == es[i + 1..];
      }
    }

    /** One line: the directive first, then the line's own effect on the stack it finds. */
    method Update(line: Line<T>)
      requires Valid()
      modifies this, stack, Saved(ppStack)
      ensures Valid() && Value() == P.Update(old(Value()), line)
      ensures previousTop == if old(stack) == [] then null else Last(old(stack))
    {
      previousTop := if stack != [] then Last(stack) else null;
      UpdatePreprocessor(line.directive);
      ApplyLine(line);
    }
  }
}
