/** cpplint's include-order automaton and the language it accepts. */
module IncludeOrder {
  import opened Basics

  datatype Header = CSystem | CppSystem | LikelyMy | PossibleMy | OtherHeader

  const INITIAL_SECTION: nat := 0
  const MY_H_SECTION: nat := 1
  const C_SECTION: nat := 2
  const CPP_SECTION: nat := 3
  const OTHER_H_SECTION: nat := 4

  /** "Found this kind of header after that section." */
  datatype OrderError = OrderError(found: Header, after: nat)

  predicate IsMy(h: Header) {
    h == LikelyMy || h == PossibleMy
  }

  predicate InOrder(section: nat, h: Header) {
    match h
    case CSystem => section <= C_SECTION
    case CppSystem => section <= CPP_SECTION
    case _ => true
  }

  function NextSection(section: nat, h: Header): nat {
    if !InOrder(section, h) then section
    else match h
      case CSystem => C_SECTION
      case CppSystem => CPP_SECTION
      case OtherHeader => OTHER_H_SECTION
      case _ => if section <= MY_H_SECTION then MY_H_SECTION else OTHER_H_SECTION
  }

  datatype Directive = If | Else | AnyOther

  class IncludeState {
    var includeList: seq<seq<(string, int)>>
    var section: nat
    var lastHeader: string

    ghost predicate Valid()
      reads this
    {
      includeList != [] && section <= OTHER_H_SECTION
    }

    constructor ()
      ensures Valid() && includeList == [[]] && section == INITIAL_SECTION && lastHeader == ""
    {
      includeList, section, lastHeader := [[]], INITIAL_SECTION, "";
    }

    method ResetSection(d: Directive)
      requires Valid()
      modifies this
      ensures Valid() && section == INITIAL_SECTION && lastHeader == ""
      ensures includeList == match d
                             case If => old(includeList) + [[]]
                             case Else => old(includeList)[..|old(includeList)| - 1] + [[]]
                             case AnyOther => old(includeList)
    {
      section, lastHeader := INITIAL_SECTION, "";
      if d == If {
        includeList := includeList + [[]];
      } else if d == Else {
        includeList := includeList[|includeList| - 1 := []];
      }
    }

    /** An error leaves the section alone; a new section forgets the last header. */
    method CheckNextIncludeOrder(h: Header) returns (error: Option<OrderError>)
      requires Valid()
      modifies this`section, this`lastHeader
      ensures Valid() && section == NextSection(old(section), h)
      ensures error == if InOrder(old(section), h) then None else Some(OrderError(h, old(section)))
      ensures error.Some? <==>
                (h == CSystem && old(section) > C_SECTION) || (h == CppSystem && old(section) > CPP_SECTION)
      ensures error.Some? ==> section == old(section)
      ensures error.None? ==>
                match h
                case CSystem => section == C_SECTION
                case CppSystem => section == CPP_SECTION
                case OtherHeader => section == OTHER_H_SECTION
                case _ => section == if old(section) <= MY_H_SECTION then MY_H_SECTION else OTHER_H_SECTION
      ensures lastHeader == if error.Some? || section != old(section) then "" else old(lastHeader)
    {
      var message := OrderError(h, section);
      var lastSection := section;
      if h == CSystem {
        if section <= C_SECTION {
          section := C_SECTION;
        } else {
          lastHeader := "";
          return Some(message);
        }
      } else if h == CppSystem {
        if section <= CPP_SECTION {
          section := CPP_SECTION;
        } else {
          lastHeader := "";
          return Some(message);
        }
      } else if h == LikelyMy {
        section := if section <= MY_H_SECTION then MY_H_SECTION else OTHER_H_SECTION;
      } else if h == PossibleMy {
        section := if section <= MY_H_SECTION then MY_H_SECTION else OTHER_H_SECTION;
      } else {
        section := OTHER_H_SECTION;
      }
      if lastSection != section {
        lastHeader := "";
      }
      return None;
    }
  }

  // ---- Which include sequences pass -----------------------------------------------------------------------

  /** No error on any of `hs`, starting in `section`. */
  ghost predicate Passes(section: nat, hs: seq<Header>)
    decreases |hs|
  {
    hs == [] || (InOrder(section, hs[0]) && Passes(NextSection(section, hs[0]), hs[1..]))
  }

  /** own headers, then C headers, then C++ headers, then own or other headers, cut at i <= j <= k. */
  ghost predicate IsSectioned(hs: seq<Header>, i: nat, j: nat, k: nat) {
    && i <= j <= k <= |hs|
    && (forall n :: 0 <= n < i ==> IsMy(hs[n]))
    && (forall n :: i <= n < j ==> hs[n] == CSystem)
    && (forall n :: j <= n < k ==> hs[n] == CppSystem)
    && (forall n :: k <= n < |hs| ==> IsMy(hs[n]) || hs[n] == OtherHeader)
  }

  /** The parts that a start in `section` has already left behind are empty. */
  ghost predicate StartsIn(section: nat, i: nat, j: nat, k: nat) {
    && (section >= C_SECTION ==> i == 0)
    && (section >= CPP_SECTION ==> j == 0)
    && (section >= OTHER_H_SECTION ==> k == 0)
  }

  lemma {:induction false} SectionedPasses(section: nat, hs: seq<Header>, i: nat, j: nat, k: nat)
    requires section <= OTHER_H_SECTION && IsSectioned(hs, i, j, k) && StartsIn(section, i, j, k)
    ensures Passes(section, hs)
    decreases |hs|
  {
    if hs != [] {
      var h := hs[0];
      var i', j', k' := if i > 0 then i - 1 else 0, if j > 0 then j - 1 else 0, if k > 0 then k - 1 else 0;
      var section' := NextSection(section, h);
      if IsMy(h) && section' == OTHER_H_SECTION {
        SectionedPasses(section', hs[1..], 0, 0, 0);
      } else {
        SectionedPasses(section', hs[1..], i', j', k');
      }
    }
  }

  lemma {:induction false} PassingIsSectioned(section: nat, hs: seq<Header>) returns (i: nat, j: nat, k: nat)
    requires section <= OTHER_H_SECTION && Passes(section, hs)
    ensures IsSectioned(hs, i, j, k) && StartsIn(section, i, j, k)
    decreases |hs|
  {
    i, j, k := 0, 0, 0;
    if hs != [] {
      var section' := NextSection(section, hs[0]);
      var i', j', k' := PassingIsSectioned(section', hs[1..]);
      if section' < OTHER_H_SECTION {
        k := k' + 1;
        if section' < CPP_SECTION {
          j := j' + 1;
          if section' < C_SECTION {
            i := i' + 1;
          }
        }
      }
      assert forall n :: 0 < n < |hs| ==> hs[n] == hs[1..][n - 1];
    }
  }

  /** Since a reset, no error is reported exactly on my* c* cpp* (my | other)*. */
  lemma AcceptedIncludes(hs: seq<Header>)
    ensures Passes(INITIAL_SECTION, hs) <==> exists i, j, k :: IsSectioned(hs, i, j, k)
  {
    if Passes(INITIAL_SECTION, hs) {
      var i, j, k := PassingIsSectioned(INITIAL_SECTION, hs);
    }
    if exists i, j, k :: IsSectioned(hs, i, j, k) {
      var i: nat, j: nat, k: nat :| IsSectioned(hs, i, j, k);
      SectionedPasses(INITIAL_SECTION, hs, i, j, k);
    }
  }

  function SectionAfter(section: nat, hs: seq<Header>): nat
    decreases |hs|
  {
    if hs == [] then section else SectionAfter(NextSection(section, hs[0]), hs[1..])
  }

  /** The headers that are in order when their turn comes. */
  function WithoutErrors(section: nat, hs: seq<Header>): seq<Header>
    decreases |hs|
  {
    if hs == [] then []
    else if InOrder(section, hs[0]) then [hs[0]] + WithoutErrors(NextSection(section, hs[0]), hs[1..])
    else WithoutErrors(section, hs[1..])
  }

  /** Headers out of order change nothing for those that follow: without them all pass and end in the same section. */
  lemma {:induction false} ErrorsLeaveNoTrace(section: nat, hs: seq<Header>)
    ensures Passes(section, WithoutErrors(section, hs))
    ensures SectionAfter(section, WithoutErrors(section, hs)) == SectionAfter(section, hs)
    decreases |hs|
  {
    if hs != [] {
      if InOrder(section, hs[0]) {
        var next := NextSection(section, hs[0]);
        var rest := WithoutErrors(next, hs[1..]);
        ErrorsLeaveNoTrace(next, hs[1..]);
        assert ([hs[0]] + rest)[1..] == rest;
      } else {
        ErrorsLeaveNoTrace(section, hs[1..]);
      }
    }
  }

  /** Between resets the section never moves back, errors included. */
  lemma {:induction false} SectionsNeverDecrease(section: nat, hs: seq<Header>)
    requires section <= OTHER_H_SECTION
    ensures section <= SectionAfter(section, hs) <= OTHER_H_SECTION
    decreases |hs|
  {
    if hs != [] {
      SectionsNeverDecrease(NextSection(section, hs[0]), hs[1..]);
    }
  }
}
