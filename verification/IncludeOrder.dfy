/** The order of include directives: C system headers, then C++ ones, then the others. */
module IncludeOrder {

  datatype Header = CSystem | CppSystem | LikelyMy | PossibleMy | Other {
    predicate IsMy() {
      LikelyMy? || PossibleMy?
    }
  }

  const INITIAL_SECTION := 0
  const MY_H_SECTION := 1
  const C_SECTION := 2
  const CPP_SECTION := 3
  const OTHER_H_SECTION := 4

  /** The verdict on one include: in order, or out of order after a later section. */
  datatype Verdict = InOrder | OutOfOrder(found: Header, after: int)

  predicate Errs(section: int, header: Header) {
    (header.CSystem? && section > C_SECTION) || (header.CppSystem? && section > CPP_SECTION)
  }

  function NextSection(section: int, header: Header): int {
    if Errs(section, header) then section
    else match header
      case CSystem => C_SECTION
      case CppSystem => CPP_SECTION
      case Other => OTHER_H_SECTION
      case _ => if section <= MY_H_SECTION then MY_H_SECTION else OTHER_H_SECTION
  }

  class IncludeState {
    var section: int
    var lastHeader: string

    ghost predicate Valid()
      reads this
    {
      INITIAL_SECTION <= section <= OTHER_H_SECTION
    }

    constructor ()
      ensures Valid() && section == INITIAL_SECTION && lastHeader == ""
    {
      section, lastHeader := INITIAL_SECTION, "";
    }

    method ResetSection()
      modifies this
      ensures Valid() && section == INITIAL_SECTION && lastHeader == ""
    {
      section, lastHeader := INITIAL_SECTION, "";
    }

    /**
     Moves to the section of the next header, never backwards; forgets the last header when the
     section changes or the header is out of order, so that alphabetical order starts anew.
     */
    method CheckNextIncludeOrder(header: Header) returns (verdict: Verdict)
      requires Valid()
      modifies this
      ensures Valid() && section == NextSection(old(section), header) && old(section) <= section
      ensures verdict == if Errs(old(section), header) then OutOfOrder(header, old(section)) else InOrder
      ensures lastHeader == if verdict.OutOfOrder? || section != old(section) then "" else old(lastHeader)
    {
      var lastSection := section;
      match header {
        case CSystem =>
          if section <= C_SECTION {
            section := C_SECTION;
          } else {
            lastHeader := "";
            return OutOfOrder(header, section);
          }
        case CppSystem =>
          if section <= CPP_SECTION {
            section := CPP_SECTION;
          } else {
            lastHeader := "";
            return OutOfOrder(header, section);
          }
        case LikelyMy =>
          section := if section <= MY_H_SECTION then MY_H_SECTION else OTHER_H_SECTION;
        case PossibleMy =>
          section := if section <= MY_H_SECTION then MY_H_SECTION else OTHER_H_SECTION;
        case Other =>
          section := OTHER_H_SECTION;
      }
      if lastSection != section {
        lastHeader := "";
      }
      return InOrder;
    }
  }

  // ---------------------------------------------------------------- whole runs

  /** The section after the first `k` headers of a run. */
  function SectionAfter(headers: seq<Header>, k: nat): (section: int)
    requires k <= |headers|
    ensures INITIAL_SECTION <= section <= OTHER_H_SECTION
  {
    if k == 0 then INITIAL_SECTION else NextSection(SectionAfter(headers, k - 1), headers[k - 1])
  }

  predicate ErrsAt(headers: seq<Header>, k: nat)
    requires k < |headers|
  {
    Errs(SectionAfter(headers, k), headers[k])
  }

  lemma {:induction false} SectionNeverDecreases(headers: seq<Header>, j: nat, k: nat)
    requires j <= k <= |headers|
    ensures SectionAfter(headers, j) <= SectionAfter(headers, k)
    decreases k
  {
    if j < k {
      SectionNeverDecreases(headers, j, k - 1);
    }
  }

  /** Header `j` is one of this file's own after some other header. */
  predicate LateMy(headers: seq<Header>, j: nat)
    requires j < |headers|
  {
    headers[j].IsMy() && exists i | 0 <= i < j :: !headers[i].IsMy()
  }

  /** What the section says about the headers read so far. */
  lemma {:induction false} SectionMeans(headers: seq<Header>, k: nat)
    requires k <= |headers|
    ensures SectionAfter(headers, k) > MY_H_SECTION <==> exists i | 0 <= i < k :: !headers[i].IsMy()
    ensures SectionAfter(headers, k) > C_SECTION <==>
            exists j: nat | j < k :: headers[j].CppSystem? || headers[j].Other? || LateMy(headers, j)
    ensures SectionAfter(headers, k) > CPP_SECTION <==> exists j: nat | j < k :: headers[j].Other? || LateMy(headers, j)
    decreases k
  {
    if k > 0 {
      SectionMeans(headers, k - 1);
      assert LateMy(headers, k - 1) <==> headers[k - 1].IsMy() && SectionAfter(headers, k - 1) > MY_H_SECTION;
    }
  }

  /**
   A C header is out of order exactly when a C++ header, another header or a late header of
   this file came before; a C++ header exactly when one of the last two did.
   */
  lemma ErrorsExactly(headers: seq<Header>, k: nat)
    requires k < |headers|
    ensures ErrsAt(headers, k) <==>
            || (headers[k].CSystem? &&
                exists j: nat | j < k :: headers[j].CppSystem? || headers[j].Other? || LateMy(headers, j))
            || (headers[k].CppSystem? && exists j: nat | j < k :: headers[j].Other? || LateMy(headers, j))
  {
    SectionMeans(headers, k);
  }

  /** The sections of MY* C* CPP* (MY|OTHER)* in turn. */
  predicate Belongs(header: Header, part: int) {
    if part == MY_H_SECTION then header.IsMy()
    else if part == C_SECTION then header.CSystem?
    else if part == CPP_SECTION then header.CppSystem?
    else header.IsMy() || header.Other?
  }

  /** Headers `i` to `j` all belong to one part. */
  predicate Part(headers: seq<Header>, i: nat, j: nat, part: int)
    requires i <= j <= |headers|
  {
    forall k | i <= k < j :: Belongs(headers[k], part)
  }

  /** The run is MY* C* CPP* (MY|OTHER)*, with the first three parts ending at `a`, `b` and `c`. */
  predicate Parts(headers: seq<Header>, a: nat, b: nat, c: nat) {
    && a <= b <= c <= |headers|
    && Part(headers, 0, a, MY_H_SECTION) && Part(headers, a, b, C_SECTION)
    && Part(headers, b, c, CPP_SECTION) && Part(headers, c, |headers|, OTHER_H_SECTION)
  }

  /** Inside a part the section does not go beyond that part. */
  lemma {:induction false} SectionInPart(headers: seq<Header>, i: nat, j: nat, part: int)
    requires i <= j <= |headers| && MY_H_SECTION <= part <= OTHER_H_SECTION
    requires SectionAfter(headers, i) <= part && Part(headers, i, j, part)
    ensures SectionAfter(headers, j) <= part
    ensures forall k | i <= k < j :: !ErrsAt(headers, k)
    decreases j
  {
    if i < j {
      SectionInPart(headers, i, j - 1, part);
    }
  }

  /** The longest stretch of headers from `i` on that belong to the part. */
  lemma Longest(headers: seq<Header>, i: nat, part: int) returns (j: nat)
    requires i <= |headers|
    ensures i <= j <= |headers| && Part(headers, i, j, part) && (j < |headers| ==> !Belongs(headers[j], part))
  {
    j := i;
    while j < |headers| && Belongs(headers[j], part)
      invariant i <= j <= |headers| && Part(headers, i, j, part)
    {
      j := j + 1;
    }
  }

  /** A run has no error if and only if it lies in MY* C* CPP* (MY|OTHER)*. */
  lemma RunsWithoutErrors(headers: seq<Header>)
    ensures (forall k: nat | k < |headers| :: !ErrsAt(headers, k)) <==> exists a, b, c :: Parts(headers, a, b, c)
  {
    if a, b, c :| Parts(headers, a, b, c) {
      SectionInPart(headers, 0, a, MY_H_SECTION);
      SectionInPart(headers, a, b, C_SECTION);
      SectionInPart(headers, b, c, CPP_SECTION);
      SectionInPart(headers, c, |headers|, OTHER_H_SECTION);
    }
    if forall k: nat | k < |headers| :: !ErrsAt(headers, k) {
      var a := Longest(headers, 0, MY_H_SECTION);
      var b := Longest(headers, a, C_SECTION);
      var c := Longest(headers, b, CPP_SECTION);
      forall k | c <= k < |headers| ensures Belongs(headers[k], OTHER_H_SECTION) {
        SectionMeans(headers, c + 1);
        SectionMeans(headers, c);
        SectionNeverDecreases(headers, c, k);
        if c < k {
          assert headers[c].Other? || LateMy(headers, c) || headers[c].CSystem?;
          SectionNeverDecreases(headers, c + 1, k);
        }
        assert !ErrsAt(headers, k) && !ErrsAt(headers, c);
      }
      assert Parts(headers, a, b, c);
    }
  }

  function VerdictAt(headers: seq<Header>, k: nat): Verdict
    requires k < |headers|
  {
    if ErrsAt(headers, k) then OutOfOrder(headers[k], SectionAfter(headers, k)) else InOrder
  }

  /**
   The verdicts on a run of headers: those of the sections reached, and all in order if and only
   if the run lies in MY* C* CPP* (MY|OTHER)*.
   */
  method CheckRun(state: IncludeState, headers: seq<Header>) returns (verdicts: seq<Verdict>)
    requires state.section == INITIAL_SECTION
    modifies state
    ensures state.section == SectionAfter(headers, |headers|) && |verdicts| == |headers|
    ensures forall k: nat | k < |headers| :: verdicts[k] == VerdictAt(headers, k)
    ensures (forall k: nat | k < |headers| :: verdicts[k].InOrder?) <==> exists a, b, c :: Parts(headers, a, b, c)
  {
    verdicts := [];
    for i := 0 to |headers|
      invariant state.section == SectionAfter(headers, i) && |verdicts| == i
      invariant forall k: nat | k < i :: verdicts[k] == VerdictAt(headers, k)
    {
      var verdict := state.CheckNextIncludeOrder(headers[i]);
      verdicts := verdicts + [verdict];
    }
    RunsWithoutErrors(headers);
    forall k: nat | k < |headers| ensures verdicts[k].InOrder? <==> !ErrsAt(headers, k) {
      assert verdicts[k] == VerdictAt(headers, k);
    }
  }
}
