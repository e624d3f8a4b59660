/**
 The function length check: when it triggers, how severe the error is, and whether the
 verbosity test and the category filters let it through.
 */
module FunctionSize {

  const NORMAL_TRIGGER := 250
  const TEST_TRIGGER := 400

  function Pow2(n: nat): (p: int)
    ensures p > 0
  {
    if n == 0 then 1 else 2 * Pow2(n - 1)
  }

  /** The whole part of the binary logarithm. */
  function Log2(q: nat): nat
    requires q > 0
  {
    if q == 1 then 0 else 1 + Log2(q / 2)
  }

  /** More lines than the base times two to the verbosity, which may be negative. */
  predicate Exceeds(lines: nat, base: int, verbosity: int) {
    if verbosity >= 0 then lines > base * Pow2(verbosity) else lines * Pow2(-verbosity) > base
  }

  datatype Outcome =
    | Quiet                     // the function is short enough
    | Report(level: int)        // an error of this severity
    | DomainError               // the logarithm of zero was asked for

  /** Tracks the length of the function that is being read. */
  class FunctionState {
    var inAFunction: bool
    var linesInFunction: nat
    var currentFunction: string

    constructor ()
      ensures !inAFunction && linesInFunction == 0 && currentFunction == ""
    {
      inAFunction, linesInFunction, currentFunction := false, 0, "";
    }

    method Begin(name: string)
      modifies this
      ensures inAFunction && linesInFunction == 0 && currentFunction == name
    {
      inAFunction, linesInFunction, currentFunction := true, 0, name;
    }

    method Count()
      modifies this`linesInFunction
      ensures linesInFunction == old(linesInFunction) + if inAFunction then 1 else 0
    {
      if inAFunction {
        linesInFunction := linesInFunction + 1;
      }
    }

    function Base(): (base: int)
      reads this
      ensures base == NORMAL_TRIGGER || base == TEST_TRIGGER
    {
      if "TEST" <= currentFunction || "Test" <= currentFunction then TEST_TRIGGER else NORMAL_TRIGGER
    }

    method Check(verbosity: int) returns (outcome: Outcome)
      ensures outcome.Quiet? <==> !Exceeds(linesInFunction, Base(), verbosity)
      ensures outcome.Report? ==>
                && 0 <= outcome.level <= 5 && linesInFunction >= Base() * Pow2(outcome.level)
                && (outcome.level < 5 ==> linesInFunction < Base() * Pow2(outcome.level + 1))
      ensures outcome.DomainError? <==> Exceeds(linesInFunction, Base(), verbosity) && linesInFunction < Base()
    {
      var baseTrigger := Base();
      if Exceeds(linesInFunction, baseTrigger, verbosity) {
        var quotient := linesInFunction / baseTrigger;
        if quotient == 0 {
          return DomainError;
        }
        var errorLevel := Log2(quotient);
        Log2Bounds(quotient);
        ScaleBounds(linesInFunction, baseTrigger, quotient, Pow2(errorLevel));
        if errorLevel > 5 {
          Pow2Monotone(5, errorLevel);
          errorLevel := 5;
        }
        return Report(errorLevel);
      }
      return Quiet;
    }

    method End()
      modifies this`inAFunction
      ensures !inAFunction
    {
      inAFunction := false;
    }
  }

  // ---------------------------------------------------------------- arithmetic

  lemma {:induction false} Pow2Monotone(m: nat, n: nat)
    requires m <= n
    ensures Pow2(m) <= Pow2(n)
    decreases n
  {
    if m < n {
      Pow2Monotone(m, n - 1);
    }
  }

  lemma {:induction false} Log2Bounds(q: nat)
    requires q > 0
    ensures Pow2(Log2(q)) <= q < Pow2(Log2(q) + 1)
  {
    if q > 1 {
      Log2Bounds(q / 2);
    }
  }

  lemma MultiplyBoth(d: int, a: int, b: int)
    requires d > 0 && a <= b
    ensures d * a <= d * b
  {
  }

  /** A bound on the quotient is a bound on what is divided. */
  lemma ScaleBounds(x: nat, d: int, q: nat, p: int)
    requires d > 0 && q == x / d && p > 0
    ensures p <= q ==> d * p <= x
    ensures q < 2 * p ==> x < d * (2 * p)
  {
    assert d * q <= x < d * q + d;
    if p <= q {
      MultiplyBoth(d, p, q);
    }
    if q < 2 * p {
      MultiplyBoth(d, q + 1, 2 * p);
      assert d * (q + 1) == d * q + d;
    }
  }

  lemma QuotientAtLeast(x: nat, d: int, p: int)
    requires d > 0 && d * p <= x
    ensures p <= x / d
  {
    var q := x / d;
    assert x < d * q + d == d * (q + 1);
    if q < p {
      MultiplyBoth(d, q + 1, p);
    }
  }

  /** A severity that brackets the length is at least the verbosity that triggered it, up to five. */
  lemma LevelAtLeast(lines: nat, base: int, level: nat, verbosity: nat)
    requires base > 0 && verbosity <= 5 && level <= 5
    requires lines > base * Pow2(verbosity) && (level < 5 ==> lines < base * Pow2(level + 1))
    ensures level >= verbosity
  {
    Pow2Monotone(if level < verbosity then level + 1 else verbosity, verbosity);
  }

  // ---------------------------------------------------------------- printing

  predicate IsFilter(f: string) {
    f != "" && (f[0] == '-' || f[0] == '+')
  }

  /** The filter is about this category. */
  predicate Concerns(f: string, category: string)
    requires IsFilter(f)
  {
    f[1..] <= category
  }

  /** The last filter that concerns the category excludes it. */
  predicate Filtered(filters: seq<string>, category: string)
    requires forall f | f in filters :: IsFilter(f)
  {
    exists i | 0 <= i < |filters| ::
      && Concerns(filters[i], category) && filters[i][0] == '-'
      && forall j | i < j < |filters| :: Concerns(filters[j], category) ==> filters[j][0] == '-'
  }

  method ShouldPrintError(category: string, confidence: int, verbosity: int, nolint: bool, filters: seq<string>)
    returns (printed: bool)
    requires forall f | f in filters :: IsFilter(f)
    ensures printed <==> !nolint && confidence >= verbosity && !Filtered(filters, category)
  {
    if nolint {
      return false;
    }
    if confidence < verbosity {
      return false;
    }
    var isFiltered := false;
    for k := 0 to |filters|
      invariant isFiltered <==> Filtered(filters[..k], category)
    {
      var filter := filters[k];
      FilterAdded(filters[..k], filter, category);
      assert filters[..k + 1] == filters[..k] + [filter];
      if filter[0] == '-' {
        if filter[1..] <= category {
          isFiltered := true;
        }
      } else if filter[1..] <= category {
        isFiltered := false;
      }
    }
    assert filters[..|filters|] == filters;
    return !isFiltered;
  }

  lemma FilterAdded(filters: seq<string>, f: string, category: string)
    requires (forall g | g in filters :: IsFilter(g)) && IsFilter(f)
    ensures Filtered(filters + [f], category) <==>
            if Concerns(f, category) then f[0] == '-' else Filtered(filters, category)
  {
    var more := filters + [f];
    assert forall g | g in more :: IsFilter(g);
    assert forall i | 0 <= i < |filters| :: more[i] == filters[i];
    assert more[|filters|] == f;
  }

  /** At every negative verbosity a function one line short of the base asks for the logarithm of zero. */
  lemma NegativeVerbosityFails(base: int, verbosity: int)
    requires base > 2 && verbosity < 0
    ensures Exceeds(base - 1, base, verbosity) && (base - 1) / base == 0
  {
    Pow2Monotone(1, -verbosity);
    assert Pow2(1) == 2;
    MultiplyBoth(base - 1, 2, Pow2(-verbosity));
  }

  /** So 200 lines fail at verbosity -1. */
  lemma TwoHundredLinesFail()
    ensures Exceeds(200, NORMAL_TRIGGER, -1) && 200 / NORMAL_TRIGGER == 0
  {
    assert Pow2(1) == 2 * Pow2(0);
  }

  /** Functions whose names begin with TEST or Test may have 400 lines, others 250. */
  lemma BaseByName(state: FunctionState)
    ensures state.Base() ==
            if |state.currentFunction| >= 4 && state.currentFunction[0] == 'T'
               && (state.currentFunction[1..4] == "EST" || state.currentFunction[1..4] == "est") then 400 else 250
  {
    var f := state.currentFunction;
    if |f| >= 4 {
      assert f[..4] == [f[0]] + f[1..4];
      assert "TEST" == ['T'] + "EST" && "Test" == ['T'] + "est";
    }
  }

  /** At verbosity zero a function may be as long as the base; one more verbosity is twice the base. */
  lemma ExceedsDoubles(lines: nat, base: int, verbosity: int)
    ensures Exceeds(lines, base, 0) <==> lines > base
    ensures Exceeds(lines, base, verbosity + 1) <==> Exceeds(lines, 2 * base, verbosity)
  {
    if verbosity >= 0 {
      assert base * (2 * Pow2(verbosity)) == 2 * base * Pow2(verbosity);
    } else {
      assert Pow2(-verbosity) == 2 * Pow2(-verbosity - 1);
      assert lines * (2 * Pow2(-verbosity - 1)) == 2 * (lines * Pow2(-verbosity - 1));
    }
  }

  /** A last filter that is a sign and a prefix of the category decides; one that is no prefix does nothing. */
  lemma FilterByPrefix(filters: seq<string>, prefix: string, rest: string, other: string)
    requires forall g | g in filters :: IsFilter(g)
    ensures Filtered(filters + ["-" + prefix], prefix + rest) && !Filtered(filters + ["+" + prefix], prefix + rest)
    ensures !(prefix <= other) ==> Filtered(filters + ["-" + prefix], other) == Filtered(filters, other)
    ensures !Filtered([], other)
  {
    assert ("-" + prefix)[1..] == prefix && ("+" + prefix)[1..] == prefix;
    FilterAdded(filters, "-" + prefix, prefix + rest);
    FilterAdded(filters, "+" + prefix, prefix + rest);
    FilterAdded(filters, "-" + prefix, other);
  }

  /** At every verbosity above five one line more than needed triggers an error, whose severity is five. */
  lemma AboveFiveTriggers(base: int, verbosity: nat)
    requires base > 0 && verbosity > 5
    ensures var lines := base * Pow2(verbosity) + 1;
            Exceeds(lines, base, verbosity) && lines / base > 0 && Log2(lines / base) >= 5
  {
    var q := (base * Pow2(verbosity) + 1) / base;
    QuotientAtLeast(base * Pow2(verbosity) + 1, base, Pow2(verbosity));
    Pow2Monotone(6, verbosity);
    Log2Bounds(q);
    if Log2(q) < 5 {
      Pow2Monotone(Log2(q) + 1, 5);
    }
  }

  /** So 16001 lines trigger an error at verbosity 6, and its severity of five is not printed. */
  lemma SixteenThousandLinesUnprinted()
    ensures Exceeds(16001, NORMAL_TRIGGER, 6) && Log2(16001 / NORMAL_TRIGGER) == 6 > 5
  {
    assert Pow2(6) == 2 * Pow2(5) && Pow2(5) == 2 * Pow2(4) && Pow2(3) == 8;
    assert 16001 / NORMAL_TRIGGER == 64;
    assert Log2(64) == 1 + Log2(32) && Log2(16) == 1 + Log2(8) && Log2(4) == 2;
  }

  /**
   The verbosity test never drops a function length error that was triggered at the same
   verbosity, as long as the verbosity is at most five; above five it drops every one.
   */
  method CheckAndPrint(state: FunctionState, verbosity: int, nolint: bool, filters: seq<string>)
    returns (outcome: Outcome, printed: bool)
    requires forall f | f in filters :: IsFilter(f)
    ensures outcome.Quiet? <==> !Exceeds(state.linesInFunction, state.Base(), verbosity)
    ensures outcome.DomainError? <==>
              && verbosity < 0 && Exceeds(state.linesInFunction, state.Base(), verbosity)
              && state.linesInFunction < state.Base()
    ensures verbosity <= 5 ==> (printed <==> outcome.Report? && !nolint && !Filtered(filters, "readability/fn_size"))
    ensures verbosity > 5 ==> !printed
  {
    outcome := state.Check(verbosity);
    printed := false;
    if verbosity >= 0 {
      Pow2Monotone(0, verbosity);
      assert state.Base() * 1 <= state.Base() * Pow2(verbosity);
    }
    if outcome.Report? {
      if 0 <= verbosity <= 5 {
        LevelAtLeast(state.linesInFunction, state.Base(), outcome.level, verbosity);
      }
      printed := ShouldPrintError("readability/fn_size", outcome.level, verbosity, nolint, filters);
    }
  }
}
