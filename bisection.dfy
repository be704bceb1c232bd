/**
 * The bisection root finder of bisection_method_project.py.
 *
 * Numbers are exact reals; the target function is a total `real -> real`.
 * `BisectionMethod` is the loop itself and returns exactly `Bisect`, a reference
 * definition of the outcome built from the closed-form pass records `RecordAt`
 * and the index `FirstStop` of the first pass that meets the stopping test.
 * `Run` reads the loop as a recursion on its state; it carries the loop
 * invariant, and `RunFrom` proves that it agrees with the closed form.
 * The lemmas after the method state what the solver promises about `Bisect`.
 */
module Bisection {
  import opened Wrappers

  /** One row of the iteration trace: the bounds before the pass, the midpoint and f at it. */
  datatype Record = Record(iteration: int, a: real, b: real, c: real, fc: real)

  /** The current bracket. */
  datatype Bracket = Bracket(a: real, b: real)

  /** The two failure messages of the solver. */
  datatype ErrorKind =
    | NoSignChange          // "Function must have opposite signs at the endpoints a and b."
    | MaxIterationsReached  // "Maximum iterations reached without convergence."

  /** What one call of the solver returns. */
  datatype Outcome =
    | Converged(root: real, trace: seq<Record>)
    | SignCheckFailed
    | Exhausted(trace: seq<Record>)
  {
    /** First component of the original's result triple. */
    function Root(): (r: Option<real>)
      ensures r.Some? <==> Converged?
    {
      if Converged? then Some(root) else None
    }

    /** Second component: the trace, absent when no pass was started. */
    function Iterations(): (r: Option<seq<Record>>)
      ensures r.None? <==> SignCheckFailed?
    {
      if SignCheckFailed? then None else Some(trace)
    }

    /** Third component: the error, absent exactly on success. */
    function Error(): (r: Option<ErrorKind>)
      ensures r.None? <==> Converged?
      ensures r == Some(NoSignChange) <==> SignCheckFailed?
      ensures r == Some(MaxIterationsReached) <==> Exhausted?
    {
      match this
      case Converged(_, _) => None
      case SignCheckFailed => Some(NoSignChange)
      case Exhausted(_) => Some(MaxIterationsReached)
    }
  }

  function Abs(x: real): real {
    if x < 0.0 then -x else x
  }

  /** Number of passes `range(max_iter)` allows: none for a non-positive cap. */
  function Cap(maxIter: int): nat {
    if maxIter < 0 then 0 else maxIter
  }

  /** The record of pass number `i` (1-based) on bracket `br`. */
  function Pass(f: real -> real, i: int, br: Bracket): Record {
    var c := (br.a + br.b) / 2.0;
    Record(i, br.a, br.b, c, f(c))
  }

  /** A strict sign change between two values; equivalent to `x * y < 0` (see `OppositeIffNegativeProduct`). */
  predicate Opposite(x: real, y: real) {
    (x < 0.0 && y > 0.0) || (x > 0.0 && y < 0.0)
  }

  lemma OppositeIffNegativeProduct(x: real, y: real)
    ensures x * y < 0.0 <==> Opposite(x, y)
  {
    if x < 0.0 && y < 0.0 {
      assert x * y == (-x) * (-y);
    } else if x == 0.0 || y == 0.0 {
      assert x * y == 0.0;
    }
  }

  /** The stopping test applied to a pass record. */
  predicate Converges(r: Record, tol: real) {
    Abs(r.fc) < tol || (r.b - r.a) / 2.0 < tol
  }

  /** The bracket kept after a pass that did not stop: the half with the sign change. */
  function Next(f: real -> real, r: Record): Bracket {
    if Opposite(r.fc, f(r.a)) then Bracket(r.a, r.c) else Bracket(r.c, r.b)
  }

  /** The bracket at the start of pass `k` (0-based), when no earlier pass stopped. */
  function BoundsAt(f: real -> real, a0: real, b0: real, k: nat): Bracket {
    if k == 0 then Bracket(a0, b0)
    else Next(f, Pass(f, k, BoundsAt(f, a0, b0, k - 1)))
  }

  /** The record of pass `k` (0-based). */
  function RecordAt(f: real -> real, a0: real, b0: real, k: nat): Record {
    Pass(f, k + 1, BoundsAt(f, a0, b0, k))
  }

  /** The first `n` records. */
  function Prefix(f: real -> real, a0: real, b0: real, n: nat): seq<Record> {
    if n == 0 then [] else Prefix(f, a0, b0, n - 1) + [RecordAt(f, a0, b0, n - 1)]
  }

  /** Index of the first pass in k .. n-1 that meets the stopping test, or n when none does. */
  function FirstStop(f: real -> real, a0: real, b0: real, tol: real, n: nat, k: nat): nat
    decreases n - k
  {
    if k >= n then n
    else if Converges(RecordAt(f, a0, b0, k), tol) then k
    else FirstStop(f, a0, b0, tol, n, k + 1)
  }

  /** The outcome when pass m is the first to stop (m < n), or when no pass stops (m == n). */
  function StopOutcome(f: real -> real, a0: real, b0: real, n: nat, m: nat): Outcome {
    if m < n then Converged(RecordAt(f, a0, b0, m).c, Prefix(f, a0, b0, m + 1))
    else Exhausted(Prefix(f, a0, b0, n))
  }

  /**
   * Reference outcome: reject a bracket without a strict sign change, else stop at the
   * first pass that meets the test, else report exhaustion after all allowed passes.
   */
  function Bisect(f: real -> real, a0: real, b0: real, tol: real, maxIter: int): Outcome {
    if !Opposite(f(a0), f(b0)) then SignCheckFailed
    else
      var n := Cap(maxIter);
      StopOutcome(f, a0, b0, n, FirstStop(f, a0, b0, tol, n, 0))
  }

  /** The loop read as a recursion on its state: pass i of n on bracket br, with trace acc so far. */
  function Run(f: real -> real, tol: real, n: nat, i: nat, br: Bracket, acc: seq<Record>): Outcome
    decreases n - i
  {
    if i >= n then Exhausted(acc)
    else
      var r := Pass(f, i + 1, br);
      if Converges(r, tol) then Converged(r.c, acc + [r])
      else Run(f, tol, n, i + 1, Next(f, r), acc + [r])
  }

  /** The solver: bisect `[a0, b0]` until the test holds or `maxIter` passes are used up (defaults 1e-6 and 100). */
  method BisectionMethod(f: real -> real, a0: real, b0: real, tol: real := 0.000001, maxIter: int := 100)
    returns (out: Outcome)
    ensures out == Bisect(f, a0, b0, tol, maxIter)
  {
    OppositeIffNegativeProduct(f(a0), f(b0));
    if f(a0) * f(b0) >= 0.0 {
      return SignCheckFailed;
    }
    BisectIsRun(f, a0, b0, tol, maxIter);
    var a, b := a0, b0;
    var iterations: seq<Record> := [];
    var i := 0;
    while i < maxIter
      invariant 0 <= i <= Cap(maxIter)
      invariant Run(f, tol, Cap(maxIter), i, Bracket(a, b), iterations) ==
        Run(f, tol, Cap(maxIter), 0, Bracket(a0, b0), [])
    {
      var c := (a + b) / 2.0;
      var fc := f(c);
      iterations := iterations + [Record(i + 1, a, b, c, fc)];
      if Abs(fc) < tol || (b - a) / 2.0 < tol {
        return Converged(c, iterations);
      }
      OppositeIffNegativeProduct(fc, f(a));
      if fc * f(a) < 0.0 {
        b := c;
      } else {
        a := c;
      }
      i := i + 1;
    }
    return Exhausted(iterations);
  }

  /** Once the sign check passes, the reference outcome is the loop's recursion from its initial state. */
  lemma BisectIsRun(f: real -> real, a0: real, b0: real, tol: real, maxIter: int)
    requires f(a0) * f(b0) < 0.0
    ensures Bisect(f, a0, b0, tol, maxIter) == Run(f, tol, Cap(maxIter), 0, Bracket(a0, b0), [])
  {
    OppositeIffNegativeProduct(f(a0), f(b0));
    RunFrom(f, a0, b0, tol, Cap(maxIter), 0);
  }

  /** From any pass i, the loop's recursion reaches the outcome at the first stopping pass. */
  lemma {:induction false} RunFrom(f: real -> real, a0: real, b0: real, tol: real, n: nat, i: nat)
    requires i <= n
    ensures Run(f, tol, n, i, BoundsAt(f, a0, b0, i), Prefix(f, a0, b0, i)) ==
      StopOutcome(f, a0, b0, n, FirstStop(f, a0, b0, tol, n, i))
    decreases n - i
  {
    if i < n {
      RunStep(f, a0, b0, tol, n, i);
      if !Converges(RecordAt(f, a0, b0, i), tol) {
        RunFrom(f, a0, b0, tol, n, i + 1);
      }
    }
  }

  /** One unfolding of the loop's recursion on the closed-form state of pass i. */
  lemma RunStep(f: real -> real, a0: real, b0: real, tol: real, n: nat, i: nat)
    requires i < n
    ensures var r := RecordAt(f, a0, b0, i);
      Run(f, tol, n, i, BoundsAt(f, a0, b0, i), Prefix(f, a0, b0, i)) ==
        if Converges(r, tol) then Converged(r.c, Prefix(f, a0, b0, i + 1))
        else Run(f, tol, n, i + 1, BoundsAt(f, a0, b0, i + 1), Prefix(f, a0, b0, i + 1))
  {
    var r := RecordAt(f, a0, b0, i);
    assert Pass(f, i + 1, BoundsAt(f, a0, b0, i)) == r;
    assert Prefix(f, a0, b0, i) + [r] == Prefix(f, a0, b0, i + 1);
    assert Next(f, r) == BoundsAt(f, a0, b0, i + 1);
  }

  // ---------------------------------------------------------------------------
  // The trace

  /** Record k of any prefix is pass k: numbered k+1, its midpoint, and f at the midpoint. */
  lemma {:induction false} PrefixAt(f: real -> real, a0: real, b0: real, n: nat, k: nat)
    requires k < n
    ensures |Prefix(f, a0, b0, n)| == n
    ensures Prefix(f, a0, b0, n)[k] == RecordAt(f, a0, b0, k)
    ensures var r := Prefix(f, a0, b0, n)[k];
      r.iteration == k + 1 && r.c == (r.a + r.b) / 2.0 && r.fc == f(r.c)
    ensures k == 0 ==> Prefix(f, a0, b0, n)[k].a == a0 && Prefix(f, a0, b0, n)[k].b == b0
  {
    if k < n - 1 {
      PrefixAt(f, a0, b0, n - 1, k);
    } else if n > 1 {
      PrefixAt(f, a0, b0, n - 1, 0);
    }
  }

  lemma {:induction false} PrefixLength(f: real -> real, a0: real, b0: real, n: nat)
    ensures |Prefix(f, a0, b0, n)| == n
  {
    if n > 0 {
      PrefixLength(f, a0, b0, n - 1);
    }
  }

  /** Consecutive records are linked: the next bounds are the half kept by the sign test. */
  lemma TraceLinked(f: real -> real, a0: real, b0: real, n: nat, k: nat)
    requires k + 1 < n
    ensures |Prefix(f, a0, b0, n)| == n
    ensures var r, s := Prefix(f, a0, b0, n)[k], Prefix(f, a0, b0, n)[k + 1];
      (r.fc * f(r.a) < 0.0 ==> s.a == r.a && s.b == r.c) &&
      (r.fc * f(r.a) >= 0.0 ==> s.a == r.c && s.b == r.b) &&
      s.b - s.a == (r.b - r.a) / 2.0
  {
    PrefixAt(f, a0, b0, n, k);
    PrefixAt(f, a0, b0, n, k + 1);
    var r := RecordAt(f, a0, b0, k);
    OppositeIffNegativeProduct(r.fc, f(r.a));
  }

  /** Width w halved k times. */
  function Halved(w: real, k: nat): real {
    if k == 0 then w else Halved(w, k - 1) / 2.0
  }

  /** Each pass halves the bracket's width. */
  lemma BoundsHalve(f: real -> real, a0: real, b0: real, k: nat)
    ensures var br, nb := BoundsAt(f, a0, b0, k), BoundsAt(f, a0, b0, k + 1);
      nb.b - nb.a == (br.b - br.a) / 2.0
  {
  }

  /** The width of pass k's bracket is the initial width halved k times. */
  lemma {:induction false} WidthHalved(f: real -> real, a0: real, b0: real, k: nat)
    ensures var br := BoundsAt(f, a0, b0, k); br.b - br.a == Halved(b0 - a0, k)
  {
    if k > 0 {
      WidthHalved(f, a0, b0, k - 1);
      BoundsHalve(f, a0, b0, k - 1);
    }
  }

  // ---------------------------------------------------------------------------
  // The bracket

  /** One pass keeps a strict sign change when its midpoint did not stop the search. */
  lemma SignStep(fa: real, fb: real, fc: real, tol: real)
    requires tol > 0.0 && fa * fb < 0.0 && !(Abs(fc) < tol)
    ensures fc * fa < 0.0 ==> fa * fc < 0.0
    ensures fc * fa >= 0.0 ==> fc * fb < 0.0
  {
    assert fc != 0.0;
    if fa > 0.0 {
      assert fb < 0.0;
      if fc * fa >= 0.0 { assert fc > 0.0; }
    } else {
      assert fa < 0.0 && fb > 0.0;
      if fc * fa >= 0.0 { assert fc < 0.0; }
    }
  }

  /** Bracket invariant: while no pass has stopped, f changes sign strictly across every bracket. */
  lemma {:induction false} SignChangeKept(f: real -> real, a0: real, b0: real, tol: real, k: nat)
    requires tol > 0.0 && f(a0) * f(b0) < 0.0
    requires forall j :: 0 <= j < k ==> !Converges(RecordAt(f, a0, b0, j), tol)
    ensures var br := BoundsAt(f, a0, b0, k); f(br.a) * f(br.b) < 0.0
  {
    if k > 0 {
      SignChangeKept(f, a0, b0, tol, k - 1);
      var r := RecordAt(f, a0, b0, k - 1);
      assert !Converges(r, tol);
      SignStep(f(r.a), f(r.b), r.fc, tol);
    }
  }

  /** For an increasing initial bracket, every pass stays inside it with its midpoint strictly inside. */
  lemma {:induction false} InsideBracket(f: real -> real, a0: real, b0: real, k: nat)
    requires a0 < b0
    ensures var r := RecordAt(f, a0, b0, k); a0 <= r.a < r.c < r.b <= b0
  {
    if k > 0 {
      InsideBracket(f, a0, b0, k - 1);
    }
  }

  // ---------------------------------------------------------------------------
  // The outcome

  /** FirstStop finds the first pass at or after k that meets the test, if there is one before n. */
  lemma {:induction false} FirstStopIsFirst(f: real -> real, a0: real, b0: real, tol: real, n: nat, k: nat)
    requires k <= n
    ensures var m := FirstStop(f, a0, b0, tol, n, k);
      k <= m <= n &&
      (m < n ==> Converges(RecordAt(f, a0, b0, m), tol)) &&
      forall j :: k <= j < m ==> !Converges(RecordAt(f, a0, b0, j), tol)
    decreases n - k
  {
    if k < n && !Converges(RecordAt(f, a0, b0, k), tol) {
      FirstStopIsFirst(f, a0, b0, tol, n, k + 1);
    }
  }

  /** Without a strict sign change there is no root, no trace and the sign error. */
  lemma NoSignChangeRejected(f: real -> real, a0: real, b0: real, tol: real, maxIter: int)
    ensures Bisect(f, a0, b0, tol, maxIter).SignCheckFailed? <==> f(a0) * f(b0) >= 0.0
    ensures f(a0) * f(b0) >= 0.0 ==>
      var o := Bisect(f, a0, b0, tol, maxIter);
      o.Root() == None && o.Iterations() == None && o.Error() == Some(NoSignChange)
  {
    OppositeIffNegativeProduct(f(a0), f(b0));
  }

  /** An empty bracket never has a strict sign change. */
  lemma DegenerateBracketRejected(f: real -> real, a0: real, tol: real, maxIter: int)
    ensures Bisect(f, a0, a0, tol, maxIter) == SignCheckFailed
  {
  }

  /** Once the sign check passes, the outcome is decided by the first stopping pass m. */
  lemma OutcomeTrace(f: real -> real, a0: real, b0: real, tol: real, maxIter: int)
    requires Opposite(f(a0), f(b0))
    ensures var n := Cap(maxIter); var m := FirstStop(f, a0, b0, tol, n, 0);
      var o := Bisect(f, a0, b0, tol, maxIter);
      m <= n &&
      (m < n ==>
        o == Converged(RecordAt(f, a0, b0, m).c, Prefix(f, a0, b0, m + 1)) &&
        |o.trace| == m + 1 && Converges(RecordAt(f, a0, b0, m), tol)) &&
      (m == n ==> o == Exhausted(Prefix(f, a0, b0, n)) && |o.trace| == n) &&
      forall j :: 0 <= j < m ==> !Converges(RecordAt(f, a0, b0, j), tol)
  {
    var n := Cap(maxIter);
    FirstStopIsFirst(f, a0, b0, tol, n, 0);
    PrefixLength(f, a0, b0, FirstStop(f, a0, b0, tol, n, 0) + 1);
    PrefixLength(f, a0, b0, n);
  }

  /** On success the root is the last record's midpoint, and that record is the first to meet the test. */
  lemma ConvergedOutcome(f: real -> real, a0: real, b0: real, tol: real, maxIter: int)
    requires Bisect(f, a0, b0, tol, maxIter).Converged?
    ensures var o := Bisect(f, a0, b0, tol, maxIter); var t := o.trace;
      1 <= |t| <= Cap(maxIter) &&
      o.Root() == Some(t[|t| - 1].c) && o.Error() == None &&
      Converges(t[|t| - 1], tol) &&
      (forall k :: 0 <= k < |t| - 1 ==> !Converges(t[k], tol)) &&
      t == Prefix(f, a0, b0, |t|)
  {
    var o := Bisect(f, a0, b0, tol, maxIter);
    OutcomeTrace(f, a0, b0, tol, maxIter);
    var t := o.trace;
    PrefixAt(f, a0, b0, |t|, |t| - 1);
    forall k | 0 <= k < |t| - 1 ensures !Converges(t[k], tol) {
      PrefixAt(f, a0, b0, |t|, k);
    }
  }

  /** On exhaustion the trace holds all Cap(maxIter) passes, none meeting the test, and the error is set. */
  lemma ExhaustedOutcome(f: real -> real, a0: real, b0: real, tol: real, maxIter: int)
    requires Bisect(f, a0, b0, tol, maxIter).Exhausted?
    ensures var o := Bisect(f, a0, b0, tol, maxIter); var t := o.trace;
      |t| == Cap(maxIter) &&
      o.Root() == None && o.Error() == Some(MaxIterationsReached) &&
      (forall k :: 0 <= k < |t| ==> !Converges(t[k], tol)) &&
      t == Prefix(f, a0, b0, |t|)
  {
    var o := Bisect(f, a0, b0, tol, maxIter);
    var n := Cap(maxIter);
    FirstStopIsFirst(f, a0, b0, tol, n, 0);
    PrefixLength(f, a0, b0, n);
    var t := o.trace;
    forall k | 0 <= k < |t| ensures !Converges(t[k], tol) {
      PrefixAt(f, a0, b0, |t|, k);
    }
  }

  /** The search is exhausted exactly when the sign check passes and none of the allowed passes meets the test. */
  lemma ExhaustedIff(f: real -> real, a0: real, b0: real, tol: real, maxIter: int)
    ensures Bisect(f, a0, b0, tol, maxIter).Exhausted? <==>
      f(a0) * f(b0) < 0.0 &&
      forall k :: 0 <= k < Cap(maxIter) ==> !Converges(RecordAt(f, a0, b0, k), tol)
  {
    OppositeIffNegativeProduct(f(a0), f(b0));
    FirstStopIsFirst(f, a0, b0, tol, Cap(maxIter), 0);
  }

  /** The trace never exceeds the cap, and holds at least one pass once the sign check passes with a cap of 1 or more. */
  lemma TraceLength(f: real -> real, a0: real, b0: real, tol: real, maxIter: int)
    ensures var o := Bisect(f, a0, b0, tol, maxIter);
      o.Iterations().Some? ==> |o.Iterations().value| <= Cap(maxIter)
    ensures var o := Bisect(f, a0, b0, tol, maxIter);
      f(a0) * f(b0) < 0.0 && maxIter >= 1 ==>
        o.Iterations().Some? && |o.Iterations().value| >= 1
  {
    OppositeIffNegativeProduct(f(a0), f(b0));
    if Opposite(f(a0), f(b0)) {
      OutcomeTrace(f, a0, b0, tol, maxIter);
    }
  }

  /** Given a positive tolerance, every recorded bracket has a strict sign change. */
  lemma TraceBracketed(f: real -> real, a0: real, b0: real, tol: real, maxIter: int)
    requires tol > 0.0
    ensures var o := Bisect(f, a0, b0, tol, maxIter);
      o.Iterations().Some? ==>
        forall k :: 0 <= k < |o.trace| ==> f(o.trace[k].a) * f(o.trace[k].b) < 0.0
  {
    var o := Bisect(f, a0, b0, tol, maxIter);
    OppositeIffNegativeProduct(f(a0), f(b0));
    if Opposite(f(a0), f(b0)) {
      OutcomeTrace(f, a0, b0, tol, maxIter);
      var t := o.trace;
      forall k | 0 <= k < |t| ensures f(t[k].a) * f(t[k].b) < 0.0 {
        PrefixAt(f, a0, b0, |t|, k);
        SignChangeKept(f, a0, b0, tol, k);
      }
    }
  }

  /** For an increasing initial bracket, every recorded a, b, c lies in it, a < c < b, and so does the root. */
  lemma TraceInside(f: real -> real, a0: real, b0: real, tol: real, maxIter: int)
    requires a0 < b0
    ensures var o := Bisect(f, a0, b0, tol, maxIter);
      (o.Iterations().Some? ==>
        forall k :: 0 <= k < |o.trace| ==>
          a0 <= o.trace[k].a < o.trace[k].c < o.trace[k].b <= b0) &&
      (o.Converged? ==> a0 < o.root < b0)
  {
    var o := Bisect(f, a0, b0, tol, maxIter);
    if Opposite(f(a0), f(b0)) {
      OutcomeTrace(f, a0, b0, tol, maxIter);
      var t := o.trace;
      forall k | 0 <= k < |t| ensures a0 <= t[k].a < t[k].c < t[k].b <= b0 {
        PrefixAt(f, a0, b0, |t|, k);
        InsideBracket(f, a0, b0, k);
      }
      if o.Converged? {
        InsideBracket(f, a0, b0, |t| - 1);
      }
    }
  }

  /** A decreasing bracket with a sign change stops on the first pass, by the half-width test. */
  lemma ReversedBracket(f: real -> real, a0: real, b0: real, tol: real, maxIter: int)
    requires a0 > b0 && tol > 0.0 && f(a0) * f(b0) < 0.0 && maxIter >= 1
    ensures var c := (a0 + b0) / 2.0;
      Bisect(f, a0, b0, tol, maxIter) == Converged(c, [Record(1, a0, b0, c, f(c))])
  {
    assert Converges(RecordAt(f, a0, b0, 0), tol);
    assert Prefix(f, a0, b0, 1) == [RecordAt(f, a0, b0, 0)];
  }

  // ---------------------------------------------------------------------------
  // Two concrete runs on f(x) = x over [-1, 3] with tolerance 0.5

  /** A cap of one pass that does not meet the test ends in exhaustion with a one-record trace. */
  lemma ExampleExhausted()
    ensures Bisect(x => x, -1.0, 3.0, 0.5, 1) == Exhausted([Record(1, -1.0, 3.0, 1.0, 1.0)])
  {
    var f: real -> real := x => x;
    assert RecordAt(f, -1.0, 3.0, 0) == Record(1, -1.0, 3.0, 1.0, 1.0);
    assert Prefix(f, -1.0, 3.0, 1) == [RecordAt(f, -1.0, 3.0, 0)];
  }

  /** The second pass hits the exact root 0: the first record keeps [a, c], the second stops. */
  lemma ExampleConverged()
    ensures Bisect(x => x, -1.0, 3.0, 0.5, 5) ==
      Converged(0.0, [Record(1, -1.0, 3.0, 1.0, 1.0), Record(2, -1.0, 1.0, 0.0, 0.0)])
  {
    var f: real -> real := x => x;
    assert RecordAt(f, -1.0, 3.0, 0) == Record(1, -1.0, 3.0, 1.0, 1.0);
    assert BoundsAt(f, -1.0, 3.0, 1) == Bracket(-1.0, 1.0);
    assert RecordAt(f, -1.0, 3.0, 1) == Record(2, -1.0, 1.0, 0.0, 0.0);
    assert Prefix(f, -1.0, 3.0, 2) == [RecordAt(f, -1.0, 3.0, 0), RecordAt(f, -1.0, 3.0, 1)];
  }
}
