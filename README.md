# Bisection root finder, modelled in Dafny

This project models `bisection_method` from `bisection_method_project.py`, the numerical core of a web tool that visualises the bisection method. It also proves properties of that model.

The solver takes a function `f`, a bracket `[a, b]`, a tolerance `tol` (default `1e-6`) and an iteration cap `max_iter` (default `100`). It works as follows:

- It rejects the bracket unless `f(a) * f(b) < 0`.
- Otherwise each pass takes the midpoint `c = (a + b) / 2` and appends the record `{Iteration, a, b, c, f(c)}` to the trace.
- It stops with root `c` as soon as `|f(c)| < tol` or the half-width `(b - a) / 2 < tol`.
- Otherwise it keeps `[a, c]` when `f(c) * f(a) < 0`, and `[c, b]` otherwise.
- After `max_iter` passes it reports that the cap was reached.

Files:

- `wrappers.dfy`: module `Wrappers`, the `Option` type used for the original's `None` results.
- `bisection.dfy`: module `Bisection`, which holds the whole model:
  - the data: `Record` is the trace row, `Bracket`, `ErrorKind` holds the two error messages, and `Outcome` is `Converged(root, trace) | SignCheckFailed | Exhausted(trace)`. `Outcome` has the accessors `Root()`, `Iterations()` and `Error()`, which give back the original's `(root, iterations, error)` triple.
  - `BisectionMethod`: the loop, written as a `while` loop that updates `a`, `b` and the trace, with early returns. It is proved to return exactly `Bisect(...)`.
  - `Bisect`: a reference definition of the outcome. `RecordAt(f, a0, b0, k)` gives pass `k` in closed form, `Prefix(..., n)` gives the first `n` records, and `FirstStop` gives the index of the first pass that meets the stopping test.
  - `Run`: the loop read as a recursion on its state. It is the loop invariant, and `RunFrom` proves that it agrees with the closed form.
  - the lemmas: properties of `Bisect` that the solver promises. These cover the sign-check rejection, the shape and linking of the trace, the halving of the width, the bracket invariant, containment, and both the success and the exhaustion outcomes.

The solver checks none of `a != b`, `tol > 0` or `max_iter >= 1`, so the model requires none of them either:

- A non-positive `max_iter` gives zero passes, because that is what `range(max_iter)` does. The result is exhaustion with an empty trace.
- `a == b` always fails the sign check (`DegenerateBracketRejected`).
- A reversed bracket `a > b` with `tol > 0` stops on the first pass, through the half-width test (`ReversedBracket`).
- The lemmas that rely on a positive tolerance (the bracket invariant) say so in their `requires`.

## Model

| member | source | states |
|---|---|---|
| `Bisection.BisectionMethod` | bisection_method_project.py:17-34 | the loop's result is exactly the reference outcome `Bisect`: the sign-check rejection, the first pass meeting the stop test, or exhaustion after `max(max_iter, 0)` passes |
| `Bisection.RunFrom` | bisection_method_project.py:22-34 | running the loop from pass i, on the closed-form bracket and trace of pass i, ends at the outcome of the first stopping pass at or after i |
| `Bisection.RunStep` | bisection_method_project.py:22-32 | one pass of the loop on the closed-form state: it either stops with that record appended, or continues from the next closed-form bracket and trace |
| `Bisection.BisectIsRun` | bisection_method_project.py:18-34 | once the sign check passes, the reference outcome is the loop started at pass 0 on `(a, b)` with an empty trace |
| `Bisection.OppositeIffNegativeProduct` | bisection_method_project.py:18 | `x * y < 0` holds exactly when x and y are nonzero with opposite signs |
| `Bisection.Outcome.Root` | bisection_method_project.py:19-34 | a root is returned exactly on convergence |
| `Bisection.Outcome.Iterations` | bisection_method_project.py:19-34 | the trace is absent (`None`) exactly when the sign check failed |
| `Bisection.Outcome.Error` | bisection_method_project.py:19-34 | the error is absent exactly on convergence; it is the sign-change message exactly on rejection and the cap message exactly on exhaustion |
| `Bisection.NoSignChangeRejected` | bisection_method_project.py:18-19 | the outcome is a rejection if and only if `f(a) * f(b) >= 0`; it then has no root, no trace and the sign-change error |
| `Bisection.DegenerateBracketRejected` | bisection_method_project.py:18-19 | a bracket with `a == b` is always rejected |
| `Bisection.PrefixAt` | bisection_method_project.py:22-25 | record k of the trace is pass k: `Iteration == k + 1`, `c == (a + b) / 2`, `f(c)` is f at that c, and record 0 holds the initial bounds |
| `Bisection.TraceLinked` | bisection_method_project.py:29-32 | record k+1 has bounds `(a_k, c_k)` when `f(c_k) * f(a_k) < 0` and `(c_k, b_k)` otherwise, so its width is half of record k's |
| `Bisection.BoundsHalve` | bisection_method_project.py:29-32 | each bracket update halves the width `b - a` |
| `Bisection.WidthHalved` | bisection_method_project.py:23-32 | the width of pass k's bracket equals the initial width halved k times |
| `Bisection.SignStep` | bisection_method_project.py:27-32 | when the midpoint did not stop the search (given `tol > 0`), the half kept by the update still has a strict sign change |
| `Bisection.SignChangeKept` | bisection_method_project.py:18-32 | with `tol > 0` and an initial strict sign change, every bracket reached without an earlier stop has `f(a) * f(b) < 0` |
| `Bisection.InsideBracket` | bisection_method_project.py:23-32 | for `a0 < b0`, every pass has `a0 <= a < c < b <= b0` |
| `Bisection.FirstStopIsFirst` | bisection_method_project.py:22-28 | the stop index meets the test when it is below the cap, and no earlier pass does |
| `Bisection.OutcomeTrace` | bisection_method_project.py:22-34 | after a passed sign check, the outcome is convergence at the first stopping pass m (trace of m+1 records), or exhaustion with all passes |
| `Bisection.ConvergedOutcome` | bisection_method_project.py:27-28 | on success the trace has 1 to `max(max_iter, 0)` records, the root is the last record's c, the last record meets the test, no earlier record does, and there is no error |
| `Bisection.ExhaustedOutcome` | bisection_method_project.py:22-34 | on exhaustion the trace has exactly `max(max_iter, 0)` records, none meets the test, there is no root, and the error is the cap message |
| `Bisection.ExhaustedIff` | bisection_method_project.py:22-34 | exhaustion happens if and only if the sign check passes and none of the allowed passes meets the test |
| `Bisection.TraceLength` | bisection_method_project.py:22-34 | the trace never exceeds `max(max_iter, 0)` records, and it has at least one record when the sign check passes and `max_iter >= 1` |
| `Bisection.TraceBracketed` | bisection_method_project.py:18-32 | with `tol > 0`, every recorded `(a, b)` has `f(a) * f(b) < 0` |
| `Bisection.TraceInside` | bisection_method_project.py:23-32 | for `a0 < b0`, every recorded a, b, c lies in `[a0, b0]` with `a < c < b`, and a returned root lies strictly inside `(a0, b0)` |
| `Bisection.ReversedBracket` | bisection_method_project.py:23-28 | for `a0 > b0`, `tol > 0`, a sign change and `max_iter >= 1`, the midpoint is returned after exactly one record |
| `Bisection.ExampleExhausted` | bisection_method_project.py:22-34 | f(x) = x on [-1, 3] with tol 0.5 and a cap of 1 ends in exhaustion with the single record (1, -1, 3, 1, 1) |
| `Bisection.ExampleConverged` | bisection_method_project.py:22-32 | the same problem with a cap of 5 keeps [-1, 1] after pass 1 and stops at root 0 on pass 2 |

## Left out

- The Flask server and the Dash app, with its layout (bisection_method_project.py:9-13, 38-186), are user interface and web plumbing.
- `update_output` (bisection_method_project.py:193-247) is left out, with all of its parts:
  - the sympy parsing of the formula into a function, which is a foreign library;
  - the plotly figure;
  - the input check at line 205, which also rejects a bound equal to 0;
  - the catch-all that turns exceptions into a message.
- `app.run_server` (bisection_method_project.py:250-251) is the process entry point and is left out.
- An exception raised by `f` itself (a domain error, a division by zero) is not modelled. The model's `f` is a total `real -> real`.
- IEEE floating point is not modelled. All arithmetic is exact over `real`, so halving is exact, and what happens once precision runs out (stalled midpoints, a width that stops shrinking) is not captured.
- The error messages are the two `ErrorKind` constants, not their text.
- The trace records are a datatype, not Python dictionaries.
- "The true root stays inside the bracket" is not modelled, because it needs `f` to be continuous (the intermediate value theorem). The model proves the strict sign change on every recorded bracket instead (`TraceBracketed`).
- Calling the solver twice with the same arguments gives the same result. There is no lemma for this, because `Bisect` is a function and no hidden state exists.
