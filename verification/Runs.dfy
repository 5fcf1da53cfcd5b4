/** Runs of deterministic step machines that emit output. */
module Runs {
  datatype Option<+T> = None | Some(value: T)

  /** The state after feeding `inputs` to `step`, and all output in order; None once a step is undefined. */
  function Run<S, I, O>(step: (S, I) -> Option<(S, seq<O>)>, s: S, inputs: seq<I>): Option<(S, seq<O>)>
    decreases |inputs|
  {
    if inputs == [] then Some((s, []))
    else
      match step(s, inputs[0])
      case None => None
      case Some((t, out)) => After(out, Run(step, t, inputs[1..]))
  }

  /** `r`, preceded by the output `out`. */
  function After<S, O>(out: seq<O>, r: Option<(S, seq<O>)>): Option<(S, seq<O>)> {
    match r
    case None => None
    case Some((s, rest)) => Some((s, out + rest))
  }

  lemma AfterAfter<S, O>(a: seq<O>, b: seq<O>, r: Option<(S, seq<O>)>)
    ensures After(a, After(b, r)) == After(a + b, r)
  {
    if r.Some? {
      assert a + (b + r.value.1) == a + b + r.value.1;
    }
  }

  /** A run over a concatenation is the two runs one after the other. */
  lemma {:induction false} RunConcat<S, I, O>(step: (S, I) -> Option<(S, seq<O>)>, s: S, xs: seq<I>, ys: seq<I>)
    requires Run(step, s, xs).Some?
    ensures var (t, out) := Run(step, s, xs).value; Run(step, s, xs + ys) == After(out, Run(step, t, ys))
    decreases |xs|
  {
    if xs == [] {
      assert xs + ys == ys;
      assert Run(step, s, ys).Some? ==> [] + Run(step, s, ys).value.1 == Run(step, s, ys).value.1;
    } else {
      var (t, out) := step(s, xs[0]).value;
      assert (xs + ys)[1..] == xs[1..] + ys;
      RunConcat(step, t, xs[1..], ys);
      var (u, more) := Run(step, t, xs[1..]).value;
      AfterAfter(out, more, Run(step, u, ys));
    }
  }
}
