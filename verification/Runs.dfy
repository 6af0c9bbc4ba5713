/** Runs of a deterministic step function over a sequence of inputs, shared by
    every state machine of the model. */
module Runs {

  /** The state after all the inputs. */
  function After<S, E, O>(step: (S, E) -> (S, O), s: S, inputs: seq<E>): S {
    if inputs == [] then s
    else step(After(step, s, inputs[..|inputs| - 1]), inputs[|inputs| - 1]).0
  }

  /** The answer to the k-th input. */
  function Answer<S, E, O>(step: (S, E) -> (S, O), s: S, inputs: seq<E>, k: nat): O
    requires k < |inputs|
  {
    step(After(step, s, inputs[..k]), inputs[k]).1
  }

  lemma AfterSnoc<S, E, O>(step: (S, E) -> (S, O), s: S, inputs: seq<E>, last: E)
    ensures After(step, s, inputs + [last]) == step(After(step, s, inputs), last).0
    ensures Answer(step, s, inputs + [last], |inputs|) == step(After(step, s, inputs), last).1
  {
    assert (inputs + [last])[..|inputs|] == inputs;
  }

  lemma LastAppended<E>(a: seq<E>, b: seq<E>, init: seq<E>, last: E)
    requires b != [] && init == b[..|b| - 1] && last == b[|b| - 1]
    ensures a + b == (a + init) + [last] && b == init + [last]
  {
  }

  lemma {:induction false} AfterAppend<S, E, O>(step: (S, E) -> (S, O), s: S, a: seq<E>, b: seq<E>)
    ensures After(step, s, a + b) == After(step, After(step, s, a), b)
    decreases |b|
  {
    if b == [] {
      assert a + b == a;
    } else {
      var init, last := b[..|b| - 1], b[|b| - 1];
      AfterAppend(step, s, a, init);
      LastAppended(a, b, init, last);
      AfterSnoc(step, s, a + init, last);
      AfterSnoc(step, After(step, s, a), init, last);
    }
  }

  /** A run that goes on answers as one that starts where the first part ended. */
  lemma AnswerAppend<S, E, O>(step: (S, E) -> (S, O), s: S, a: seq<E>, b: seq<E>, k: nat)
    requires k < |b|
    ensures Answer(step, s, a + b, |a| + k) == Answer(step, After(step, s, a), b, k)
  {
    AfterAppend(step, s, a, b[..k]);
    assert (a + b)[..|a| + k] == a + b[..k];
  }

  /** One more step of the run. */
  lemma AfterNext<S, E, O>(step: (S, E) -> (S, O), s: S, inputs: seq<E>, k: nat)
    requires k < |inputs|
    ensures After(step, s, inputs[..k + 1]) == step(After(step, s, inputs[..k]), inputs[k]).0
  {
    assert inputs[..k + 1][..k] == inputs[..k];
  }

  lemma AfterFirst<S, E, O>(step: (S, E) -> (S, O), s: S, inputs: seq<E>)
    requires inputs != []
    ensures After(step, s, inputs[..1]) == step(s, inputs[0]).0
    ensures Answer(step, s, inputs, 0) == step(s, inputs[0]).1
  {
    AfterNext(step, s, inputs, 0);
    assert inputs[..0] == [];
  }

  /** Answers do not depend on what comes later. */
  lemma AnswerInPrefix<S, E, O>(step: (S, E) -> (S, O), s: S, inputs: seq<E>, n: nat, k: nat)
    requires k < n <= |inputs|
    ensures Answer(step, s, inputs[..n], k) == Answer(step, s, inputs, k)
  {
    assert inputs[..n][..k] == inputs[..k];
  }
}
