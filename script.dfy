/**
 * A fail-fast script: steps run one after the other, each either letting the script go on
 * or ending it; the script reports whether every step it ran let it go on.  This is the
 * shape of `if (waitResponse(...) != 1) return false;` chains and of `goto fail` ones.
 */
module Script {
  /** The steps run in order from state `s` until one of them says stop. */
  function Chain<S, T>(run: (S, T) -> (bool, S), s: S, steps: seq<T>): (r: (bool, S))
    ensures steps == [] ==> r == (true, s)
    decreases |steps|
  {
    if steps == [] then (true, s)
    else
      var c := Chain(run, s, steps[..|steps| - 1]);
      if !c.0 then c else run(c.1, steps[|steps| - 1])
  }

  /** The state in which step `i` starts. */
  function Before<S, T>(run: (S, T) -> (bool, S), s: S, steps: seq<T>, i: nat): S
    requires i <= |steps|
  {
    Chain(run, s, steps[..i]).1
  }

  /** Each of the first `k` steps, run where the ones before it left off, says go on. */
  predicate AllPass<S, T>(run: (S, T) -> (bool, S), s: S, steps: seq<T>, k: nat)
    requires k <= |steps|
  {
    forall i :: 0 <= i < k ==> run(Before(run, s, steps, i), steps[i]).0
  }

  /** Once a step has said stop, nothing after it runs. */
  lemma {:induction false} ChainStopsAtFailure<S, T>(run: (S, T) -> (bool, S), s: S, steps: seq<T>, i: nat)
    requires i <= |steps| && !Chain(run, s, steps[..i]).0
    ensures Chain(run, s, steps) == Chain(run, s, steps[..i])
    decreases |steps| - i
  {
    if i < |steps| {
      assert steps[..i + 1][..i] == steps[..i];
      ChainStopsAtFailure(run, s, steps, i + 1);
    } else {
      assert steps[..i] == steps;
    }
  }

  /** A step starts in the same state whether or not later steps follow it. */
  lemma BeforeInPrefix<S, T>(run: (S, T) -> (bool, S), s: S, steps: seq<T>, n: nat, i: nat)
    requires i <= n <= |steps|
    ensures Before(run, s, steps, i) == Before(run, s, steps[..n], i)
  {
    assert steps[..n][..i] == steps[..i];
  }

  /** A script succeeds exactly when every one of its steps said go on. */
  lemma {:induction false} ChainSucceedsIffAllPass<S, T>(run: (S, T) -> (bool, S), s: S, steps: seq<T>)
    ensures Chain(run, s, steps).0 <==> AllPass(run, s, steps, |steps|)
    decreases |steps|
  {
    if steps != [] {
      var n := |steps| - 1;
      var init := steps[..n];
      ChainSucceedsIffAllPass(run, s, init);
      forall i | 0 <= i < n
        ensures Before(run, s, steps, i) == Before(run, s, init, i) && steps[i] == init[i]
      {
        BeforeInPrefix(run, s, steps, n, i);
      }
      assert Before(run, s, steps, n) == Chain(run, s, init).1;
    }
  }
}
