/**
 * Express middleware chains: an operation is a fixed list of guards run in
 * order; the first guard that does not pass ends the request with its error,
 * and the final handler runs only when every guard has passed.
 */
module Pipeline {
  import opened Wrappers

  /** One guard: whether it lets the request through, and the error it reports otherwise. */
  datatype Check<+E> = Check(passed: bool, error: E)

  /** Runs the guards left to right and stops at the first one that fails. */
  function FirstFailure<E>(checks: seq<Check<E>>): Outcome<E>
  {
    if checks == [] then Pass
    else if !checks[0].passed then Fail(checks[0].error)
    else FirstFailure(checks[1..])
  }

  predicate AllPass<E>(checks: seq<Check<E>>)
  {
    forall i :: 0 <= i < |checks| ==> checks[i].passed
  }

  /** Guard `k` fails and every guard before it passes. */
  predicate FailsFirstAt<E>(checks: seq<Check<E>>, k: int)
  {
    && 0 <= k < |checks|
    && !checks[k].passed
    && forall i :: 0 <= i < k ==> checks[i].passed
  }

  /** The chain reaches its handler exactly when every guard passes. */
  lemma {:induction false} FirstFailurePasses<E>(checks: seq<Check<E>>)
    ensures FirstFailure(checks).Pass? <==> AllPass(checks)
  {
    if checks != [] && checks[0].passed {
      FirstFailurePasses(checks[1..]);
      if AllPass(checks[1..]) {
        forall i | 0 <= i < |checks| ensures checks[i].passed {
          if i > 0 { assert checks[i] == checks[1..][i - 1]; }
        }
      } else {
        var j :| 0 <= j < |checks[1..]| && !checks[1..][j].passed;
        assert !checks[j + 1].passed;
      }
    }
  }

  /** When the chain reaches its handler, guard `i` has passed. */
  lemma PassedAt<E>(checks: seq<Check<E>>, i: int)
    requires FirstFailure(checks).Pass? && 0 <= i < |checks|
    ensures checks[i].passed
  {
    FirstFailurePasses(checks);
  }

  /** When guard `k` is the first to fail, the chain reports guard `k`'s error. */
  lemma {:induction false} FirstFailureAt<E>(checks: seq<Check<E>>, k: int)
    requires FailsFirstAt(checks, k)
    ensures FirstFailure(checks) == Fail(checks[k].error)
  {
    if k > 0 {
      assert checks[0].passed;
      assert FailsFirstAt(checks[1..], k - 1) by {
        forall i | 0 <= i < k - 1 ensures checks[1..][i].passed {
          assert checks[1..][i] == checks[i + 1];
        }
      }
      FirstFailureAt(checks[1..], k - 1);
    }
  }

  /** Every failure the chain reports is the error of the first guard that fails. */
  lemma {:induction false} FirstFailureIsFirst<E>(checks: seq<Check<E>>)
    ensures FirstFailure(checks).Fail? ==>
      exists k :: FailsFirstAt(checks, k) && FirstFailure(checks).error == checks[k].error
  {
    if checks != [] && checks[0].passed {
      FirstFailureIsFirst(checks[1..]);
      if FirstFailure(checks[1..]).Fail? {
        var k :| FailsFirstAt(checks[1..], k) && FirstFailure(checks[1..]).error == checks[1..][k].error;
        assert FailsFirstAt(checks, k + 1) by {
          forall i | 0 <= i < k + 1 ensures checks[i].passed {
            if i > 0 { assert checks[i] == checks[1..][i - 1]; }
          }
        }
      }
    } else if checks != [] {
      assert FailsFirstAt(checks, 0);
    }
  }

  /** A chain of nine guards passes exactly when each of the nine does. */
  lemma AllPassNine<E>(checks: seq<Check<E>>)
    requires |checks| == 9
    ensures AllPass(checks) <==>
      && checks[0].passed && checks[1].passed && checks[2].passed
      && checks[3].passed && checks[4].passed && checks[5].passed
      && checks[6].passed && checks[7].passed && checks[8].passed
  {
  }
}
