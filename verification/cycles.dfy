/** Successive passes of the reconcile loop over one Rotation resource: each
    pass reads the status the previous one left in the resource store, while
    the spec stays as configured. */
module Cycles {
  import opened Wrappers
  import opened Reconciler

  /** Every pass of the run sees a random source that keeps its promise. */
  ghost predicate AllEntropyFits(spec: RotationSpec, envs: seq<Environment>) {
    forall k :: 0 <= k < |envs| ==> EntropyFits(spec, envs[k])
  }

  /** The resource after one pass per environment, in order. */
  function Run(r: Rotation, envs: seq<Environment>): (final: Rotation)
    requires AllEntropyFits(r.spec, envs)
    ensures final.spec == r.spec
    decreases |envs|
  {
    if |envs| == 0 then r
    else Run(r.(status := Reconcile(r, envs[0]).stored), envs[1..])
  }

  lemma PrefixFits(spec: RotationSpec, envs: seq<Environment>, k: nat)
    requires AllEntropyFits(spec, envs)
    requires k <= |envs|
    ensures AllEntropyFits(spec, envs[..k])
  {
    forall j | 0 <= j < k
      ensures EntropyFits(spec, envs[..k][j])
    {
      assert envs[..k][j] == envs[j];
    }
  }

  /** The k-th pass of a run: what it does to the resource left by the
      passes before it. */
  function PassAt(r: Rotation, envs: seq<Environment>, k: nat): (s: Step)
    requires AllEntropyFits(r.spec, envs)
    requires k < |envs|
  {
    PrefixFits(r.spec, envs, k);
    Reconcile(Run(r, envs[..k]), envs[k])
  }

  /** A resource whose interval does not parse is never changed, however
      many passes run. */
  lemma {:induction false} BadIntervalIsInert(r: Rotation, envs: seq<Environment>)
    requires AllEntropyFits(r.spec, envs)
    requires r.spec.rotationInterval.None?
    ensures Run(r, envs) == r
    decreases |envs|
  {
    if |envs| > 0 {
      assert Reconcile(r, envs[0]).stored == r.status;
      assert r.(status := r.status) == r;
      BadIntervalIsInert(r, envs[1..]);
    }
  }

  /** Whatever happens during a run, the last rotation time it ends with is
      the one it started with, or the clock stamp stored by a pass of the run
      that called writeToVault, saw it report success, and whose status
      update went through. */
  lemma {:induction false} StampsComeFromSuccessfulWrites(r: Rotation, envs: seq<Environment>)
    requires AllEntropyFits(r.spec, envs)
    ensures var last := Run(r, envs).status.lastRotatedTime;
      || last == r.status.lastRotatedTime
      || exists k :: 0 <= k < |envs|
                     && PassAt(r, envs, k).vaultWrite.Some?
                     && envs[k].vaultReportsOk && envs[k].statusUpdateOk
                     && PassAt(r, envs, k).stored.lastRotatedTime == Some(envs[k].stampNow)
                     && last == Some(envs[k].stampNow)
    decreases |envs|
  {
    if |envs| > 0 {
      var next := r.(status := Reconcile(r, envs[0]).stored);
      var rest := envs[1..];
      assert AllEntropyFits(next.spec, rest) by {
        forall k | 0 <= k < |rest|
          ensures EntropyFits(next.spec, rest[k])
        {
          assert rest[k] == envs[k + 1];
        }
      }
      StampsComeFromSuccessfulWrites(next, rest);
      var last := Run(r, envs).status.lastRotatedTime;
      assert last == Run(next, rest).status.lastRotatedTime;
      if last != next.status.lastRotatedTime {
        var k :| && 0 <= k < |rest|
                 && PassAt(next, rest, k).vaultWrite.Some?
                 && rest[k].vaultReportsOk && rest[k].statusUpdateOk
                 && PassAt(next, rest, k).stored.lastRotatedTime == Some(rest[k].stampNow)
                 && last == Some(rest[k].stampNow);
        assert envs[k + 1] == rest[k];
        assert envs[..k + 1][0] == envs[0];
        assert envs[..k + 1][1..] == rest[..k];
        assert PassAt(r, envs, k + 1) == PassAt(next, rest, k);
      } else if last != r.status.lastRotatedTime {
        assert envs[..0] == [];
        assert PassAt(r, envs, 0) == Reconcile(r, envs[0]);
      }
    }
  }

  /** With a positive interval and a clock that does not run backwards within
      a pass, a run never moves the last rotation time backwards, and a
      resource that was rotated once stays rotated. */
  lemma {:induction false} RunNeverMovesBack(r: Rotation, envs: seq<Environment>)
    requires AllEntropyFits(r.spec, envs)
    requires r.spec.rotationInterval.Some? && r.spec.rotationInterval.value > 0
    requires forall k :: 0 <= k < |envs| ==> envs[k].sinceNow <= envs[k].stampNow
    requires r.status.lastRotatedTime.Some?
    ensures Run(r, envs).status.lastRotatedTime.Some?
    ensures Run(r, envs).status.lastRotatedTime.value >= r.status.lastRotatedTime.value
    decreases |envs|
  {
    if |envs| > 0 {
      LastRotatedNeverMovesBack(r, envs[0]);
      var next := r.(status := Reconcile(r, envs[0]).stored);
      var rest := envs[1..];
      assert AllEntropyFits(next.spec, rest) by {
        forall k | 0 <= k < |rest|
          ensures EntropyFits(next.spec, rest[k])
        {
          assert rest[k] == envs[k + 1];
        }
      }
      assert forall k :: 0 <= k < |rest| ==> rest[k].sinceNow <= rest[k].stampNow by {
        forall k | 0 <= k < |rest|
          ensures rest[k].sinceNow <= rest[k].stampNow
        {
          assert rest[k] == envs[k + 1];
        }
      }
      RunNeverMovesBack(next, rest);
    }
  }
}
