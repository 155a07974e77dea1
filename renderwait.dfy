/**
 * The loop of `waitTillHTMLRendered` in src/utils.ts: the page's HTML is
 * sampled once a second, at most thirty times, until its length has stayed
 * the same, and non-zero, for two samples after the first one.
 *
 * The page is not modelled: `content(k)` is the length of the HTML the
 * `k`-th sample (counting from 0) returns, and the one-second waits are
 * counted instead of performed.
 */
module RenderWait {
  const TimeoutMs: nat := 30000
  const CheckDurationMs: nat := 1000
  const MaxChecks: nat := TimeoutMs / CheckDurationMs
  const MinStableSizeIterations: nat := 2

  /** The value of `countStableSizeIterations` after sample `k`, when the
      loop has not stopped before it. */
  function StableAfter(content: nat -> nat, k: nat): nat {
    var last := if k == 0 then 0 else content(k - 1);
    var before := if k == 0 then 0 else StableAfter(content, k - 1);
    if last != 0 && content(k) == last then before + 1 else 0
  }

  /** Samples `k - n` to `k` all have the same length, and it is not zero. */
  predicate SteadyRun(content: nat -> nat, k: nat, n: nat) {
    n == 0 || (k >= 1 && content(k - 1) != 0 && content(k) == content(k - 1) && SteadyRun(content, k - 1, n - 1))
  }

  /** The counter is the length of the run of equal non-zero samples that
      ends at `k`: it reaches `n` exactly when the last `n + 1` samples are
      equal and non-zero. */
  lemma {:induction false} StableIsRun(content: nat -> nat, k: nat, n: nat)
    ensures StableAfter(content, k) >= n <==> SteadyRun(content, k, n)
    decreases n
  {
    if n > 0 && k > 0 {
      StableIsRun(content, k - 1, n - 1);
    }
  }

  /** The loop stops after sample `k`: three samples in a row, ending at
      `k`, have the same non-zero length. */
  ghost predicate Settled(content: nat -> nat, k: nat) {
    k >= 2 && content(k) != 0 && content(k) == content(k - 1) && content(k - 1) == content(k - 2)
  }

  lemma SettledIsStable(content: nat -> nat, k: nat)
    ensures StableAfter(content, k) >= MinStableSizeIterations <==> Settled(content, k)
  {
    StableIsRun(content, k, 2);
  }

  /** The loop of `waitTillHTMLRendered`: `samples` is how many times the
      HTML was read and `waits` how many one-second waits followed. The loop
      stops right after the first sample that settles, without waiting, and
      otherwise after thirty samples, each followed by a wait. */
  method WaitTillHTMLRendered(content: nat -> nat) returns (samples: nat, waits: nat)
    ensures 1 <= samples <= MaxChecks
    ensures forall k :: 0 <= k < samples - 1 ==> !Settled(content, k)
    ensures Settled(content, samples - 1) ==> waits == samples - 1
    ensures !Settled(content, samples - 1) ==> samples == MaxChecks && waits == MaxChecks
  {
    var lastHTMLSize := 0;
    var checkCounts := 1;
    var countStableSizeIterations := 0;
    samples, waits := 0, 0;
    while true
      invariant checkCounts == samples + 1 <= MaxChecks + 1
      invariant waits == samples
      invariant lastHTMLSize == (if samples == 0 then 0 else content(samples - 1))
      invariant countStableSizeIterations == (if samples == 0 then 0 else StableAfter(content, samples - 1))
      invariant forall k :: 0 <= k < samples ==> !Settled(content, k)
      decreases MaxChecks + 1 - samples
    {
      var check := checkCounts;
      checkCounts := checkCounts + 1;
      if !(check <= MaxChecks) {
        break;
      }
      var currentHTMLSize := content(samples);
      samples := samples + 1;
      if lastHTMLSize != 0 && currentHTMLSize == lastHTMLSize {
        countStableSizeIterations := countStableSizeIterations + 1;
      } else {
        countStableSizeIterations := 0;
      }
      SettledIsStable(content, samples - 1);
      if countStableSizeIterations >= MinStableSizeIterations {
        break;
      }
      lastHTMLSize := currentHTMLSize;
      waits := waits + 1;
    }
  }
}
