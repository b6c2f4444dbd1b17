/** The shape of the block list `jit_data.block`: ids newest first. */
module Registry {

  predicate StrictlyDecreasing(ids: seq<nat>) {
    forall i, j :: 0 <= i < j < |ids| ==> ids[i] > ids[j]
  }

  /** The ids `n - 1, ..., 1, 0`: the list after `n` blocks were pushed on its front. */
  function Countdown(n: nat): (ids: seq<nat>)
    ensures |ids| == n
  {
    if n == 0 then [] else [n - 1] + Countdown(n - 1)
  }

  /** The countdown holds `n - 1 - k` at index `k`: it runs from newest to
      oldest, every id below `n`, none repeated. */
  lemma {:induction false} CountdownAt(n: nat)
    ensures forall k :: 0 <= k < n ==> Countdown(n)[k] == n - 1 - k
    ensures StrictlyDecreasing(Countdown(n))
  {
    if n > 0 {
      CountdownAt(n - 1);
      assert forall k :: 1 <= k < n ==> Countdown(n)[k] == Countdown(n - 1)[k - 1];
    }
  }

  /** A strictly decreasing list of `n` ids all below `n` holds every id
      from `n - 1` down to `0`: no counter value was skipped or dropped. */
  lemma {:induction false} FullListIsCountdown(ids: seq<nat>, n: nat)
    requires StrictlyDecreasing(ids) && |ids| == n
    requires forall k :: 0 <= k < |ids| ==> ids[k] < n
    ensures ids == Countdown(n)
  {
    if n > 0 {
      var tail := ids[1..];
      forall k | 0 <= k < |tail| ensures tail[k] < n - 1 {
        assert tail[k] == ids[k + 1] < ids[0];
      }
      FullListIsCountdown(tail, n - 1);
      if n > 1 {
        assert ids[0] > ids[1] == n - 2;
      }
      assert ids == [ids[0]] + tail;
    }
  }
}
