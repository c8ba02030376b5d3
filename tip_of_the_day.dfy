/** The tip card: an index into the fixed tip pool and the tip it shows. */
module Tips {
  import opened DiseaseData

  /** The index after `i` in a pool of `n` tips, wrapping past the last. */
  function NextIndex(i: nat, n: nat): (r: nat)
    requires n > 0
    ensures r < n
    ensures i + 1 < n ==> r == i + 1
    ensures i + 1 == n ==> r == 0
  {
    (i + 1) % n
  }

  /** The index reached from `i` after `k` advances. */
  function Advance(i: nat, k: nat, n: nat): nat
    requires n > 0
    decreases k
  {
    if k == 0 then i else Advance(NextIndex(i, n), k - 1, n)
  }

  /** Below the end of the pool, advancing steps one index at a time. */
  lemma {:induction false} AdvanceSteps(i: nat, k: nat, n: nat)
    requires i + k < n
    ensures Advance(i, k, n) == i + k
    decreases k
  {
    if k > 0 {
      AdvanceSteps(i + 1, k - 1, n);
    }
  }

  /** Advancing `a` times and then `b` times is advancing `a + b` times. */
  lemma {:induction false} AdvanceCompose(i: nat, a: nat, b: nat, n: nat)
    requires n > 0
    ensures Advance(Advance(i, a, n), b, n) == Advance(i, a + b, n)
    decreases a
  {
    if a > 0 {
      AdvanceCompose(NextIndex(i, n), a - 1, b, n);
    }
  }

  /** From any in-range index, `n - i` advances land on index 0. */
  lemma AdvanceToZero(i: nat, n: nat)
    requires i < n
    ensures Advance(i, n - i, n) == 0
  {
    AdvanceSteps(i, n - 1 - i, n);
    AdvanceCompose(i, n - 1 - i, 1, n);
  }

  /** `n` advances from an in-range index return to that index. */
  lemma AdvanceFullCycle(i: nat, n: nat)
    requires i < n
    ensures Advance(i, n, n) == i
  {
    AdvanceToZero(i, n);
    AdvanceCompose(i, n - i, i, n);
    AdvanceSteps(0, i, n);
  }

  class TipOfTheDay {
    var tip: string
    var tipIndex: nat

    /** The tip shown is the pool entry at the current index. */
    ghost predicate Consistent()
      reads this
    {
      tipIndex < |TipsOfTheDay| && tip == TipsOfTheDay[tipIndex]
    }

    /** The state before the mount effect has run. */
    constructor ()
      ensures tip == "" && tipIndex == 0
      ensures !Consistent()
    {
      tip := "";
      tipIndex := 0;
    }

    /** The mount effect: some index of the pool and its tip. */
    method Mount()
      modifies this
      ensures Consistent()
    {
      var i: nat :| i < |TipsOfTheDay|;
      tipIndex := i;
      tip := TipsOfTheDay[i];
    }

    method GetNextTip()
      modifies this
      ensures tipIndex == NextIndex(old(tipIndex), |TipsOfTheDay|)
      ensures Consistent()
    {
      var nextIndex := (tipIndex + 1) % |TipsOfTheDay|;
      tipIndex := nextIndex;
      tip := TipsOfTheDay[nextIndex];
    }
  }
}
