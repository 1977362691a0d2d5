/**
 * The loading screen (components/Loading.tsx): a progress value advanced by
 * a repeating tick whose updater saturates at 100; the tick that finds 100
 * stops the interval and schedules completion. A tick is one call; the
 * timer that issues them is not modelled.
 */
module Loading {

  const Full := 100

  /** The updater: `prev >= 100 ? 100 : prev + 1`. */
  function Tick(p: int): int {
    if p >= Full then Full else p + 1
  }

  /** The progress after `n` ticks from `p`. */
  function Ticks(p: int, n: nat): int {
    if n == 0 then p else Tick(Ticks(p, n - 1))
  }

  function Min(a: int, b: int): int { if a <= b then a else b }

  /** After `n` ticks from the start, the progress is `min(n, 100)`. */
  lemma {:induction false} TicksFromStart(n: nat)
    ensures Ticks(0, n) == Min(n, Full)
  {
    if n > 0 {
      TicksFromStart(n - 1);
    }
  }

  /** A tick keeps the progress within [0, 100] and never lowers it. */
  lemma TickBounded(p: int)
    requires 0 <= p <= Full
    ensures p <= Tick(p) <= Full
    ensures Tick(p) == p <==> p == Full
  {
  }

  /** The first tick to find 100, and so to schedule completion, is tick 101. */
  lemma CompletionOnTick101(k: nat)
    ensures Ticks(0, k) >= Full <==> k >= Full
  {
    TicksFromStart(k);
  }

  class LoadingScreen {
    var progress: int
    var running: bool
    var completionScheduled: bool

    constructor ()
      ensures progress == 0 && running && !completionScheduled && Valid()
    {
      progress := 0;
      running := true;
      completionScheduled := false;
    }

    /** The progress stays within [0, 100]; the interval stops exactly when completion is scheduled, at 100. */
    predicate Valid()
      reads this
    {
      0 <= progress <= Full && (completionScheduled <==> !running) && (completionScheduled ==> progress == Full)
    }

    /** One firing of the interval. */
    method OnTick()
      requires Valid() && running
      modifies this
      ensures progress == Tick(old(progress)) && old(progress) <= progress && Valid()
      ensures completionScheduled <==> old(progress) >= Full
    {
      if progress >= Full {
        running := false;
        completionScheduled := true;
        progress := Full;
      } else {
        progress := progress + 1;
      }
    }
  }
}
