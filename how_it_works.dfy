/**
 * The step-through walkthrough (components/HowItWorks.tsx): a single active
 * step moved by clamped Next and Previous updaters and by the enabled tabs,
 * with the tab, button, progress and label rules derived from it.
 */
module HowItWorks {

  const StepTitles := ["Upload Video", "AI Analysis", "Review & Fine-tune", "Embed & Share", "Boost Engagement"]

  /** `steps.length - 1`. */
  const LastStep := |StepTitles| - 1

  function Min(a: int, b: int): int { if a <= b then a else b }
  function Max(a: int, b: int): int { if a >= b then a else b }

  /** The Next updater: `Math.min(steps.length - 1, prev + 1)`. */
  function Next(step: int): int {
    Min(LastStep, step + 1)
  }

  /** The Previous updater: `Math.max(0, prev - 1)`. */
  function Previous(step: int): int {
    Max(0, step - 1)
  }

  /** Tab `index` is disabled while it lies ahead of the active step. */
  predicate TabDisabled(index: int, step: int) {
    index > step
  }

  predicate PreviousDisabled(step: int) {
    step == 0
  }

  predicate NextDisabled(step: int) {
    step == LastStep
  }

  function NextLabel(step: int): (caption: string)
    ensures caption == "Finish" <==> step == LastStep
  {
    if step == LastStep then "Finish" else "Next"
  }

  /** The progress bar's value, `activeStep / (steps.length - 1) * 100`. */
  function ProgressValue(step: int): real {
    step as real / LastStep as real * 100.0
  }

  /** Both updaters keep the step among the five. */
  lemma StepsStayInRange(step: int)
    requires 0 <= step <= LastStep
    ensures 0 <= Next(step) <= LastStep && 0 <= Previous(step) <= LastStep
    ensures step < LastStep ==> Next(step) == step + 1
    ensures step > 0 ==> Previous(step) == step - 1
  {
  }

  /** Next on the last step and Previous on the first change nothing, and those buttons are the disabled ones. */
  lemma EndsAreFixed()
    ensures Next(LastStep) == LastStep && NextDisabled(LastStep)
    ensures Previous(0) == 0 && PreviousDisabled(0)
    ensures forall s :: 0 <= s < LastStep ==> !NextDisabled(s) && Next(s) != s
    ensures forall s :: 0 < s <= LastStep ==> !PreviousDisabled(s) && Previous(s) != s
  {
  }

  /** Previous undoes Next from any step but the last. */
  lemma PreviousUndoesNext(step: int)
    requires 0 <= step < LastStep
    ensures Previous(Next(step)) == step
  {
  }

  /** The bar reads 0 on the first step and 100 on the last, and grows with the step. */
  lemma ProgressEnds(s: int, t: int)
    requires 0 <= s <= t <= LastStep
    ensures ProgressValue(0) == 0.0 && ProgressValue(LastStep) == 100.0
    ensures ProgressValue(s) <= ProgressValue(t)
  {
    assert ProgressValue(s) == s as real * 25.0;
    assert ProgressValue(t) == t as real * 25.0;
  }

  /** The walkthrough's state: the active step. */
  class Stepper {
    var activeStep: int

    constructor ()
      ensures activeStep == 0 && Valid()
    {
      activeStep := 0;
    }

    predicate Valid()
      reads this
    {
      0 <= activeStep <= LastStep
    }

    method HandleNext()
      requires Valid()
      modifies this
      ensures activeStep == Next(old(activeStep)) && Valid()
    {
      activeStep := Min(LastStep, activeStep + 1);
    }

    method HandlePrevious()
      requires Valid()
      modifies this
      ensures activeStep == Previous(old(activeStep)) && Valid()
    {
      activeStep := Max(0, activeStep - 1);
    }

    /** A click on an enabled tab: only tabs at or before the active step can be chosen. */
    method SelectTab(index: int)
      requires Valid() && 0 <= index <= LastStep && !TabDisabled(index, activeStep)
      modifies this
      ensures activeStep == index && activeStep <= old(activeStep) && Valid()
    {
      activeStep := index;
    }
  }
}
