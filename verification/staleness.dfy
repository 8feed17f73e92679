/**
 * The staleness decision srcset.js makes for each configured width of a local
 * image. Three modification times take part: the source image, the resized
 * variant next to it in the source tree, and the published copy of that
 * variant in the build tree. A missing variant counts as time 0 and a missing
 * published copy as time -1. The copy decision looks at the variant's time as
 * it was BEFORE any resize of this run.
 */
module Staleness {
  import opened Wrappers

  /** Whether to resize the source into the variant, and whether to copy the variant to the build tree. */
  datatype Decision = Decision(resize: bool, copy: bool)

  /** The variant's time as the resize test sees it: 0 when the variant does not exist. */
  function VariantTime(variantWhen: Option<int>): int {
    variantWhen.GetOr(0)
  }

  /** The published copy's time as the copy test sees it: -1 when it does not exist. */
  function DestTime(destWhen: Option<int>): int {
    destWhen.GetOr(-1)
  }

  /** The decision for one width, from the three modification times. */
  function Decide(srcWhen: int, variantWhen: Option<int>, destWhen: Option<int>): Decision {
    var sized := VariantTime(variantWhen);
    Decision(srcWhen > sized, sized > DestTime(destWhen))
  }

  /** The work scheduled for one width. */
  datatype Op =
    | Resize(source: string, variant: string, width: nat)
    | Copy(variant: string, dest: string)
    | ResizeThenCopy(source: string, variant: string, width: nat, dest: string)

  /** Only copies are awaited before the build goes on: a lone resize runs unobserved. */
  predicate Awaited(op: Op) {
    op.Copy? || op.ResizeThenCopy?
  }

  /** The operation a decision schedules, if any; a copy that follows a resize is chained after it. */
  function Schedule(d: Decision, source: string, variant: string, width: nat, dest: string): (ops: seq<Op>)
    ensures |ops| <= 1
    ensures |ops| == 1 <==> d.resize || d.copy
    ensures |ops| == 1 ==> ops[0].variant == variant
    ensures |ops| == 1 ==> (ops[0].Resize? || ops[0].ResizeThenCopy? <==> d.resize)
    ensures |ops| == 1 ==> (Awaited(ops[0]) <==> d.copy)
    ensures |ops| == 1 && d.resize ==> ops[0].source == source && ops[0].width == width
    ensures |ops| == 1 && d.copy ==> ops[0].dest == dest
  {
    if d.resize && d.copy then [ResizeThenCopy(source, variant, width, dest)]
    else if d.resize then [Resize(source, variant, width)]
    else if d.copy then [Copy(variant, dest)]
    else []
  }

  // ---------------------------------------------------------------------------
  // What the decision does in the cases that matter

  /** A first build, with neither variant nor published copy, always copies; it resizes unless the source is dated at or before time 0. */
  lemma FreshImageCopied(srcWhen: int)
    ensures Decide(srcWhen, None, None).copy
    ensures Decide(srcWhen, None, None).resize <==> srcWhen > 0
  {
  }

  /** A variant newer than the source, published after it was made, needs nothing. */
  lemma UpToDateIdle(srcWhen: int, variantWhen: int, destWhen: int)
    requires srcWhen <= variantWhen <= destWhen
    ensures Decide(srcWhen, Some(variantWhen), Some(destWhen)) == Decision(false, false)
  {
  }

  /**
   * The copy test uses the variant's old time: when the source changed after a
   * variant that had already been published, the variant is remade but the
   * stale published copy is left in place.
   */
  lemma StalePublishedCopyKept(srcWhen: int, variantWhen: int, destWhen: int)
    requires variantWhen < srcWhen && variantWhen <= destWhen
    ensures Decide(srcWhen, Some(variantWhen), Some(destWhen)) == Decision(true, false)
  {
  }

  // ---------------------------------------------------------------------------
  // Running the build repeatedly

  /** The three times of one width; the source always exists. */
  datatype Times = Times(src: int, variant: Option<int>, dest: Option<int>)

  function DecideTimes(t: Times): Decision {
    Decide(t.src, t.variant, t.dest)
  }

  /**
   * The times after a run whose work finishes at time `now`: a resize rewrites
   * the variant, a copy rewrites the published copy (after the resize, when
   * both happen).
   */
  function AfterRun(t: Times, now: int): (u: Times)
    ensures u.src == t.src
  {
    var d := DecideTimes(t);
    Times(t.src,
          if d.resize then Some(now) else t.variant,
          if d.copy then Some(now) else t.dest)
  }

  /** Nothing left to do. */
  predicate Settled(t: Times) {
    DecideTimes(t) == Decision(false, false)
  }

  /** The clock reads later than every recorded time. */
  predicate Later(t: Times, now: int) {
    now > t.src && now > VariantTime(t.variant) && now > DestTime(t.dest)
  }

  /** A settled width stays settled: a run that schedules nothing changes nothing. */
  lemma SettledStable(t: Times, now: int)
    requires Settled(t)
    ensures AfterRun(t, now) == t
  {
  }

  /** Two runs, each later than everything before it, always settle a width. */
  lemma TwoRunsSettle(t: Times, now1: int, now2: int)
    requires Later(t, now1) && now1 < now2
    ensures Settled(AfterRun(AfterRun(t, now1), now2))
  {
    var u := AfterRun(t, now1);
    var d := DecideTimes(t);
    if d.resize && !d.copy {
      assert u == Times(t.src, Some(now1), t.dest);
      assert AfterRun(u, now2) == Times(t.src, Some(now1), Some(now2));
    }
  }

  /**
   * One run is not always enough: a source edited after its variant was
   * published is resized, but the published copy is only refreshed by the
   * next run.
   */
  lemma OneRunNotEnough()
    ensures var t := Times(5, Some(3), Some(4));
      Later(t, 6) && !Settled(AfterRun(t, 6)) && DecideTimes(AfterRun(t, 6)).copy
  {
    var t := Times(5, Some(3), Some(4));
    assert DecideTimes(t) == Decision(true, false);
    assert AfterRun(t, 6) == Times(5, Some(6), Some(4));
  }
}
