// The probability arrays of both sides read as one function from contexts to probabilities.
module ProbArrays {
  import opened LzmaContexts
  import opened LzmaLayout
  import opened RangeCoder

  ghost function EncView(a: seq<nat>, lits: nat): Probs
    requires |a| == EncProbs(lits)
  {
    imap c: Ctx | ValidCtx(c, lits) :: (InRegion(c, lits); a[EncIx(c)])
  }

  ghost function DecView(a: seq<nat>, lits: nat): Probs
    requires |a| == DecProbs(lits)
  {
    imap c: Ctx | ValidCtx(c, lits) :: (InRegion(c, lits); a[DecIx(c)])
  }

  // Every probability at kProbInitValue.
  ghost function InitialProbs(lits: nat): Probs {
    imap c: Ctx | ValidCtx(c, lits) :: PROB_INIT
  }

  // Writing one element changes the probability of exactly one context.
  lemma EncViewUpdate(a: seq<nat>, lits: nat, c: Ctx, v: nat)
    requires |a| == EncProbs(lits) && ValidCtx(c, lits)
    ensures EncIx(c) < |a| && EncView(a, lits)[c] == a[EncIx(c)]
    ensures EncView(a[EncIx(c) := v], lits) == EncView(a, lits)[c := v]
  {
    InRegion(c, lits);
    forall x | ValidCtx(x, lits)
      ensures EncIx(x) < |a| && (EncIx(x) == EncIx(c) ==> x == c)
    {
      InRegion(x, lits);
      LayoutsInjective(x, c, lits);
    }
  }

  lemma DecViewUpdate(a: seq<nat>, lits: nat, c: Ctx, v: nat)
    requires |a| == DecProbs(lits) && ValidCtx(c, lits)
    ensures DecIx(c) < |a| && DecView(a, lits)[c] == a[DecIx(c)]
    ensures DecView(a[DecIx(c) := v], lits) == DecView(a, lits)[c := v]
  {
    InRegion(c, lits);
    forall x | ValidCtx(x, lits)
      ensures DecIx(x) < |a| && (DecIx(x) == DecIx(c) ==> x == c)
    {
      InRegion(x, lits);
      LayoutsInjective(x, c, lits);
    }
  }
}
