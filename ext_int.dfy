/** Integers extended with the two infinities that the search uses as
    sentinels (`-float('inf')` and `float('inf')` in the Python engine).
    Only comparison, `max` and `min` are ever applied to them. */
module ExtInt {

  datatype ExtInt = NegInf | Fin(n: int) | PosInf

  /** The order of the extended integers: NegInf below every integer,
      PosInf above. */
  predicate Le(a: ExtInt, b: ExtInt) {
    match (a, b)
    case (NegInf, _) => true
    case (_, PosInf) => true
    case (Fin(x), Fin(y)) => x <= y
    case _ => false
  }

  predicate Lt(a: ExtInt, b: ExtInt) {
    Le(a, b) && a != b
  }

  /** Python's `max(a, b)` on two values. */
  function Max(a: ExtInt, b: ExtInt): ExtInt
  {
    if Le(b, a) then a else b
  }

  /** Python's `min(a, b)` on two values. */
  function Min(a: ExtInt, b: ExtInt): ExtInt
  {
    if Le(a, b) then a else b
  }

  /** The largest element of `s`, NegInf for the empty sequence: the value
      a running maximum started at NegInf holds after folding in `s`. */
  function MaxSeq(s: seq<ExtInt>): ExtInt {
    if s == [] then NegInf else Max(MaxSeq(s[..|s| - 1]), s[|s| - 1])
  }

  /** The smallest element of `s`, PosInf for the empty sequence. */
  function MinSeq(s: seq<ExtInt>): ExtInt {
    if s == [] then PosInf else Min(MinSeq(s[..|s| - 1]), s[|s| - 1])
  }

  /** `x` pulled into the window [lo, hi]: the part of a search value that an
      alpha-beta search with window (lo, hi) is obliged to get right. */
  function Clamp(lo: ExtInt, hi: ExtInt, x: ExtInt): ExtInt
    requires Le(lo, hi)
  {
    Max(lo, Min(x, hi))
  }

  /** `Max` is the least of the upper bounds of its arguments. */
  lemma MaxIsLeastUpperBound(a: ExtInt, b: ExtInt, c: ExtInt)
    ensures Le(a, Max(a, b)) && Le(b, Max(a, b))
    ensures Max(a, b) == a || Max(a, b) == b
    ensures Le(a, c) && Le(b, c) ==> Le(Max(a, b), c)
  {
  }

  /** `Min` is the greatest of the lower bounds of its arguments. */
  lemma MinIsGreatestLowerBound(a: ExtInt, b: ExtInt, c: ExtInt)
    ensures Le(Min(a, b), a) && Le(Min(a, b), b)
    ensures Min(a, b) == a || Min(a, b) == b
    ensures Le(c, a) && Le(c, b) ==> Le(c, Min(a, b))
  {
  }

  lemma LeTotal(a: ExtInt, b: ExtInt)
    ensures Le(a, b) || Le(b, a)
  {
  }

  lemma LeTrans(a: ExtInt, b: ExtInt, c: ExtInt)
    requires Le(a, b) && Le(b, c)
    ensures Le(a, c)
  {
  }

  lemma MaxAssoc(a: ExtInt, b: ExtInt, c: ExtInt)
    ensures Max(Max(a, b), c) == Max(a, Max(b, c))
  {
  }

  lemma MinAssoc(a: ExtInt, b: ExtInt, c: ExtInt)
    ensures Min(Min(a, b), c) == Min(a, Min(b, c))
  {
  }

  /** With the full window nothing is clamped. */
  lemma ClampFullWindow(x: ExtInt)
    ensures Clamp(NegInf, PosInf, x) == x
  {
  }

  /** Agreeing on the clamp to a window means agreeing exactly whenever
      either value lies strictly inside it, and being on the same side of it
      otherwise. */
  lemma ClampAgreement(lo: ExtInt, hi: ExtInt, v: ExtInt, w: ExtInt)
    requires Lt(lo, hi)
    requires Clamp(lo, hi, v) == Clamp(lo, hi, w)
    ensures Lt(lo, w) && Lt(w, hi) ==> v == w
    ensures Le(w, lo) <==> Le(v, lo)
    ensures Le(hi, w) <==> Le(hi, v)
  {
  }

  /** One child of a maximising node: if the running maximum `m` agrees with
      the exact maximum `w` of the children seen so far on the clamp to the
      window (lo, hi), and the child's value `e`, searched with the narrowed
      window (max(lo, m), hi), agrees with its exact value `x` on that
      narrower clamp, then the new running maximum agrees with the new exact
      maximum on the clamp to (lo, hi). */
  lemma ClampMaxStep(lo: ExtInt, hi: ExtInt, m: ExtInt, w: ExtInt, e: ExtInt, x: ExtInt)
    requires Lt(lo, hi) && Lt(Max(lo, m), hi)
    requires Clamp(lo, hi, m) == Clamp(lo, hi, w)
    requires Clamp(Max(lo, m), hi, e) == Clamp(Max(lo, m), hi, x)
    ensures Clamp(lo, hi, Max(m, e)) == Clamp(lo, hi, Max(w, x))
  {
  }

  /** One child of a minimising node, the mirror image of ClampMaxStep. */
  lemma ClampMinStep(lo: ExtInt, hi: ExtInt, m: ExtInt, w: ExtInt, e: ExtInt, x: ExtInt)
    requires Lt(lo, hi) && Lt(lo, Min(hi, m))
    requires Clamp(lo, hi, m) == Clamp(lo, hi, w)
    requires Clamp(lo, Min(hi, m), e) == Clamp(lo, Min(hi, m), x)
    ensures Clamp(lo, hi, Min(m, e)) == Clamp(lo, hi, Min(w, x))
  {
  }

  /** A maximising cutoff: once the running maximum reaches `hi`, no later
      child can change the clamp, since the exact maximum only grows. */
  lemma ClampMaxCutoff(lo: ExtInt, hi: ExtInt, m: ExtInt, w: ExtInt, w': ExtInt)
    requires Lt(lo, hi) && Le(hi, Max(lo, m))
    requires Clamp(lo, hi, m) == Clamp(lo, hi, w) && Le(w, w')
    ensures Clamp(lo, hi, m) == Clamp(lo, hi, w')
  {
  }

  /** A minimising cutoff: once the running minimum reaches `lo`, no later
      child can change the clamp, since the exact minimum only shrinks. */
  lemma ClampMinCutoff(lo: ExtInt, hi: ExtInt, m: ExtInt, w: ExtInt, w': ExtInt)
    requires Lt(lo, hi) && Le(Min(hi, m), lo)
    requires Clamp(lo, hi, m) == Clamp(lo, hi, w) && Le(w', w)
    ensures Clamp(lo, hi, m) == Clamp(lo, hi, w')
  {
  }
}
