/** Element values and the scalar operations the engine delegates to.

    Scalar numerics live outside the engine, so the element type `S` is
    abstract. A complex value is a (re, im) pair over `S`; an emitting node
    (IF, IFELSE) produces `Void`. The `Algebra` record carries the few scalar
    operations the structural operators themselves use: the zero used as the
    imaginary part of a real, negation (for conjugation), the product Kron
    forms, and the truth test IF/IFELSE apply to a condition value.
 */
module Values {

  datatype Value<S> = Void | Real(x: S) | Complex(re: S, im: S)

  datatype Algebra<!S> = Algebra(
    zero: S,
    neg: S -> S,
    mul: (Value<S>, Value<S>) -> Value<S>,
    truth: Value<S> -> bool)

  /** `.real()`: a real is its own real part. */
  function Re<S>(alg: Algebra<S>, v: Value<S>): S {
    match v
    case Real(x) => x
    case Complex(re, _) => re
    case Void => alg.zero
  }

  /** `.imag()`: a real has imaginary part zero. */
  function Im<S>(alg: Algebra<S>, v: Value<S>): S {
    match v
    case Real(_) => alg.zero
    case Complex(_, im) => im
    case Void => alg.zero
  }

  /** Complex conjugation; reals and void pass through. */
  function Conj<S>(alg: Algebra<S>, v: Value<S>): (w: Value<S>)
    ensures Re(alg, w) == Re(alg, v)
    ensures v.Complex? ==> w.Complex? && w.im == alg.neg(v.im)
    ensures !v.Complex? ==> w == v
  {
    match v
    case Complex(re, im) => Complex(re, alg.neg(im))
    case _ => v
  }

  /** Negation undoes itself, as it does on every numeric type. */
  ghost predicate NegInvolutive<S(!new)>(alg: Algebra<S>) {
    forall s :: alg.neg(alg.neg(s)) == s
  }

  /** Conjugating twice gives the value back. */
  lemma ConjInvolution<S(!new)>(alg: Algebra<S>, v: Value<S>)
    requires NegInvolutive(alg)
    ensures Conj(alg, Conj(alg, v)) == v
  {
  }

  /** A complex value is rebuilt from its real and imaginary parts. */
  lemma ComplexFromParts<S>(alg: Algebra<S>, v: Value<S>)
    requires v.Complex?
    ensures Complex(Re(alg, v), Im(alg, v)) == v
  {
  }
}
