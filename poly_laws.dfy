/** Algebraic laws of the abstract polynomial: the convolution is bilinear,
    commutative and associative, evaluation is a ring homomorphism, and
    composition evaluates to the composed values. */
module PolyLaws {
  import opened PolySpec

  // ---------------------------------------------------------------------
  // Facts about the convolution sums

  /** Convolution at a negative exponent is zero. */
  lemma {:induction false} ConvUpToNeg(p: seq<real>, q: seq<real>, k: int, n: nat)
    requires k < 0
    ensures ConvUpTo(p, q, k, n) == 0.0
  {
    if n > 0 { ConvUpToNeg(p, q, k, n - 1); }
  }

  /** Terms beyond the length of p contribute nothing. */
  lemma {:induction false} ConvUpToExtend(p: seq<real>, q: seq<real>, k: int, n: nat)
    requires n >= |p|
    ensures ConvUpTo(p, q, k, n) == Conv(p, q, k)
    decreases n
  {
    if n > |p| {
      ConvUpToExtend(p, q, k, n - 1);
    }
  }

  /** a * b as a named function: the arithmetic steps below are stated over
      it (and over Horner, further down), so that they combine by congruence
      rather than by nonlinear reasoning. */
  function Times(a: real, b: real): real {
    a * b
  }

  /** One term of the partial convolution sum. */
  lemma ConvStep(p: seq<real>, q: seq<real>, k: int, j: nat, i: nat)
    requires j == i + 1
    ensures ConvUpTo(p, q, k, j) == ConvUpTo(p, q, k, i) + Times(Coeff(p, i), CoeffZ(q, k - i))
  {
  }

  /** The partial sums are additive in p. */
  lemma {:induction false} ConvUpToSum(a: seq<real>, b: seq<real>, c: seq<real>, q: seq<real>, k: int, n: nat)
    requires forall i: nat :: Coeff(c, i) == Coeff(a, i) + Coeff(b, i)
    ensures ConvUpTo(c, q, k, n) == ConvUpTo(a, q, k, n) + ConvUpTo(b, q, k, n)
  {
    if n > 0 {
      ConvUpToSum(a, b, c, q, k, n - 1);
      ConvStep(a, q, k, n, n - 1);
      ConvStep(b, q, k, n, n - 1);
      ConvStep(c, q, k, n, n - 1);
      assert Coeff(c, n - 1) == Coeff(a, n - 1) + Coeff(b, n - 1);
      SumGlue(ConvUpTo(c, q, k, n), ConvUpTo(a, q, k, n), ConvUpTo(b, q, k, n),
              ConvUpTo(c, q, k, n - 1), ConvUpTo(a, q, k, n - 1), ConvUpTo(b, q, k, n - 1),
              Coeff(c, n - 1), Coeff(a, n - 1), Coeff(b, n - 1), CoeffZ(q, k - (n - 1)));
    }
  }

  lemma SumGlue(uc: real, ua: real, ub: real, uc0: real, ua0: real, ub0: real,
                cc: real, ca: real, cb: real, t: real)
    requires uc == uc0 + Times(cc, t) && ua == ua0 + Times(ca, t) && ub == ub0 + Times(cb, t)
    requires uc0 == ua0 + ub0 && cc == ca + cb
    ensures uc == ua + ub
  {
  }

  /** The partial sums are homogeneous in p. */
  lemma {:induction false} ConvUpToScale(a: seq<real>, x: real, c: seq<real>, q: seq<real>, k: int, n: nat)
    requires forall i: nat :: Coeff(c, i) == Times(Coeff(a, i), x)
    ensures ConvUpTo(c, q, k, n) == Times(ConvUpTo(a, q, k, n), x)
  {
    if n > 0 {
      ConvUpToScale(a, x, c, q, k, n - 1);
      ConvStep(a, q, k, n, n - 1);
      ConvStep(c, q, k, n, n - 1);
      assert Coeff(c, n - 1) == Times(Coeff(a, n - 1), x);
      ScaleGlue(ConvUpTo(c, q, k, n), ConvUpTo(a, q, k, n), ConvUpTo(c, q, k, n - 1), ConvUpTo(a, q, k, n - 1),
                Coeff(c, n - 1), Coeff(a, n - 1), CoeffZ(q, k - (n - 1)), x);
    } else {
      ZeroTimes(ConvUpTo(c, q, k, n), ConvUpTo(a, q, k, n), x);
    }
  }

  lemma ScaleGlue(uc: real, ua: real, uc0: real, ua0: real, cc: real, ca: real, t: real, x: real)
    requires uc == uc0 + Times(cc, t) && ua == ua0 + Times(ca, t)
    requires uc0 == Times(ua0, x) && cc == Times(ca, x)
    ensures uc == Times(ua, x)
  {
  }

  lemma ZeroTimes(e: real, a: real, x: real)
    requires e == 0.0 && a == 0.0
    ensures e == Times(a, x)
  {
  }

  lemma ConvAddLeft(a: seq<real>, b: seq<real>, q: seq<real>, k: int)
    ensures Conv(Add(a, b), q, k) == Conv(a, q, k) + Conv(b, q, k)
  {
    var c := Add(a, b);
    var n := |a| + |b| + |c|;
    ConvUpToSum(a, b, c, q, k, n);
    ConvUpToExtend(a, q, k, n);
    ConvUpToExtend(b, q, k, n);
    ConvUpToExtend(c, q, k, n);
  }

  lemma ConvSubLeft(a: seq<real>, b: seq<real>, q: seq<real>, k: int)
    ensures Conv(Sub(a, b), q, k) == Conv(a, q, k) - Conv(b, q, k)
  {
    var d := Sub(a, b);
    var n := |a| + |b| + |d|;
    forall i: nat ensures Coeff(a, i) == Coeff(d, i) + Coeff(b, i) {
      assert Coeff(d, i) == Coeff(a, i) - Coeff(b, i);
    }
    ConvUpToSum(d, b, a, q, k, n);
    ConvUpToExtend(a, q, k, n);
    ConvUpToExtend(b, q, k, n);
    ConvUpToExtend(d, q, k, n);
  }

  lemma ConvScaleLeft(a: seq<real>, c: real, q: seq<real>, k: int)
    ensures Conv(Scale(a, c), q, k) == Times(Conv(a, q, k), c)
  {
    var s := Scale(a, c);
    var n := |a| + |s|;
    forall i: nat ensures Coeff(s, i) == Times(Coeff(a, i), c) {
    }
    ConvUpToScale(a, c, s, q, k, n);
    ConvUpToExtend(a, q, k, n);
    ConvUpToExtend(s, q, k, n);
  }

  /** Splitting off the constant term of p. */
  lemma {:induction false} ConvUpToHead(p: seq<real>, q: seq<real>, k: int, n: nat)
    requires n >= 1
    ensures ConvUpTo(p, q, k, n) == Times(Coeff(p, 0), CoeffZ(q, k)) + ConvUpTo(Tail(p), q, k - 1, n - 1)
  {
    if n > 1 {
      ConvUpToHead(p, q, k, n - 1);
      ConvStep(p, q, k, n, n - 1);
      ConvStep(Tail(p), q, k - 1, n - 1, n - 2);
      TailCoeff(p, n - 2, n - 1);
      assert k - 1 - (n - 2) == k - (n - 1);
    } else {
      ConvStep(p, q, k, 1, 0);
    }
  }

  lemma TailCoeff(p: seq<real>, i: nat, j: nat)
    requires j == i + 1
    ensures Coeff(Tail(p), i) == Coeff(p, j)
  {
  }

  /** The recursive shape of the convolution: p * q = p0 * q + x * (Tail(p) * q). */
  lemma ConvHead(p: seq<real>, q: seq<real>, k: int)
    ensures Conv(p, q, k) == Times(Coeff(p, 0), CoeffZ(q, k)) + Conv(Tail(p), q, k - 1)
  {
    if |p| > 0 {
      ConvUpToHead(p, q, k, |p|);
    } else {
      ZeroTimes(Conv(p, q, k) - Conv(Tail(p), q, k - 1), Coeff(p, 0), CoeffZ(q, k));
    }
  }

  /** The convolution is commutative. */
  lemma {:induction false} ConvComm(p: seq<real>, q: seq<real>, k: int)
    ensures Conv(p, q, k) == Conv(q, p, k)
    decreases k
  {
    if k < 0 {
      ConvUpToNeg(p, q, k, |p|);
      ConvUpToNeg(q, p, k, |q|);
    } else if k == 0 {
      ConvHead(p, q, 0);
      ConvHead(q, p, 0);
      ConvUpToNeg(Tail(p), q, -1, |Tail(p)|);
      ConvUpToNeg(Tail(q), p, -1, |Tail(q)|);
      TimesComm(Coeff(p, 0), Coeff(q, 0));
    } else {
      ConvHead(p, q, k);
      ConvComm(Tail(p), q, k - 1);
      ConvHeadAt(q, Tail(p), k - 1, k - 2);
      ConvHead(q, p, k);
      ConvComm(Tail(q), p, k - 1);
      ConvHeadAt(p, Tail(q), k - 1, k - 2);
      ConvComm(Tail(p), Tail(q), k - 2);
      TailCoeffZ(p, k - 1, k);
      TailCoeffZ(q, k - 1, k);
    }
  }

  lemma ConvHeadAt(p: seq<real>, q: seq<real>, k: int, j: int)
    requires j == k - 1
    ensures Conv(p, q, k) == Times(Coeff(p, 0), CoeffZ(q, k)) + Conv(Tail(p), q, j)
  {
    ConvHead(p, q, k);
  }

  lemma TailCoeffZ(p: seq<real>, i: int, j: int)
    requires i >= 0 && j == i + 1
    ensures CoeffZ(Tail(p), i) == CoeffZ(p, j)
  {
  }

  lemma TimesComm(a: real, b: real)
    ensures Times(a, b) == Times(b, a)
  {
  }

  // ---------------------------------------------------------------------
  // Ring laws on polynomials

  /** (p + q) - q == p: re-trimming after the leading terms cancel loses nothing. */
  lemma AddSubCancel(p: seq<real>, q: seq<real>)
    requires Trimmed(p)
    ensures Sub(Add(p, q), q) == p
  {
    Ext(Sub(Add(p, q), q), p);
  }

  lemma MulZeroLeft(q: seq<real>)
    ensures Mul([], q) == []
  {
    Ext(Mul([], q), []);
  }

  lemma MulZeroRight(p: seq<real>)
    ensures Mul(p, []) == []
  {
    forall k: nat ensures Conv(p, [], k) == 0.0 {
      ConvComm(p, [], k);
    }
    Ext(Mul(p, []), []);
  }

  /** Multiplication is commutative. */
  lemma MulComm(p: seq<real>, q: seq<real>)
    ensures Mul(p, q) == Mul(q, p)
  {
    forall k: nat ensures Coeff(Mul(p, q), k) == Coeff(Mul(q, p), k) {
      ConvComm(p, q, k);
    }
    Ext(Mul(p, q), Mul(q, p));
  }

  /** Multiplication distributes over addition and subtraction on the left. */
  lemma MulAddLeft(a: seq<real>, b: seq<real>, q: seq<real>)
    ensures Mul(Add(a, b), q) == Add(Mul(a, q), Mul(b, q))
  {
    var l := Mul(Add(a, b), q);
    var r := Add(Mul(a, q), Mul(b, q));
    forall k: nat ensures Coeff(l, k) == Coeff(r, k) {
      ConvAddLeft(a, b, q, k);
    }
    Ext(l, r);
  }

  lemma MulSubLeft(a: seq<real>, b: seq<real>, q: seq<real>)
    ensures Mul(Sub(a, b), q) == Sub(Mul(a, q), Mul(b, q))
  {
    var l := Mul(Sub(a, b), q);
    var r := Sub(Mul(a, q), Mul(b, q));
    forall k: nat ensures Coeff(l, k) == Coeff(r, k) {
      ConvSubLeft(a, b, q, k);
    }
    Ext(l, r);
  }

  lemma MulAddRight(p: seq<real>, a: seq<real>, b: seq<real>)
    ensures Mul(p, Add(a, b)) == Add(Mul(p, a), Mul(p, b))
  {
    MulComm(p, Add(a, b));
    MulAddLeft(a, b, p);
    MulComm(a, p);
    MulComm(b, p);
  }

  lemma MulSubRight(p: seq<real>, a: seq<real>, b: seq<real>)
    ensures Mul(p, Sub(a, b)) == Sub(Mul(p, a), Mul(p, b))
  {
    MulComm(p, Sub(a, b));
    MulSubLeft(a, b, p);
    MulComm(a, p);
    MulComm(b, p);
  }

  lemma CoeffMulScaleLeft(a: seq<real>, c: real, q: seq<real>, k: nat)
    ensures Coeff(Mul(Scale(a, c), q), k) == Coeff(Scale(Mul(a, q), c), k)
  {
    ConvScaleLeft(a, c, q, k);
  }

  lemma MulScaleLeft(a: seq<real>, c: real, q: seq<real>)
    ensures Mul(Scale(a, c), q) == Scale(Mul(a, q), c)
  {
    forall k: nat ensures Coeff(Mul(Scale(a, c), q), k) == Coeff(Scale(Mul(a, q), c), k) {
      CoeffMulScaleLeft(a, c, q, k);
    }
    Ext(Mul(Scale(a, c), q), Scale(Mul(a, q), c));
  }

  lemma ConvShiftLeft(a: seq<real>, q: seq<real>, k: nat)
    requires Trimmed(a)
    ensures Conv(Shift(a), q, k) == Coeff(Shift(Mul(a, q)), k)
  {
    ConvHead(Shift(a), q, k);
    TailShift(a);
    CoeffShiftMul(a, q, k);
    assert Coeff(Shift(a), 0) == 0.0 by { CoeffShift(a, 0); }
  }

  lemma MulShiftLeft(a: seq<real>, q: seq<real>)
    requires Trimmed(a)
    ensures Mul(Shift(a), q) == Shift(Mul(a, q))
  {
    var l := Mul(Shift(a), q);
    var r := Shift(Mul(a, q));
    forall k: nat ensures Coeff(l, k) == Coeff(r, k) {
      ConvShiftLeft(a, q, k);
    }
    Ext(l, r);
  }

  lemma CoeffShiftMul(p: seq<real>, q: seq<real>, k: nat)
    ensures Coeff(Shift(Mul(p, q)), k) == Conv(p, q, k - 1)
  {
    var m := Mul(p, q);
    if k == 0 {
      ConvUpToNeg(p, q, -1, |p|);
    }
    CoeffShift(m, k);
  }

  lemma ConvCons(p: seq<real>, q: seq<real>, k: nat)
    requires Trimmed(p)
    ensures Conv(p, q, k) == Coeff(Add(Scale(q, Coeff(p, 0)), Shift(Mul(Tail(p), q))), k)
  {
    ConvHead(p, q, k);
    CoeffShiftMul(Tail(p), q, k);
  }

  /** p * q = p0 * q + x * (Tail(p) * q). */
  lemma MulCons(p: seq<real>, q: seq<real>)
    requires Trimmed(p)
    ensures Mul(p, q) == Add(Scale(q, Coeff(p, 0)), Shift(Mul(Tail(p), q)))
  {
    var l := Mul(p, q);
    var r := Add(Scale(q, Coeff(p, 0)), Shift(Mul(Tail(p), q)));
    forall k: nat ensures Coeff(l, k) == Coeff(r, k) {
      ConvCons(p, q, k);
    }
    Ext(l, r);
  }

  /** Multiplication is associative. */
  lemma {:induction false} MulAssoc(a: seq<real>, b: seq<real>, c: seq<real>)
    requires Trimmed(a)
    ensures Mul(Mul(a, b), c) == Mul(a, Mul(b, c))
    decreases |a|
  {
    if a == [] {
      MulZeroLeft(b);
      MulZeroLeft(c);
      MulZeroLeft(Mul(b, c));
    } else {
      var a0 := Coeff(a, 0);
      var t := Tail(a);
      MulCons(a, b);
      MulAddLeft(Scale(b, a0), Shift(Mul(t, b)), c);
      MulScaleLeft(b, a0, c);
      MulShiftLeft(Mul(t, b), c);
      MulAssoc(t, b, c);
      MulCons(a, Mul(b, c));
    }
  }

  lemma ConvConstLeft(c: real, p: seq<real>, k: nat)
    ensures Conv(Const(c), p, k) == Coeff(p, k) * c
  {
    ConvHead(Const(c), p, k);
    assert Tail(Const(c)) == [];
  }

  /** Multiplying by a constant scales every coefficient. */
  lemma MulConst(p: seq<real>, c: real)
    ensures Mul(p, Const(c)) == Scale(p, c)
    ensures Mul(Const(c), p) == Scale(p, c)
  {
    var l := Mul(Const(c), p);
    var r := Scale(p, c);
    forall k: nat ensures Coeff(l, k) == Coeff(r, k) {
      ConvConstLeft(c, p, k);
    }
    Ext(l, r);
    MulComm(p, Const(c));
  }

  lemma MulOne(p: seq<real>)
    requires Trimmed(p)
    ensures Mul(p, Const(1.0)) == p && Mul(Const(1.0), p) == p
  {
    MulConst(p, 1.0);
    Ext(Scale(p, 1.0), p);
  }

  /** The leading coefficient of a product is the product of the leading
      coefficients, and the degrees add (a field has no zero divisors). */
  lemma MulLead(p: seq<real>, q: seq<real>)
    requires Trimmed(p) && Trimmed(q) && p != [] && q != []
    ensures |Mul(p, q)| == |p| + |q| - 1
    ensures Lead(Mul(p, q)) == Lead(p) * Lead(q)
  {
    var k := |p| + |q| - 2;
    ConvTop(p, q, k);
    NonZeroTimes(Lead(p), Lead(q));
    var r := Mul(p, q);
    assert Coeff(r, k) != 0.0;
    forall i: nat | i >= k + 1 ensures Coeff(r, i) == 0.0 {
      ConvVanishes(p, q, i, |p|);
    }
    LengthBound(r, k + 1);
  }

  /** The top coefficient of the convolution is the product of the leading coefficients. */
  lemma ConvTop(p: seq<real>, q: seq<real>, k: int)
    requires p != [] && q != [] && k == |p| + |q| - 2
    ensures Conv(p, q, k) == Times(Lead(p), Lead(q))
  {
    ConvTopTerms(p, q, |p| - 1);
    ConvStep(p, q, k, |p|, |p| - 1);
    LeadCoeffZ(q, k - (|p| - 1));
  }

  lemma LeadCoeffZ(q: seq<real>, i: int)
    requires q != [] && i == |q| - 1
    ensures CoeffZ(q, i) == Lead(q)
  {
  }

  lemma NonZeroTimes(a: real, b: real)
    requires a != 0.0 && b != 0.0
    ensures Times(a, b) != 0.0
  {
  }

  lemma {:induction false} ConvTopTerms(p: seq<real>, q: seq<real>, n: nat)
    requires n <= |p| - 1 && q != []
    ensures ConvUpTo(p, q, |p| + |q| - 2, n) == 0.0
  {
    if n > 0 {
      ConvTopTerms(p, q, n - 1);
    }
  }

  /** A trimmed sequence whose coefficients vanish from n on has length at most n. */
  lemma LengthBound(r: seq<real>, n: nat)
    requires Trimmed(r)
    requires forall i: nat :: i >= n ==> Coeff(r, i) == 0.0
    ensures |r| <= n
  {
    if |r| > 0 {
      assert Coeff(r, |r| - 1) != 0.0;
    }
  }

  // ---------------------------------------------------------------------
  // Evaluation is a ring homomorphism

  /** c0 + v * t, one step of Horner's rule, named for the same reason as Times. */
  function Horner(c0: real, v: real, t: real): real {
    c0 + v * t
  }

  /** Horner's rule: p(v) == p0 + v * Tail(p)(v). */
  lemma EvalHead(p: seq<real>, v: real)
    ensures Eval(p, v) == Horner(Coeff(p, 0), v, Eval(Tail(p), v))
  {
  }

  /** Evaluation of a coefficientwise sum is the sum of the evaluations. */
  lemma {:induction false} EvalSumCoeffs(a: seq<real>, b: seq<real>, c: seq<real>, v: real)
    requires forall i: nat :: Coeff(c, i) == Coeff(a, i) + Coeff(b, i)
    ensures Eval(c, v) == Eval(a, v) + Eval(b, v)
    decreases |a| + |b| + |c|
  {
    if |a| + |b| + |c| > 0 {
      forall i: nat ensures Coeff(Tail(c), i) == Coeff(Tail(a), i) + Coeff(Tail(b), i) {
        assert Coeff(c, i + 1) == Coeff(a, i + 1) + Coeff(b, i + 1);
      }
      EvalSumCoeffs(Tail(a), Tail(b), Tail(c), v);
      EvalHead(a, v);
      EvalHead(b, v);
      EvalHead(c, v);
      assert Coeff(c, 0) == Coeff(a, 0) + Coeff(b, 0);
      HornerSum(Eval(c, v), Eval(a, v), Eval(b, v), Coeff(c, 0), Coeff(a, 0), Coeff(b, 0),
                Eval(Tail(c), v), Eval(Tail(a), v), Eval(Tail(b), v), v);
    }
  }

  lemma HornerSum(ec: real, ea: real, eb: real, c0: real, a0: real, b0: real,
                  tc: real, ta: real, tb: real, v: real)
    requires ec == Horner(c0, v, tc) && ea == Horner(a0, v, ta) && eb == Horner(b0, v, tb)
    requires c0 == a0 + b0 && tc == ta + tb
    ensures ec == ea + eb
  {
  }

  /** Evaluation of a coefficientwise multiple is the multiple of the evaluation. */
  lemma {:induction false} EvalScaleCoeffs(a: seq<real>, x: real, c: seq<real>, v: real)
    requires forall i: nat :: Coeff(c, i) == Times(Coeff(a, i), x)
    ensures Eval(c, v) == Times(Eval(a, v), x)
    decreases |a| + |c|
  {
    if |a| + |c| > 0 {
      ScaledParts(a, x, c);
      EvalScaleCoeffs(Tail(a), x, Tail(c), v);
      EvalHead(a, v);
      EvalHead(c, v);
      HornerScale(Eval(c, v), Eval(a, v), Coeff(c, 0), Coeff(a, 0), Eval(Tail(c), v), Eval(Tail(a), v), x, v);
    } else {
      ZeroTimes(Eval(c, v), Eval(a, v), x);
    }
  }

  lemma ScaledParts(a: seq<real>, x: real, c: seq<real>)
    requires forall i: nat :: Coeff(c, i) == Times(Coeff(a, i), x)
    ensures Coeff(c, 0) == Times(Coeff(a, 0), x)
    ensures forall i: nat :: Coeff(Tail(c), i) == Times(Coeff(Tail(a), i), x)
  {
    forall i: nat ensures Coeff(Tail(c), i) == Times(Coeff(Tail(a), i), x) {
      assert Coeff(c, i + 1) == Times(Coeff(a, i + 1), x);
    }
  }

  lemma HornerScale(ec: real, ea: real, c0: real, a0: real, tc: real, ta: real, x: real, v: real)
    requires ec == Horner(c0, v, tc) && ea == Horner(a0, v, ta)
    requires c0 == Times(a0, x) && tc == Times(ta, x)
    ensures ec == Times(ea, x)
  {
  }

  /** (p + q)(v) == p(v) + q(v). */
  lemma EvalAdd(a: seq<real>, b: seq<real>, v: real)
    ensures Eval(Add(a, b), v) == Eval(a, v) + Eval(b, v)
  {
    EvalSumCoeffs(a, b, Add(a, b), v);
  }

  /** (p - q)(v) == p(v) - q(v). */
  lemma EvalSub(a: seq<real>, b: seq<real>, v: real)
    ensures Eval(Sub(a, b), v) == Eval(a, v) - Eval(b, v)
  {
    var d := Sub(a, b);
    forall i: nat ensures Coeff(a, i) == Coeff(d, i) + Coeff(b, i) {
      assert Coeff(d, i) == Coeff(a, i) - Coeff(b, i);
    }
    EvalSumCoeffs(d, b, a, v);
  }

  lemma EvalScaleTimes(a: seq<real>, c: real, v: real)
    ensures Eval(Scale(a, c), v) == Times(Eval(a, v), c)
  {
    forall i: nat ensures Coeff(Scale(a, c), i) == Times(Coeff(a, i), c) {
    }
    EvalScaleCoeffs(a, c, Scale(a, c), v);
  }

  /** (c * p)(v) == c * p(v). */
  lemma EvalScale(a: seq<real>, c: real, v: real)
    ensures Eval(Scale(a, c), v) == c * Eval(a, v)
  {
    EvalScaleTimes(a, c, v);
  }

  lemma EvalConst(c: real, v: real)
    ensures Eval(Const(c), v) == c
  {
    if c != 0.0 {
      assert Const(c) == [c];
      assert Eval([c][1..], v) == 0.0;
    }
  }

  /** (x * p)(v) == v * p(v). */
  lemma EvalShift(a: seq<real>, v: real)
    requires Trimmed(a)
    ensures Eval(Shift(a), v) == Times(v, Eval(a, v))
  {
    if a != [] {
      assert Shift(a)[1..] == a;
    }
  }

  lemma {:induction false} EvalMulTimes(p: seq<real>, q: seq<real>, v: real)
    requires Trimmed(p)
    ensures Eval(Mul(p, q), v) == Times(Eval(p, v), Eval(q, v))
    decreases |p|
  {
    if p == [] {
      MulZeroLeft(q);
      ZeroTimes(Eval(Mul(p, q), v), Eval(p, v), Eval(q, v));
    } else {
      MulCons(p, q);
      EvalAdd(Scale(q, Coeff(p, 0)), Shift(Mul(Tail(p), q)), v);
      EvalScaleTimes(q, Coeff(p, 0), v);
      EvalShift(Mul(Tail(p), q), v);
      EvalMulTimes(Tail(p), q, v);
      EvalHead(p, v);
      MulGlue(Eval(Mul(p, q), v), Eval(Scale(q, Coeff(p, 0)), v), Eval(Shift(Mul(Tail(p), q)), v),
              Eval(q, v), Coeff(p, 0), Eval(Mul(Tail(p), q), v), Eval(Tail(p), v), Eval(p, v), v);
    }
  }

  lemma MulGlue(em: real, es: real, esh: real, eq: real, p0: real, etq: real, et: real, ep: real, v: real)
    requires em == es + esh && es == Times(eq, p0) && esh == Times(v, etq)
    requires etq == Times(et, eq) && ep == Horner(p0, v, et)
    ensures em == Times(ep, eq)
  {
  }

  /** (p * q)(v) == p(v) * q(v). */
  lemma EvalMul(p: seq<real>, q: seq<real>, v: real)
    requires Trimmed(p)
    ensures Eval(Mul(p, q), v) == Eval(p, v) * Eval(q, v)
  {
    EvalMulTimes(p, q, v);
  }

  lemma UpToStep(s: seq<real>, v: real, j: nat, i: nat)
    requires j == i + 1
    ensures EvalUpTo(s, v, j) == EvalUpTo(s, v, i) + Times(Coeff(s, i), Power(v, i))
  {
  }

  lemma PowerStep(v: real, j: nat, i: nat)
    requires j == i + 1
    ensures Power(v, j) == Times(Power(v, i), v)
  {
  }

  /** The term-by-term sum over the first n + 1 coefficients splits off the constant term. */
  lemma {:induction false} EvalUpToHead(p: seq<real>, v: real, j: nat, n: nat)
    requires j == n + 1
    ensures EvalUpTo(p, v, j) == Horner(Coeff(p, 0), v, EvalUpTo(Tail(p), v, n))
    decreases n
  {
    if n > 0 {
      EvalUpToHead(p, v, n, n - 1);
      UpToStep(p, v, j, n);
      UpToStep(Tail(p), v, n, n - 1);
      TailCoeff(p, n - 1, n);
      PowerStep(v, n, n - 1);
      HeadGlue(EvalUpTo(p, v, j), EvalUpTo(p, v, n), Coeff(p, n), Power(v, n),
               EvalUpTo(Tail(p), v, n), EvalUpTo(Tail(p), v, n - 1), Coeff(Tail(p), n - 1), Power(v, n - 1),
               Coeff(p, 0), v);
    } else {
      UpToStep(p, v, j, 0);
    }
  }

  lemma HeadGlue(u1: real, u0: real, c: real, w: real, t1: real, t0: real, c2: real, w2: real, p0: real, v: real)
    requires u1 == u0 + Times(c, w) && u0 == Horner(p0, v, t0)
    requires t1 == t0 + Times(c2, w2) && c2 == c && w == Times(w2, v)
    ensures u1 == Horner(p0, v, t1)
  {
  }

  /** Summing c_i * v^i term by term gives Horner's value. */
  lemma {:induction false} EvalUpToEval(s: seq<real>, v: real)
    ensures EvalUpTo(s, v, |s|) == Eval(s, v)
    decreases |s|
  {
    if s != [] {
      var t := Tail(s);
      assert |t| == |s| - 1;
      EvalUpToHead(s, v, |s|, |t|);
      EvalUpToEval(t, v);
      EvalHead(s, v);
    }
  }

  // ---------------------------------------------------------------------
  // Powers and composition

  lemma {:induction false} EvalPolyPow(r: seq<real>, n: nat, v: real)
    ensures Eval(PolyPow(r, n), v) == Power(Eval(r, v), n)
  {
    if n == 0 {
      EvalConst(1.0, v);
    } else {
      EvalPolyPow(r, n - 1, v);
      EvalMulTimes(PolyPow(r, n - 1), r, v);
      PowerStep(Eval(r, v), n, n - 1);
    }
  }

  /** r^(m + n) == r^m * r^n. */
  lemma {:induction false} PolyPowAdd(r: seq<real>, m: nat, n: nat)
    requires Trimmed(r)
    ensures PolyPow(r, m + n) == Mul(PolyPow(r, m), PolyPow(r, n))
    decreases n
  {
    var a := PolyPow(r, m);
    if n == 0 {
      MulOne(a);
      assert m + n == m;
      assert PolyPow(r, n) == Const(1.0);
    } else {
      var b := PolyPow(r, n - 1);
      PolyPowAdd(r, m, n - 1);
      MulAssoc(a, b, r);
      assert m + n - 1 == m + (n - 1);
      assert PolyPow(r, m + n) == Mul(PolyPow(r, m + (n - 1)), r);
      assert PolyPow(r, n) == Mul(b, r);
      var c := PolyPow(r, m + (n - 1));
      assert c == Mul(a, b);
      assert Mul(c, r) == Mul(Mul(a, b), r);
    }
  }

  /** (r * r)^n == r^(2n). */
  lemma {:induction false} PolyPowSquare(r: seq<real>, n: nat)
    requires Trimmed(r)
    ensures PolyPow(Mul(r, r), n) == PolyPow(r, 2 * n)
  {
    if n > 0 {
      var a := PolyPow(r, 2 * n - 2);
      PolyPowSquare(r, n - 1);
      assert 2 * (n - 1) == 2 * n - 2;
      assert PolyPow(Mul(r, r), n) == Mul(a, Mul(r, r));
      MulAssoc(a, r, r);
      assert 2 * n - 1 == (2 * n - 2) + 1;
      assert PolyPow(r, 2 * n) == Mul(PolyPow(r, 2 * n - 1), r);
      assert PolyPow(r, 2 * n - 1) == Mul(a, r);
    }
  }

  /** Composition evaluates to the composed values: (p & r)(v) == p(r(v)). */
  lemma {:induction false} EvalComposeUpTo(p: seq<real>, r: seq<real>, n: nat, v: real)
    ensures Eval(ComposeUpTo(p, r, n), v) == EvalUpTo(p, Eval(r, v), n)
  {
    if n > 0 {
      var c := Coeff(p, n - 1);
      var w := PolyPow(r, n - 1);
      EvalComposeUpTo(p, r, n - 1, v);
      EvalAdd(ComposeUpTo(p, r, n - 1), Mul(w, Const(c)), v);
      MulConst(w, c);
      EvalScaleTimes(w, c, v);
      EvalPolyPow(r, n - 1, v);
      UpToStep(p, Eval(r, v), n, n - 1);
      ComposeGlue(Eval(ComposeUpTo(p, r, n), v), Eval(ComposeUpTo(p, r, n - 1), v), Eval(Scale(w, c), v),
                  Eval(w, v), c, Power(Eval(r, v), n - 1), EvalUpTo(p, Eval(r, v), n), EvalUpTo(p, Eval(r, v), n - 1));
    }
  }

  lemma ComposeGlue(tot: real, prev: real, m: real, ew: real, c: real, pw: real, up: real, upPrev: real)
    requires tot == prev + m && m == Times(ew, c) && ew == pw && prev == upPrev
    requires up == upPrev + Times(c, pw)
    ensures tot == up
  {
  }

  lemma EvalCompose(p: seq<real>, r: seq<real>, v: real)
    ensures Eval(Compose(p, r), v) == Eval(p, Eval(r, v))
  {
    EvalComposeUpTo(p, r, |p|, v);
    EvalUpToEval(p, Eval(r, v));
  }

  // ---------------------------------------------------------------------
  // Scalar powers

  lemma {:induction false} PowerAdd(v: real, m: nat, n: nat)
    ensures Power(v, m + n) == Power(v, m) * Power(v, n)
    decreases n
  {
    if n > 0 {
      PowerAdd(v, m, n - 1);
      assert Power(v, m) * Power(v, n - 1) * v == Power(v, m) * (Power(v, n - 1) * v);
    }
  }

  lemma {:induction false} PowerSquare(v: real, n: nat)
    ensures Power(v * v, n) == Power(v, 2 * n)
  {
    if n > 0 {
      PowerSquare(v, n - 1);
      PowerAdd(v, 2 * n - 2, 2);
      assert Power(v, 1) == v;
      assert Power(v, 2) == v * v;
      assert Power(v * v, n) == Power(v * v, n - 1) * (v * v);
      assert 2 * n == (2 * n - 2) + 2;
    }
  }
}
