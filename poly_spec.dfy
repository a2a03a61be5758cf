/** The abstract polynomial shared by the dense and the sparse representation:
    a sequence of coefficients indexed by exponent, with no trailing zero.
    The zero polynomial is the empty sequence and has degree -1. */
module PolySpec {

  /** No stored trailing zero: the canonical-zero invariant. */
  predicate Trimmed(s: seq<real>) {
    |s| == 0 || s[|s| - 1] != 0.0
  }

  /** Coefficient of x^i; zero beyond the stored range. */
  function Coeff(s: seq<real>, i: nat): real {
    if i < |s| then s[i] else 0.0
  }

  /** Coefficient at a signed exponent; zero for a negative one. */
  function CoeffZ(s: seq<real>, i: int): real {
    if i < 0 then 0.0 else Coeff(s, i)
  }

  function Degree(s: seq<real>): int {
    |s| - 1
  }

  /** Leading coefficient, zero for the zero polynomial. */
  function Lead(s: seq<real>): real {
    if |s| == 0 then 0.0 else s[|s| - 1]
  }

  predicate Monic(s: seq<real>) {
    Lead(s) == 1.0
  }

  /** Remove trailing zeros. */
  function Trim(s: seq<real>): (r: seq<real>)
    ensures Trimmed(r) && |r| <= |s|
    ensures forall i: nat {:trigger Coeff(r, i)} :: Coeff(r, i) == Coeff(s, i)
    ensures Trimmed(s) ==> r == s
    decreases |s|
  {
    if |s| == 0 || s[|s| - 1] != 0.0 then s else Trim(s[..|s| - 1])
  }

  /** Two trimmed sequences with the same coefficients are equal. */
  lemma {:induction false} Ext(a: seq<real>, b: seq<real>)
    requires Trimmed(a) && Trimmed(b)
    requires forall i: nat :: Coeff(a, i) == Coeff(b, i)
    ensures a == b
  {
    if |a| > 0 {
      assert Coeff(b, |a| - 1) == a[|a| - 1] != 0.0;
    }
    if |b| > 0 {
      assert Coeff(a, |b| - 1) == b[|b| - 1] != 0.0;
    }
    assert |a| == |b|;
    forall i | 0 <= i < |a| ensures a[i] == b[i] {
      assert Coeff(a, i) == Coeff(b, i);
    }
  }

  /** The constant polynomial k (zero when k is zero). */
  function Const(k: real): (r: seq<real>)
    ensures Trimmed(r)
    ensures Coeff(r, 0) == k && forall i: nat :: i > 0 ==> Coeff(r, i) == 0.0
    ensures Degree(r) == if k == 0.0 then -1 else 0
  {
    if k == 0.0 then [] else [k]
  }

  /** The single term c * x^e. */
  function Mono(c: real, e: nat): (r: seq<real>)
    ensures Trimmed(r)
    ensures forall i: nat {:trigger Coeff(r, i)} :: Coeff(r, i) == if i == e then c else 0.0
    ensures Degree(r) == if c == 0.0 then -1 else e
  {
    if c == 0.0 then []
    else
      var s := Zeros(e) + [c];
      assert forall i: nat :: Coeff(s, i) == if i == e then c else 0.0;
      s
  }

  /** e zero coefficients. */
  function Zeros(e: nat): (r: seq<real>)
    ensures |r| == e && forall i :: 0 <= i < e ==> r[i] == 0.0
  {
    if e == 0 then [] else Zeros(e - 1) + [0.0]
  }

  /** Coefficientwise sum, untrimmed; as long as the longer operand. */
  function AddRaw(a: seq<real>, b: seq<real>): (r: seq<real>)
    ensures |r| == if |a| < |b| then |b| else |a|
    ensures forall i: nat {:trigger Coeff(r, i)} :: Coeff(r, i) == Coeff(a, i) + Coeff(b, i)
  {
    if |a| == 0 then b
    else if |b| == 0 then a
    else
      var rest := AddRaw(a[1..], b[1..]);
      var r := [a[0] + b[0]] + rest;
      forall i: nat ensures Coeff(r, i) == Coeff(a, i) + Coeff(b, i) {
        if i > 0 { assert Coeff(r, i) == Coeff(rest, i - 1); }
      }
      r
  }

  /** Every coefficient multiplied by c, untrimmed. */
  function ScaleRaw(a: seq<real>, c: real): (r: seq<real>)
    ensures |r| == |a|
    ensures forall i: nat {:trigger Coeff(r, i)} :: Coeff(r, i) == Coeff(a, i) * c
  {
    if |a| == 0 then []
    else
      var rest := ScaleRaw(a[1..], c);
      var r := [a[0] * c] + rest;
      forall i: nat ensures Coeff(r, i) == Coeff(a, i) * c {
        if i > 0 { assert Coeff(r, i) == Coeff(rest, i - 1); }
      }
      r
  }

  /** Coefficientwise sum, re-trimmed. */
  function Add(a: seq<real>, b: seq<real>): (r: seq<real>)
    ensures Trimmed(r) && (|r| <= |a| || |r| <= |b|)
    ensures forall i: nat {:trigger Coeff(r, i)} :: Coeff(r, i) == Coeff(a, i) + Coeff(b, i)
  {
    Trim(AddRaw(a, b))
  }

  /** Coefficientwise difference, re-trimmed. */
  function Sub(a: seq<real>, b: seq<real>): (r: seq<real>)
    ensures Trimmed(r) && (|r| <= |a| || |r| <= |b|)
    ensures forall i: nat {:trigger Coeff(r, i)} :: Coeff(r, i) == Coeff(a, i) - Coeff(b, i)
  {
    Trim(AddRaw(a, ScaleRaw(b, -1.0)))
  }

  /** Every coefficient multiplied by c. */
  function Scale(a: seq<real>, c: real): (r: seq<real>)
    ensures Trimmed(r) && |r| <= |a|
    ensures forall i: nat {:trigger Coeff(r, i)} :: Coeff(r, i) == Coeff(a, i) * c
  {
    Trim(ScaleRaw(a, c))
  }

  /** Multiplication by x. */
  function Shift(a: seq<real>): (r: seq<real>)
    requires Trimmed(a)
    ensures Trimmed(r)
  {
    if a == [] then [] else [0.0] + a
  }

  lemma TailShift(a: seq<real>)
    requires Trimmed(a)
    ensures Tail(Shift(a)) == a
  {
  }

  lemma CoeffShift(a: seq<real>, i: nat)
    requires Trimmed(a)
    ensures Coeff(Shift(a), i) == if i == 0 then 0.0 else Coeff(a, i - 1)
  {
  }

  /** The coefficients after the constant term (division by x, dropping the remainder). */
  function Tail(a: seq<real>): (r: seq<real>)
    ensures forall i: nat {:trigger Coeff(r, i)} :: Coeff(r, i) == Coeff(a, i + 1)
    ensures Trimmed(a) ==> Trimmed(r)
  {
    if a == [] then [] else a[1..]
  }

  /** Partial convolution sum: sum over i < n of p[i] * q[k - i]. */
  function ConvUpTo(p: seq<real>, q: seq<real>, k: int, n: nat): real {
    if n == 0 then 0.0 else ConvUpTo(p, q, k, n - 1) + Coeff(p, n - 1) * CoeffZ(q, k - (n - 1))
  }

  /** Coefficient of x^k in p * q: the sum of p[i] * q[j] over i + j == k. */
  function Conv(p: seq<real>, q: seq<real>, k: int): real {
    ConvUpTo(p, q, k, |p|)
  }

  /** Product of two polynomials: the trimmed sequence whose coefficients are the convolution. */
  ghost function Mul(p: seq<real>, q: seq<real>): (r: seq<real>)
    ensures Trimmed(r)
    ensures forall k: nat {:trigger Coeff(r, k)} :: Coeff(r, k) == Conv(p, q, k)
  {
    ConvSeqTrimmed(p, q);
    var r :| Trimmed(r) && forall k: nat :: Coeff(r, k) == Conv(p, q, k);
    r
  }

  lemma ConvSeqTrimmed(p: seq<real>, q: seq<real>)
    ensures exists r :: Trimmed(r) && forall k: nat :: Coeff(r, k) == Conv(p, q, k)
  {
    var len := if |p| == 0 || |q| == 0 then 0 else |p| + |q| - 1;
    var s := ConvSeq(p, q, len);
    forall k: nat ensures Coeff(s, k) == Conv(p, q, k) {
      if k >= len { ConvVanishes(p, q, k, |p|); }
    }
    var w := Trim(s);
    assert Trimmed(w) && forall k: nat :: Coeff(w, k) == Conv(p, q, k);
  }

  /** The first n coefficients of the product, untrimmed. */
  function ConvSeq(p: seq<real>, q: seq<real>, n: nat): (r: seq<real>)
    ensures |r| == n && forall k :: 0 <= k < n ==> r[k] == Conv(p, q, k)
  {
    if n == 0 then [] else ConvSeq(p, q, n - 1) + [Conv(p, q, n - 1)]
  }

  /** Beyond the last possible exponent the convolution is zero. */
  lemma {:induction false} ConvVanishes(p: seq<real>, q: seq<real>, k: int, n: nat)
    requires n <= |p|
    requires |p| == 0 || |q| == 0 || k >= |p| + |q| - 1
    ensures ConvUpTo(p, q, k, n) == 0.0
  {
    if n > 0 {
      ConvVanishes(p, q, k, n - 1);
      assert CoeffZ(q, k - (n - 1)) == 0.0;
    }
  }

  /** x^i for a scalar. */
  function Power(v: real, i: nat): real {
    if i == 0 then 1.0 else Power(v, i - 1) * v
  }

  /** Sum over i < n of s[i] * v^i: the running total of a term-by-term evaluation. */
  function EvalUpTo(s: seq<real>, v: real, n: nat): real {
    if n == 0 then 0.0 else EvalUpTo(s, v, n - 1) + Coeff(s, n - 1) * Power(v, n - 1)
  }

  /** Value of the polynomial at v, by Horner's rule. */
  function Eval(s: seq<real>, v: real): real
    decreases |s|
  {
    if |s| == 0 then 0.0 else s[0] + v * Eval(s[1..], v)
  }

  /** r^n as a repeated polynomial product, one factor added per step. */
  ghost function PolyPow(r: seq<real>, n: nat): (res: seq<real>)
    ensures Trimmed(res)
  {
    if n == 0 then Const(1.0) else Mul(PolyPow(r, n - 1), r)
  }

  /** Sum over i < n of p[i] * r^i: the first n terms of the composition p(r(x)). */
  ghost function ComposeUpTo(p: seq<real>, r: seq<real>, n: nat): (res: seq<real>)
    ensures Trimmed(res)
  {
    if n == 0 then [] else Add(ComposeUpTo(p, r, n - 1), Mul(PolyPow(r, n - 1), Const(Coeff(p, n - 1))))
  }

  /** The composition p(r(x)). */
  ghost function Compose(p: seq<real>, r: seq<real>): seq<real> {
    ComposeUpTo(p, r, |p|)
  }

  /** q and r are the quotient and remainder of p by d. */
  ghost predicate IsDivision(p: seq<real>, d: seq<real>, q: seq<real>, r: seq<real>) {
    Add(Mul(q, d), r) == p && Degree(r) < Degree(d)
  }

  /** d divides p, with the cofactor given. */
  ghost predicate DividesWith(d: seq<real>, p: seq<real>, k: seq<real>) {
    Mul(k, d) == p
  }
}
