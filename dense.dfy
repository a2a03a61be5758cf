/** The dense polynomial: a vector of coefficients indexed by exponent, kept
    free of trailing zeros by Cut, so that the zero polynomial is the empty
    vector and the degree is the length minus one. */
module DensePolynomial {
  import opened PolySpec
  import opened PolyLaws
  import opened PolyDivision

  /** n + m - 1 <= n * m for positive sizes: the n * m result buffer covers index n + m - 2. */
  lemma SizeCovers(n: nat, m: nat)
    requires n >= 1 && m >= 1
    ensures n + m - 1 <= n * m
  {
    assert (n - 1) * (m - 1) >= 0;
  }

  /** Once entry i of a has been multiplied into every cell i + j of the
      buffer, each cell holds the partial convolution up to i + 1. */
  lemma RowDone(a: seq<real>, q: seq<real>, i: nat, s: seq<real>)
    requires i < |a|
    requires forall k :: 0 <= k < |s| ==>
      s[k] == ConvUpTo(a, q, k, i) + (if i <= k < i + |q| then Times(a[i], q[k - i]) else 0.0)
    ensures forall k :: 0 <= k < |s| ==> s[k] == ConvUpTo(a, q, k, i + 1)
  {
    forall k | 0 <= k < |s| ensures s[k] == ConvUpTo(a, q, k, i + 1) {
      ConvStep(a, q, k, i + 1, i);
      if !(i <= k < i + |q|) {
        ZeroTimes(0.0, 0.0, Coeff(a, i));
        TimesComm(0.0, Coeff(a, i));
      }
    }
  }

  /** The |a| * |q| buffer of full convolution sums, once cut, is the product. */
  lemma ProductFromCells(a: seq<real>, q: seq<real>, s: seq<real>)
    requires |s| == |a| * |q| && forall k :: 0 <= k < |s| ==> s[k] == ConvUpTo(a, q, k, |a|)
    ensures Trim(s) == Mul(a, q)
  {
    var t := Trim(s);
    forall k: nat ensures Coeff(t, k) == Conv(a, q, k) {
      if k >= |s| {
        if |a| > 0 && |q| > 0 {
          SizeCovers(|a|, |q|);
        }
        ConvVanishes(a, q, k, |a|);
      }
    }
    Ext(t, Mul(a, q));
  }

  /** The vector with dif zeros followed by c, once cut, is the single term c * x^dif. */
  lemma TermVector(v: seq<real>, c: real, dif: nat)
    requires c != 0.0 && |v| == dif + 1 && v[dif] == c
    requires forall i :: 0 <= i < dif ==> v[i] == 0.0
    ensures Trim(v) == Mono(c, dif)
  {
    Ext(Trim(v), Mono(c, dif));
  }

  /** One pass of the long-division loop: with t the single term that cancels
      the leading coefficient of cur against other, res += t and cur -= other * t. */
  method DivideStep(res: Polynomial, cur: Polynomial, other: Polynomial)
    requires res != cur && res != other && cur != other
    requires Trimmed(other.p) && other.p != [] && Trimmed(cur.p) && cur.Degree() >= other.Degree()
    modifies res, cur
    ensures res.p == Add(old(res.p), LeadTerm(old(cur.p), other.p))
    ensures cur.p == Sub(old(cur.p), Mul(other.p, LeadTerm(old(cur.p), other.p)))
  {
    var dif := cur.Degree() - other.Degree();
    var v := seq(dif + 1, _ => 0.0);
    v := v[dif := cur.Get(cur.Degree()) / other.Get(other.Degree())];
    TermVector(v, Lead(cur.p) / Lead(other.p), dif);
    var t := new Polynomial.FromSeq(v);
    res.AddAssign(t);
    var m := other.Product(t);
    cur.SubAssign(m);
  }

  /** The loop of operator,: while other is not the zero polynomial, cur
      becomes cur % other and the two are swapped. On exit other is zero, and
      the ghost cofactors record how cur and the operands are combinations of
      each other. */
  method EuclidLoop(a: Polynomial, b: Polynomial)
    returns (cur: Polynomial, ghost o: seq<real>,
             ghost a1: seq<real>, ghost b1: seq<real>, ghost a2: seq<real>, ghost b2: seq<real>,
             ghost c1: seq<real>, ghost d1: seq<real>, ghost c2: seq<real>, ghost d2: seq<real>)
    requires a.Valid() && b.Valid()
    ensures fresh(cur) && o == []
    ensures EuclidInv(a.p, b.p, cur.p, o, a1, b1, a2, b2, c1, d1, c2, d2)
    ensures b.p == [] ==> cur.p == a.p
  {
    ghost var P, R := a.p, b.p;
    cur := new Polynomial.Copy(a);
    var other := new Polynomial.Copy(b);
    var zero := new Polynomial.FromConst(0.0);
    a1, b1, a2, b2 := Const(1.0), [], [], Const(1.0);
    c1, d1, c2, d2 := Const(1.0), [], [], Const(1.0);
    EuclidStart(P, R);
    while other.NotEquals(zero)
      invariant fresh(cur) && fresh(other) && fresh(zero)
      invariant cur != other && cur != zero && other != zero && zero.p == []
      invariant EuclidInv(P, R, cur.p, other.p, a1, b1, a2, b2, c1, d1, c2, d2)
      invariant R == [] ==> cur.p == P && other.p == []
      decreases |other.p|
    {
      var m := cur.Remainder(other);
      ghost var q :| Trimmed(q) && IsDivision(cur.p, other.p, q, m.p);
      EuclidStep(P, R, cur.p, other.p, a1, b1, a2, b2, c1, d1, c2, d2, q, m.p);
      a1, b1, a2, b2 := a2, b2, Sub(a1, Mul(q, a2)), Sub(b1, Mul(q, b2));
      c1, d1, c2, d2 := Add(Mul(c1, q), d1), c1, Add(Mul(c2, q), d2), c2;
      cur, other := other, m;
    }
    o := other.p;
  }

  /** One pass of the loop of operator&: res += cur * c, then cur *= r. */
  method ComposeStep(res: Polynomial, cur: Polynomial, r: Polynomial, c: real)
    requires res != cur && res != r
    modifies res, cur
    ensures res.p == Add(old(res.p), Mul(old(cur.p), Const(c)))
    ensures cur.p == Mul(old(cur.p), old(r.p))
  {
    var k := new Polynomial.FromConst(c);
    var t := cur.Product(k);
    res.AddAssign(t);
    cur.MulAssign(r);
  }

  class Polynomial {
    /** p[i] is the coefficient of x^i. */
    var p: seq<real>

    /** No stored trailing zero. */
    ghost predicate Valid()
      reads this
    {
      Trimmed(p)
    }

    /** cut(): pops trailing zero coefficients. */
    method Cut()
      modifies this
      ensures p == Trim(old(p))
    {
      while |p| > 0 && p[|p| - 1] == 0.0
        invariant Trim(p) == Trim(old(p))
        decreases |p|
      {
        p := p[..|p| - 1];
      }
    }

    /** The zero polynomial. */
    constructor ()
      ensures p == []
    {
      p := [];
    }

    /** From a coefficient vector, cut. */
    constructor FromSeq(v: seq<real>)
      ensures p == Trim(v)
    {
      p := v;
      new;
      Cut();
    }

    /** The constant polynomial k. */
    constructor FromConst(k: real)
      ensures p == Const(k)
    {
      p := [k];
      new;
      Cut();
      assert k == 0.0 ==> [k][..0] == [];
    }

    /** The implicit copy constructor. */
    constructor Copy(other: Polynomial)
      ensures p == other.p
    {
      p := other.p;
    }

    /** Length minus one: -1 for the zero polynomial, otherwise the highest
        exponent with a nonzero coefficient. */
    function Degree(): (d: int)
      reads this
      ensures Valid() ==> (d == -1 <==> p == [])
      ensures Valid() && d >= 0 ==> Get(d) != 0.0 && forall i: nat :: i > d ==> Get(i) == 0.0
    {
      |p| - 1
    }

    /** operator[]: the stored coefficient, zero past the end; it never fails. */
    function Get(i: nat): (c: real)
      reads this
      ensures c == Coeff(p, i)
      ensures c != 0.0 ==> i < |p|
    {
      if i >= |p| then 0.0 else p[i]
    }

    /** operator==: equal lengths and equal coefficients. */
    function Equals(other: Polynomial): (b: bool)
      reads this, other
      ensures b <==> p == other.p
    {
      |p| == |other.p| && forall i :: 0 <= i < |p| ==> p[i] == other.p[i]
    }

    function NotEquals(other: Polynomial): (b: bool)
      reads this, other
      ensures b <==> p != other.p
    {
      !Equals(other)
    }

    /** operator+=: widens to the longer operand, adds coefficientwise, cuts. */
    method AddAssign(other: Polynomial)
      modifies this
      ensures p == Add(old(p), old(other.p))
    {
      var q := other.p;
      if |p| < |q| {
        p := p + Zeros(|q| - |p|);
      }
      ghost var p0 := p;
      var i := 0;
      while i < |p| && i < |q|
        invariant 0 <= i <= |q| <= |p| == |p0|
        invariant forall k :: 0 <= k < i ==> p[k] == p0[k] + q[k]
        invariant forall k :: i <= k < |p| ==> p[k] == p0[k]
      {
        p := p[i := p[i] + q[i]];
        i := i + 1;
      }
      ghost var s := p;
      Cut();
      forall k: nat ensures Coeff(p, k) == Coeff(Add(old(p), q), k) {
        assert Coeff(s, k) == Coeff(old(p), k) + Coeff(q, k);
      }
      Ext(p, Add(old(p), q));
    }

    /** operator-=: widens to the longer operand, subtracts coefficientwise, cuts. */
    method SubAssign(other: Polynomial)
      modifies this
      ensures p == Sub(old(p), old(other.p))
    {
      var q := other.p;
      if |p| < |q| {
        p := p + Zeros(|q| - |p|);
      }
      ghost var p0 := p;
      var i := 0;
      while i < |p| && i < |q|
        invariant 0 <= i <= |q| <= |p| == |p0|
        invariant forall k :: 0 <= k < i ==> p[k] == p0[k] - q[k]
        invariant forall k :: i <= k < |p| ==> p[k] == p0[k]
      {
        p := p[i := p[i] - q[i]];
        i := i + 1;
      }
      ghost var s := p;
      Cut();
      forall k: nat ensures Coeff(p, k) == Coeff(Sub(old(p), q), k) {
        assert Coeff(s, k) == Coeff(old(p), k) - Coeff(q, k);
      }
      Ext(p, Sub(old(p), q));
    }

    /** operator*=: accumulates p[i] * other[j] into a zeroed buffer of size
        |p| * |other| at index i + j, then cuts. Both operands are read before
        p is replaced, so a *= a squares a. */
    method MulAssign(other: Polynomial)
      modifies this
      ensures p == Mul(old(p), old(other.p))
    {
      var a := p;
      var q := other.p;
      var newSize := |a| * |q|;
      var res := new real[newSize](_ => 0.0);
      var i := 0;
      while i < |a|
        invariant 0 <= i <= |a|
        invariant forall k :: 0 <= k < newSize ==> res[k] == ConvUpTo(a, q, k, i)
      {
        var j := 0;
        while j < |q|
          invariant 0 <= j <= |q|
          invariant forall k :: 0 <= k < newSize ==>
            res[k] == ConvUpTo(a, q, k, i) + (if i <= k < i + j then Times(a[i], q[k - i]) else 0.0)
        {
          SizeCovers(|a|, |q|);
          res[i + j] := res[i + j] + Times(a[i], q[j]);
          j := j + 1;
        }
        RowDone(a, q, i, res[..]);
        i := i + 1;
      }
      ProductFromCells(a, q, res[..]);
      p := res[..];
      Cut();
    }

    /** operator+: a copy of this, then +=. */
    method Sum(r: Polynomial) returns (res: Polynomial)
      ensures fresh(res) && res.p == Add(p, r.p)
    {
      res := new Polynomial.Copy(this);
      res.AddAssign(r);
    }

    /** operator-: a copy of this, then -=. */
    method Difference(r: Polynomial) returns (res: Polynomial)
      ensures fresh(res) && res.p == Sub(p, r.p)
    {
      res := new Polynomial.Copy(this);
      res.SubAssign(r);
    }

    /** operator*: a copy of this, then *=. */
    method Product(r: Polynomial) returns (res: Polynomial)
      ensures fresh(res) && res.p == Mul(p, r.p)
    {
      res := new Polynomial.Copy(this);
      res.MulAssign(r);
    }

    /** operator&: the composition p(r(x)), adding p[i] * r^i term by term
        while cur runs through the powers of r. */
    method Compose(r: Polynomial) returns (res: Polynomial)
      ensures fresh(res) && res.p == PolySpec.Compose(p, r.p)
    {
      res := new Polynomial.FromConst(0.0);
      var cur := new Polynomial.FromConst(1.0);
      for i := 0 to |p|
        invariant fresh(res) && fresh(cur) && res != cur
        invariant res.p == ComposeUpTo(p, r.p, i) && cur.p == PolyPow(r.p, i)
      {
        ComposeStep(res, cur, r, p[i]);
      }
    }

    /** operator/: long division. Each step adds the term that cancels the
        leading coefficient of the running remainder cur, over at most
        deg p - deg r + 1 steps. A zero divisor never leaves the loop, so the
        divisor must be nonzero. */
    method Quotient(r: Polynomial) returns (res: Polynomial, ghost steps: nat)
      requires Valid() && r.Valid() && r.p != []
      ensures fresh(res) && res.Valid()
      ensures IsDivision(p, r.p, res.p, Sub(p, Mul(res.p, r.p)))
      ensures steps <= if |p| < |r.p| then 0 else |p| - |r.p| + 1
    {
      res := new Polynomial.FromConst(0.0);
      var cur := new Polynomial.Copy(this);
      var other := new Polynomial.Copy(r);
      steps := 0;
      MulZeroLeft(r.p);
      AddZeroRight(p);
      while cur.Degree() >= other.Degree()
        invariant fresh(res) && fresh(cur) && fresh(other)
        invariant res != cur && res != other && cur != other
        invariant other.p == r.p && DivInv(p, r.p, res.p, cur.p)
        invariant steps + |cur.p| <= |p|
        invariant steps <= if |p| < |r.p| then 0 else |p| - |r.p| + 1
        decreases |cur.p|
      {
        ghost var c0, q0 := cur.p, res.p;
        DivStep(p, r.p, q0, c0);
        DivideStep(res, cur, other);
        steps := steps + 1;
      }
      DivDone(p, r.p, res.p, cur.p);
    }

    /** operator%: this - (this / r) * r. */
    method Remainder(r: Polynomial) returns (res: Polynomial)
      requires Valid() && r.Valid() && r.p != []
      ensures fresh(res) && res.Valid()
      ensures exists q :: Trimmed(q) && IsDivision(p, r.p, q, res.p)
    {
      var q, _ := Quotient(r);
      var m := q.Product(r);
      res := Difference(m);
    }

    /** operator,: the Euclidean algorithm, made monic by dividing by the
        leading coefficient. The result divides both operands (cofactors u and
        w) and is a combination s * p + t * r of them, so every common divisor
        divides it (CommonDivisor). Both operands zero makes the final division
        a division by the zero polynomial, so they must not both be zero. */
    method Gcd(r: Polynomial) returns (res: Polynomial, ghost s: seq<real>, ghost t: seq<real>,
                                       ghost u: seq<real>, ghost w: seq<real>)
      requires Valid() && r.Valid() && (p != [] || r.p != [])
      ensures fresh(res) && res.Valid() && Monic(res.p)
      ensures DividesWith(res.p, p, u) && DividesWith(res.p, r.p, w)
      ensures Trimmed(s) && Trimmed(t) && res.p == Combine(s, p, t, r.p)
      ensures r.p == [] ==> res.p == Scale(p, 1.0 / Lead(p))
      ensures (p != [] ==> |res.p| <= |p|) && (r.p != [] ==> |res.p| <= |r.p|)
    {
      ghost var P, R := p, r.p;
      ghost var o, a1, b1, a2, b2, c1, d1, c2, d2;
      var cur;
      cur, o, a1, b1, a2, b2, c1, d1, c2, d2 := EuclidLoop(this, r);
      ghost var C := cur.p;
      EuclidNonZero(P, R, C, o, a1, b1, a2, b2, c1, d1, c2, d2);
      var k := cur.Get(cur.Degree());
      assert k == Lead(C);
      var lead := new Polynomial.FromConst(k);
      ghost var steps;
      res, steps := cur.Quotient(lead);
      EuclidFinish(P, R, C, o, a1, b1, a2, b2, c1, d1, c2, d2, lead.p, res.p);
      u, w := Mul(c1, Const(k)), Mul(c2, Const(k));
      s, t := Scale(a1, 1.0 / k), Scale(b1, 1.0 / k);
      if P != [] {
        GcdDegree(res.p, P, u);
      }
      if R != [] {
        GcdDegree(res.p, R, w);
      }
    }

    /** operator(): the running sum of p[i] * v^i, with cur holding v^i; the
        zero polynomial gives zero. Agrees with Horner's value. */
    method Eval(v: real) returns (res: real)
      ensures res == PolySpec.Eval(p, v)
    {
      if |p| == 0 {
        return 0.0;
      }
      var cur := 1.0;
      res := 0.0;
      var i := 0;
      while i < |p|
        invariant 0 <= i <= |p|
        invariant res == EvalUpTo(p, v, i) && cur == Power(v, i)
      {
        UpToStep(p, v, i + 1, i);
        PowerStep(v, i + 1, i);
        TimesComm(cur, p[i]);
        res := res + cur * p[i];
        cur := cur * v;
        i := i + 1;
      }
      EvalUpToEval(p, v);
    }
  }
}
