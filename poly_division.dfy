/** Long division and the Euclidean algorithm on the abstract polynomial:
    one step of each loop, the uniqueness of quotient and remainder, and the
    cofactor identities that make the Euclidean result a greatest common divisor. */
module PolyDivision {
  import opened PolySpec
  import opened PolyLaws

  // ---------------------------------------------------------------------
  // Multiplying by a single term

  /** The partial convolution with c * x^e picks out the one matching term. */
  lemma {:induction false} ConvUpToMono(d: seq<real>, c: real, e: nat, k: int, n: nat)
    ensures ConvUpTo(d, Mono(c, e), k, n) == if 0 <= k - e < n then Times(Coeff(d, k - e), c) else 0.0
  {
    if n > 0 {
      ConvUpToMono(d, c, e, k, n - 1);
      ConvStep(d, Mono(c, e), k, n, n - 1);
      if k - e != n - 1 {
        assert CoeffZ(Mono(c, e), k - (n - 1)) == 0.0;
        ZeroTimes(0.0, 0.0, Coeff(d, n - 1));
        TimesComm(Coeff(d, n - 1), 0.0);
      }
    }
  }

  /** (d * c x^e)[k] == d[k - e] * c. */
  lemma CoeffMulMono(d: seq<real>, c: real, e: nat, k: nat)
    ensures Coeff(Mul(d, Mono(c, e)), k) == if k >= e then Times(Coeff(d, k - e), c) else 0.0
  {
    ConvUpToMono(d, c, e, k, |d|);
    if k >= e && k - e >= |d| {
      ZeroTimes(0.0, Coeff(d, k - e), c);
    }
  }

  lemma DivideLead(l: real, m: real)
    requires m != 0.0
    ensures Times(m, l / m) == l
  {
  }

  /** The term that cancels the leading coefficient of cur against d. */
  function LeadTerm(cur: seq<real>, d: seq<real>): (t: seq<real>)
    requires Trimmed(d) && d != [] && |cur| >= |d|
  {
    Mono(Lead(cur) / Lead(d), |cur| - |d|)
  }

  /** One step of long division strictly shortens the running remainder. */
  lemma DivStepShrinks(cur: seq<real>, d: seq<real>)
    requires Trimmed(cur) && Trimmed(d) && d != [] && |cur| >= |d|
    ensures |Sub(cur, Mul(d, LeadTerm(cur, d)))| < |cur|
  {
    var e := |cur| - |d|;
    var c := Lead(cur) / Lead(d);
    var s := Sub(cur, Mul(d, LeadTerm(cur, d)));
    forall k: nat | k >= |cur| - 1 ensures Coeff(s, k) == 0.0 {
      CoeffMulMono(d, c, e, k);
      if k == |cur| - 1 {
        assert k - e == |d| - 1;
        DivideLead(Lead(cur), Lead(d));
      } else {
        ZeroTimes(0.0, Coeff(d, k - e), c);
      }
    }
    LengthBound(s, |cur| - 1);
  }

  /** One step of long division keeps q * d + cur == p. */
  lemma DivStepKeeps(p: seq<real>, d: seq<real>, q: seq<real>, cur: seq<real>, t: seq<real>)
    requires Add(Mul(q, d), cur) == p
    ensures Add(Mul(Add(q, t), d), Sub(cur, Mul(d, t))) == p
  {
    var l := Add(Mul(Add(q, t), d), Sub(cur, Mul(d, t)));
    MulAddLeft(q, t, d);
    MulComm(t, d);
    forall i: nat ensures Coeff(l, i) == Coeff(p, i) {
    }
    Ext(l, p);
  }

  /** Once the running remainder is shorter than d, q and cur are quotient and remainder. */
  lemma DivDone(p: seq<real>, d: seq<real>, q: seq<real>, cur: seq<real>)
    requires Add(Mul(q, d), cur) == p && Trimmed(cur) && |cur| < |d|
    ensures IsDivision(p, d, q, cur) && cur == Sub(p, Mul(q, d))
  {
    Ext(cur, Sub(p, Mul(q, d)));
  }

  /** Quotient and remainder by a nonzero divisor are unique. */
  lemma DivisionUnique(p: seq<real>, d: seq<real>, q1: seq<real>, r1: seq<real>, q2: seq<real>, r2: seq<real>)
    requires Trimmed(d) && d != [] && Trimmed(q1) && Trimmed(q2) && Trimmed(r1) && Trimmed(r2)
    requires IsDivision(p, d, q1, r1) && IsDivision(p, d, q2, r2)
    ensures q1 == q2 && r1 == r2
  {
    var dq := Sub(q1, q2);
    var dr := Sub(r2, r1);
    MulSubLeft(q1, q2, d);
    forall i: nat ensures Coeff(Mul(dq, d), i) == Coeff(dr, i) {
      assert Coeff(Add(Mul(q1, d), r1), i) == Coeff(Add(Mul(q2, d), r2), i);
    }
    Ext(Mul(dq, d), dr);
    if dq != [] {
      MulLead(dq, d);
      assert false;
    }
    forall i: nat ensures Coeff(q1, i) == Coeff(q2, i) {
      assert Coeff(dq, i) == 0.0;
    }
    Ext(q1, q2);
    forall i: nat ensures Coeff(r1, i) == Coeff(r2, i) {
      assert Coeff(Add(Mul(q1, d), r1), i) == Coeff(Add(Mul(q2, d), r2), i);
    }
    Ext(r1, r2);
  }

  /** A divisor of degree zero leaves no remainder. */
  lemma DivByConstant(p: seq<real>, c: real, q: seq<real>, r: seq<real>)
    requires c != 0.0 && Trimmed(r) && IsDivision(p, Const(c), q, r)
    ensures r == [] && Mul(q, Const(c)) == p
  {
    Ext(Add(Mul(q, Const(c)), []), Mul(q, Const(c)));
  }

  // ---------------------------------------------------------------------
  // The Euclidean algorithm

  /** a * p + b * r, a combination of p and r with polynomial cofactors. */
  ghost function Combine(a: seq<real>, p: seq<real>, b: seq<real>, r: seq<real>): (res: seq<real>)
    ensures Trimmed(res)
  {
    Add(Mul(a, p), Mul(b, r))
  }

  lemma AddZeroRight(a: seq<real>)
    requires Trimmed(a)
    ensures Add(a, []) == a && Add([], a) == a
  {
    Ext(Add(a, []), a);
    Ext(Add([], a), a);
  }

  /** At the start cur == p and other == r. */
  lemma CombineStart(p: seq<real>, r: seq<real>)
    requires Trimmed(p) && Trimmed(r)
    ensures Combine(Const(1.0), p, [], r) == p
    ensures Combine([], p, Const(1.0), r) == r
  {
    MulOne(p);
    MulOne(r);
    MulZeroLeft(p);
    MulZeroLeft(r);
    AddZeroRight(p);
    AddZeroRight(r);
  }

  /** If cur and other are combinations of p and r, so is cur - q * other. */
  lemma CombineRemainder(p: seq<real>, r: seq<real>, a1: seq<real>, b1: seq<real>,
                         a2: seq<real>, b2: seq<real>, q: seq<real>)
    requires Trimmed(q)
    ensures Sub(Combine(a1, p, b1, r), Mul(q, Combine(a2, p, b2, r)))
         == Combine(Sub(a1, Mul(q, a2)), p, Sub(b1, Mul(q, b2)), r)
  {
    var l := Sub(Combine(a1, p, b1, r), Mul(q, Combine(a2, p, b2, r)));
    var rr := Combine(Sub(a1, Mul(q, a2)), p, Sub(b1, Mul(q, b2)), r);
    MulAddRight(q, Mul(a2, p), Mul(b2, r));
    MulSubLeft(a1, Mul(q, a2), p);
    MulSubLeft(b1, Mul(q, b2), r);
    MulAssoc(q, a2, p);
    MulAssoc(q, b2, r);
    forall i: nat ensures Coeff(l, i) == Coeff(rr, i) {
    }
    Ext(l, rr);
  }

  /** If p is a combination of cur and other, and cur == q * other + m,
      then p is a combination of other and m. */
  lemma CombineBack(c: seq<real>, d: seq<real>, cur: seq<real>, other: seq<real>, q: seq<real>, m: seq<real>)
    requires Trimmed(c) && Add(Mul(q, other), m) == cur
    ensures Combine(c, cur, d, other) == Combine(Add(Mul(c, q), d), other, c, m)
  {
    var l := Combine(c, cur, d, other);
    var rr := Combine(Add(Mul(c, q), d), other, c, m);
    MulAddRight(c, Mul(q, other), m);
    MulAssoc(c, q, other);
    MulAddLeft(Mul(c, q), d, other);
    forall i: nat ensures Coeff(l, i) == Coeff(rr, i) {
    }
    Ext(l, rr);
  }

  /** When other is zero, a combination of cur and other is a multiple of cur. */
  lemma CombineZero(c: seq<real>, cur: seq<real>, d: seq<real>)
    ensures Combine(c, cur, d, []) == Mul(c, cur)
  {
    MulZeroRight(d);
    AddZeroRight(Mul(c, cur));
  }

  /** If x == c * cur and cur == q * k, then q divides x. */
  lemma DividesThroughConst(x: seq<real>, cur: seq<real>, c: seq<real>, q: seq<real>, k: seq<real>)
    requires Trimmed(c) && Mul(c, cur) == x && Mul(q, k) == cur
    ensures DividesWith(q, x, Mul(c, k))
  {
    MulComm(q, k);
    MulAssoc(c, k, q);
  }

  /** Dividing a nonzero polynomial by its leading coefficient gives a monic polynomial. */
  lemma MonicQuotient(cur: seq<real>, q: seq<real>)
    requires Trimmed(cur) && cur != [] && Trimmed(q)
    requires Mul(q, Const(Lead(cur))) == cur
    ensures Monic(q)
  {
    var c := Lead(cur);
    if q == [] {
      MulZeroLeft(Const(c));
      assert false;
    }
    assert c != 0.0;
    MulLead(q, Const(c));
    assert Lead(Const(c)) == c;
    UnitFactor(Lead(q), Lead(Const(c)), Lead(cur));
  }

  lemma UnitFactor(a: real, b: real, c: real)
    requires c != 0.0 && b == c && a * b == c
    ensures a == 1.0
  {
    assert (a - 1.0) * c == 0.0;
  }

  /** The quotient by the leading coefficient is cur scaled, so any divisor of cur divides it. */
  lemma DividesQuotient(cur: seq<real>, q: seq<real>, x: seq<real>, k: seq<real>)
    requires Trimmed(cur) && cur != [] && Trimmed(q) && Trimmed(k)
    requires Mul(q, Const(Lead(cur))) == cur && DividesWith(x, cur, k)
    ensures DividesWith(x, q, Mul(k, Const(1.0 / Lead(cur))))
  {
    var c := Lead(cur);
    var inv := Const(1.0 / c);
    MulAssoc(q, Const(c), inv);
    MulConst(Const(c), 1.0 / c);
    assert Scale(Const(c), 1.0 / c) == Const(1.0) by {
      Ext(Scale(Const(c), 1.0 / c), Const(1.0));
    }
    MulOne(q);
    // q == cur * inv == (k * x) * inv == (k * inv) * x
    MulAssoc(k, x, inv);
    MulComm(x, inv);
    MulAssoc(k, inv, x);
  }

  /** Every common divisor of p and r divides a * p + b * r. */
  lemma CommonDivisor(x: seq<real>, p: seq<real>, r: seq<real>, a: seq<real>, b: seq<real>,
                      kp: seq<real>, kr: seq<real>)
    requires Trimmed(a) && Trimmed(b)
    requires DividesWith(x, p, kp) && DividesWith(x, r, kr)
    ensures DividesWith(x, Combine(a, p, b, r), Add(Mul(a, kp), Mul(b, kr)))
  {
    MulAssoc(a, kp, x);
    MulAssoc(b, kr, x);
    MulAddLeft(Mul(a, kp), Mul(b, kr), x);
  }

  /** A divisor of a nonzero polynomial is no longer than it; applied to both
      operands, the result of operator, has degree at most the smaller degree. */
  lemma GcdDegree(g: seq<real>, p: seq<real>, u: seq<real>)
    requires Trimmed(g) && Trimmed(u) && p != [] && DividesWith(g, p, u)
    ensures |g| <= |p|
  {
    if u == [] {
      MulZeroLeft(g);
    } else if g == [] {
      MulZeroRight(u);
    } else {
      MulLead(u, g);
    }
  }

  /** A remainder m with q * other + m == cur is cur - q * other. */
  lemma RemainderIsSub(cur: seq<real>, other: seq<real>, q: seq<real>, m: seq<real>)
    requires Trimmed(m) && Add(Mul(q, other), m) == cur
    ensures m == Sub(cur, Mul(q, other))
  {
    Ext(m, Sub(cur, Mul(q, other)));
  }

  /** The quotient of cur by its leading coefficient is cur scaled by the inverse. */
  lemma QuotientByLead(cur: seq<real>, q: seq<real>)
    requires Trimmed(cur) && cur != [] && Trimmed(q)
    requires Mul(q, Const(Lead(cur))) == cur
    ensures q == Scale(cur, 1.0 / Lead(cur))
  {
    var c := Lead(cur);
    MulConst(q, c);
    forall i: nat ensures Coeff(q, i) == Coeff(Scale(cur, 1.0 / c), i) {
      assert Coeff(cur, i) == Coeff(q, i) * c;
      InverseCancel(Coeff(q, i), c);
    }
    Ext(q, Scale(cur, 1.0 / c));
  }

  lemma InverseCancel(x: real, c: real)
    requires c != 0.0
    ensures x == x * c * (1.0 / c)
  {
  }

  /** Scaling a combination scales its cofactors. */
  lemma ScaleCombine(a: seq<real>, p: seq<real>, b: seq<real>, r: seq<real>, k: real)
    ensures Scale(Combine(a, p, b, r), k) == Combine(Scale(a, k), p, Scale(b, k), r)
  {
    ScaleAdd(Mul(a, p), Mul(b, r), k);
    MulScaleLeft(a, k, p);
    MulScaleLeft(b, k, r);
  }

  /** Scaling distributes over addition: scaling by k is multiplying by the
      constant k, which distributes over the sum. */
  lemma ScaleAdd(x: seq<real>, y: seq<real>, k: real)
    ensures Scale(Add(x, y), k) == Add(Scale(x, k), Scale(y, k))
  {
    MulConst(Add(x, y), k);
    MulConst(x, k);
    MulConst(y, k);
    MulAddLeft(x, y, Const(k));
  }

  // ---------------------------------------------------------------------
  // The loops of long division and of the Euclidean algorithm, one step at a time

  /** The long-division loop state: q * d + cur == p, both trimmed. */
  ghost predicate DivInv(p: seq<real>, d: seq<real>, q: seq<real>, cur: seq<real>) {
    Trimmed(q) && Trimmed(cur) && Add(Mul(q, d), cur) == p
  }

  /** One pass of the long-division loop keeps the state and shortens cur. */
  lemma DivStep(p: seq<real>, d: seq<real>, q: seq<real>, cur: seq<real>)
    requires Trimmed(d) && d != [] && |cur| >= |d| && DivInv(p, d, q, cur)
    ensures DivInv(p, d, Add(q, LeadTerm(cur, d)), Sub(cur, Mul(d, LeadTerm(cur, d))))
    ensures |Sub(cur, Mul(d, LeadTerm(cur, d)))| < |cur|
  {
    DivStepKeeps(p, d, q, cur, LeadTerm(cur, d));
    DivStepShrinks(cur, d);
  }

  /** The Euclidean loop state: cur and other are combinations of p and r, and
      p and r are combinations of cur and other. */
  ghost predicate EuclidInv(p: seq<real>, r: seq<real>, cur: seq<real>, other: seq<real>,
                            a1: seq<real>, b1: seq<real>, a2: seq<real>, b2: seq<real>,
                            c1: seq<real>, d1: seq<real>, c2: seq<real>, d2: seq<real>) {
    Trimmed(cur) && Trimmed(other)
    && Trimmed(a1) && Trimmed(b1) && Trimmed(a2) && Trimmed(b2)
    && Trimmed(c1) && Trimmed(d1) && Trimmed(c2) && Trimmed(d2)
    && cur == Combine(a1, p, b1, r) && other == Combine(a2, p, b2, r)
    && p == Combine(c1, cur, d1, other) && r == Combine(c2, cur, d2, other)
  }

  lemma EuclidStart(p: seq<real>, r: seq<real>)
    requires Trimmed(p) && Trimmed(r)
    ensures EuclidInv(p, r, p, r, Const(1.0), [], [], Const(1.0), Const(1.0), [], [], Const(1.0))
  {
    CombineStart(p, r);
  }

  /** One pass of the Euclidean loop: (cur, other) becomes (other, cur % other). */
  lemma EuclidStep(p: seq<real>, r: seq<real>, cur: seq<real>, other: seq<real>,
                   a1: seq<real>, b1: seq<real>, a2: seq<real>, b2: seq<real>,
                   c1: seq<real>, d1: seq<real>, c2: seq<real>, d2: seq<real>,
                   q: seq<real>, m: seq<real>)
    requires EuclidInv(p, r, cur, other, a1, b1, a2, b2, c1, d1, c2, d2)
    requires Trimmed(q) && Trimmed(m) && IsDivision(cur, other, q, m)
    ensures EuclidInv(p, r, other, m, a2, b2, Sub(a1, Mul(q, a2)), Sub(b1, Mul(q, b2)),
                      Add(Mul(c1, q), d1), c1, Add(Mul(c2, q), d2), c2)
  {
    RemainderIsSub(cur, other, q, m);
    CombineRemainder(p, r, a1, b1, a2, b2, q);
    CombineBack(c1, d1, cur, other, q, m);
    CombineBack(c2, d2, cur, other, q, m);
  }

  /** When the Euclidean loop stops (other is zero), cur is nonzero unless p and r both are. */
  lemma EuclidNonZero(p: seq<real>, r: seq<real>, cur: seq<real>, other: seq<real>,
                      a1: seq<real>, b1: seq<real>, a2: seq<real>, b2: seq<real>,
                      c1: seq<real>, d1: seq<real>, c2: seq<real>, d2: seq<real>)
    requires other == [] && EuclidInv(p, r, cur, other, a1, b1, a2, b2, c1, d1, c2, d2)
    requires p != [] || r != []
    ensures cur != []
  {
    CombineZero(c1, cur, d1);
    CombineZero(c2, cur, d2);
    if cur == [] {
      MulZeroRight(c1);
      MulZeroRight(c2);
      assert false;
    }
  }

  /** The final division of cur by its leading coefficient gives a monic common
      divisor g of p and r, which is also a combination of p and r. */
  lemma EuclidFinish(p: seq<real>, r: seq<real>, cur: seq<real>, other: seq<real>,
                     a1: seq<real>, b1: seq<real>, a2: seq<real>, b2: seq<real>,
                     c1: seq<real>, d1: seq<real>, c2: seq<real>, d2: seq<real>, lc: seq<real>, g: seq<real>)
    requires other == [] && EuclidInv(p, r, cur, other, a1, b1, a2, b2, c1, d1, c2, d2)
    requires cur != [] && Trimmed(g) && lc == Const(Lead(cur))
    requires IsDivision(cur, lc, g, Sub(cur, Mul(g, lc)))
    ensures Monic(g)
    ensures DividesWith(g, p, Mul(c1, Const(Lead(cur)))) && DividesWith(g, r, Mul(c2, Const(Lead(cur))))
    ensures g == Combine(Scale(a1, 1.0 / Lead(cur)), p, Scale(b1, 1.0 / Lead(cur)), r)
    ensures g == Scale(cur, 1.0 / Lead(cur))
  {
    var l := Lead(cur);
    CombineZero(c1, cur, d1);
    CombineZero(c2, cur, d2);
    DivByConstant(cur, l, g, Sub(cur, Mul(g, Const(l))));
    MonicQuotient(cur, g);
    DividesThroughConst(p, cur, c1, g, Const(l));
    DividesThroughConst(r, cur, c2, g, Const(l));
    QuotientByLead(cur, g);
    ScaleCombine(a1, p, b1, r, 1.0 / l);
  }
}
