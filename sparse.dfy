/** The sparse polynomial: an ordered map from exponent to coefficient that
    stores only nonzero coefficients, so that the zero polynomial is the empty
    map and the degree is the largest stored exponent. Iterating over the map
    visits its exponents in increasing order; that traversal is the sequence
    Traversal(p) below. */
module SparsePolynomial {
  import opened PolySpec
  import opened PolyLaws
  import opened PolyDivision

  /** The stored coefficient of x^i, zero for an absent exponent. */
  function Lookup(m: map<nat, real>, i: nat): real {
    if i in m then m[i] else 0.0
  }

  /** No stored zero coefficient: the canonical-zero invariant. */
  ghost predicate NoZero(m: map<nat, real>) {
    forall k :: k in m ==> m[k] != 0.0
  }

  lemma {:induction false} MaxExists(s: set<nat>)
    requires s != {}
    ensures exists k :: k in s && forall j :: j in s ==> j <= k
  {
    var x :| x in s;
    if s != {x} {
      MaxExists(s - {x});
      var y :| y in s - {x} && forall j :: j in s - {x} ==> j <= y;
      var k := if x < y then y else x;
      forall j | j in s ensures j <= k {
        if j != x { assert j in s - {x}; }
      }
    } else {
      assert forall j :: j in s ==> j <= x;
    }
  }

  /** The largest element of a nonempty set of exponents: the key of the
      last map entry. */
  function MaxKey(s: set<nat>): (k: nat)
    requires s != {}
    ensures k in s && forall j :: j in s ==> j <= k
  {
    MaxExists(s);
    var k :| k in s && forall j :: j in s ==> j <= k;
    k
  }

  /** One more than the largest stored exponent; zero for the empty map. */
  function Bound(m: map<nat, real>): (n: nat)
    ensures forall k :: k in m ==> k < n
    ensures n > 0 ==> n - 1 in m
  {
    if m.Keys == {} then 0 else MaxKey(m.Keys) + 1
  }

  /** x is visited strictly before y. */
  predicate Before(x: nat, y: nat) {
    x < y
  }

  /** The exponents of a traversal increase strictly. */
  predicate Ascending(ks: seq<nat>) {
    forall i, j {:trigger Before(ks[i], ks[j])} :: 0 <= i < j < |ks| ==> Before(ks[i], ks[j])
  }

  /** The stored exponents below n, in increasing order. */
  function KeysBelow(m: map<nat, real>, n: nat): (ks: seq<nat>)
    ensures forall k :: k in ks <==> k in m && k < n
    ensures Ascending(ks)
    ensures forall i :: 0 <= i < |ks| ==> ks[i] < n
  {
    if n == 0 then []
    else KeysBelow(m, n - 1) + (if n - 1 in m then [n - 1] else [])
  }

  /** The exponents in the order an iterator over the map visits them. */
  function Traversal(m: map<nat, real>): (ks: seq<nat>)
    ensures forall k :: k in ks <==> k in m
    ensures Ascending(ks)
    ensures |ks| == 0 <==> m.Keys == {}
    ensures |ks| > 0 ==> ks[|ks| - 1] == Bound(m) - 1
  {
    TraversalEnds(m);
    KeysBelow(m, Bound(m))
  }

  lemma TraversalEnds(m: map<nat, real>)
    ensures var ks := KeysBelow(m, Bound(m));
      (|ks| == 0 <==> m.Keys == {}) && (|ks| > 0 ==> ks[|ks| - 1] == Bound(m) - 1)
  {
    var ks := KeysBelow(m, Bound(m));
    if |ks| > 0 {
      var i :| 0 <= i < |ks| && ks[i] == Bound(m) - 1;
      var x, y := ks[i], ks[|ks| - 1];
      assert i == |ks| - 1 || Before(x, y);
    }
    if m.Keys != {} {
      var k :| k in m.Keys;
      assert k in ks;
    }
  }

  /** Every exponent below Done(ks, i) has been passed once the first i
      entries of the traversal ks have been visited. */
  function Done(ks: seq<nat>, i: nat): (n: nat)
    requires i <= |ks|
  {
    if i == 0 then 0 else ks[i - 1] + 1
  }

  /** Between the last visited entry and the next one no exponent is stored;
      past the last entry none is either. */
  lemma Gap(m: map<nat, real>, ks: seq<nat>, i: nat)
    requires ks == Traversal(m) && i <= |ks|
    ensures i < |ks| ==> Done(ks, i) <= ks[i]
    ensures forall e: nat :: Done(ks, i) <= e < (if i < |ks| then ks[i] else Bound(m)) ==> e !in m
    ensures forall e: nat :: e >= Bound(m) ==> e !in m
    ensures i == |ks| ==> Done(ks, i) == Bound(m)
  {
    if 0 < i < |ks| {
      assert Before(ks[i - 1], ks[i]);
    }
    forall e: nat | e in m
      ensures e < Done(ks, i) || e >= (if i < |ks| then ks[i] else Bound(m))
    {
      var j :| 0 <= j < |ks| && ks[j] == e;
      if j < i - 1 {
        assert Before(ks[j], ks[i - 1]);
      } else if i <= j && i < |ks| && i < j {
        assert Before(ks[i], ks[j]);
      }
    }
  }

  /** A full traversal has passed every stored exponent. */
  lemma GapEnd(m: map<nat, real>, ks: seq<nat>)
    requires ks == Traversal(m)
    ensures Done(ks, |ks|) == Bound(m)
  {
    Gap(m, ks, |ks|);
  }

  /** Gap before entry i alone. */
  lemma GapNext(m: map<nat, real>, ks: seq<nat>, i: nat)
    requires ks == Traversal(m) && i < |ks|
    ensures Done(ks, i) <= ks[i] && ks[i] in m && Done(ks, i + 1) == ks[i] + 1
    ensures forall e: nat :: Done(ks, i) <= e < ks[i] ==> e !in m
  {
    Gap(m, ks, i);
  }

  /** Gap in terms of the coefficients: zero between the last visited entry
      and entry i, which holds the stored one. */
  lemma GapCoeff(m: map<nat, real>, ks: seq<nat>, i: nat)
    requires ks == Traversal(m) && i < |ks|
    ensures Done(ks, i) <= ks[i] && Coeff(AbsOf(m), ks[i]) == m[ks[i]]
    ensures forall j: nat :: Done(ks, i) <= j < ks[i] ==> Coeff(AbsOf(m), j) == 0.0
    ensures Done(ks, i + 1) == ks[i] + 1
  {
    Gap(m, ks, i);
  }

  /** The first n coefficients, untrimmed. */
  function Dense(m: map<nat, real>, n: nat): (s: seq<real>)
    ensures |s| == n && forall i :: 0 <= i < n ==> s[i] == Lookup(m, i)
  {
    if n == 0 then [] else Dense(m, n - 1) + [Lookup(m, n - 1)]
  }

  /** The coefficient sequence a map stands for. */
  ghost function AbsOf(m: map<nat, real>): (s: seq<real>)
    ensures Trimmed(s)
    ensures forall i: nat {:trigger Coeff(s, i)} :: Coeff(s, i) == Lookup(m, i)
    ensures |s| <= Bound(m) && (NoZero(m) ==> |s| == Bound(m))
  {
    AbsExists(m);
    var s :| Trimmed(s) && (forall i: nat :: Coeff(s, i) == Lookup(m, i)) && |s| <= Bound(m) && (NoZero(m) ==> |s| == Bound(m));
    s
  }

  lemma AbsExists(m: map<nat, real>)
    ensures exists s :: Trimmed(s) && (forall i: nat :: Coeff(s, i) == Lookup(m, i)) && |s| <= Bound(m) && (NoZero(m) ==> |s| == Bound(m))
  {
    var d := Dense(m, Bound(m));
    var s := Trim(d);
    assert forall i: nat :: Coeff(s, i) == Coeff(d, i);
    if NoZero(m) && Bound(m) > 0 {
      assert Coeff(s, Bound(m) - 1) == Coeff(d, Bound(m) - 1) != 0.0;
    }
    assert Trimmed(s) && (forall i: nat :: Coeff(s, i) == Lookup(m, i)) && |s| <= Bound(m) && (NoZero(m) ==> |s| == Bound(m));
  }

  /** The map is determined by its coefficient sequence. */
  lemma AbsInjective(m1: map<nat, real>, m2: map<nat, real>)
    requires NoZero(m1) && NoZero(m2) && AbsOf(m1) == AbsOf(m2)
    ensures m1 == m2
  {
    forall k: nat ensures Lookup(m1, k) == Lookup(m2, k) {
      assert Coeff(AbsOf(m1), k) == Coeff(AbsOf(m2), k);
    }
    forall k | k in m1 ensures k in m2 && m1[k] == m2[k] {
      assert Lookup(m1, k) == Lookup(m2, k);
    }
    forall k | k in m2 ensures k in m1 {
      assert Lookup(m1, k) == Lookup(m2, k);
    }
  }

  lemma AbsEquality(m1: map<nat, real>, m2: map<nat, real>)
    ensures NoZero(m1) && NoZero(m2) ==> (m1 == m2 <==> AbsOf(m1) == AbsOf(m2))
  {
    if NoZero(m1) && NoZero(m2) && AbsOf(m1) == AbsOf(m2) {
      AbsInjective(m1, m2);
    }
  }

  /** Two maps with the same lookups stand for the same sequence. */
  lemma AbsOfLookup(m: map<nat, real>, s: seq<real>)
    requires Trimmed(s) && forall k: nat :: Lookup(m, k) == Coeff(s, k)
    ensures AbsOf(m) == s
  {
    Ext(AbsOf(m), s);
  }

  /** The map after set(i, v): a zero value erases the entry, any other is stored. */
  function Stored(m: map<nat, real>, i: nat, v: real): map<nat, real> {
    if v == 0.0 then m - {i} else m[i := v]
  }

  /** set(i, v) changes the coefficient of x^i to v and no other, and never
      stores a zero. */
  lemma StoredLookup(m: map<nat, real>, i: nat, v: real)
    ensures forall k: nat :: Lookup(Stored(m, i, v), k) == if k == i then v else Lookup(m, k)
    ensures NoZero(m) ==> NoZero(Stored(m, i, v))
  {
  }

  /** The map after the first n passes of the loop of operator+= (or, when
      neg, operator-=) over the traversal ks of q: set(e, get(e) + q[e]). */
  function AccFold(m0: map<nat, real>, q: map<nat, real>, ks: seq<nat>, n: nat, neg: bool): map<nat, real>
    requires n <= |ks| && forall k :: k in ks ==> k in q
  {
    if n == 0 then m0
    else
      var m := AccFold(m0, q, ks, n - 1, neg);
      var e := ks[n - 1];
      Stored(m, e, if neg then Lookup(m, e) - q[e] else Lookup(m, e) + q[e])
  }

  /** After n passes, coefficient k holds the sum (or, when neg, the
      difference) if the traversal has passed k, and its old value if not. */
  lemma {:induction false} AccFoldAt(m0: map<nat, real>, q: map<nat, real>, ks: seq<nat>, n: nat, neg: bool, k: nat)
    requires ks == Traversal(q) && n <= |ks|
    ensures Lookup(AccFold(m0, q, ks, n, neg), k) ==
      if k >= Done(ks, n) then Lookup(m0, k)
      else if neg then Lookup(m0, k) - Lookup(q, k) else Lookup(m0, k) + Lookup(q, k)
  {
    if n > 0 {
      AccFoldAt(m0, q, ks, n - 1, neg, k);
      var m := AccFold(m0, q, ks, n - 1, neg);
      var e := ks[n - 1];
      var v := if neg then Lookup(m, e) - q[e] else Lookup(m, e) + q[e];
      assert AccFold(m0, q, ks, n, neg) == Stored(m, e, v);
      StoredAt(m, e, v, k);
      GapNext(q, ks, n - 1);
      if Done(ks, n - 1) <= k < e {
        assert k !in q;
      }
    }
  }

  /** The loop of operator+= (or operator-=) never stores a zero. */
  lemma {:induction false} AccFoldNoZero(m0: map<nat, real>, q: map<nat, real>, ks: seq<nat>, n: nat, neg: bool)
    requires n <= |ks| && (forall k :: k in ks ==> k in q) && NoZero(m0)
    ensures NoZero(AccFold(m0, q, ks, n, neg))
  {
    if n > 0 {
      AccFoldNoZero(m0, q, ks, n - 1, neg);
      var m := AccFold(m0, q, ks, n - 1, neg);
      var e := ks[n - 1];
      StoredLookup(m, e, if neg then Lookup(m, e) - q[e] else Lookup(m, e) + q[e]);
    }
  }

  /** The whole loop of operator+= (or operator-=) computes the sum (or the
      difference) and keeps the no-zero invariant. */
  lemma AccFoldAbs(m0: map<nat, real>, q: map<nat, real>, ks: seq<nat>, m: map<nat, real>, neg: bool)
    requires ks == Traversal(q) && m == AccFold(m0, q, ks, |ks|, neg)
    ensures AbsOf(m) == if neg then Sub(AbsOf(m0), AbsOf(q)) else Add(AbsOf(m0), AbsOf(q))
    ensures NoZero(m0) ==> NoZero(m)
  {
    Gap(q, ks, |ks|);
    var r := if neg then Sub(AbsOf(m0), AbsOf(q)) else Add(AbsOf(m0), AbsOf(q));
    forall k: nat ensures Lookup(m, k) == Coeff(r, k) {
      AccFoldAt(m0, q, ks, |ks|, neg, k);
      if k >= Done(ks, |ks|) { assert k !in q; }
    }
    if NoZero(m0) {
      AccFoldNoZero(m0, q, ks, |ks|, neg);
    }
    AbsOfLookup(m, r);
  }

  /** The map after the inner loop of operator*= has visited the first n
      entries of the traversal ks of q, for the outer entry (e, c):
      set(e + f, get(e + f) + c * q[f]) for each visited exponent f. */
  function RowFold(m0: map<nat, real>, c: real, e: nat, q: map<nat, real>, ks: seq<nat>, n: nat): map<nat, real>
    requires n <= |ks| && forall k :: k in ks ==> k in q
  {
    if n == 0 then m0
    else
      var m := RowFold(m0, c, e, q, ks, n - 1);
      var f := ks[n - 1];
      Stored(m, e + f, Lookup(m, e + f) + Times(c, q[f]))
  }

  /** The map after the outer loop of operator*= has visited the first n
      entries of the traversal ka of a, starting from the cleared map. */
  function MulFold(a: map<nat, real>, ka: seq<nat>, q: map<nat, real>, kq: seq<nat>, n: nat): map<nat, real>
    requires n <= |ka| && (forall k :: k in ka ==> k in a) && (forall k :: k in kq ==> k in q)
  {
    if n == 0 then map[]
    else
      var e := ka[n - 1];
      RowFold(MulFold(a, ka, q, kq, n - 1), a[e], e, q, kq, |kq|)
  }

  /** One pass of the inner loop of operator*=. */
  lemma RowFoldNext(m0: map<nat, real>, c: real, e: nat, q: map<nat, real>, ks: seq<nat>, j: nat,
                    mj: map<nat, real>, v: real)
    requires j < |ks| && (forall k :: k in ks ==> k in q) && mj == RowFold(m0, c, e, q, ks, j)
    requires v == Lookup(mj, e + ks[j]) + Times(c, q[ks[j]])
    ensures RowFold(m0, c, e, q, ks, j + 1) == Stored(mj, e + ks[j], v)
  {
  }

  /** After n passes of the inner loop, coefficient k has gained c * q[k - e]
      if the traversal has passed k - e, and nothing otherwise. */
  lemma {:induction false} RowFoldAt(m0: map<nat, real>, c: real, e: nat, q: map<nat, real>, ks: seq<nat>, n: nat, k: nat)
    requires ks == Traversal(q) && n <= |ks|
    ensures Lookup(RowFold(m0, c, e, q, ks, n), k) ==
      Lookup(m0, k) + (if e <= k < e + Done(ks, n) then Times(c, Lookup(q, k - e)) else 0.0)
  {
    if n > 0 {
      RowFoldAt(m0, c, e, q, ks, n - 1, k);
      var m := RowFold(m0, c, e, q, ks, n - 1);
      var f := ks[n - 1];
      var v := Lookup(m, e + f) + Times(c, q[f]);
      RowFoldNext(m0, c, e, q, ks, n - 1, m, v);
      StoredAt(m, e + f, v, k);
      GapNext(q, ks, n - 1);
      if e + Done(ks, n - 1) <= k < e + f {
        assert k - e !in q;
      }
    }
  }

  /** The coefficient of x^k after set(i, v). */
  lemma StoredAt(m: map<nat, real>, i: nat, v: real, k: nat)
    ensures Lookup(Stored(m, i, v), k) == if k == i then v else Lookup(m, k)
  {
  }

  /** The inner loop of operator*= never stores a zero. */
  lemma {:induction false} RowFoldNoZero(m0: map<nat, real>, c: real, e: nat, q: map<nat, real>, ks: seq<nat>, n: nat)
    requires n <= |ks| && (forall k :: k in ks ==> k in q) && NoZero(m0)
    ensures NoZero(RowFold(m0, c, e, q, ks, n))
  {
    if n > 0 {
      RowFoldNoZero(m0, c, e, q, ks, n - 1);
      var m := RowFold(m0, c, e, q, ks, n - 1);
      StoredLookup(m, e + ks[n - 1], Lookup(m, e + ks[n - 1]) + Times(c, q[ks[n - 1]]));
    }
  }

  /** A run of zero coefficients in a adds nothing to the partial convolution. */
  lemma {:induction false} ConvUpToSkip(a: seq<real>, b: seq<real>, k: int, lo: nat, hi: nat)
    requires lo <= hi
    requires forall i: nat :: lo <= i < hi ==> Coeff(a, i) == 0.0
    ensures ConvUpTo(a, b, k, hi) == ConvUpTo(a, b, k, lo)
    decreases hi
  {
    if hi > lo {
      ConvUpToSkip(a, b, k, lo, hi - 1);
      ConvStep(a, b, k, hi, hi - 1);
      ZeroTimes(0.0, Coeff(a, hi - 1), CoeffZ(b, k - (hi - 1)));
    }
  }

  /** After the outer loop has visited n entries of a, coefficient k holds
      the partial convolution over the exponents of a passed so far. */
  lemma {:induction false} MulFoldAt(a: map<nat, real>, ka: seq<nat>, q: map<nat, real>, kq: seq<nat>, n: nat, k: nat)
    requires ka == Traversal(a) && kq == Traversal(q) && n <= |ka|
    ensures Lookup(MulFold(a, ka, q, kq, n), k) == ConvUpTo(AbsOf(a), AbsOf(q), k, Done(ka, n))
  {
    if n > 0 {
      MulFoldAt(a, ka, q, kq, n - 1, k);
      var m := MulFold(a, ka, q, kq, n - 1);
      var e := ka[n - 1];
      var m1 := RowFold(m, a[e], e, q, kq, |kq|);
      assert MulFold(a, ka, q, kq, n) == m1;
      RowFoldAt(m, a[e], e, q, kq, |kq|, k);
      GapNext(a, ka, n - 1);
      GapEnd(q, kq);
      MulCoeffStep(a, q, k, Done(ka, n - 1), e, Done(kq, |kq|), Done(ka, n), Lookup(m, k), Lookup(m1, k));
    }
  }

  /** The outer loop of operator*= never stores a zero. */
  lemma {:induction false} MulFoldNoZero(a: map<nat, real>, ka: seq<nat>, q: map<nat, real>, kq: seq<nat>, n: nat)
    requires n <= |ka| && (forall k :: k in ka ==> k in a) && (forall k :: k in kq ==> k in q)
    ensures NoZero(MulFold(a, ka, q, kq, n))
  {
    if n > 0 {
      MulFoldNoZero(a, ka, q, kq, n - 1);
      var e := ka[n - 1];
      RowFoldNoZero(MulFold(a, ka, q, kq, n - 1), a[e], e, q, kq, |kq|);
    }
  }

  /** Coefficient k after the outer entry e: the exponents of a between the
      previous entry and e are absent, so they add nothing, and e adds
      a[e] * q[k - e]. */
  lemma MulCoeffStep(a: map<nat, real>, q: map<nat, real>, k: nat, lo: nat, e: nat, hi: nat, nxt: nat,
                     prev: real, now: real)
    requires lo <= e && e in a && forall i: nat :: lo <= i < e ==> i !in a
    requires hi == Bound(q) && nxt == e + 1
    requires prev == ConvUpTo(AbsOf(a), AbsOf(q), k, lo)
    requires now == prev + (if e <= k < e + hi then Times(a[e], Lookup(q, k - e)) else 0.0)
    ensures now == ConvUpTo(AbsOf(a), AbsOf(q), k, nxt)
  {
    var A, B := AbsOf(a), AbsOf(q);
    ConvUpToSkip(A, B, k, lo, e);
    ConvStep(A, B, k, e + 1, e);
    assert Coeff(A, e) == a[e];
    if k < e {
      assert CoeffZ(B, k - e) == 0.0;
    } else {
      assert CoeffZ(B, k - e) == Lookup(q, k - e);
    }
  }

  /** The whole loop of operator*= computes the product and stores no zero. */
  lemma MulFoldAbs(a: map<nat, real>, ka: seq<nat>, q: map<nat, real>, kq: seq<nat>, m: map<nat, real>)
    requires ka == Traversal(a) && kq == Traversal(q) && m == MulFold(a, ka, q, kq, |ka|)
    ensures AbsOf(m) == Mul(AbsOf(a), AbsOf(q))
    ensures NoZero(m)
  {
    MulFoldNoZero(a, ka, q, kq, |ka|);
    Gap(a, ka, |ka|);
    forall k: nat ensures Lookup(m, k) == Coeff(Mul(AbsOf(a), AbsOf(q)), k) {
      MulFoldAt(a, ka, q, kq, |ka|, k);
      ConvUpToSkip(AbsOf(a), AbsOf(q), k, |AbsOf(a)|, Bound(a));
      ConvUpToExtend(AbsOf(a), AbsOf(q), k, |AbsOf(a)|);
    }
    AbsOfLookup(m, Mul(AbsOf(a), AbsOf(q)));
  }

  /** std::equal(begin(a), end(a), begin(b)) over two traversals: entry by
      entry, reading b at every position of a. The preconditions are what
      keeps b from being read past its end: the two ranges are both empty or
      both end at the same exponent. */
  function EqualFrom(m1: map<nat, real>, ks1: seq<nat>, m2: map<nat, real>, ks2: seq<nat>): (b: bool)
    requires Ascending(ks1) && Ascending(ks2)
    requires forall k :: k in ks1 ==> k in m1
    requires forall k :: k in ks2 ==> k in m2
    requires |ks1| == 0 <==> |ks2| == 0
    requires |ks1| > 0 ==> ks1[|ks1| - 1] == ks2[|ks2| - 1]
    ensures b <==> ks1 == ks2 && forall k :: k in ks1 ==> m1[k] == m2[k]
    decreases |ks1|
  {
    if |ks1| == 0 then true
    else
      ks1[0] == ks2[0] && m1[ks1[0]] == m2[ks2[0]] &&
      (assert |ks1| > 1 ==> Before(ks1[0], ks1[|ks1| - 1]);
       assert |ks2| > 1 ==> Before(ks2[0], ks2[|ks2| - 1]);
       EqualFrom(m1, ks1[1..], m2, ks2[1..]))
  }

  /** std::equal over the entries of two maps whose degrees agree (both
      empty, or the same largest exponent): true exactly when the maps are
      equal. */
  function EntriesEqual(m1: map<nat, real>, m2: map<nat, real>): (b: bool)
    requires m1.Keys == {} <==> m2.Keys == {}
    requires m1.Keys != {} ==> MaxKey(m1.Keys) == MaxKey(m2.Keys)
    ensures b <==> m1 == m2
  {
    EqualFrom(m1, Traversal(m1), m2, Traversal(m2))
  }

  /** A term with a zero coefficient adds nothing. */
  lemma ZeroTerm(prev: seq<real>, w: seq<real>, c: real)
    requires Trimmed(prev) && c == 0.0
    ensures Add(prev, Mul(w, Const(c))) == prev
  {
    MulZeroRight(w);
    AddZeroRight(prev);
  }

  /** Exponents with a zero coefficient add nothing to the partial composition. */
  lemma {:induction false} ComposeUpToSkip(a: seq<real>, r: seq<real>, lo: nat, hi: nat)
    requires lo <= hi && forall i: nat :: lo <= i < hi ==> Coeff(a, i) == 0.0
    ensures ComposeUpTo(a, r, hi) == ComposeUpTo(a, r, lo)
    decreases hi
  {
    if hi > lo {
      ComposeUpToSkip(a, r, lo, hi - 1);
      var prev := ComposeUpTo(a, r, hi - 1);
      var t := Mul(PolyPow(r, hi - 1), Const(Coeff(a, hi - 1)));
      assert ComposeUpTo(a, r, hi) == Add(prev, t);
      ZeroTerm(prev, PolyPow(r, hi - 1), Coeff(a, hi - 1));
    }
  }

  /** Exponents with a zero coefficient add nothing to the running value. */
  lemma {:induction false} EvalUpToSkip(a: seq<real>, v: real, lo: nat, hi: nat)
    requires lo <= hi && forall i: nat :: lo <= i < hi ==> Coeff(a, i) == 0.0
    ensures EvalUpTo(a, v, hi) == EvalUpTo(a, v, lo)
    decreases hi
  {
    if hi > lo {
      EvalUpToSkip(a, v, lo, hi - 1);
      UpToStep(a, v, hi, hi - 1);
      ZeroTimes(0.0, Coeff(a, hi - 1), Power(v, hi - 1));
    }
  }

  /** a^b splits into (a * a)^(b / 2) times a^(b % 2). */
  lemma PowerSplit(a: real, b: nat)
    ensures Power(a, b) == Power(Times(a, a), b / 2) * Power(a, b % 2)
  {
    var h := b / 2;
    PowerSquare(a, h);
    PowerAdd(a, 2 * h, b % 2);
    assert 2 * h + b % 2 == b;
  }

  /** floor(log2 b), and 0 for b == 0: how many times b_pow and pow square. */
  function Log2(b: nat): nat
  {
    if b <= 1 then 0 else 1 + Log2(b / 2)
  }

  /** One pass of b_pow: once the low bit of b is folded into res, what is
      left is (a * a)^(b / 2). */
  lemma BPowStep(res: real, a: real, b: nat, res1: real)
    requires res1 == if b % 2 == 1 then Times(res, a) else res
    ensures Times(res, Power(a, b)) == Times(res1, Power(Times(a, a), b / 2))
  {
    var x := Power(Times(a, a), b / 2);
    PowerSplit(a, b);
    if b % 2 == 1 {
      assert Power(a, 1) == a;
      assert res * (x * a) == (res * a) * x;
    } else {
      assert Power(a, 0) == 1.0;
    }
  }

  /** r^b splits into (r * r)^(b / 2) times r^(b % 2). */
  lemma PolyPowSplit(c: seq<real>, b: nat)
    requires Trimmed(c)
    ensures PolyPow(c, b) == Mul(PolyPow(Mul(c, c), b / 2), PolyPow(c, b % 2))
  {
    var h := b / 2;
    PolyPowSquare(c, h);
    PolyPowAdd(c, 2 * h, b % 2);
    assert 2 * h + b % 2 == b;
  }

  /** One pass of pow: once the low bit of b is folded into res, what is
      left is (c * c)^(b / 2). */
  lemma PowStep(res: seq<real>, c: seq<real>, b: nat, res1: seq<real>)
    requires Trimmed(res) && Trimmed(c)
    requires res1 == if b % 2 == 1 then Mul(res, c) else res
    ensures Mul(res, PolyPow(c, b)) == Mul(res1, PolyPow(Mul(c, c), b / 2))
  {
    var x := PolyPow(Mul(c, c), b / 2);
    PolyPowSplit(c, b);
    if b % 2 == 1 {
      assert PolyPow(c, 1) == Mul(PolyPow(c, 0), c);
      MulOne(c);
      MulComm(x, c);
      MulAssoc(res, c, x);
    } else {
      assert PolyPow(c, 0) == Const(1.0);
      MulOne(x);
    }
  }

  /** The entry (e, c) at position i of the traversal of m extends the
      partial composition from the last visited exponent to e + 1: the
      exponents in between are absent. */
  lemma ComposeNext(m: map<nat, real>, ks: seq<nat>, i: nat, r: seq<real>)
    requires ks == Traversal(m) && i < |ks|
    ensures Add(ComposeUpTo(AbsOf(m), r, Done(ks, i)), Mul(PolyPow(r, ks[i]), Const(m[ks[i]])))
         == ComposeUpTo(AbsOf(m), r, Done(ks, i + 1))
  {
    GapCoeff(m, ks, i);
    ComposeExtend(AbsOf(m), r, Done(ks, i), ks[i], m[ks[i]], Done(ks, i + 1));
  }

  /** The term of exponent e extends the partial composition from lo to
      e + 1 when the coefficients from lo up to e are zero. */
  lemma ComposeExtend(a: seq<real>, r: seq<real>, lo: nat, e: nat, c: real, hi: nat)
    requires lo <= e && forall i: nat :: lo <= i < e ==> Coeff(a, i) == 0.0
    requires c == Coeff(a, e) && hi == e + 1
    ensures Add(ComposeUpTo(a, r, lo), Mul(PolyPow(r, e), Const(c))) == ComposeUpTo(a, r, hi)
  {
    ComposeSkipStep(a, r, lo, e);
    assert Const(c) == Const(Coeff(a, e));
  }

  /** ComposeExtend with the coefficient and the new bound written out. */
  lemma ComposeSkipStep(a: seq<real>, r: seq<real>, lo: nat, e: nat)
    requires lo <= e && forall i: nat :: lo <= i < e ==> Coeff(a, i) == 0.0
    ensures Add(ComposeUpTo(a, r, lo), Mul(PolyPow(r, e), Const(Coeff(a, e)))) == ComposeUpTo(a, r, e + 1)
  {
    ComposeUpToSkip(a, r, lo, e);
  }

  /** Once the traversal has ended, the partial composition is the whole one. */
  lemma ComposeDone(m: map<nat, real>, ks: seq<nat>, r: seq<real>, s: seq<real>)
    requires ks == Traversal(m) && s == ComposeUpTo(AbsOf(m), r, Done(ks, |ks|))
    ensures s == Compose(AbsOf(m), r)
  {
    Gap(m, ks, |ks|);
    ComposeUpToSkip(AbsOf(m), r, |AbsOf(m)|, Bound(m));
  }

  /** The entry (e, c) at position i of the traversal of m extends the
      running value from the last visited exponent to e + 1. */
  lemma EvalNext(m: map<nat, real>, ks: seq<nat>, i: nat, v: real)
    requires ks == Traversal(m) && i < |ks|
    ensures EvalUpTo(AbsOf(m), v, Done(ks, i)) + Times(m[ks[i]], Power(v, ks[i]))
         == EvalUpTo(AbsOf(m), v, Done(ks, i + 1))
  {
    GapCoeff(m, ks, i);
    EvalExtend(AbsOf(m), v, Done(ks, i), ks[i], m[ks[i]], Done(ks, i + 1));
  }

  /** The term of exponent e extends the running value from lo to e + 1 when
      the coefficients from lo up to e are zero. */
  lemma EvalExtend(a: seq<real>, v: real, lo: nat, e: nat, c: real, hi: nat)
    requires lo <= e && forall i: nat :: lo <= i < e ==> Coeff(a, i) == 0.0
    requires c == Coeff(a, e) && hi == e + 1
    ensures EvalUpTo(a, v, lo) + Times(c, Power(v, e)) == EvalUpTo(a, v, hi)
  {
    EvalUpToSkip(a, v, lo, e);
    UpToStep(a, v, hi, e);
  }

  /** Once the traversal has ended, the running value is Horner's value. */
  lemma EvalDone(m: map<nat, real>, ks: seq<nat>, v: real, x: real)
    requires ks == Traversal(m) && x == EvalUpTo(AbsOf(m), v, Done(ks, |ks|))
    ensures x == Eval(AbsOf(m), v)
  {
    Gap(m, ks, |ks|);
    EvalUpToSkip(AbsOf(m), v, |AbsOf(m)|, Bound(m));
    EvalUpToEval(AbsOf(m), v);
  }

  /** One term of operator&: res += r.pow(e) * c. */
  method ComposeTerm(res: Polynomial, r: Polynomial, e: nat, c: real)
    requires res != r && res.Valid()
    modifies res
    ensures res.Valid()
    ensures res.Abs() == Add(old(res.Abs()), Mul(PolyPow(r.Abs(), e), Const(c)))
  {
    var t, _ := r.Pow(e);
    var k := new Polynomial.FromConst(c);
    var m := t.Product(k);
    res.AddAssign(m);
  }

  /** One pass of the loop of operator/: t holds the single term
      cur[deg cur] / other[deg other] at x^(deg cur - deg other); res += t and
      cur -= other * t. */
  method DivideStep(res: Polynomial, cur: Polynomial, other: Polynomial)
    requires res != cur && res != other && cur != other
    requires res.Valid() && cur.Valid() && other.Valid() && other.Abs() != []
    requires cur.Degree() >= other.Degree()
    modifies res, cur
    ensures res.Valid() && cur.Valid()
    ensures res.Abs() == Add(old(res.Abs()), LeadTerm(old(cur.Abs()), other.Abs()))
    ensures cur.Abs() == Sub(old(cur.Abs()), Mul(other.Abs(), LeadTerm(old(cur.Abs()), other.Abs())))
  {
    ghost var C, D := cur.Abs(), other.Abs();
    var dif := cur.Degree() - other.Degree();
    var t := new Polynomial.FromConst(0.0);
    var c := cur.Get(cur.Degree()) / other.Get(other.Degree());
    assert c == Lead(C) / Lead(D) && dif == |C| - |D|;
    StoredLookup(t.p, dif, c);
    t.Set(dif, c);
    AbsOfLookup(t.p, Mono(c, dif));
    ghost var T := t.Abs();
    assert T == LeadTerm(C, D);
    res.AddAssign(t);
    var m := other.Product(t);
    cur.SubAssign(m);
  }

  /** The loop of operator,: while other is not the zero polynomial, cur
      becomes cur % other and the two are swapped. On exit other is zero, and
      the ghost cofactors record how cur and the operands are combinations of
      each other. */
  method EuclidLoop(a: Polynomial, b: Polynomial)
    returns (cur: Polynomial, ghost o: seq<real>,
             ghost a1: seq<real>, ghost b1: seq<real>, ghost a2: seq<real>, ghost b2: seq<real>,
             ghost c1: seq<real>, ghost d1: seq<real>, ghost c2: seq<real>, ghost d2: seq<real>)
    requires a.Valid() && b.Valid()
    ensures fresh(cur) && cur.Valid() && o == []
    ensures EuclidInv(a.Abs(), b.Abs(), cur.Abs(), o, a1, b1, a2, b2, c1, d1, c2, d2)
    ensures b.Abs() == [] ==> cur.Abs() == a.Abs()
  {
    ghost var P, R := a.Abs(), b.Abs();
    cur := new Polynomial.Copy(a);
    var other := new Polynomial.Copy(b);
    var zero := new Polynomial.FromConst(0.0);
    a1, b1, a2, b2 := Const(1.0), [], [], Const(1.0);
    c1, d1, c2, d2 := Const(1.0), [], [], Const(1.0);
    EuclidStart(P, R);
    while other.NotEquals(zero)
      invariant fresh(cur) && fresh(other) && fresh(zero)
      invariant cur != other && cur != zero && other != zero
      invariant cur.Valid() && other.Valid() && zero.Valid() && zero.Abs() == []
      invariant EuclidInv(P, R, cur.Abs(), other.Abs(), a1, b1, a2, b2, c1, d1, c2, d2)
      invariant R == [] ==> cur.Abs() == P && other.Abs() == []
      decreases |other.Abs()|
    {
      var m := cur.Remainder(other);
      ghost var q :| Trimmed(q) && IsDivision(cur.Abs(), other.Abs(), q, m.Abs());
      EuclidStep(P, R, cur.Abs(), other.Abs(), a1, b1, a2, b2, c1, d1, c2, d2, q, m.Abs());
      a1, b1, a2, b2 := a2, b2, Sub(a1, Mul(q, a2)), Sub(b1, Mul(q, b2));
      c1, d1, c2, d2 := Add(Mul(c1, q), d1), c1, Add(Mul(c2, q), d2), c2;
      cur, other := other, m;
    }
    o := other.Abs();
  }

  class Polynomial {
    /** p[e] is the coefficient of x^e. */
    var p: map<nat, real>

    /** No stored zero coefficient. */
    ghost predicate Valid()
      reads this
    {
      NoZero(p)
    }

    /** The coefficient sequence this polynomial stands for. */
    ghost function Abs(): (s: seq<real>)
      reads this
    {
      AbsOf(p)
    }

    /** get(i) and operator[]: zero for an absent exponent. */
    function Get(i: nat): (c: real)
      reads this
      ensures c == Coeff(Abs(), i)
      ensures Valid() ==> (c != 0.0 <==> i in p)
    {
      Lookup(p, i)
    }

    /** set(i, v): a zero value erases the entry, any other is stored. */
    method Set(i: nat, v: real)
      modifies this
      ensures p == Stored(old(p), i, v)
    {
      if v == 0.0 && i in p {
        p := p - {i};
      } else if v != 0.0 {
        p := p[i := v];
      }
    }

    /** The zero polynomial. */
    constructor ()
      ensures Valid() && p == map[] && Abs() == []
    {
      p := map[];
      new;
      AbsOfLookup(p, []);
    }

    /** From a coefficient vector: set(i, v[i]) for every index. */
    constructor FromSeq(v: seq<real>)
      ensures Valid() && Abs() == Trim(v)
    {
      p := map[];
      new;
      for i := 0 to |v|
        invariant Valid()
        invariant forall k: nat :: Lookup(p, k) == if k < i then v[k] else 0.0
      {
        StoredLookup(p, i, v[i]);
        Set(i, v[i]);
      }
      forall k: nat ensures Lookup(p, k) == Coeff(Trim(v), k) {
        assert Coeff(Trim(v), k) == Coeff(v, k);
      }
      AbsOfLookup(p, Trim(v));
    }

    /** The constant polynomial k: set(0, k). */
    constructor FromConst(k: real)
      ensures Valid() && Abs() == Const(k)
    {
      p := map[];
      new;
      StoredLookup(p, 0, k);
      Set(0, k);
      AbsOfLookup(p, Const(k));
    }

    /** The implicit copy constructor. */
    constructor Copy(other: Polynomial)
      ensures p == other.p
    {
      p := other.p;
    }

    /** -1 for the empty map, otherwise the key of the last entry. */
    function Degree(): (d: int)
      reads this
      ensures d == -1 <==> p.Keys == {}
      ensures Valid() ==> d == PolySpec.Degree(Abs())
    {
      if p.Keys == {} then -1 else MaxKey(p.Keys)
    }

    /** operator==: equal degrees, then the entries compared in order. */
    function Equals(other: Polynomial): (b: bool)
      reads this, other
      ensures b <==> p == other.p
      ensures Valid() && other.Valid() ==> (b <==> Abs() == other.Abs())
    {
      AbsEquality(p, other.p);
      Degree() == other.Degree() && EntriesEqual(p, other.p)
    }

    /** operator!=. */
    function NotEquals(other: Polynomial): (b: bool)
      reads this, other
      ensures b <==> p != other.p
      ensures Valid() && other.Valid() ==> (b <==> Abs() != other.Abs())
    {
      !Equals(other)
    }

    /** operator+=: through a copy of other, set(e, get(e) + c) for each entry
        (e, c) in order. */
    method AddAssign(other: Polynomial)
      modifies this
      ensures old(Valid()) ==> Valid()
      ensures Abs() == Add(old(Abs()), old(other.Abs()))
    {
      var tmp := other.p;
      var ks := Traversal(tmp);
      for i := 0 to |ks|
        invariant p == AccFold(old(p), tmp, ks, i, false)
      {
        var e := ks[i];
        Set(e, Get(e) + tmp[e]);
      }
      AccFoldAbs(old(p), tmp, ks, p, false);
    }

    /** operator-=: through a copy of other, set(e, get(e) - c) for each entry
        (e, c) in order. */
    method SubAssign(other: Polynomial)
      modifies this
      ensures old(Valid()) ==> Valid()
      ensures Abs() == Sub(old(Abs()), old(other.Abs()))
    {
      var tmp := other.p;
      var ks := Traversal(tmp);
      for i := 0 to |ks|
        invariant p == AccFold(old(p), tmp, ks, i, true)
      {
        var e := ks[i];
        Set(e, Get(e) - tmp[e]);
      }
      AccFoldAbs(old(p), tmp, ks, p, true);
    }

    /** operator*=: through copies of both operands, clears the map, then
        for each entry (e, c) of this and each entry (f, d) of other in
        order, set(e + f, get(e + f) + c * d). */
    method MulAssign(other: Polynomial)
      modifies this
      ensures Valid()
      ensures Abs() == Mul(old(Abs()), old(other.Abs()))
    {
      var tmp, copy := other.p, p;
      p := map[];
      var ka, kq := Traversal(copy), Traversal(tmp);
      for i := 0 to |ka|
        invariant p == MulFold(copy, ka, tmp, kq, i)
      {
        var e := ka[i];
        AddRow(copy[e], e, tmp, kq);
      }
      MulFoldAbs(copy, ka, tmp, kq, p);
    }

    /** The inner loop of operator*= for the entry (e, c) of this: for each
        entry (f, d) of q in order, set(e + f, get(e + f) + c * d). */
    method AddRow(c: real, e: nat, q: map<nat, real>, kq: seq<nat>)
      requires kq == Traversal(q)
      modifies this
      ensures p == RowFold(old(p), c, e, q, kq, |kq|)
    {
      for j := 0 to |kq|
        invariant p == RowFold(old(p), c, e, q, kq, j)
      {
        var f := kq[j];
        ghost var pj := p;
        var v := Get(e + f) + Times(c, q[f]);
        Set(e + f, v);
        RowFoldNext(old(p), c, e, q, kq, j, pj, v);
      }
    }

    /** operator+: a copy of this, then +=. */
    method Sum(r: Polynomial) returns (res: Polynomial)
      ensures fresh(res) && res.Abs() == Add(Abs(), r.Abs())
      ensures Valid() ==> res.Valid()
    {
      res := new Polynomial.Copy(this);
      res.AddAssign(r);
    }

    /** operator-: a copy of this, then -=. */
    method Difference(r: Polynomial) returns (res: Polynomial)
      ensures fresh(res) && res.Abs() == Sub(Abs(), r.Abs())
      ensures Valid() ==> res.Valid()
    {
      res := new Polynomial.Copy(this);
      res.SubAssign(r);
    }

    /** operator*: a copy of this, then *=. */
    method Product(r: Polynomial) returns (res: Polynomial)
      ensures fresh(res) && res.Valid() && res.Abs() == Mul(Abs(), r.Abs())
    {
      res := new Polynomial.Copy(this);
      res.MulAssign(r);
    }

    /** b_pow: binary exponentiation of a scalar, squaring a and halving b
        until b runs out. */
    static method BPow(a: real, b: nat) returns (res: real, ghost squarings: nat)
      ensures res == Power(a, b)
      ensures squarings == Log2(b)
    {
      res := 1.0;
      squarings := 0;
      var x, n := a, b;
      while true
        invariant Times(res, Power(x, n)) == Power(a, b)
        invariant squarings + Log2(n) == Log2(b)
        decreases n
      {
        ghost var r0 := res;
        if n % 2 == 1 {
          res := res * x;
        }
        BPowStep(r0, x, n, res);
        n := n / 2;
        if n == 0 {
          break;
        }
        x := x * x;
        squarings := squarings + 1;
      }
    }

    /** pow: binary exponentiation of this polynomial with *=, the running
        power squared in place by cur *= cur. */
    method Pow(b: nat) returns (res: Polynomial, ghost squarings: nat)
      ensures fresh(res) && res.Valid() && res.Abs() == PolyPow(Abs(), b)
      ensures squarings == Log2(b)
    {
      res := new Polynomial.FromConst(1.0);
      var cur := new Polynomial.Copy(this);
      var n := b;
      squarings := 0;
      MulOne(PolyPow(Abs(), b));
      while true
        invariant fresh(res) && fresh(cur) && res != cur && res.Valid()
        invariant Mul(res.Abs(), PolyPow(cur.Abs(), n)) == PolyPow(Abs(), b)
        invariant squarings + Log2(n) == Log2(b)
        decreases n
      {
        ghost var r0, c0 := res.Abs(), cur.Abs();
        if n % 2 == 1 {
          res.MulAssign(cur);
        }
        PowStep(r0, c0, n, res.Abs());
        n := n / 2;
        if n == 0 {
          MulOne(res.Abs());
          break;
        }
        cur.MulAssign(cur);
        squarings := squarings + 1;
      }
    }

    /** operator&: the composition p(r(x)), adding r.pow(e) * c for each entry
        (e, c) in order. */
    method Compose(r: Polynomial) returns (res: Polynomial)
      ensures fresh(res) && res.Valid()
      ensures res.Abs() == PolySpec.Compose(Abs(), r.Abs())
    {
      res := new Polynomial.FromConst(0.0);
      var m := p;
      var ks := Traversal(m);
      for i := 0 to |ks|
        invariant fresh(res) && res.Valid()
        invariant res.Abs() == ComposeUpTo(AbsOf(m), r.Abs(), Done(ks, i))
      {
        ComposeTerm(res, r, ks[i], m[ks[i]]);
        ComposeNext(m, ks, i, r.Abs());
      }
      ComposeDone(m, ks, r.Abs(), res.Abs());
    }

    /** operator/: long division, one leading term per pass. A zero divisor
        never leaves the loop, so the divisor must be nonzero. */
    method Quotient(r: Polynomial) returns (res: Polynomial, ghost steps: nat)
      requires Valid() && r.Valid() && r.Abs() != []
      ensures fresh(res) && res.Valid()
      ensures IsDivision(Abs(), r.Abs(), res.Abs(), Sub(Abs(), Mul(res.Abs(), r.Abs())))
      ensures steps <= if |Abs()| < |r.Abs()| then 0 else |Abs()| - |r.Abs()| + 1
    {
      ghost var P, D := Abs(), r.Abs();
      res := new Polynomial.FromConst(0.0);
      var cur := new Polynomial.Copy(this);
      var other := new Polynomial.Copy(r);
      steps := 0;
      MulZeroLeft(D);
      AddZeroRight(P);
      while cur.Degree() >= other.Degree()
        invariant fresh(res) && fresh(cur) && fresh(other)
        invariant res != cur && res != other && cur != other
        invariant other.Abs() == D && res.Valid() && cur.Valid() && other.Valid()
        invariant DivInv(P, D, res.Abs(), cur.Abs())
        invariant steps + |cur.Abs()| <= |P|
        invariant steps <= if |P| < |D| then 0 else |P| - |D| + 1
        decreases |cur.Abs()|
      {
        ghost var c0, q0 := cur.Abs(), res.Abs();
        DivStep(P, D, q0, c0);
        DivideStep(res, cur, other);
        steps := steps + 1;
      }
      DivDone(P, D, res.Abs(), cur.Abs());
    }

    /** operator%: this - (this / r) * r. */
    method Remainder(r: Polynomial) returns (res: Polynomial)
      requires Valid() && r.Valid() && r.Abs() != []
      ensures fresh(res) && res.Valid()
      ensures exists q :: Trimmed(q) && IsDivision(Abs(), r.Abs(), q, res.Abs())
    {
      var q, _ := Quotient(r);
      var m := q.Product(r);
      res := Difference(m);
    }

    /** operator,: the Euclidean algorithm, made monic by dividing by the
        leading coefficient. The result divides both operands (cofactors u and
        w) and is a combination s * p + t * r of them. Both operands zero
        makes the final division a division by the zero polynomial, so they
        must not both be zero. */
    method Gcd(r: Polynomial) returns (res: Polynomial, ghost s: seq<real>, ghost t: seq<real>,
                                       ghost u: seq<real>, ghost w: seq<real>)
      requires Valid() && r.Valid() && (Abs() != [] || r.Abs() != [])
      ensures fresh(res) && res.Valid() && Monic(res.Abs())
      ensures DividesWith(res.Abs(), Abs(), u) && DividesWith(res.Abs(), r.Abs(), w)
      ensures Trimmed(s) && Trimmed(t) && res.Abs() == Combine(s, Abs(), t, r.Abs())
      ensures r.Abs() == [] ==> res.Abs() == Scale(Abs(), 1.0 / Lead(Abs()))
      ensures (Abs() != [] ==> |res.Abs()| <= |Abs()|) && (r.Abs() != [] ==> |res.Abs()| <= |r.Abs()|)
    {
      ghost var P, R := Abs(), r.Abs();
      ghost var o, a1, b1, a2, b2, c1, d1, c2, d2;
      var cur;
      cur, o, a1, b1, a2, b2, c1, d1, c2, d2 := EuclidLoop(this, r);
      ghost var C := cur.Abs();
      EuclidNonZero(P, R, C, o, a1, b1, a2, b2, c1, d1, c2, d2);
      var k := cur.Get(cur.Degree());
      assert k == Lead(C);
      var lead := new Polynomial.FromConst(k);
      ghost var steps;
      res, steps := cur.Quotient(lead);
      EuclidFinish(P, R, C, o, a1, b1, a2, b2, c1, d1, c2, d2, lead.Abs(), res.Abs());
      u, w := Mul(c1, Const(k)), Mul(c2, Const(k));
      s, t := Scale(a1, 1.0 / k), Scale(b1, 1.0 / k);
      if P != [] {
        GcdDegree(res.Abs(), P, u);
      }
      if R != [] {
        GcdDegree(res.Abs(), R, w);
      }
    }

    /** operator(): the sum of c * b_pow(v, e) over the entries (e, c) in
        order. Agrees with Horner's value. */
    method Eval(v: real) returns (res: real)
      ensures res == PolySpec.Eval(Abs(), v)
    {
      var m := p;
      var ks := Traversal(m);
      res := 0.0;
      for i := 0 to |ks|
        invariant res == EvalUpTo(AbsOf(m), v, Done(ks, i))
      {
        var e := ks[i];
        var x, _ := BPow(v, e);
        EvalNext(m, ks, i, v);
        res := res + Times(m[e], x);
      }
      EvalDone(m, ks, v, res);
    }
  }
}
