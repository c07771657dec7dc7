/** Fields as values, so that the theory of polynomials is proved once and used both for the bytes
    of the secret sharing scheme and for the scalars of the pairing groups. */
module Fields {

  /** The operations of a field. `inv` is only constrained away from `zero`.

      Each law is a predicate at given elements and `IsField` quantifies over those predicates:
      a proof uses a law by asserting it at the elements it needs. */
  datatype Field<!T(!new)> = Field(zero: T, one: T, add: (T, T) -> T, neg: T -> T, mul: (T, T) -> T, inv: T -> T)
  {
    function Sub(a: T, b: T): T { add(a, neg(b)) }

    ghost predicate AddComm(a: T, b: T) { add(a, b) == add(b, a) }
    ghost predicate AddAssoc(a: T, b: T, c: T) { add(add(a, b), c) == add(a, add(b, c)) }
    ghost predicate AddZero(a: T) { add(a, zero) == a }
    ghost predicate AddNeg(a: T) { add(a, neg(a)) == zero }
    ghost predicate MulComm(a: T, b: T) { mul(a, b) == mul(b, a) }
    ghost predicate MulAssoc(a: T, b: T, c: T) { mul(mul(a, b), c) == mul(a, mul(b, c)) }
    ghost predicate MulOne(a: T) { mul(a, one) == a }
    ghost predicate MulInv(a: T) { a != zero ==> mul(a, inv(a)) == one }
    ghost predicate Distrib(a: T, b: T, c: T) { mul(a, add(b, c)) == add(mul(a, b), mul(a, c)) }

    ghost predicate IsField() {
      && zero != one
      && (forall a, b :: AddComm(a, b))
      && (forall a, b, c :: AddAssoc(a, b, c))
      && (forall a :: AddZero(a))
      && (forall a :: AddNeg(a))
      && (forall a, b :: MulComm(a, b))
      && (forall a, b, c :: MulAssoc(a, b, c))
      && (forall a :: MulOne(a))
      && (forall a :: MulInv(a))
      && (forall a, b, c :: Distrib(a, b, c))
    }

    lemma AddSwap(a: T, b: T, c: T, d: T)
      requires IsField()
      ensures add(add(a, b), add(c, d)) == add(add(a, c), add(b, d))
    {
      assert AddAssoc(a, b, add(c, d)) && AddAssoc(b, c, d) && AddComm(b, c) && AddAssoc(c, b, d)
          && AddAssoc(a, c, add(b, d));
    }

    lemma MulSwap(a: T, b: T, c: T, d: T)
      requires IsField()
      ensures mul(mul(a, b), mul(c, d)) == mul(mul(a, c), mul(b, d))
    {
      assert MulAssoc(a, b, mul(c, d)) && MulAssoc(b, c, d) && MulComm(b, c) && MulAssoc(c, b, d)
          && MulAssoc(a, c, mul(b, d));
    }

    lemma ZeroAdd(a: T)
      requires IsField()
      ensures add(zero, a) == a
    {
      assert AddComm(zero, a) && AddZero(a);
    }

    lemma AddCancel(a: T, b: T, c: T)
      requires IsField()
      requires add(a, b) == add(a, c)
      ensures b == c
    {
      forall x ensures add(neg(a), add(a, x)) == x {
        assert AddAssoc(neg(a), a, x) && AddComm(neg(a), a) && AddNeg(a);
        ZeroAdd(x);
      }
      assert add(neg(a), add(a, b)) == b && add(neg(a), add(a, c)) == c;
    }

    lemma MulZero(a: T)
      requires IsField()
      ensures mul(a, zero) == zero && mul(zero, a) == zero
    {
      assert Distrib(a, zero, zero) && AddZero(zero) && AddZero(mul(a, zero)) && MulComm(a, zero);
      AddCancel(mul(a, zero), mul(a, zero), zero);
    }

    lemma OneMul(a: T)
      requires IsField()
      ensures mul(one, a) == a
    {
      assert MulComm(one, a) && MulOne(a);
    }

    lemma DistribRight(a: T, b: T, c: T)
      requires IsField()
      ensures mul(add(a, b), c) == add(mul(a, c), mul(b, c))
    {
      assert MulComm(add(a, b), c) && MulComm(a, c) && MulComm(b, c) && Distrib(c, a, b);
    }

    /** A field has no zero divisors. */
    lemma MulNonZero(a: T, b: T)
      requires IsField()
      ensures mul(a, b) == zero ==> a == zero || b == zero
    {
      if mul(a, b) == zero && a != zero {
        assert MulInv(a) && MulComm(inv(a), a) && MulAssoc(inv(a), a, b);
        OneMul(b);
        MulZero(inv(a));
      }
    }

    lemma InvNonZero(a: T)
      requires IsField()
      requires a != zero
      ensures inv(a) != zero
    {
      assert MulInv(a);
      MulZero(a);
    }

    /** The inverse is the only solution of a * b == 1. */
    lemma InvUnique(a: T, b: T)
      requires IsField()
      requires mul(a, b) == one
      ensures a != zero && b == inv(a)
    {
      MulZero(b);
      assert MulInv(a) && MulComm(inv(a), a) && MulAssoc(inv(a), a, b) && MulOne(inv(a));
      OneMul(b);
    }

    lemma InvMul(a: T, b: T)
      requires IsField()
      requires a != zero && b != zero
      ensures mul(a, b) != zero && inv(mul(a, b)) == mul(inv(a), inv(b))
    {
      MulNonZero(a, b);
      MulSwap(a, b, inv(a), inv(b));
      assert MulInv(a) && MulInv(b) && MulOne(one);
      InvUnique(mul(a, b), mul(inv(a), inv(b)));
    }

    lemma SubZero(a: T, b: T)
      requires IsField()
      ensures Sub(a, b) == zero <==> a == b
    {
      assert AddNeg(a);
      if Sub(a, b) == zero {
        assert AddNeg(b) && AddComm(a, neg(b)) && AddComm(b, neg(b));
        AddCancel(neg(b), a, b);
      }
    }

    lemma NegUnique(a: T, b: T)
      requires IsField()
      requires add(a, b) == zero
      ensures b == neg(a)
    {
      assert AddNeg(a);
      AddCancel(a, b, neg(a));
    }

    lemma NegMul(a: T, b: T)
      requires IsField()
      ensures mul(neg(a), b) == neg(mul(a, b))
    {
      DistribRight(a, neg(a), b);
      assert AddNeg(a);
      MulZero(b);
      NegUnique(mul(a, b), mul(neg(a), b));
    }

    lemma NegAdd(a: T, b: T)
      requires IsField()
      ensures neg(add(a, b)) == add(neg(a), neg(b))
    {
      AddSwap(a, b, neg(a), neg(b));
      assert AddNeg(a) && AddNeg(b) && AddZero(zero);
      NegUnique(add(a, b), add(neg(a), neg(b)));
    }

    lemma SubAdd(a: T, b: T)
      requires IsField()
      ensures add(Sub(a, b), b) == a
    {
      assert AddAssoc(a, neg(b), b) && AddComm(neg(b), b) && AddNeg(b) && AddZero(a);
    }

    lemma SubMul(a: T, b: T, c: T)
      requires IsField()
      ensures mul(Sub(a, b), c) == Sub(mul(a, c), mul(b, c))
    {
      DistribRight(a, neg(b), c);
      NegMul(b, c);
    }

    /** A factor other than zero cancels. */
    lemma MulCancel(a: T, b: T, c: T)
      requires IsField()
      requires c != zero && mul(a, c) == mul(b, c)
      ensures a == b
    {
      SubMul(a, b, c);
      SubZero(mul(a, c), mul(b, c));
      MulNonZero(Sub(a, b), c);
      SubZero(a, b);
    }

    lemma SubAddSame(a: T, b: T, c: T)
      requires IsField()
      ensures Sub(add(a, c), add(b, c)) == Sub(a, b)
    {
      NegAdd(b, c);
      AddSwap(a, c, neg(b), neg(c));
      assert AddNeg(c) && AddZero(Sub(a, b));
    }

    lemma SubProducts(a: T, b: T, c: T, d: T)
      requires IsField()
      ensures Sub(mul(a, b), mul(c, d)) == add(mul(Sub(a, c), b), mul(c, Sub(b, d)))
    {
      SubMul(a, c, b);
      SubMul(b, d, c);
      assert MulComm(c, Sub(b, d)) && MulComm(b, c) && MulComm(d, c);
      var ab, cb, cd := mul(a, b), mul(c, b), mul(c, d);
      assert AddAssoc(Sub(ab, cb), cb, neg(cd));
      SubAdd(ab, cb);
    }

    lemma NegNeg(a: T)
      requires IsField()
      ensures neg(neg(a)) == a
    {
      assert AddNeg(a) && AddComm(neg(a), a);
      NegUnique(neg(a), a);
    }

    lemma NegMulNeg(a: T, b: T)
      requires IsField()
      ensures mul(neg(a), neg(b)) == mul(a, b)
    {
      NegMul(a, neg(b));
      assert MulComm(a, neg(b)) && MulComm(a, b);
      NegMul(b, a);
      NegNeg(mul(a, b));
    }

    /** (0 - a) / (b - a) == a / (a - b) */
    lemma FlipFraction(a: T, b: T)
      requires IsField()
      requires a != b
      ensures Sub(a, b) != zero
      ensures mul(Sub(zero, a), inv(Sub(b, a))) == mul(a, inv(Sub(a, b)))
    {
      var c := Sub(a, b);
      SubZero(a, b);
      ZeroAdd(neg(a));
      assert Sub(b, a) == neg(c) by {
        NegAdd(a, neg(b));
        NegNeg(b);
        assert AddComm(neg(a), b);
      }
      assert inv(neg(c)) == neg(inv(c)) by {
        NegMulNeg(c, inv(c));
        assert MulInv(c);
        InvUnique(neg(c), neg(inv(c)));
      }
      NegMulNeg(a, inv(c));
    }
  }
}
