/** Arithmetic by exponents and logarithms, for any set of 255 non-zero elements whose tables are
    inverse to each other. What the elements and the tables are plays no part here. */
module Logarithms {
  import opened Results
  import Sequences

  // ----- A function that has a left inverse on as many arguments as there are values is onto

  /** The values of exp at the first n exponents. */
  ghost function Powers(exp: nat -> nat, n: nat): set<nat> {
    if n == 0 then {} else Powers(exp, n - 1) + {exp(n - 1)}
  }

  lemma {:induction false} PowersMembers(exp: nat -> nat, n: nat, v: nat) returns (i: nat)
    requires v in Powers(exp, n)
    ensures i < n && exp(i) == v
  {
    if v == exp(n - 1) {
      i := n - 1;
    } else {
      i := PowersMembers(exp, n - 1, v);
    }
  }

  /** There are as many values as exponents when log tells the values apart. */
  lemma {:induction false} PowersCount(exp: nat -> nat, log: nat -> nat, n: nat, bound: nat)
    requires forall i :: 0 <= i < n ==> 0 < exp(i) < bound && log(exp(i)) == i
    ensures |Powers(exp, n)| == n
    ensures forall v :: v in Powers(exp, n) ==> 0 < v < bound
  {
    if n > 0 {
      PowersCount(exp, log, n - 1, bound);
      if exp(n - 1) in Powers(exp, n - 1) {
        var i := PowersMembers(exp, n - 1, exp(n - 1));
        assert false;
      }
    }
  }

  ghost function NonZero(n: nat): (s: set<nat>)
    ensures forall v: nat :: v in s <==> 0 < v < n
    ensures n > 0 ==> |s| == n - 1
  {
    if n <= 1 then {} else NonZero(n - 1) + {n - 1}
  }

  /** If log undoes exp on the n exponents, the n powers are all the non-zero values up to n,
      so exp undoes log too. */
  lemma InverseBothWays(exp: nat -> nat, log: nat -> nat, n: nat, v: nat)
    requires forall i :: 0 <= i < n ==> 0 < exp(i) <= n && log(exp(i)) == i
    requires 0 < v <= n
    ensures log(v) < n && exp(log(v)) == v
  {
    PowersCount(exp, log, n, n + 1);
    if v !in Powers(exp, n) {
      Sequences.SubsetBound(Powers(exp, n), NonZero(n + 1) - {v});
      assert false;
    }
    var i := PowersMembers(exp, n, v);
  }

  // ----- Iteration

  ghost function Iterate<T>(f: T -> T, n: nat, a: T): T {
    if n == 0 then a else f(Iterate(f, n - 1, a))
  }

  lemma {:induction false} IterateAdd<T>(f: T -> T, m: nat, n: nat, a: T)
    ensures Iterate(f, m + n, a) == Iterate(f, n, Iterate(f, m, a))
  {
    if n > 0 {
      IterateAdd(f, m, n - 1, a);
    }
  }

  ghost predicate LinearAt<T>(f: T -> T, add: (T, T) -> T, x: T, y: T) {
    f(add(x, y)) == add(f(x), f(y))
  }

  lemma {:induction false} IterateLinear<T(!new)>(f: T -> T, add: (T, T) -> T, n: nat, a: T, b: T)
    requires forall x, y :: LinearAt(f, add, x, y)
    ensures Iterate(f, n, add(a, b)) == add(Iterate(f, n, a), Iterate(f, n, b))
  {
    if n > 0 {
      IterateLinear(f, add, n - 1, a, b);
      assert LinearAt(f, add, Iterate(f, n - 1, a), Iterate(f, n - 1, b));
    }
  }

  // ----- Multiplication and division through tables

  lemma ModAdd(m: nat, n: nat)
    ensures (m % 255 + n) % 255 == (m + n) % 255
  {
  }

  /** `exp` takes exponents modulo 255; `log` only matters away from zero. */
  datatype LogTables<!T(!new, ==)> = LogTables(zero: T, exp: nat -> T, log: T -> nat)
  {
    function Log(x: T): nat
      requires x != zero
    {
      log(x)
    }

    function Mul(a: T, b: T): T {
      if a == zero || b == zero then zero else exp(Log(a) + Log(b))
    }

    /** The exponent is never negative, because logarithms are below 255. */
    function Div(a: T, b: T): Result<T>
      requires Sound()
    {
      if b == zero then Err(InvalidInput)
      else if a == zero then Ok(zero)
      else
        assert Inverted(b);
        Ok(exp(255 + Log(a) - Log(b)))
    }

    /** The quotient 1 / b, and zero for b == zero. */
    function Inverse(b: T): T {
      if b == zero || Log(b) > 255 then zero else exp(255 - Log(b))
    }

    ghost predicate Power(n: nat) { exp(n) != zero && log(exp(n)) == n % 255 }

    ghost predicate Inverted(x: T) { x != zero ==> log(x) < 255 && exp(log(x)) == x }

    ghost predicate Sound() {
      (forall n: nat :: Power(n)) && (forall x :: Inverted(x))
    }

    lemma SameLog(a: T, b: T)
      requires Sound()
      requires a != zero && b != zero && log(a) == log(b)
      ensures a == b
    {
      assert Inverted(a) && Inverted(b);
    }

    lemma LogMul(a: T, b: T)
      requires Sound()
      requires a != zero && b != zero
      ensures Mul(a, b) != zero
      ensures log(Mul(a, b)) == (log(a) + log(b)) % 255
    {
      assert Power(log(a) + log(b));
    }

    lemma LogDiv(a: T, b: T)
      requires Sound()
      requires a != zero && b != zero
      ensures log(b) < 255 && Div(a, b).Ok? && Div(a, b).value != zero
      ensures log(Div(a, b).value) == (255 + log(a) - log(b)) % 255
    {
      assert Inverted(b) && Power(255 + log(a) - log(b));
    }

    lemma LogInverse(b: T)
      requires Sound()
      requires b != zero
      ensures log(b) < 255 && Inverse(b) != zero
      ensures log(Inverse(b)) == (255 - log(b)) % 255
    {
      assert Inverted(b) && Power(255 - log(b));
    }

    lemma MulComm(a: T, b: T)
      ensures Mul(a, b) == Mul(b, a)
    {
    }

    lemma MulAssoc(a: T, b: T, c: T)
      requires Sound()
      ensures Mul(Mul(a, b), c) == Mul(a, Mul(b, c))
    {
      if a != zero && b != zero && c != zero {
        LogMul(a, b);
        LogMul(b, c);
        LogMul(Mul(a, b), c);
        LogMul(a, Mul(b, c));
        ModAdd(log(a) + log(b), log(c));
        ModAdd(log(b) + log(c), log(a));
        SameLog(Mul(Mul(a, b), c), Mul(a, Mul(b, c)));
      }
    }

    lemma MulOne(a: T)
      requires Sound()
      ensures Mul(a, exp(0)) == a
    {
      if a != zero {
        assert Power(0) && Inverted(a);
      }
    }

    lemma MulInverse(b: T)
      requires Sound()
      requires b != zero
      ensures Mul(b, Inverse(b)) == exp(0)
    {
      LogInverse(b);
      LogMul(b, Inverse(b));
      ModAdd(255 - log(b), log(b));
      assert Power(0);
      SameLog(Mul(b, Inverse(b)), exp(0));
    }

    /** Division fails exactly on a zero divisor, and otherwise multiplies by the inverse. */
    lemma DivIsMulInverse(a: T, b: T)
      requires Sound()
      ensures Div(a, b) == if b == zero then Err(InvalidInput) else Ok(Mul(a, Inverse(b)))
    {
      if a != zero && b != zero {
        LogInverse(b);
        LogDiv(a, b);
        LogMul(a, Inverse(b));
        ModAdd(255 - log(b), log(a));
        SameLog(Div(a, b).value, Mul(a, Inverse(b)));
      }
    }

    /** Division undoes multiplication, and multiplication undoes division. */
    lemma DivInvertsMul(a: T, b: T)
      requires Sound()
      requires b != zero
      ensures Div(a, b).Ok? && Mul(Div(a, b).value, b) == a
      ensures Div(Mul(a, b), b) == Ok(a)
    {
      var c := Inverse(b);
      DivIsMulInverse(a, b);
      DivIsMulInverse(Mul(a, b), b);
      MulInverse(b);
      MulOne(a);
      MulAssoc(a, b, c);
      MulAssoc(a, c, b);
      MulComm(b, c);
    }

    /** Each power is the step from the one before. */
    ghost predicate Steps(step: T -> T) {
      step(zero) == zero && forall n: nat :: exp(n + 1) == step(exp(n))
    }

    lemma {:induction false} ExpIterates(step: T -> T, n: nat)
      requires Steps(step)
      ensures exp(n) == Iterate(step, n, exp(0))
    {
      if n > 0 {
        ExpIterates(step, n - 1);
        assert exp(n - 1 + 1) == step(exp(n - 1));
      }
    }

    /** Multiplying by b is stepping as often as the logarithm of b says. */
    lemma MulIterates(step: T -> T, a: T, b: T)
      requires Sound() && Steps(step)
      requires b != zero
      ensures Mul(a, b) == Iterate(step, log(b), a)
    {
      if a == zero {
        IterateFixed(step, log(b), zero);
      } else {
        assert Inverted(a);
        ExpIterates(step, log(a));
        ExpIterates(step, log(a) + log(b));
        IterateAdd(step, log(a), log(b), exp(0));
      }
    }

    /** Multiplication distributes over every addition for which stepping is linear. */
    lemma Distributes(add: (T, T) -> T, step: T -> T, a: T, b: T, c: T)
      requires Sound() && Steps(step)
      requires forall x, y :: LinearAt(step, add, x, y)
      requires add(zero, zero) == zero
      ensures Mul(a, add(b, c)) == add(Mul(a, b), Mul(a, c))
    {
      if a != zero {
        MulComm(a, add(b, c));
        MulComm(a, b);
        MulComm(a, c);
        MulIterates(step, add(b, c), a);
        MulIterates(step, b, a);
        MulIterates(step, c, a);
        IterateLinear(step, add, log(a), b, c);
      }
    }
  }

  lemma {:induction false} IterateFixed<T>(f: T -> T, n: nat, a: T)
    requires f(a) == a
    ensures Iterate(f, n, a) == a
  {
    if n > 0 {
      IterateFixed(f, n - 1, a);
    }
  }

  /** Tables of numbers that are inverse to each other in one direction make sound tables of any
      elements that the numbers below 256 encode. */
  lemma SoundFromNumbers<T(!new)>(t: LogTables<T>, e: nat -> nat, l: nat -> nat, encode: nat -> T, decode: T -> nat)
    requires forall i :: 0 <= i < 255 ==> 0 < e(i) <= 255 && l(e(i)) == i
    requires forall x :: decode(x) < 256 && encode(decode(x)) == x
    requires forall v: nat :: v < 256 ==> decode(encode(v)) == v
    requires decode(t.zero) == 0
    requires forall n: nat :: t.exp(n) == encode(e(n % 255))
    requires forall x :: t.log(x) == l(decode(x))
    ensures t.Sound()
  {
    forall n: nat ensures t.Power(n) {
      assert decode(t.exp(n)) == e(n % 255);
    }
    forall x ensures t.Inverted(x) {
      if x != t.zero {
        assert encode(decode(x)) == x && encode(decode(t.zero)) == t.zero;
        InverseBothWays(e, l, 255, decode(x));
        assert t.exp(t.log(x)) == encode(e(l(decode(x))));
      }
    }
  }
}
