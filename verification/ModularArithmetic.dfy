/** Residues modulo p: reduction commutes with + and *, and what primality of p gives. */
module ModularArithmetic {

  lemma SmallMultiple(k: int, p: int)
    requires p > 0 && -p < k * p < p
    ensures k == 0
  {
    assert k >= 1 ==> k * p >= p;
    assert k <= -1 ==> k * p <= -p;
  }

  lemma ModUnique(a: int, q: int, r: int, p: int)
    requires p > 0 && a == q * p + r && 0 <= r < p
    ensures a % p == r
  {
    var k := a / p - q;
    assert a == (a / p) * p + a % p;
    assert k * p == (a / p) * p - q * p;
    SmallMultiple(k, p);
  }

  /** Adding a multiple of p changes no residue. */
  lemma ModShift(a: int, k: int, p: int)
    requires p > 0
    ensures (a + k * p) % p == a % p
  {
    assert (a / p + k) * p == (a / p) * p + k * p;
    ModUnique(a + k * p, a / p + k, a % p, p);
  }

  lemma ModAdd(a: int, b: int, c: int, d: int, p: int)
    requires p > 0 && a % p == b % p && c % p == d % p
    ensures (a + c) % p == (b + d) % p
  {
    var k := Quotient(a, b, p);
    var l := Quotient(c, d, p);
    assert (k + l) * p == k * p + l * p;
    ModShift(b + d, k + l, p);
  }

  /** How many times p two numbers with one residue are apart. */
  lemma Quotient(a: int, b: int, p: int) returns (k: int)
    requires p > 0 && a % p == b % p
    ensures a == b + k * p
  {
    k := a / p - b / p;
    assert a == (a / p) * p + a % p && b == (b / p) * p + b % p;
    assert k * p == (a / p) * p - (b / p) * p;
  }

  lemma ModMul(a: int, b: int, c: int, d: int, p: int)
    requires p > 0 && a % p == b % p && c % p == d % p
    ensures (a * c) % p == (b * d) % p
  {
    var k := Quotient(a, b, p);
    var l := Quotient(c, d, p);
    Expand(a, b, c, d, k, l, p);
    ModShift(b * d, b * l + k * d + k * l * p, p);
  }

  lemma Expand(a: int, b: int, c: int, d: int, k: int, l: int, p: int)
    requires a == b + k * p && c == d + l * p
    ensures a * c == b * d + (b * l + k * d + k * l * p) * p
  {
    calc {
      a * c;
      (b + k * p) * c;
      b * c + (k * p) * c;
      b * (d + l * p) + (k * p) * (d + l * p);
      b * d + b * (l * p) + (k * p) * d + (k * p) * (l * p);
      b * d + (b * l + k * d + k * l * p) * p;
    }
  }

  lemma ModIdem(a: int, p: int)
    requires p > 0
    ensures (a % p) % p == a % p
  {
    ModUnique(a % p, 0, a % p, p);
  }

  // ----- Prime moduli -----

  ghost predicate Prime(p: int) {
    p > 1 && forall d :: 1 < d < p ==> p % d != 0
  }

  /** Every non-zero residue has an inverse. */
  lemma {:induction false} InverseOf(a: int, p: int) returns (b: int)
    requires Prime(p) && 0 < a < p
    ensures (a * b) % p == 1
    decreases a
  {
    if a == 1 {
      b := 1;
      ModUnique(1, 0, 1, p);
    } else {
      var q, r := p / a, p % a;
      var s := InverseOf(r, p);
      b := -q * s;
      assert a * b == r * s + (-s) * p by {
        assert p == q * a + r;
        assert a * (-q * s) == -(q * a) * s == -(p - r) * s == r * s - p * s;
      }
      ModShift(r * s, -s, p);
    }
  }

  /** Euclid's lemma. */
  lemma ProductZero(a: int, b: int, p: int)
    requires Prime(p) && (a * b) % p == 0 && a % p != 0
    ensures b % p == 0
  {
    var c := InverseOf(a % p, p);
    ModIdem(a, p);
    ModMul(a % p, a, c, c, p);
    ModUnique(0, 0, 0, p);
    ModMul(a * b, 0, c, c, p);
    assert (a * b) * c == (a * c) * b;
    ModUnique(1, 0, 1, p);
    ModMul(a * c, 1, b, b, p);
  }

  /** A non-zero factor can be cancelled. */
  lemma Cancel(a: int, b: int, c: int, p: int)
    requires Prime(p) && c % p != 0 && (c * a) % p == (c * b) % p
    ensures a % p == b % p
  {
    assert c * a - c * b == c * (a - b);
    DifferenceZero(c * a, c * b, p);
    ProductZero(c, a - b, p);
    ModUnique(0, 0, 0, p);
    ModAdd(a - b, 0, b, b, p);
  }

  lemma DifferenceZero(a: int, b: int, p: int)
    requires p > 0
    ensures a % p == b % p ==> (a - b) % p == 0
  {
    if a % p == b % p {
      ModAdd(a, b, -b, -b, p);
      ModUnique(0, 0, 0, p);
    }
  }

  // ----- Fifth powers -----

  function Pow5(x: int): int {
    x * x * x * x * x
  }

  lemma Pow5Mod(a: int, b: int, p: int)
    requires p > 0 && a % p == b % p
    ensures Pow5(a) % p == Pow5(b) % p
  {
    ModMul(a, b, a, b, p);
    ModMul(a * a, b * b, a, b, p);
    ModMul(a * a * a, b * b * b, a, b, p);
    ModMul(a * a * a * a, b * b * b * b, a, b, p);
  }

  lemma Swap(a: int, b: int, c: int, d: int)
    ensures (a * b) * (c * d) == (a * c) * (b * d)
  {
    calc {
      (a * b) * (c * d);
      a * (b * (c * d));
      a * (c * (b * d));
      (a * c) * (b * d);
    }
  }

  lemma Pow5Product(a: int, b: int)
    ensures Pow5(a * b) == Pow5(a) * Pow5(b)
  {
    var ab := a * b;
    Swap(a, b, a, b);
    Swap(a * a, b * b, a, b);
    Swap(a * a * a, b * b * b, a, b);
    Swap(a * a * a * a, b * b * b * b, a, b);
    assert ab * ab == (a * a) * (b * b);
    assert ab * ab * ab == (a * a * a) * (b * b * b);
    assert ab * ab * ab * ab == (a * a * a * a) * (b * b * b * b);
  }

  /** `f` keeps `s`, moves `x`, and brings it back after five steps. */
  predicate TurnsInFive(f: int -> int, s: set<int>, x: int) {
    f(x) in s && f(x) != x && f(f(f(f(f(x))))) == x
  }

  function Orbit(f: int -> int, x: int): set<int> {
    {x, f(x), f(f(x)), f(f(f(x))), f(f(f(f(x))))}
  }

  lemma StaysOut(f: int -> int, x: int, y: int)
    requires f(f(f(f(f(x))))) == x && f(f(f(f(f(y))))) == y && y !in Orbit(f, x)
    ensures f(y) !in Orbit(f, x)
  {
  }

  lemma OrbitIsFive(f: int -> int, s: set<int>, x: int)
    requires TurnsInFive(f, s, x) && f(f(x)) != f(x)
    ensures |Orbit(f, x)| == 5
  {
    var x1 := f(x);
    var x2 := f(x1);
    var x3 := f(x2);
    var x4 := f(x3);
    assert x2 == x ==> x4 == x;
    assert x3 == x ==> x4 == x1;
    assert x3 == x1 ==> x == x2;
    assert x4 == x2 ==> x == x3;
    assert x4 == x1 ==> x == x2;
    var four := {x, x1, x2, x3};
    assert |{x, x1}| == 2;
    assert {x, x1, x2} == {x, x1} + {x2};
    assert four == {x, x1, x2} + {x3};
    assert {x, x1, x2, x3, x4} == four + {x4};
  }

  lemma Member<T>(s: set<T>) returns (x: T)
    requires s != {}
    ensures x in s
  {
    x :| x in s;
  }

  /** A map of order five without fixed points splits a finite set into orbits of five. */
  lemma {:induction false} OrbitsOfFive(f: int -> int, s: set<int>)
    requires forall x {:trigger TurnsInFive(f, s, x)} :: x in s ==> TurnsInFive(f, s, x)
    ensures |s| % 5 == 0
    decreases s
  {
    if s != {} {
      var x0 := Member(s);
      assert TurnsInFive(f, s, x0) && TurnsInFive(f, s, f(x0));
      assert TurnsInFive(f, s, f(f(x0))) && TurnsInFive(f, s, f(f(f(x0))));
      OrbitIsFive(f, s, x0);
      var rest := s - Orbit(f, x0);
      forall y | y in rest
        ensures TurnsInFive(f, rest, y)
      {
        assert TurnsInFive(f, s, y);
        StaysOut(f, x0, y);
      }
      OrbitsOfFive(f, rest);
      assert s == rest + Orbit(f, x0);
    }
  }

  function Residues(n: nat): (s: set<int>)
    ensures forall x :: x in s <==> 1 <= x <= n
    ensures |s| == n
  {
    if n == 0 then {} else Residues(n - 1) + {n}
  }

  /** Multiplying by a fifth root of one that is not one has no fixed point and order five. */
  lemma RootActs(z: int, x: int, p: int)
    requires Prime(p) && z % p != 1 && Pow5(z) % p == 1 && 1 <= x < p
    ensures 1 <= (z * x) % p < p && (z * x) % p != x
    ensures (Pow5(z) * x) % p == x
  {
    ModUnique(x, 0, x, p);
    ModUnique(0, 0, 0, p);
    ModUnique(1, 0, 1, p);
    if z % p == 0 {
      Pow5Mod(z, 0, p);
    }
    if (z * x) % p == 0 {
      ProductZero(z, x, p);
    }
    if (z * x) % p == x {
      assert z * x == x * z && x == x * 1;
      Cancel(z, 1, x, p);
    }
    ModMul(Pow5(z), 1, x, x, p);
  }

  lemma FiveTimes(z: int, x: int, p: int)
    requires p > 0
    ensures var f := (y: int) => (z * y) % p; f(f(f(f(f(x))))) == (Pow5(z) * x) % p
  {
    var f := (y: int) => (z * y) % p;
    Twice(z, z, x, p);
    Twice(z, z * z, x, p);
    Twice(z, z * z * z, x, p);
    Twice(z, z * z * z * z, x, p);
    assert z * (z * z * z * z) == Pow5(z);
  }

  lemma Twice(a: int, b: int, x: int, p: int)
    requires p > 0
    ensures (a * ((b * x) % p)) % p == ((b * a) * x) % p == ((a * b) * x) % p
  {
    ModIdem(b * x, p);
    ModMul(a, a, (b * x) % p, b * x, p);
    assert a * (b * x) == (b * a) * x == (a * b) * x;
  }

  /** When p is prime and 5 does not divide p - 1, one is the only fifth root of one. */
  lemma OnlyRootIsOne(z: int, p: int)
    requires Prime(p) && (p - 1) % 5 != 0 && Pow5(z) % p == 1
    ensures z % p == 1
  {
    if z % p != 1 {
      var f := (y: int) => (z * y) % p;
      var all := Residues(p - 1);
      forall x | x in all
        ensures TurnsInFive(f, all, x)
      {
        RootActs(z, x, p);
        FiveTimes(z, x, p);
      }
      OrbitsOfFive(f, all);
    }
  }

  /** The fifth power is injective modulo such a p. */
  lemma Pow5Injective(a: int, b: int, p: int)
    requires Prime(p) && (p - 1) % 5 != 0 && Pow5(a) % p == Pow5(b) % p
    ensures a % p == b % p
  {
    ModUnique(0, 0, 0, p);
    ModUnique(1, 0, 1, p);
    if b % p == 0 {
      Pow5Mod(b, 0, p);
      if a % p != 0 {
        var a2 := a * a;
        assert Pow5(a) == a * (a * (a * (a * a)));
        ProductZero(a, a * (a * (a * a)), p);
        ProductZero(a, a * (a * a), p);
        ProductZero(a, a * a, p);
        ProductZero(a, a, p);
      }
    } else {
      var c := InverseOf(b % p, p);
      ModIdem(b, p);
      ModMul(b % p, b, c, c, p);
      Pow5Mod(b * c, 1, p);
      Pow5Product(a, c);
      Pow5Product(b, c);
      ModMul(Pow5(a), Pow5(b), Pow5(c), Pow5(c), p);
      OnlyRootIsOne(a * c, p);
      assert c * a == a * c && c * b == b * c;
      if c % p == 0 {
        ModMul(b, b, c, 0, p);
      }
      Cancel(a, b, c, p);
    }
  }
}
