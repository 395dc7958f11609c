/**
 The width-3 Poseidon permutation of the CosmWasm contract (reduction after every operation) and of
 the Python SDK (accumulate and reduce), against the same computation on plain integers.
 */
module Poseidon {
  import opened ModularArithmetic

  /** A state or a row: three integers. */
  type Triple = s: seq<int> | |s| == 3 witness [0, 0, 0]

  datatype Matrix = Matrix(r0: Triple, r1: Triple, r2: Triple)

  /** Modulus, MDS matrix and round constants, all left open. */
  datatype Params = Params(p: int, mds: Matrix, first: seq<Triple>, partial: seq<int>, last: seq<Triple>)

  // ----- The permutation on integers, never reduced -----

  function Dot(r: Triple, s: Triple): int {
    r[0] * s[0] + r[1] * s[1] + r[2] * s[2]
  }

  function Mix(m: Matrix, s: Triple): Triple {
    [Dot(m.r0, s), Dot(m.r1, s), Dot(m.r2, s)]
  }

  function FullStep(m: Matrix, s: Triple, rc: Triple): Triple {
    Mix(m, [Pow5(s[0] + rc[0]), Pow5(s[1] + rc[1]), Pow5(s[2] + rc[2])])
  }

  function PartialStep(m: Matrix, s: Triple, rc: int): Triple {
    Mix(m, [Pow5(s[0] + rc), s[1], s[2]])
  }

  function FullSteps(m: Matrix, s: Triple, rcs: seq<Triple>): Triple {
    if rcs == [] then s else FullStep(m, FullSteps(m, s, rcs[..|rcs| - 1]), rcs[|rcs| - 1])
  }

  function PartialSteps(m: Matrix, s: Triple, rcs: seq<int>): Triple {
    if rcs == [] then s else PartialStep(m, PartialSteps(m, s, rcs[..|rcs| - 1]), rcs[|rcs| - 1])
  }

  function Exact(c: Params, s: Triple): Triple {
    FullSteps(c.mds, PartialSteps(c.mds, FullSteps(c.mds, s, c.first), c.partial), c.last)
  }

  // ----- Congruence -----

  predicate Reduced(p: int, s: Triple) {
    0 <= s[0] < p && 0 <= s[1] < p && 0 <= s[2] < p
  }

  ghost predicate Same(p: int, a: Triple, b: Triple)
    requires p > 0
  {
    a[0] % p == b[0] % p && a[1] % p == b[1] % p && a[2] % p == b[2] % p
  }

  function Reduce(p: int, s: Triple): (r: Triple)
    requires p > 0
    ensures Reduced(p, r)
  {
    [s[0] % p, s[1] % p, s[2] % p]
  }

  lemma DotSame(p: int, r: Triple, a: Triple, b: Triple)
    requires p > 0 && Same(p, a, b)
    ensures Dot(r, a) % p == Dot(r, b) % p
  {
    ModMul(r[0], r[0], a[0], b[0], p);
    ModMul(r[1], r[1], a[1], b[1], p);
    ModMul(r[2], r[2], a[2], b[2], p);
    ModAdd(r[0] * a[0], r[0] * b[0], r[1] * a[1], r[1] * b[1], p);
    ModAdd(r[0] * a[0] + r[1] * a[1], r[0] * b[0] + r[1] * b[1], r[2] * a[2], r[2] * b[2], p);
  }

  lemma MixSame(p: int, m: Matrix, a: Triple, b: Triple)
    requires p > 0 && Same(p, a, b)
    ensures Same(p, Mix(m, a), Mix(m, b))
  {
    DotSame(p, m.r0, a, b);
    DotSame(p, m.r1, a, b);
    DotSame(p, m.r2, a, b);
  }

  lemma SboxSame(p: int, x: int, y: int, rc: int)
    requires p > 0 && x % p == y % p
    ensures Pow5(x + rc) % p == Pow5(y + rc) % p
  {
    ModAdd(x, y, rc, rc, p);
    Pow5Mod(x + rc, y + rc, p);
  }

  lemma FullStepSame(p: int, m: Matrix, a: Triple, b: Triple, rc: Triple)
    requires p > 0 && Same(p, a, b)
    ensures Same(p, FullStep(m, a, rc), FullStep(m, b, rc))
  {
    SboxSame(p, a[0], b[0], rc[0]);
    SboxSame(p, a[1], b[1], rc[1]);
    SboxSame(p, a[2], b[2], rc[2]);
    MixSame(p, m, [Pow5(a[0] + rc[0]), Pow5(a[1] + rc[1]), Pow5(a[2] + rc[2])],
                  [Pow5(b[0] + rc[0]), Pow5(b[1] + rc[1]), Pow5(b[2] + rc[2])]);
  }

  lemma PartialStepSame(p: int, m: Matrix, a: Triple, b: Triple, rc: int)
    requires p > 0 && Same(p, a, b)
    ensures Same(p, PartialStep(m, a, rc), PartialStep(m, b, rc))
  {
    SboxSame(p, a[0], b[0], rc);
    MixSame(p, m, [Pow5(a[0] + rc), a[1], a[2]], [Pow5(b[0] + rc), b[1], b[2]]);
  }

  lemma {:induction false} FullStepsSame(p: int, m: Matrix, a: Triple, b: Triple, rcs: seq<Triple>)
    requires p > 0 && Same(p, a, b)
    ensures Same(p, FullSteps(m, a, rcs), FullSteps(m, b, rcs))
    decreases |rcs|
  {
    if rcs != [] {
      var front := rcs[..|rcs| - 1];
      FullStepsSame(p, m, a, b, front);
      FullStepSame(p, m, FullSteps(m, a, front), FullSteps(m, b, front), rcs[|rcs| - 1]);
    }
  }

  lemma {:induction false} PartialStepsSame(p: int, m: Matrix, a: Triple, b: Triple, rcs: seq<int>)
    requires p > 0 && Same(p, a, b)
    ensures Same(p, PartialSteps(m, a, rcs), PartialSteps(m, b, rcs))
    decreases |rcs|
  {
    if rcs != [] {
      var front := rcs[..|rcs| - 1];
      PartialStepsSame(p, m, a, b, front);
      PartialStepSame(p, m, PartialSteps(m, a, front), PartialSteps(m, b, front), rcs[|rcs| - 1]);
    }
  }

  /** Congruent inputs, reduced or not, give congruent results. */
  lemma ExactSame(c: Params, a: Triple, b: Triple)
    requires c.p > 0 && Same(c.p, a, b)
    ensures Same(c.p, Exact(c, a), Exact(c, b))
  {
    FullStepsSame(c.p, c.mds, a, b, c.first);
    var a1, b1 := FullSteps(c.mds, a, c.first), FullSteps(c.mds, b, c.first);
    PartialStepsSame(c.p, c.mds, a1, b1, c.partial);
    FullStepsSame(c.p, c.mds, PartialSteps(c.mds, a1, c.partial), PartialSteps(c.mds, b1, c.partial), c.last);
  }

  // ----- The contract: every operation reduces -----

  function AddMod(p: int, a: int, b: int): int
    requires p > 0
  {
    (a + b) % p
  }

  function MulMod(p: int, a: int, b: int): int
    requires p > 0
  {
    (a * b) % p
  }

  function Sbox(p: int, x: int): int
    requires p > 0
  {
    var x2 := MulMod(p, x, x);
    var x4 := MulMod(p, x2, x2);
    MulMod(p, x4, x)
  }

  function StagedRow(p: int, r: Triple, s: Triple): int
    requires p > 0
  {
    AddMod(p, AddMod(p, MulMod(p, r[0], s[0]), MulMod(p, r[1], s[1])), MulMod(p, r[2], s[2]))
  }

  function StagedMds(p: int, m: Matrix, s: Triple): Triple
    requires p > 0
  {
    [StagedRow(p, m.r0, s), StagedRow(p, m.r1, s), StagedRow(p, m.r2, s)]
  }

  /** Three staged multiplications are one fifth power, reduced once. */
  lemma SboxIsPow5(p: int, x: int)
    requires p > 0
    ensures Sbox(p, x) == Pow5(x) % p
  {
    ModIdem(x * x, p);
    ModMul(MulMod(p, x, x), x * x, MulMod(p, x, x), x * x, p);
    var x2 := MulMod(p, x, x);
    assert x * x * (x * x) == x * x * x * x;
    ModIdem(x2 * x2, p);
    ModMul(MulMod(p, x2, x2), x * x * x * x, x, x, p);
  }

  lemma StagedRowIsDot(p: int, r: Triple, s: Triple)
    requires p > 0
    ensures StagedRow(p, r, s) == Dot(r, s) % p
  {
    var a, b, c := r[0] * s[0], r[1] * s[1], r[2] * s[2];
    ModIdem(a, p);
    ModIdem(b, p);
    ModIdem(c, p);
    ModAdd(a % p, a, b % p, b, p);
    ModIdem(a % p + b % p, p);
    ModAdd((a % p + b % p) % p, a + b, c % p, c, p);
  }

  lemma StagedMdsIsMix(p: int, m: Matrix, s: Triple)
    requires p > 0
    ensures StagedMds(p, m, s) == Reduce(p, Mix(m, s))
  {
    StagedRowIsDot(p, m.r0, s);
    StagedRowIsDot(p, m.r1, s);
    StagedRowIsDot(p, m.r2, s);
  }

  /** A reduced Sbox layer, then mixing, is the exact step reduced once. */
  lemma LayerIsStep(p: int, m: Matrix, layer: Triple, exact: Triple)
    requires p > 0 && Same(p, layer, exact)
    ensures StagedMds(p, m, layer) == Reduce(p, Mix(m, exact))
  {
    StagedMdsIsMix(p, m, layer);
    MixSame(p, m, layer, exact);
  }

  lemma SboxLayer(p: int, x: int, rc: int)
    requires p > 0
    ensures Sbox(p, AddMod(p, x, rc)) == Pow5(x + rc) % p
  {
    SboxIsPow5(p, AddMod(p, x, rc));
    ModIdem(x + rc, p);
    Pow5Mod((x + rc) % p, x + rc, p);
  }

  /** One full round, in place. */
  method FullRound(p: int, m: Matrix, state: array<int>, rc: Triple)
    requires p > 0 && state.Length == 3
    modifies state
    ensures state[..] == Reduce(p, FullStep(m, old(state[..]), rc))
  {
    ghost var s: Triple := state[..];
    for i := 0 to 3
      invariant forall k :: 0 <= k < i ==> state[k] == Pow5(s[k] + rc[k]) % p
      invariant forall k :: i <= k < 3 ==> state[k] == s[k]
    {
      SboxLayer(p, s[i], rc[i]);
      state[i] := AddMod(p, state[i], rc[i]);
      state[i] := Sbox(p, state[i]);
    }
    ghost var exact: Triple := [Pow5(s[0] + rc[0]), Pow5(s[1] + rc[1]), Pow5(s[2] + rc[2])];
    ModIdem(exact[0], p);
    ModIdem(exact[1], p);
    ModIdem(exact[2], p);
    LayerIsStep(p, m, state[..], exact);
    var mixed := StagedMds(p, m, state[..]);
    state[0], state[1], state[2] := mixed[0], mixed[1], mixed[2];
    assert state[..] == mixed;
  }

  method PartialRound(p: int, m: Matrix, state: array<int>, rc: int)
    requires p > 0 && state.Length == 3
    modifies state
    ensures state[..] == Reduce(p, PartialStep(m, old(state[..]), rc))
  {
    ghost var s: Triple := state[..];
    SboxLayer(p, s[0], rc);
    state[0] := AddMod(p, state[0], rc);
    state[0] := Sbox(p, state[0]);
    ghost var exact: Triple := [Pow5(s[0] + rc), s[1], s[2]];
    ModIdem(exact[0], p);
    LayerIsStep(p, m, state[..], exact);
    var mixed := StagedMds(p, m, state[..]);
    state[0], state[1], state[2] := mixed[0], mixed[1], mixed[2];
    assert state[..] == mixed;
  }

  lemma FullStepsNext(p: int, m: Matrix, s: Triple, rcs: seq<Triple>, i: nat, now: Triple)
    requires p > 0 && i < |rcs| && Same(p, now, FullSteps(m, s, rcs[..i]))
    ensures Same(p, Reduce(p, FullStep(m, now, rcs[i])), FullSteps(m, s, rcs[..i + 1]))
  {
    assert rcs[..i + 1][..i] == rcs[..i];
    FullStepSame(p, m, now, FullSteps(m, s, rcs[..i]), rcs[i]);
    ReduceSame(p, FullStep(m, now, rcs[i]));
  }

  lemma PartialStepsNext(p: int, m: Matrix, s: Triple, rcs: seq<int>, i: nat, now: Triple)
    requires p > 0 && i < |rcs| && Same(p, now, PartialSteps(m, s, rcs[..i]))
    ensures Same(p, Reduce(p, PartialStep(m, now, rcs[i])), PartialSteps(m, s, rcs[..i + 1]))
  {
    assert rcs[..i + 1][..i] == rcs[..i];
    PartialStepSame(p, m, now, PartialSteps(m, s, rcs[..i]), rcs[i]);
    ReduceSame(p, PartialStep(m, now, rcs[i]));
  }

  lemma ReduceSame(p: int, s: Triple)
    requires p > 0
    ensures Same(p, Reduce(p, s), s)
  {
    ModIdem(s[0], p);
    ModIdem(s[1], p);
    ModIdem(s[2], p);
  }

  /** A run of full rounds, in place. */
  method FullRounds(p: int, m: Matrix, state: array<int>, rcs: seq<Triple>)
    requires p > 0 && state.Length == 3
    modifies state
    ensures Same(p, state[..], FullSteps(m, old(state[..]), rcs))
    ensures old(Reduced(p, state[..])) ==> Reduced(p, state[..])
  {
    for i := 0 to |rcs|
      invariant Same(p, state[..], FullSteps(m, old(state[..]), rcs[..i]))
      invariant old(Reduced(p, state[..])) ==> Reduced(p, state[..])
    {
      FullStepsNext(p, m, old(state[..]), rcs, i, state[..]);
      FullRound(p, m, state, rcs[i]);
    }
    assert rcs[..|rcs|] == rcs;
  }

  /** The contract's permutation, in place: congruent to the exact one, and reduced if it started so. */
  method Permute(c: Params, state: array<int>)
    requires c.p > 0 && state.Length == 3
    modifies state
    ensures Same(c.p, state[..], Exact(c, old(state[..])))
    ensures old(Reduced(c.p, state[..])) ==> Reduced(c.p, state[..])
  {
    var p, m := c.p, c.mds;
    FullRounds(p, m, state, c.first);
    ghost var middle: Triple := state[..];
    for i := 0 to |c.partial|
      invariant Same(p, state[..], PartialSteps(m, middle, c.partial[..i]))
      invariant old(Reduced(p, state[..])) ==> Reduced(p, state[..])
    {
      PartialStepsNext(p, m, middle, c.partial, i, state[..]);
      PartialRound(p, m, state, c.partial[i]);
    }
    assert c.partial[..|c.partial|] == c.partial;
    ghost var late: Triple := state[..];
    FullRounds(p, m, state, c.last);
    ComposeSame(c, old(state[..]), middle, late);
  }

  /** Congruence carried through the three phases. */
  lemma ComposeSame(c: Params, s: Triple, middle: Triple, late: Triple)
    requires c.p > 0 && Same(c.p, middle, FullSteps(c.mds, s, c.first))
    requires Same(c.p, late, PartialSteps(c.mds, middle, c.partial))
    ensures Same(c.p, FullSteps(c.mds, late, c.last), Exact(c, s))
  {
    var first := FullSteps(c.mds, s, c.first);
    PartialStepsSame(c.p, c.mds, middle, first, c.partial);
    FullStepsSame(c.p, c.mds, late, PartialSteps(c.mds, first, c.partial), c.last);
  }

  lemma ReducedSameIsReduce(p: int, a: Triple, b: Triple)
    requires p > 0 && Reduced(p, a) && Same(p, a, b)
    ensures a == Reduce(p, b)
  {
    ModUnique(a[0], 0, a[0], p);
    ModUnique(a[1], 0, a[1], p);
    ModUnique(a[2], 0, a[2], p);
  }

  /** The hash: the first word of the exact permutation of (0, l, r), reduced once. */
  function HashSpec(c: Params, l: int, r: int): int
    requires c.p > 0
  {
    Exact(c, [0, l, r])[0] % c.p
  }

  method ContractHash(c: Params, left: nat, right: nat) returns (h: int)
    requires c.p > 0
    ensures h == HashSpec(c, left, right) && 0 <= h < c.p
  {
    var state := new int[3];
    state[0], state[1], state[2] := 0, left % c.p, right % c.p;
    ghost var s: Triple := [0, left, right];
    assert state[..] == Reduce(c.p, s) by { ModUnique(0, 0, 0, c.p); }
    ReduceSame(c.p, s);
    ExactSame(c, state[..], s);
    Permute(c, state);
    ReducedSameIsReduce(c.p, state[..], Exact(c, s));
    return state[0];
  }

  // ----- The SDK: accumulate, reducing the accumulator -----

  function Row(m: Matrix, i: nat): Triple
    requires i < 3
  {
    if i == 0 then m.r0 else if i == 1 then m.r1 else m.r2
  }

  /** The first `j` terms of the row product. */
  function DotUpTo(r: Triple, s: Triple, j: nat): int
    requires j <= 3
  {
    if j == 0 then 0 else DotUpTo(r, s, j - 1) + r[j - 1] * s[j - 1]
  }

  method SdkMds(p: int, m: Matrix, state: Triple) returns (result: Triple)
    requires p > 0
    ensures result == Reduce(p, Mix(m, state))
  {
    result := [0, 0, 0];
    for i := 0 to 3
      invariant forall k :: 0 <= k < i ==> result[k] == Dot(Row(m, k), state) % p
    {
      var acc, row := 0, Row(m, i);
      for j := 0 to 3
        invariant acc == DotUpTo(row, state, j) % p
      {
        var term := row[j] * state[j];
        ModIdem(DotUpTo(row, state, j), p);
        ModAdd(acc, DotUpTo(row, state, j), term, term, p);
        acc := (acc + term) % p;
      }
      assert DotUpTo(row, state, 1) == row[0] * state[0];
      assert DotUpTo(row, state, 2) == row[0] * state[0] + row[1] * state[1];
      assert DotUpTo(row, state, 3) == Dot(row, state);
      result := result[i := acc];
    }
  }

  method SdkFullRounds(p: int, m: Matrix, input: Triple, rcs: seq<Triple>) returns (state: Triple)
    requires p > 0
    ensures Same(p, state, FullSteps(m, input, rcs))
    ensures Reduced(p, input) ==> Reduced(p, state)
  {
    state := input;
    for n := 0 to |rcs|
      invariant Same(p, state, FullSteps(m, input, rcs[..n]))
      invariant Reduced(p, input) ==> Reduced(p, state)
    {
      var rc := rcs[n];
      ghost var s := state;
      for i := 0 to 3
        invariant forall k :: 0 <= k < i ==> state[k] == Pow5(s[k] + rc[k]) % p
        invariant forall k :: i <= k < 3 ==> state[k] == s[k]
      {
        SboxLayer(p, s[i], rc[i]);
        state := state[i := (state[i] + rc[i]) % p];
        state := state[i := Sbox(p, state[i])];
      }
      ghost var exact: Triple := [Pow5(s[0] + rc[0]), Pow5(s[1] + rc[1]), Pow5(s[2] + rc[2])];
      ReduceSame(p, exact);
      MixSame(p, m, state, exact);
      state := SdkMds(p, m, state);
      FullStepsNext(p, m, input, rcs, n, s);
    }
    assert rcs[..|rcs|] == rcs;
  }

  method SdkPermute(c: Params, input: Triple) returns (h: int)
    requires c.p > 0
    ensures h % c.p == Exact(c, input)[0] % c.p
    ensures Reduced(c.p, input) ==> 0 <= h < c.p
  {
    var p, m := c.p, c.mds;
    var state := SdkFullRounds(p, m, input, c.first);
    ghost var middle := state;
    for n := 0 to |c.partial|
      invariant Same(p, state, PartialSteps(m, middle, c.partial[..n]))
      invariant Reduced(p, input) ==> Reduced(p, state)
    {
      ghost var s := state;
      SboxLayer(p, s[0], c.partial[n]);
      state := state[0 := (state[0] + c.partial[n]) % p];
      state := state[0 := Sbox(p, state[0])];
      ghost var exact: Triple := [Pow5(s[0] + c.partial[n]), s[1], s[2]];
      ModIdem(exact[0], p);
      MixSame(p, m, state, exact);
      state := SdkMds(p, m, state);
      PartialStepsNext(p, m, middle, c.partial, n, s);
    }
    assert c.partial[..|c.partial|] == c.partial;
    ghost var late := state;
    state := SdkFullRounds(p, m, state, c.last);
    ComposeSame(c, input, middle, late);
    return state[0];
  }

  /** Same result as the contract's hash on every pair, for any tables. */
  method SdkHash(c: Params, left: int, right: int) returns (h: int)
    requires c.p > 0
    ensures h == HashSpec(c, left, right) && 0 <= h < c.p
  {
    ghost var s: Triple := [0, left, right];
    ModUnique(0, 0, 0, c.p);
    ReduceSame(c.p, s);
    ExactSame(c, Reduce(c.p, s), s);
    h := SdkPermute(c, [0, left % c.p, right % c.p]);
    ModUnique(h, 0, h, c.p);
  }

  /** Reducing the inputs first changes nothing. */
  lemma HashIgnoresReduction(c: Params, l: int, r: int)
    requires c.p > 0
    ensures HashSpec(c, l % c.p, r % c.p) == HashSpec(c, l, r)
  {
    ModIdem(l, c.p);
    ModIdem(r, c.p);
    ExactSame(c, [0, l % c.p, r % c.p], [0, l, r]);
  }

  // ----- The hash round by round, word by word -----

  /** `t` is the matrix applied to the words `x`, `y`, `z`. */
  predicate Mixed(m: Matrix, x: int, y: int, z: int, t: Triple) {
    && t[0] == m.r0[0] * x + m.r0[1] * y + m.r0[2] * z
    && t[1] == m.r1[0] * x + m.r1[1] * y + m.r1[2] * z
    && t[2] == m.r2[0] * x + m.r2[1] * y + m.r2[2] * z
  }

  /** All the states of one evaluation: full rounds, partial rounds, full rounds, each from the one before. */
  ghost predicate Trace(c: Params, states: seq<Triple>) {
    var f, q := |c.first|, |c.partial|;
    && |states| == f + q + |c.last| + 1
    && (forall k :: 0 <= k < f ==> FullAt(c.mds, states[k], c.first[k], states[k + 1]))
    && (forall k :: 0 <= k < q ==> PartialAt(c.mds, states[f + k], c.partial[k], states[f + k + 1]))
    && (forall k :: 0 <= k < |c.last| ==> FullAt(c.mds, states[f + q + k], c.last[k], states[f + q + k + 1]))
  }

  predicate FullAt(m: Matrix, s: Triple, rc: Triple, t: Triple) {
    Mixed(m, Pow5(s[0] + rc[0]), Pow5(s[1] + rc[1]), Pow5(s[2] + rc[2]), t)
  }

  /** Only word 0 gets a constant and passes the S-box. */
  predicate PartialAt(m: Matrix, s: Triple, rc: int, t: Triple) {
    Mixed(m, Pow5(s[0] + rc), s[1], s[2], t)
  }

  lemma FullAtIsStep(m: Matrix, s: Triple, rc: Triple, t: Triple)
    requires FullAt(m, s, rc, t)
    ensures t == FullStep(m, s, rc)
  {
  }

  lemma PartialAtIsStep(m: Matrix, s: Triple, rc: int, t: Triple)
    requires PartialAt(m, s, rc, t)
    ensures t == PartialStep(m, s, rc)
  {
  }

  lemma {:induction false} FullTrace(m: Matrix, states: seq<Triple>, rcs: seq<Triple>)
    requires |states| == |rcs| + 1
    requires forall k :: 0 <= k < |rcs| ==> FullAt(m, states[k], rcs[k], states[k + 1])
    ensures states[|rcs|] == FullSteps(m, states[0], rcs)
    decreases |rcs|
  {
    if rcs != [] {
      var n := |rcs| - 1;
      FullTrace(m, states[..n + 1], rcs[..n]);
      FullAtIsStep(m, states[n], rcs[n], states[n + 1]);
    }
  }

  lemma {:induction false} PartialTrace(m: Matrix, states: seq<Triple>, rcs: seq<int>)
    requires |states| == |rcs| + 1
    requires forall k :: 0 <= k < |rcs| ==> PartialAt(m, states[k], rcs[k], states[k + 1])
    ensures states[|rcs|] == PartialSteps(m, states[0], rcs)
    decreases |rcs|
  {
    if rcs != [] {
      var n := |rcs| - 1;
      PartialTrace(m, states[..n + 1], rcs[..n]);
      PartialAtIsStep(m, states[n], rcs[n], states[n + 1]);
    }
  }

  /** The hash is word 0 of the last state of the evaluation that starts from (0, left, right). */
  lemma TraceIsHash(c: Params, l: int, r: int, states: seq<Triple>)
    requires c.p > 0 && Trace(c, states) && states[0] == [0, l, r]
    ensures HashSpec(c, l, r) == states[|states| - 1][0] % c.p
  {
    var f, q := |c.first|, |c.partial|;
    FullTrace(c.mds, states[..f + 1], c.first);
    PartialTrace(c.mds, states[f..f + q + 1], c.partial);
    FullTrace(c.mds, states[f + q..], c.last);
  }

  /** One full round, whether before or after the partial ones: which constant, input and entry go together. */
  lemma OneFullRound(p: int, m: Matrix, rc: Triple, l: int, r: int)
    requires p > 0
    ensures HashSpec(Params(p, m, [rc], [], []), l, r)
         == (m.r0[0] * Pow5(rc[0]) + m.r0[1] * Pow5(l + rc[1]) + m.r0[2] * Pow5(r + rc[2])) % p
    ensures HashSpec(Params(p, m, [], [], [rc]), l, r)
         == (m.r0[0] * Pow5(rc[0]) + m.r0[1] * Pow5(l + rc[1]) + m.r0[2] * Pow5(r + rc[2])) % p
  {
    var s: Triple := [0, l, r];
    var t := FullStep(m, s, rc);
    TraceIsHash(Params(p, m, [rc], [], []), l, r, [s, t]);
    TraceIsHash(Params(p, m, [], [], [rc]), l, r, [s, t]);
  }

  /** One partial round: the inputs reach the mixing as they are. */
  lemma OnePartialRound(p: int, m: Matrix, rc: int, l: int, r: int)
    requires p > 0
    ensures HashSpec(Params(p, m, [], [rc], []), l, r) == (m.r0[0] * Pow5(rc) + m.r0[1] * l + m.r0[2] * r) % p
  {
    var s: Triple := [0, l, r];
    TraceIsHash(Params(p, m, [], [rc], []), l, r, [s, PartialStep(m, s, rc)]);
  }

  /** The order of the inputs matters: a table for which (1, 2) and (2, 1) have different hashes. */
  lemma InputsAreOrdered(c: Params)
    requires c == Params(7, Matrix([0, 1, 0], [0, 0, 1], [1, 0, 0]), [[0, 0, 0]], [], [])
    ensures HashSpec(c, 1, 2) == 1 && HashSpec(c, 2, 1) == 4
  {
    OneFullRound(7, c.mds, [0, 0, 0], 1, 2);
    OneFullRound(7, c.mds, [0, 0, 0], 2, 1);
  }

  // ----- Injectivity -----

  function Det(m: Matrix): int {
    var (a, b, c) := (m.r0, m.r1, m.r2);
    a[0] * (b[1] * c[2] - b[2] * c[1]) - a[1] * (b[0] * c[2] - b[2] * c[0]) + a[2] * (b[0] * c[1] - b[1] * c[0])
  }

  ghost predicate Invertible(c: Params) {
    Prime(c.p) && (c.p - 1) % 5 != 0 && Det(c.mds) % c.p != 0
  }

  lemma Distribute(k: int, r: Triple, d: Triple)
    ensures k * Dot(r, d) == (k * r[0]) * d[0] + (k * r[1]) * d[1] + (k * r[2]) * d[2]
  {
  }

  lemma Collect(k: int, l: int, n: int, x: int)
    ensures k * x + l * x + n * x == (k + l + n) * x
  {
  }

  lemma Cofactors(a: Triple, b: Triple, c: Triple)
    ensures var (u, v, w) := (b[1] * c[2] - b[2] * c[1], a[2] * c[1] - a[1] * c[2], a[1] * b[2] - a[2] * b[1]);
      && u * a[0] + v * b[0] + w * c[0] == Det(Matrix(a, b, c))
      && u * a[1] + v * b[1] + w * c[1] == 0
      && u * a[2] + v * b[2] + w * c[2] == 0
  {
  }

  /** Cramer's rule: a coordinate times the determinant is a combination of the row products. */
  lemma Cramer(m: Matrix, d: Triple)
    ensures var (a, b, c) := (m.r0, m.r1, m.r2);
      Det(m) * d[0] == (b[1] * c[2] - b[2] * c[1]) * Dot(a, d) + (a[2] * c[1] - a[1] * c[2]) * Dot(b, d)
                     + (a[1] * b[2] - a[2] * b[1]) * Dot(c, d)
  {
    var (a, b, c) := (m.r0, m.r1, m.r2);
    var u, v, w := b[1] * c[2] - b[2] * c[1], a[2] * c[1] - a[1] * c[2], a[1] * b[2] - a[2] * b[1];
    Distribute(u, a, d);
    Distribute(v, b, d);
    Distribute(w, c, d);
    Collect(u * a[0], v * b[0], w * c[0], d[0]);
    Collect(u * a[1], v * b[1], w * c[1], d[1]);
    Collect(u * a[2], v * b[2], w * c[2], d[2]);
    Cofactors(a, b, c);
  }

  /** Moves the first column to the end. */
  function Turn(s: Triple): Triple {
    [s[1], s[2], s[0]]
  }

  function TurnAll(m: Matrix): Matrix {
    Matrix(Turn(m.r0), Turn(m.r1), Turn(m.r2))
  }

  lemma TurnKeeps(m: Matrix, s: Triple)
    ensures Det(TurnAll(m)) == Det(m)
    ensures Mix(TurnAll(m), Turn(s)) == Mix(m, s)
  {
  }

  lemma CombinationZero(p: int, u: int, x: int, v: int, y: int, w: int, z: int)
    requires p > 0 && x % p == 0 && y % p == 0 && z % p == 0
    ensures (u * x + v * y + w * z) % p == 0
  {
    ModUnique(0, 0, 0, p);
    DotSame(p, [u, v, w], [x, y, z], [0, 0, 0]);
  }

  lemma DotDifference(r: Triple, a: Triple, b: Triple)
    ensures Dot(r, [a[0] - b[0], a[1] - b[1], a[2] - b[2]]) == Dot(r, a) - Dot(r, b)
  {
    assert r[0] * (a[0] - b[0]) == r[0] * a[0] - r[0] * b[0];
    assert r[1] * (a[1] - b[1]) == r[1] * a[1] - r[1] * b[1];
    assert r[2] * (a[2] - b[2]) == r[2] * a[2] - r[2] * b[2];
  }

  lemma CoordinateSame(p: int, det: int, x: int, y: int)
    requires Prime(p) && det % p != 0 && (det * (x - y)) % p == 0
    ensures x % p == y % p
  {
    ProductZero(det, x - y, p);
    ModUnique(0, 0, 0, p);
    ModAdd(x - y, 0, y, y, p);
  }

  lemma MixInjectiveFirst(p: int, m: Matrix, a: Triple, b: Triple)
    requires Prime(p) && Det(m) % p != 0 && Same(p, Mix(m, a), Mix(m, b))
    ensures a[0] % p == b[0] % p
  {
    var d: Triple := [a[0] - b[0], a[1] - b[1], a[2] - b[2]];
    DotDifference(m.r0, a, b);
    DotDifference(m.r1, a, b);
    DotDifference(m.r2, a, b);
    DifferenceZero(Dot(m.r0, a), Dot(m.r0, b), p);
    DifferenceZero(Dot(m.r1, a), Dot(m.r1, b), p);
    DifferenceZero(Dot(m.r2, a), Dot(m.r2, b), p);
    var (u, v, w) := (m.r0, m.r1, m.r2);
    CombinationZero(p, v[1] * w[2] - v[2] * w[1], Dot(u, d), u[2] * w[1] - u[1] * w[2], Dot(v, d),
                       u[1] * v[2] - u[2] * v[1], Dot(w, d));
    Cramer(m, d);
    CoordinateSame(p, Det(m), a[0], b[0]);
  }

  /** An invertible matrix mixes injectively. */
  lemma MixInjective(p: int, m: Matrix, a: Triple, b: Triple)
    requires Prime(p) && Det(m) % p != 0 && Same(p, Mix(m, a), Mix(m, b))
    ensures Same(p, a, b)
  {
    TurnKeeps(m, a);
    TurnKeeps(m, b);
    TurnKeeps(TurnAll(m), Turn(a));
    TurnKeeps(TurnAll(m), Turn(b));
    MixInjectiveFirst(p, m, a, b);
    MixInjectiveFirst(p, TurnAll(m), Turn(a), Turn(b));
    MixInjectiveFirst(p, TurnAll(TurnAll(m)), Turn(Turn(a)), Turn(Turn(b)));
  }

  lemma SboxInjective(p: int, x: int, y: int, rc: int)
    requires Prime(p) && (p - 1) % 5 != 0 && Pow5(x + rc) % p == Pow5(y + rc) % p
    ensures x % p == y % p
  {
    Pow5Injective(x + rc, y + rc, p);
    ModAdd(x + rc, y + rc, -rc, -rc, p);
  }

  lemma FullStepInjective(c: Params, a: Triple, b: Triple, rc: Triple)
    requires Invertible(c) && Same(c.p, FullStep(c.mds, a, rc), FullStep(c.mds, b, rc))
    ensures Same(c.p, a, b)
  {
    MixInjective(c.p, c.mds, [Pow5(a[0] + rc[0]), Pow5(a[1] + rc[1]), Pow5(a[2] + rc[2])],
                             [Pow5(b[0] + rc[0]), Pow5(b[1] + rc[1]), Pow5(b[2] + rc[2])]);
    SboxInjective(c.p, a[0], b[0], rc[0]);
    SboxInjective(c.p, a[1], b[1], rc[1]);
    SboxInjective(c.p, a[2], b[2], rc[2]);
  }

  lemma PartialStepInjective(c: Params, a: Triple, b: Triple, rc: int)
    requires Invertible(c) && Same(c.p, PartialStep(c.mds, a, rc), PartialStep(c.mds, b, rc))
    ensures Same(c.p, a, b)
  {
    MixInjective(c.p, c.mds, [Pow5(a[0] + rc), a[1], a[2]], [Pow5(b[0] + rc), b[1], b[2]]);
    SboxInjective(c.p, a[0], b[0], rc);
  }

  lemma {:induction false} FullStepsInjective(c: Params, a: Triple, b: Triple, rcs: seq<Triple>)
    requires Invertible(c) && Same(c.p, FullSteps(c.mds, a, rcs), FullSteps(c.mds, b, rcs))
    ensures Same(c.p, a, b)
    decreases |rcs|
  {
    if rcs != [] {
      var front := rcs[..|rcs| - 1];
      FullStepInjective(c, FullSteps(c.mds, a, front), FullSteps(c.mds, b, front), rcs[|rcs| - 1]);
      FullStepsInjective(c, a, b, front);
    }
  }

  lemma {:induction false} PartialStepsInjective(c: Params, a: Triple, b: Triple, rcs: seq<int>)
    requires Invertible(c) && Same(c.p, PartialSteps(c.mds, a, rcs), PartialSteps(c.mds, b, rcs))
    ensures Same(c.p, a, b)
    decreases |rcs|
  {
    if rcs != [] {
      var front := rcs[..|rcs| - 1];
      PartialStepInjective(c, PartialSteps(c.mds, a, front), PartialSteps(c.mds, b, front), rcs[|rcs| - 1]);
      PartialStepsInjective(c, a, b, front);
    }
  }

  /** The permutation is injective on reduced states. */
  lemma PermutationInjective(c: Params, a: Triple, b: Triple)
    requires Invertible(c) && Reduced(c.p, a) && Reduced(c.p, b)
    requires Reduce(c.p, Exact(c, a)) == Reduce(c.p, Exact(c, b))
    ensures a == b
  {
    assert Reduce(c.p, Exact(c, a))[0] == Reduce(c.p, Exact(c, b))[0];
    assert Reduce(c.p, Exact(c, a))[1] == Reduce(c.p, Exact(c, b))[1];
    assert Reduce(c.p, Exact(c, a))[2] == Reduce(c.p, Exact(c, b))[2];
    var a1, b1 := FullSteps(c.mds, a, c.first), FullSteps(c.mds, b, c.first);
    FullStepsInjective(c, PartialSteps(c.mds, a1, c.partial), PartialSteps(c.mds, b1, c.partial), c.last);
    PartialStepsInjective(c, a1, b1, c.partial);
    FullStepsInjective(c, a, b, c.first);
    ReducedSameIsReduce(c.p, a, b);
    ReducedSameIsReduce(c.p, b, b);
  }

  // ----- The shipped constants -----

  const BN254_P: int := 21888242871839275222246405745257275088548364400416034343698204186575808495617

  const MDS: Matrix := Matrix(
    [0x109b7f411ba0e4c9b2b70caf5c36a7b194be7c11ad24378bfedb68592ba8118b,
     0x2969f27eed31a480b9c36c764379dbca2cc8fdd1415c3dded62940bcde0bd771,
     0x143021ec686a3f330d5f9e654638065ce6cd79e28c5b3753326244ee65a1b1a7],
    [0x16ed41e13bb9c0c66ae119424fddbcbc9314dc9fdbdeea55d6c64543dc4903e0,
     0x2e2419f9ec02ec394c9871c832963dc1b89d743c8c7b964029b2311687b1fe23,
     0x176cc029695ad02582a70eff08a6fd99d057e12e58e7d7b6b16cdfabc8ee2911],
    [0x2b90bba00fca0589f617e7dcbfe82e0df706ab640ceb247b791a93b74e36736d,
     0x101071f0032379b697315571086d26850e39a080c3a3118b11aced26d3de9c1a,
     0x19a3fc0a56702bf417ba7fee3802593fa644470307043f7773e0e01e2680fb05])

  /** The two arithmetic conditions hold of the shipped modulus and matrix; primality is all that is left. */
  lemma ShippedConstantsInvertible(first: seq<Triple>, partial: seq<int>, last: seq<Triple>)
    ensures Prime(BN254_P) ==> Invertible(Params(BN254_P, MDS, first, partial, last))
  {
  }
}
