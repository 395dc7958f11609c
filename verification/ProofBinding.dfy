/**
 The pallet's proof check: size and input sanity, then a tag that hashes the public inputs together
 with the proof body. The hash is left abstract; collisions are exhibited, not assumed away.
 */
module ProofBinding {

  type byte = x: int | 0 <= x < 256

  type Bytes = seq<byte>

  type Digest = d: Bytes | |d| == 32 witness ToBytes(0, 32)

  type ByteHash = Bytes -> Bytes

  newtype u32 = x: int | 0 <= x < 0x1_0000_0000

  newtype u128 = x: int | 0 <= x < 0x1_0000_0000_0000_0000_0000_0000_0000_0000

  datatype TransferInputs = TransferInputs(
    merkleRoot: Digest, n0: Digest, n1: Digest, c0: Digest, c1: Digest, chainId: u32, appId: u32)

  datatype WithdrawInputs = WithdrawInputs(
    merkleRoot: Digest, n0: Digest, n1: Digest, c0: Digest, c1: Digest, exitValue: u128)

  const MIN_PROOF_SIZE: nat := 192
  const MAX_PROOF_SIZE: nat := 4096
  const PROOF_ALIGNMENT: nat := 32
  const TESTNET_ONLY: bool := true

  /** The ASCII bytes of "Halo2-IPA-bind". */
  const DOMAIN: Bytes := [72, 97, 108, 111, 50, 45, 73, 80, 65, 45, 98, 105, 110, 100]

  // ----- Encoding -----

  function Pow256(w: nat): nat {
    if w == 0 then 1 else 256 * Pow256(w - 1)
  }

  /** Big-endian bytes of `n`. */
  function ToBytes(n: nat, width: nat): (r: Bytes)
    ensures |r| == width
  {
    if width == 0 then [] else ToBytes(n / 256, width - 1) + [n % 256]
  }

  function EncodeTransfer(i: TransferInputs): Bytes {
    i.merkleRoot + i.n0 + i.n1 + i.c0 + i.c1 + ToBytes(i.chainId as nat, 8) + ToBytes(i.appId as nat, 8)
  }

  /** The output commitments are not part of the encoding. */
  function EncodeWithdraw(i: WithdrawInputs): Bytes {
    i.merkleRoot + i.n0 + i.n1 + ToBytes(i.exitValue as nat, 16)
  }

  function Transcript(inputs: Bytes, body: Bytes): Bytes {
    DOMAIN + inputs + body
  }

  // ----- Verification -----

  predicate IsMainnetChain(id: u32) {
    id == 0 || id == 1284 || id == 592 || id == 43114 || id == 9001
  }

  predicate IsZero(d: Digest) {
    forall k :: 0 <= k < |d| ==> d[k] == 0
  }

  predicate WellFormed(proof: Bytes) {
    && MIN_PROOF_SIZE <= |proof| <= MAX_PROOF_SIZE
    && |proof| % PROOF_ALIGNMENT == 0
    && exists k :: 0 <= k < |proof| && proof[k] != 0
  }

  predicate VerifyBinding(h: ByteHash, proof: Bytes, inputs: Bytes) {
    && 192 <= |proof|
    && var body := proof[32..];
       var rounds := body[96..];
       && |rounds| % 64 == 0
       && 1 <= |rounds| / 64 <= 32
       && proof[..32] == h(Transcript(inputs, body))
  }

  predicate VerifyTransfer(h: ByteHash, proof: Bytes, i: TransferInputs) {
    && !(TESTNET_ONLY && IsMainnetChain(i.chainId))
    && WellFormed(proof)
    && !IsZero(i.merkleRoot) && i.n0 != i.n1 && !IsZero(i.n0) && !IsZero(i.n1)
    && !IsZero(i.c0) && !IsZero(i.c1) && i.c0 != i.c1
    && i.chainId != 0 && i.appId != 0
    && VerifyBinding(h, proof, EncodeTransfer(i))
  }

  predicate VerifyWithdraw(h: ByteHash, proof: Bytes, i: WithdrawInputs) {
    && WellFormed(proof)
    && !IsZero(i.merkleRoot) && i.n0 != i.n1 && !IsZero(i.n0) && !IsZero(i.n1)
    && i.exitValue != 0
    && VerifyBinding(h, proof, EncodeWithdraw(i))
  }

  /** An accepted proof holds a tag, a commitment, an evaluation and 1 to 32 rounds. */
  lemma AcceptedLength(h: ByteHash, proof: Bytes, inputs: Bytes)
    requires VerifyBinding(h, proof, inputs)
    ensures exists k :: 1 <= k <= 32 && |proof| == 128 + 64 * k
  {
    var k := (|proof| - 128) / 64;
    assert |proof| == 128 + 64 * k;
  }

  // ----- Exactly which proofs are accepted -----

  /** The number that bytes stand for, the first byte weighing most. */
  function FromBytes(b: Bytes): nat {
    if b == [] then 0 else b[0] * Pow256(|b| - 1) + FromBytes(b[1..])
  }

  lemma {:induction false} FromBytesAppend(b: Bytes, x: byte)
    ensures FromBytes(b + [x]) == 256 * FromBytes(b) + x
    decreases |b|
  {
    if b == [] {
      assert [x][1..] == [] && Pow256(0) == 1;
    } else {
      assert (b + [x])[1..] == b[1..] + [x];
      FromBytesAppend(b[1..], x);
      Carry(b[0], Pow256(|b| - 1));
    }
  }

  lemma Carry(d: nat, w: nat)
    ensures d * (256 * w) == 256 * (d * w)
  {
  }

  /** Round trip: the bytes are those of `n`, highest first, for every number that fits. */
  lemma {:induction false} ToBytesRoundTrip(n: nat, width: nat)
    requires n < Pow256(width)
    ensures FromBytes(ToBytes(n, width)) == n
    decreases width
  {
    if width > 0 {
      ToBytesRoundTrip(n / 256, width - 1);
      FromBytesAppend(ToBytes(n / 256, width - 1), n % 256);
    }
  }

  /** Where each public input of a transfer stands in its 176 bytes. */
  lemma TransferLayout(i: TransferInputs)
    ensures var b := EncodeTransfer(i);
      && |b| == 176
      && b[..32] == i.merkleRoot && b[32..64] == i.n0 && b[64..96] == i.n1
      && b[96..128] == i.c0 && b[128..160] == i.c1
      && b[160..168] == ToBytes(i.chainId as nat, 8) && b[168..] == ToBytes(i.appId as nat, 8)
  {
  }

  /** Where each public input of a withdrawal stands in its 112 bytes; the outputs stand nowhere. */
  lemma WithdrawLayout(i: WithdrawInputs)
    ensures var b := EncodeWithdraw(i);
      && |b| == 112
      && b[..32] == i.merkleRoot && b[32..64] == i.n0 && b[64..96] == i.n1
      && b[96..] == ToBytes(i.exitValue as nat, 16)
  {
  }

  lemma DomainIsText()
    ensures |DOMAIN| == |"Halo2-IPA-bind"| == 14
    ensures forall k :: 0 <= k < 14 ==> DOMAIN[k] == "Halo2-IPA-bind"[k] as int
  {
  }

  /** A body of one commitment, one evaluation and 1 to 32 rounds. */
  predicate BodyFits(body: Bytes) {
    exists k :: 1 <= k <= 32 && |body| == 96 + 64 * k
  }

  lemma TagAndBody(h: ByteHash, tag: Digest, body: Bytes, inputs: Bytes)
    ensures WellFormed(tag + body) && VerifyBinding(h, tag + body, inputs) <==>
      && BodyFits(body) && NonZero(tag + body)
      && tag == h(DOMAIN + inputs + body)
  {
    var proof := tag + body;
    assert |proof| >= 32 && proof[..32] == tag && proof[32..] == body;
    if BodyFits(body) {
      var k :| 1 <= k <= 32 && |body| == 96 + 64 * k;
      assert |body[96..]| == 64 * k && |proof| == 32 * (4 + 2 * k);
    }
    if 192 <= |proof| && |body[96..]| % 64 == 0 && 1 <= |body[96..]| / 64 <= 32 {
      assert |body| == 96 + 64 * (|body[96..]| / 64);
    }
  }

  /** A transfer proof is accepted exactly when inputs and body pass the checks and the tag is the hash of both. */
  lemma TransferAcceptedIff(h: ByteHash, tag: Digest, body: Bytes, i: TransferInputs)
    ensures VerifyTransfer(h, tag + body, i) <==>
      && i.chainId !in {0, 1284, 592, 43114, 9001} && i.appId != 0
      && NonZero(i.merkleRoot) && NonZero(i.n0) && NonZero(i.n1) && NonZero(i.c0) && NonZero(i.c1)
      && i.n0 != i.n1 && i.c0 != i.c1
      && BodyFits(body) && NonZero(tag + body)
      && tag == h(DOMAIN + EncodeTransfer(i) + body)
  {
    TagAndBody(h, tag, body, EncodeTransfer(i));
  }

  /** The same for a withdrawal, whose outputs are not looked at. */
  lemma WithdrawAcceptedIff(h: ByteHash, tag: Digest, body: Bytes, i: WithdrawInputs)
    ensures VerifyWithdraw(h, tag + body, i) <==>
      && i.exitValue != 0
      && NonZero(i.merkleRoot) && NonZero(i.n0) && NonZero(i.n1) && i.n0 != i.n1
      && BodyFits(body) && NonZero(tag + body)
      && tag == h(DOMAIN + EncodeWithdraw(i) + body)
  {
    TagAndBody(h, tag, body, EncodeWithdraw(i));
  }

  predicate NonZero(b: Bytes) {
    exists k :: 0 <= k < |b| && b[k] != 0
  }

  // ----- Injectivity of the encodings -----

  lemma Split(a: Bytes, b: Bytes, c: Bytes, d: Bytes)
    requires a + b == c + d && |a| == |c|
    ensures a == c && b == d
  {
    assert (a + b)[..|a|] == a && (c + d)[..|c|] == c;
    assert (a + b)[|a|..] == b && (c + d)[|c|..] == d;
  }

  lemma {:induction false} ToBytesInjective(n: nat, m: nat, width: nat)
    requires n < Pow256(width) && m < Pow256(width) && ToBytes(n, width) == ToBytes(m, width)
    ensures n == m
    decreases width
  {
    if width > 0 {
      Split(ToBytes(n / 256, width - 1), [n % 256], ToBytes(m / 256, width - 1), [m % 256]);
      assert [n % 256][0] == [m % 256][0];
      ToBytesInjective(n / 256, m / 256, width - 1);
    }
  }

  lemma EncodeTransferInjective(a: TransferInputs, b: TransferInputs)
    requires EncodeTransfer(a) == EncodeTransfer(b)
    ensures a == b
  {
    var a5, b5 := a.merkleRoot + a.n0 + a.n1 + a.c0 + a.c1, b.merkleRoot + b.n0 + b.n1 + b.c0 + b.c1;
    Split(a5 + ToBytes(a.chainId as nat, 8), ToBytes(a.appId as nat, 8), b5 + ToBytes(b.chainId as nat, 8), ToBytes(b.appId as nat, 8));
    Split(a5, ToBytes(a.chainId as nat, 8), b5, ToBytes(b.chainId as nat, 8));
    Split(a.merkleRoot + a.n0 + a.n1 + a.c0, a.c1, b.merkleRoot + b.n0 + b.n1 + b.c0, b.c1);
    Split(a.merkleRoot + a.n0 + a.n1, a.c0, b.merkleRoot + b.n0 + b.n1, b.c0);
    Split(a.merkleRoot + a.n0, a.n1, b.merkleRoot + b.n0, b.n1);
    Split(a.merkleRoot, a.n0, b.merkleRoot, b.n0);
    assert Pow256(8) == 0x1_0000_0000_0000_0000;
    ToBytesInjective(a.chainId as nat, b.chainId as nat, 8);
    ToBytesInjective(a.appId as nat, b.appId as nat, 8);
  }

  /** The inputs a withdrawal proof is tied to: all but the output commitments. */
  predicate SameButOutputs(a: WithdrawInputs, b: WithdrawInputs) {
    a == b.(c0 := a.c0, c1 := a.c1)
  }

  lemma EncodeWithdrawBinds(a: WithdrawInputs, b: WithdrawInputs)
    ensures EncodeWithdraw(a) == EncodeWithdraw(b) <==> SameButOutputs(a, b)
  {
    if EncodeWithdraw(a) == EncodeWithdraw(b) {
      var a3, b3 := a.merkleRoot + a.n0 + a.n1, b.merkleRoot + b.n0 + b.n1;
      Split(a3, ToBytes(a.exitValue as nat, 16), b3, ToBytes(b.exitValue as nat, 16));
      Split(a.merkleRoot + a.n0, a.n1, b.merkleRoot + b.n0, b.n1);
      Split(a.merkleRoot, a.n0, b.merkleRoot, b.n0);
      assert Pow256(8) == 0x1_0000_0000_0000_0000;
      assert Pow256(12) == 0x1_0000_0000_0000_0000_0000_0000;
      assert Pow256(16) == 0x1_0000_0000_0000_0000_0000_0000_0000_0000;
      ToBytesInjective(a.exitValue as nat, b.exitValue as nat, 16);
    }
  }

  // ----- Binding -----

  predicate Collide(h: ByteHash, x: Bytes, y: Bytes) {
    x != y && h(x) == h(y)
  }

  lemma TranscriptInjective(a: Bytes, b: Bytes, body: Bytes)
    requires a != b
    ensures Transcript(a, body) != Transcript(b, body)
  {
    if Transcript(a, body) == Transcript(b, body) {
      assert |a| == |b|;
      Split(DOMAIN + a, body, DOMAIN + b, body);
      Split(DOMAIN, a, DOMAIN, b);
    }
  }

  /** One proof accepted for two encodings is a collision between their transcripts. */
  lemma TagBinds(h: ByteHash, proof: Bytes, a: Bytes, b: Bytes)
    requires VerifyBinding(h, proof, a) && VerifyBinding(h, proof, b)
    ensures a == b || Collide(h, Transcript(a, proof[32..]), Transcript(b, proof[32..]))
  {
    if a != b {
      TranscriptInjective(a, b, proof[32..]);
    }
  }

  /** One proof is accepted by `VerifyTransfer` for at most one set of inputs, or a collision is at hand. */
  lemma TransferBinds(h: ByteHash, proof: Bytes, a: TransferInputs, b: TransferInputs)
    requires VerifyTransfer(h, proof, a) && VerifyTransfer(h, proof, b)
    ensures a == b
         || Collide(h, Transcript(EncodeTransfer(a), proof[32..]), Transcript(EncodeTransfer(b), proof[32..]))
  {
    TagBinds(h, proof, EncodeTransfer(a), EncodeTransfer(b));
    if EncodeTransfer(a) == EncodeTransfer(b) {
      EncodeTransferInjective(a, b);
    }
  }

  /**
   A withdrawal proof is tied to its root, nullifiers and amount and to nothing else: without a
   collision, it is accepted for other inputs exactly when they differ in the output commitments only.
   */
  lemma WithdrawBinds(h: ByteHash, proof: Bytes, a: WithdrawInputs, b: WithdrawInputs)
    requires VerifyWithdraw(h, proof, a)
    requires !Collide(h, Transcript(EncodeWithdraw(a), proof[32..]), Transcript(EncodeWithdraw(b), proof[32..]))
    ensures VerifyWithdraw(h, proof, b) <==> SameButOutputs(a, b)
  {
    EncodeWithdrawBinds(a, b);
    if VerifyWithdraw(h, proof, b) {
      TagBinds(h, proof, EncodeWithdraw(a), EncodeWithdraw(b));
    }
  }

  /** Two withdrawals that differ in an output commitment are accepted with one proof. */
  lemma WithdrawOutputsAreFree(h: ByteHash, proof: Bytes, a: WithdrawInputs, c: Digest)
    requires VerifyWithdraw(h, proof, a) && c != a.c0
    ensures VerifyWithdraw(h, proof, a.(c0 := c)) && a.(c0 := c) != a
  {
  }

  /** No proof is accepted both for a transfer and for a withdrawal, short of a collision. */
  lemma TransferIsNotWithdraw(h: ByteHash, proof: Bytes, a: TransferInputs, b: WithdrawInputs)
    requires VerifyTransfer(h, proof, a) && VerifyWithdraw(h, proof, b)
    ensures Collide(h, Transcript(EncodeTransfer(a), proof[32..]), Transcript(EncodeWithdraw(b), proof[32..]))
  {
    assert |EncodeTransfer(a)| == 176 && |EncodeWithdraw(b)| == 112;
    TagBinds(h, proof, EncodeTransfer(a), EncodeWithdraw(b));
  }
}
