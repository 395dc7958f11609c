/**
 The pool of the NEAR contract, the CosmWasm contract and the Substrate pallet as an abstract
 machine: what each call accepts and does, in terms of the leaf sequence and the per-epoch
 nullifier lists alone. The theorems here are about every run of calls.
 */
module PoolLedger {
  import opened Hashing
  import opened MerkleTree
  import opened Wrappers

  datatype Error =
    | WrongArity | ZeroDeposit | CommitmentAlreadyExists | TreeFull | BalanceOverflow
    | ZeroWithdrawal | InsufficientPoolBalance | UnknownMerkleRoot | NullifierAlreadySpent
    | EpochNullifierOverflow | InvalidProof | Unauthorized | EpochNotFound | EpochAlreadyFinalized

  datatype Result<+T> = Ok(value: T) | Err(error: Error)

  datatype Platform = Near | CosmWasm | Substrate

  datatype Call =
    | Deposit(commitment: Hash, amount: nat)
    | Transfer(proof: string, root: Hash, nullifiers: seq<Hash>, outputs: seq<Hash>)
    | Withdraw(proof: string, root: Hash, nullifiers: seq<Hash>, outputs: seq<Hash>, recipient: string, exitValue: nat)
    | FinalizeEpoch(caller: string, block: nat)

  const MAX_U128: nat := 0xFFFF_FFFF_FFFF_FFFF_FFFF_FFFF_FFFF_FFFF
  const U32_LIMIT: nat := 0x1_0000_0000

  /** `verify` is the proof check, a function of the call's public inputs. */
  datatype Config = Config(
    platform: Platform, h: HashFn, verify: Call -> bool,
    depth: nat, historySize: nat, maxNullifiers: nat, governance: string)
  {
    predicate Valid() {
      0 < historySize && maxNullifiers < U32_LIMIT
    }
  }

  /** `end` is set exactly when the epoch has been finalised. */
  datatype Epoch = Epoch(start: nat, nullifiers: seq<Hash>, end: Option<nat>)

  datatype Ledger = Ledger(leaves: seq<Hash>, deposits: set<Hash>, balance: nat, epochs: seq<Epoch>)

  function Initial(block: nat): Ledger {
    Ledger([], {}, 0, [Epoch(block, [], None)])
  }

  // ----- The pieces of a call -----

  /** `root` is not zero and is the root after one of the last `historySize` insertions (or none). */
  predicate KnownRoot(cfg: Config, leaves: seq<Hash>, root: Hash) {
    root != ZERO &&
    exists k :: 0 <= k <= |leaves| && |leaves| - k < cfg.historySize && root == RootOf(cfg.h, cfg.depth, leaves[..k])
  }

  predicate IsSpent(epochs: seq<Epoch>, x: Hash) {
    exists i :: 0 <= i < |epochs| && x in epochs[i].nullifiers
  }

  function Record(epochs: seq<Epoch>, x: Hash): (r: seq<Epoch>)
    requires epochs != []
  {
    var last := epochs[|epochs| - 1];
    epochs[|epochs| - 1 := last.(nullifiers := last.nullifiers + [x])]
  }

  function Spend(cfg: Config, epochs: seq<Epoch>, nullifiers: seq<Hash>): (r: Result<seq<Epoch>>)
    requires epochs != []
    ensures r.Ok? ==> |r.value| == |epochs|
    decreases |nullifiers|
  {
    if nullifiers == [] then Ok(epochs)
    else if IsSpent(epochs, nullifiers[0]) then Err(NullifierAlreadySpent)
    else if |epochs[|epochs| - 1].nullifiers| >= cfg.maxNullifiers then Err(EpochNullifierOverflow)
    else Spend(cfg, Record(epochs, nullifiers[0]), nullifiers[1..])
  }

  /** Closes the open epoch and opens the next. */
  function Advance(epochs: seq<Epoch>, block: nat): (r: seq<Epoch>)
    requires epochs != []
    ensures r != []
  {
    epochs[|epochs| - 1 := epochs[|epochs| - 1].(end := Some(block))] + [Epoch(block, [], None)]
  }

  /** NEAR and CosmWasm abort on overflow; the pallet saturates. */
  function Credit(platform: Platform, balance: nat, amount: nat): Result<nat> {
    if balance + amount <= MAX_U128 then Ok(balance + amount)
    else if platform.Substrate? then Ok(MAX_U128)
    else Err(BalanceOverflow)
  }

  /** The part transfer and withdraw share: root, nullifiers, proof, two new leaves. */
  function Exchange(cfg: Config, s: Ledger, call: Call): (r: Result<Ledger>)
    requires s.epochs != [] && (call.Transfer? || call.Withdraw?)
  {
    if !KnownRoot(cfg, s.leaves, call.root) then Err(UnknownMerkleRoot) else
    match Spend(cfg, s.epochs, call.nullifiers)
    case Err(e) => Err(e)
    case Ok(epochs) =>
      if !cfg.verify(call) then Err(InvalidProof)
      else if |s.leaves| + |call.outputs| > Pow2(cfg.depth) then Err(TreeFull)
      else Ok(s.(leaves := s.leaves + call.outputs, epochs := epochs))
  }

  /** The effect of one call; an error means the call is rolled back. */
  function Next(cfg: Config, s: Ledger, call: Call): (r: Result<Ledger>)
    requires s.epochs != []
    ensures r.Ok? ==> r.value.epochs != []
  {
    match call
    case Deposit(commitment, amount) =>
      if amount == 0 then Err(ZeroDeposit)
      else if commitment in s.deposits then Err(CommitmentAlreadyExists)
      else if |s.leaves| >= Pow2(cfg.depth) then Err(TreeFull)
      else (
        match Credit(cfg.platform, s.balance, amount)
        case Err(e) => Err(e)
        case Ok(b) => Ok(s.(leaves := s.leaves + [commitment], deposits := s.deposits + {commitment}, balance := b)))
    case Transfer(_, _, nullifiers, outputs) =>
      if |nullifiers| != 2 || |outputs| != 2 then Err(WrongArity)
      else Exchange(cfg, s, call)
    case Withdraw(_, _, nullifiers, outputs, _, exitValue) =>
      if |nullifiers| != 2 || |outputs| != 2 then Err(WrongArity)
      else if exitValue == 0 then Err(ZeroWithdrawal)
      else if exitValue > s.balance then Err(InsufficientPoolBalance)
      else (
        match Exchange(cfg, s, call)
        case Err(e) => Err(e)
        case Ok(t) => Ok(t.(balance := s.balance - exitValue)))
    case FinalizeEpoch(caller, block) =>
      if caller != cfg.governance then Err(Unauthorized)
      else Ok(s.(epochs := Advance(s.epochs, block)))
  }

  // ----- Exactly when a call is accepted -----

  lemma RecordSpends(epochs: seq<Epoch>, x: Hash)
    requires epochs != []
    ensures forall y :: IsSpent(Record(epochs, x), y) <==> IsSpent(epochs, y) || y == x
  {
    var r, last := Record(epochs, x), |epochs| - 1;
    assert x in r[last].nullifiers;
    forall y
      ensures IsSpent(r, y) <==> IsSpent(epochs, y) || y == x
    {
      if IsSpent(epochs, y) {
        var i :| 0 <= i < |epochs| && y in epochs[i].nullifiers;
        assert y in r[i].nullifiers;
      }
    }
  }

  /** Two nullifiers can be spent exactly when they differ, are unspent, and the open epoch has room for both. */
  lemma SpendAcceptedIff(cfg: Config, epochs: seq<Epoch>, n0: Hash, n1: Hash)
    requires epochs != []
    ensures Spend(cfg, epochs, [n0, n1]).Ok? <==>
      n0 != n1 && !IsSpent(epochs, n0) && !IsSpent(epochs, n1) &&
      |epochs[|epochs| - 1].nullifiers| + 2 <= cfg.maxNullifiers
  {
    RecordSpends(epochs, n0);
    assert [n0, n1][1..] == [n1] && [n1][1..] == [];
    var one := Record(epochs, n0);
    assert Spend(cfg, one, [n1]).Ok? <==> !IsSpent(one, n1) && |one[|one| - 1].nullifiers| < cfg.maxNullifiers;
  }

  /** Exactly when a transfer or a withdrawal is accepted. */
  lemma ExchangeAcceptedIff(cfg: Config, s: Ledger, call: Call)
    requires s.epochs != [] && (call.Transfer? || call.Withdraw?)
    ensures Next(cfg, s, call).Ok? <==>
      && |call.nullifiers| == |call.outputs| == 2
      && (call.Withdraw? ==> 0 < call.exitValue <= s.balance)
      && KnownRoot(cfg, s.leaves, call.root)
      && call.nullifiers[0] != call.nullifiers[1]
      && !IsSpent(s.epochs, call.nullifiers[0]) && !IsSpent(s.epochs, call.nullifiers[1])
      && |s.epochs[|s.epochs| - 1].nullifiers| + 2 <= cfg.maxNullifiers
      && cfg.verify(call)
      && |s.leaves| + 2 <= Pow2(cfg.depth)
  {
    if |call.nullifiers| == 2 {
      assert call.nullifiers == [call.nullifiers[0], call.nullifiers[1]];
      SpendAcceptedIff(cfg, s.epochs, call.nullifiers[0], call.nullifiers[1]);
    }
  }

  /** Exactly when a deposit is accepted; only the pallet takes one that overflows 128 bits. */
  lemma DepositAcceptedIff(cfg: Config, s: Ledger, commitment: Hash, amount: nat)
    requires s.epochs != []
    ensures Next(cfg, s, Deposit(commitment, amount)).Ok? <==>
      && amount > 0 && commitment !in s.deposits && |s.leaves| + 1 <= Pow2(cfg.depth)
      && (cfg.platform.Substrate? || s.balance + amount <= 0xFFFF_FFFF_FFFF_FFFF_FFFF_FFFF_FFFF_FFFF)
  {
  }

  /** Only governance finalises, and it always can. */
  lemma FinalizeAcceptedIff(cfg: Config, s: Ledger, caller: string, block: nat)
    requires s.epochs != []
    ensures Next(cfg, s, FinalizeEpoch(caller, block)).Ok? <==> caller == cfg.governance
  {
  }

  lemma SpendErrorIsTrue(cfg: Config, epochs: seq<Epoch>, n0: Hash, n1: Hash)
    requires epochs != [] && Spend(cfg, epochs, [n0, n1]).Err?
    ensures match Spend(cfg, epochs, [n0, n1]).error
      case NullifierAlreadySpent => n0 == n1 || IsSpent(epochs, n0) || IsSpent(epochs, n1)
      case EpochNullifierOverflow => |epochs[|epochs| - 1].nullifiers| + 2 > cfg.maxNullifiers
      case _ => false
  {
    RecordSpends(epochs, n0);
    assert [n0, n1][1..] == [n1] && [n1][1..] == [];
    var one := Record(epochs, n0);
    assert Spend(cfg, one, [n1]).Ok? <==> !IsSpent(one, n1) && |one[|one| - 1].nullifiers| < cfg.maxNullifiers;
  }

  /** The reason a call is given for its refusal is true of the state it met. */
  lemma ErrorsAreTrue(cfg: Config, s: Ledger, call: Call)
    requires s.epochs != [] && Next(cfg, s, call).Err?
    ensures match Next(cfg, s, call).error
      case WrongArity => (call.Transfer? || call.Withdraw?) && (|call.nullifiers| != 2 || |call.outputs| != 2)
      case ZeroDeposit => call.Deposit? && call.amount == 0
      case CommitmentAlreadyExists => call.Deposit? && call.commitment in s.deposits
      case TreeFull => |s.leaves| + (if call.Deposit? then 1 else 2) > Pow2(cfg.depth)
      case BalanceOverflow => call.Deposit? && !cfg.platform.Substrate? && s.balance + call.amount > MAX_U128
      case ZeroWithdrawal => call.Withdraw? && call.exitValue == 0
      case InsufficientPoolBalance => call.Withdraw? && call.exitValue > s.balance
      case UnknownMerkleRoot => (call.Transfer? || call.Withdraw?) && !KnownRoot(cfg, s.leaves, call.root)
      case NullifierAlreadySpent =>
        && (call.Transfer? || call.Withdraw?) && |call.nullifiers| == 2
        && (call.nullifiers[0] == call.nullifiers[1] || IsSpent(s.epochs, call.nullifiers[0]) || IsSpent(s.epochs, call.nullifiers[1]))
      case EpochNullifierOverflow => |s.epochs[|s.epochs| - 1].nullifiers| + 2 > cfg.maxNullifiers
      case InvalidProof => (call.Transfer? || call.Withdraw?) && !cfg.verify(call)
      case Unauthorized => call.FinalizeEpoch? && call.caller != cfg.governance
      case _ => false
  {
    if (call.Transfer? || call.Withdraw?) && |call.nullifiers| == 2 {
      var n0, n1 := call.nullifiers[0], call.nullifiers[1];
      assert call.nullifiers == [n0, n1];
      if Spend(cfg, s.epochs, call.nullifiers).Err? {
        SpendErrorIsTrue(cfg, s.epochs, n0, n1);
      }
    }
  }

  // ----- Runs -----

  function After(cfg: Config, s: Ledger, call: Call): (t: Ledger)
    requires s.epochs != []
    ensures t.epochs != []
  {
    match Next(cfg, s, call)
    case Ok(t) => t
    case Err(_) => s
  }

  function Replay(cfg: Config, s: Ledger, calls: seq<Call>): (t: Ledger)
    requires s.epochs != []
    ensures t.epochs != []
    decreases |calls|
  {
    if calls == [] then s else Replay(cfg, After(cfg, s, calls[0]), calls[1..])
  }

  /** The calls of the run that were accepted, in order. */
  function Accepted(cfg: Config, s: Ledger, calls: seq<Call>): seq<Call>
    requires s.epochs != []
    decreases |calls|
  {
    if calls == [] then []
    else
      (if Next(cfg, s, calls[0]).Ok? then [calls[0]] else [])
      + Accepted(cfg, After(cfg, s, calls[0]), calls[1..])
  }

  function LeavesOf(call: Call): seq<Hash> {
    match call
    case Deposit(c, _) => [c]
    case FinalizeEpoch(_, _) => []
    case _ => call.outputs
  }

  function NullifiersOf(call: Call): seq<Hash> {
    if call.Transfer? || call.Withdraw? then call.nullifiers else []
  }

  function InsertedBy(calls: seq<Call>): seq<Hash> {
    if calls == [] then [] else LeavesOf(calls[0]) + InsertedBy(calls[1..])
  }

  function SpentBy(calls: seq<Call>): seq<Hash> {
    if calls == [] then [] else NullifiersOf(calls[0]) + SpentBy(calls[1..])
  }

  function DepositedBy(calls: seq<Call>): nat {
    if calls == [] then 0 else (if calls[0].Deposit? then calls[0].amount else 0) + DepositedBy(calls[1..])
  }

  function WithdrawnBy(calls: seq<Call>): nat {
    if calls == [] then 0 else (if calls[0].Withdraw? then calls[0].exitValue else 0) + WithdrawnBy(calls[1..])
  }

  /** All epoch lists, oldest epoch first. */
  function AllNullifiers(epochs: seq<Epoch>): seq<Hash> {
    if epochs == [] then [] else AllNullifiers(epochs[..|epochs| - 1]) + epochs[|epochs| - 1].nullifiers
  }

  // ----- Invariant of every reachable ledger -----

  /** Only the last epoch is open, no list is over the bound, and no nullifier is listed twice. */
  ghost predicate EpochsSound(cfg: Config, epochs: seq<Epoch>) {
    && epochs != []
    && Distinct(AllNullifiers(epochs))
    && (forall i :: 0 <= i < |epochs| ==> |epochs[i].nullifiers| <= cfg.maxNullifiers)
    && (forall i :: 0 <= i < |epochs| ==> (epochs[i].end.Some? <==> i < |epochs| - 1))
  }

  ghost predicate Sound(cfg: Config, s: Ledger) {
    |s.leaves| <= Pow2(cfg.depth) && s.balance <= MAX_U128 && EpochsSound(cfg, s.epochs)
  }

  lemma SpentSplit(epochs: seq<Epoch>, x: Hash)
    requires epochs != []
    ensures IsSpent(epochs, x) <==> IsSpent(epochs[..|epochs| - 1], x) || x in epochs[|epochs| - 1].nullifiers
  {
    var front := epochs[..|epochs| - 1];
    if i :| 0 <= i < |front| && x in front[i].nullifiers {
      assert x in epochs[i].nullifiers;
    }
    if i :| 0 <= i < |epochs| && x in epochs[i].nullifiers {
      assert i < |front| ==> x in front[i].nullifiers;
    }
  }

  lemma {:induction false} SpentIsListed(epochs: seq<Epoch>, x: Hash)
    ensures IsSpent(epochs, x) <==> x in AllNullifiers(epochs)
  {
    if epochs != [] {
      SpentSplit(epochs, x);
      SpentIsListed(epochs[..|epochs| - 1], x);
    }
  }

  /** Adding `more` to the last list adds it at the end of all lists. */
  lemma AllNullifiersExtend(a: seq<Epoch>, b: seq<Epoch>, more: seq<Hash>)
    requires |a| == |b| > 0 && a[..|a| - 1] == b[..|b| - 1]
    requires b[|b| - 1].nullifiers == a[|a| - 1].nullifiers + more
    ensures AllNullifiers(b) == AllNullifiers(a) + more
  {
  }

  lemma TakeHead(a: seq<Hash>, b: seq<Hash>)
    requires b != []
    ensures a + [b[0]] + b[1..] == a + b
  {
  }

  /** Spending appends to the open epoch's list only, and keeps all listed nullifiers distinct. */
  lemma {:induction false} SpendKeeps(cfg: Config, epochs: seq<Epoch>, nullifiers: seq<Hash>)
    requires epochs != [] && Distinct(AllNullifiers(epochs))
    requires |epochs[|epochs| - 1].nullifiers| <= cfg.maxNullifiers
    requires Spend(cfg, epochs, nullifiers).Ok?
    ensures var r, last := Spend(cfg, epochs, nullifiers).value, |epochs| - 1;
      && r == epochs[last := epochs[last].(nullifiers := epochs[last].nullifiers + nullifiers)]
      && |r[last].nullifiers| <= cfg.maxNullifiers
      && AllNullifiers(r) == AllNullifiers(epochs) + nullifiers
      && Distinct(AllNullifiers(r))
    decreases |nullifiers|
  {
    var last := epochs[|epochs| - 1];
    if nullifiers == [] {
      assert last.nullifiers + [] == last.nullifiers && AllNullifiers(epochs) + [] == AllNullifiers(epochs);
    } else {
      RecordKeeps(epochs, nullifiers[0]);
      SpendKeeps(cfg, Record(epochs, nullifiers[0]), nullifiers[1..]);
      RecordThen(epochs, nullifiers);
      TakeHead(AllNullifiers(epochs), nullifiers);
    }
  }

  lemma RecordKeeps(epochs: seq<Epoch>, x: Hash)
    requires epochs != [] && Distinct(AllNullifiers(epochs)) && !IsSpent(epochs, x)
    ensures AllNullifiers(Record(epochs, x)) == AllNullifiers(epochs) + [x] && Distinct(AllNullifiers(Record(epochs, x)))
  {
    SpentIsListed(epochs, x);
    AllNullifiersExtend(epochs, Record(epochs, x), [x]);
  }

  /** Recording the first nullifier and then the others is recording all. */
  lemma RecordThen(epochs: seq<Epoch>, nullifiers: seq<Hash>)
    requires epochs != [] && nullifiers != []
    ensures var last := |epochs| - 1;
      var one := Record(epochs, nullifiers[0]);
      one[last := one[last].(nullifiers := one[last].nullifiers + nullifiers[1..])]
      == epochs[last := epochs[last].(nullifiers := epochs[last].nullifiers + nullifiers)]
  {
    TakeHead(epochs[|epochs| - 1].nullifiers, nullifiers);
  }

  lemma AdvanceKeeps(cfg: Config, epochs: seq<Epoch>, block: nat)
    requires EpochsSound(cfg, epochs)
    ensures AllNullifiers(Advance(epochs, block)) == AllNullifiers(epochs)
    ensures EpochsSound(cfg, Advance(epochs, block))
  {
    var after, n := Advance(epochs, block), |epochs|;
    AllNullifiersExtend(epochs, after[..n], []);
    assert AllNullifiers(after) == AllNullifiers(after[..n]) + [];
  }

  lemma SpendKeepsEpochs(cfg: Config, epochs: seq<Epoch>, nullifiers: seq<Hash>)
    requires EpochsSound(cfg, epochs) && Spend(cfg, epochs, nullifiers).Ok?
    ensures AllNullifiers(Spend(cfg, epochs, nullifiers).value) == AllNullifiers(epochs) + nullifiers
    ensures EpochsSound(cfg, Spend(cfg, epochs, nullifiers).value)
  {
    SpendKeeps(cfg, epochs, nullifiers);
  }

  /** What an accepted call does to the leaves and to the lists, and that it keeps the invariant. */
  lemma StepTrace(cfg: Config, s: Ledger, call: Call)
    requires Sound(cfg, s) && Next(cfg, s, call).Ok?
    ensures Sound(cfg, After(cfg, s, call))
    ensures After(cfg, s, call).leaves == s.leaves + LeavesOf(call)
    ensures AllNullifiers(After(cfg, s, call).epochs) == AllNullifiers(s.epochs) + NullifiersOf(call)
  {
    match call
    case Deposit(_, _) =>
    case FinalizeEpoch(_, block) =>
      AdvanceKeeps(cfg, s.epochs, block);
    case _ =>
      SpendKeepsEpochs(cfg, s.epochs, call.nullifiers);
  }

  lemma Pair(s: seq<Hash>)
    requires |s| == 2
    ensures s == [s[0], s[1]]
  {
  }

  /** The ledger after an accepted call, field by field: everything that is not named is as it was. */
  lemma CallEffect(cfg: Config, s: Ledger, call: Call)
    requires Sound(cfg, s) && Next(cfg, s, call).Ok?
    ensures var t, e, last := After(cfg, s, call), s.epochs, |s.epochs| - 1;
      match call
      case Deposit(c, amount) =>
        && t.leaves == s.leaves + [c] && t.deposits == s.deposits + {c} && t.epochs == e
        && t.balance == (if s.balance + amount > MAX_U128 then MAX_U128 else s.balance + amount)
      case FinalizeEpoch(_, block) =>
        && t == s.(epochs := t.epochs)
        && t.epochs == e[..last] + [Epoch(e[last].start, e[last].nullifiers, Some(block)), Epoch(block, [], None)]
      case _ =>
        && |call.nullifiers| == |call.outputs| == 2
        && t.leaves == s.leaves + [call.outputs[0], call.outputs[1]] && t.deposits == s.deposits
        && t.epochs == e[..last] + [Epoch(e[last].start, e[last].nullifiers + [call.nullifiers[0], call.nullifiers[1]], None)]
    ensures call.Transfer? ==> After(cfg, s, call).balance == s.balance
    ensures call.Withdraw? ==> After(cfg, s, call).balance == s.balance - call.exitValue
  {
    if call.Transfer? || call.Withdraw? {
      SpendKeeps(cfg, s.epochs, call.nullifiers);
      Pair(call.nullifiers);
      Pair(call.outputs);
    }
  }

  lemma StepKeepsSound(cfg: Config, s: Ledger, call: Call)
    requires Sound(cfg, s)
    ensures Sound(cfg, After(cfg, s, call))
  {
    if Next(cfg, s, call).Ok? {
      StepTrace(cfg, s, call);
    }
  }

  /** In every reachable ledger the nullifier lists partition the spent set, within the epoch bound. */
  lemma {:induction false} RunKeepsSound(cfg: Config, s: Ledger, calls: seq<Call>)
    requires Sound(cfg, s)
    ensures Sound(cfg, Replay(cfg, s, calls))
    decreases |calls|
  {
    if calls != [] {
      StepKeepsSound(cfg, s, calls[0]);
      RunKeepsSound(cfg, After(cfg, s, calls[0]), calls[1..]);
    }
  }

  // ----- What a run has inserted and spent, in order -----

  /** The tree holds exactly the leaves, and the epochs exactly the nullifiers, of the accepted calls, in order. */
  lemma {:induction false} RunTrace(cfg: Config, s: Ledger, calls: seq<Call>)
    requires Sound(cfg, s)
    ensures var t, a := Replay(cfg, s, calls), Accepted(cfg, s, calls);
      && t.leaves == s.leaves + InsertedBy(a)
      && AllNullifiers(t.epochs) == AllNullifiers(s.epochs) + SpentBy(a)
    decreases |calls|
  {
    if calls != [] {
      var t := After(cfg, s, calls[0]);
      StepKeepsSound(cfg, s, calls[0]);
      RunTrace(cfg, t, calls[1..]);
      var rest := Accepted(cfg, t, calls[1..]);
      if Next(cfg, s, calls[0]).Ok? {
        StepTrace(cfg, s, calls[0]);
        TraceCons(calls[0], rest, s.leaves, AllNullifiers(s.epochs));
      } else {
        assert [] + rest == rest;
      }
    }
  }

  lemma TraceCons(call: Call, rest: seq<Call>, leaves: seq<Hash>, nullifiers: seq<Hash>)
    ensures leaves + InsertedBy([call] + rest) == leaves + LeavesOf(call) + InsertedBy(rest)
    ensures nullifiers + SpentBy([call] + rest) == nullifiers + NullifiersOf(call) + SpentBy(rest)
  {
    assert ([call] + rest)[1..] == rest;
  }

  /** The commitments of the deposits of a run, in order. */
  function DepositsOf(calls: seq<Call>): seq<Hash> {
    if calls == [] then [] else (if calls[0].Deposit? then [calls[0].commitment] else []) + DepositsOf(calls[1..])
  }

  lemma AddsFreshFirst(before: set<Hash>, c: Hash, list: seq<Hash>, after: set<Hash>)
    requires c !in before && AddsFresh(before + {c}, list, after)
    ensures AddsFresh(before, [c] + list, after)
  {
    var all := [c] + list;
    assert forall i :: 0 < i < |all| ==> all[i] == list[i - 1] && all[i] in list;
    assert all[0] == c;
  }

  lemma StepDeposits(cfg: Config, s: Ledger, call: Call)
    requires s.epochs != []
    ensures var t := After(cfg, s, call).deposits;
      if Next(cfg, s, call).Ok? && call.Deposit? then call.commitment !in s.deposits && t == s.deposits + {call.commitment}
      else t == s.deposits
  {
  }

  /** No run deposits a commitment twice, nor one deposited before it; the commitment set is all of them. */
  lemma {:induction false} NoDoubleDeposit(cfg: Config, s: Ledger, calls: seq<Call>)
    requires s.epochs != []
    ensures AddsFresh(s.deposits, DepositsOf(Accepted(cfg, s, calls)), Replay(cfg, s, calls).deposits)
    decreases |calls|
  {
    if calls != [] {
      var t := After(cfg, s, calls[0]);
      var rest := Accepted(cfg, t, calls[1..]);
      NoDoubleDeposit(cfg, t, calls[1..]);
      StepDeposits(cfg, s, calls[0]);
      DepositsCons(calls[0], rest);
      if Next(cfg, s, calls[0]).Ok? && calls[0].Deposit? {
        AddsFreshFirst(s.deposits, calls[0].commitment, DepositsOf(rest), Replay(cfg, s, calls).deposits);
      }
    }
  }

  /** From a fresh pool: the accepted deposits have pairwise distinct commitments, and the set holds exactly those. */
  lemma DepositsFromFresh(cfg: Config, block: nat, calls: seq<Call>)
    ensures var deposited := DepositsOf(Accepted(cfg, Initial(block), calls));
      Distinct(deposited) && forall x :: x in Replay(cfg, Initial(block), calls).deposits <==> x in deposited
  {
    NoDoubleDeposit(cfg, Initial(block), calls);
  }

  lemma DepositsCons(call: Call, rest: seq<Call>)
    ensures DepositsOf([call] + rest) == (if call.Deposit? then [call.commitment] else []) + DepositsOf(rest)
    ensures [] + rest == rest && [] + DepositsOf(rest) == DepositsOf(rest)
  {
    assert ([call] + rest)[1..] == rest;
  }

  // ----- Each nullifier belongs to one epoch -----

  /** Where entry `a` of epoch `i` stands among all nullifiers. */
  lemma {:induction false} PlaceOf(epochs: seq<Epoch>, i: nat, a: nat)
    requires i < |epochs| && a < |epochs[i].nullifiers|
    ensures var p := |AllNullifiers(epochs[..i])| + a;
      p < |AllNullifiers(epochs[..i + 1])| <= |AllNullifiers(epochs)| && AllNullifiers(epochs)[p] == epochs[i].nullifiers[a]
    decreases |epochs|
  {
    var front := epochs[..|epochs| - 1];
    if i < |front| {
      PlaceOf(front, i, a);
      assert front[..i] == epochs[..i] && front[..i + 1] == epochs[..i + 1];
    } else {
      assert epochs[..i + 1] == epochs;
    }
  }

  lemma {:induction false} PlacesGrow(epochs: seq<Epoch>, i: nat, j: nat)
    requires i <= j <= |epochs|
    ensures |AllNullifiers(epochs[..i])| <= |AllNullifiers(epochs[..j])|
    decreases j
  {
    if i < j {
      PlacesGrow(epochs, i, j - 1);
      assert epochs[..j][..j - 1] == epochs[..j - 1];
    }
  }

  /** No nullifier stands at two places, be it in one epoch list or in two. */
  lemma EachInOneEpoch(cfg: Config, s: Ledger, i: nat, a: nat, j: nat, b: nat)
    requires Sound(cfg, s)
    requires i < |s.epochs| && a < |s.epochs[i].nullifiers|
    requires j < |s.epochs| && b < |s.epochs[j].nullifiers|
    requires s.epochs[i].nullifiers[a] == s.epochs[j].nullifiers[b]
    ensures i == j && a == b
  {
    PlaceOf(s.epochs, i, a);
    PlaceOf(s.epochs, j, b);
    if i < j {
      PlacesGrow(s.epochs, i + 1, j);
    } else if j < i {
      PlacesGrow(s.epochs, j + 1, i);
    }
  }

  /** No run from a fresh pool spends a nullifier twice. */
  lemma NoDoubleSpend(cfg: Config, block: nat, calls: seq<Call>)
    ensures Distinct(SpentBy(Accepted(cfg, Initial(block), calls)))
  {
    var s := Initial(block);
    RunKeepsSound(cfg, s, calls);
    RunTrace(cfg, s, calls);
    assert AllNullifiers(s.epochs) == [];
    assert [] + SpentBy(Accepted(cfg, s, calls)) == SpentBy(Accepted(cfg, s, calls));
  }

  // ----- Finalised epochs -----

  /** `later` keeps all closed epochs of `now`, and its open one up to growth. */
  ghost predicate Continues(now: seq<Epoch>, later: seq<Epoch>)
    requires now != []
  {
    var last := |now| - 1;
    && |now| <= |later|
    && now[..last] == later[..last]
    && now[last].nullifiers <= later[last].nullifiers
    && now[last].start == later[last].start
  }

  lemma StepContinues(cfg: Config, s: Ledger, call: Call)
    requires Sound(cfg, s)
    ensures Continues(s.epochs, After(cfg, s, call).epochs)
  {
    if Next(cfg, s, call).Ok? && (call.Transfer? || call.Withdraw?) {
      SpendKeeps(cfg, s.epochs, call.nullifiers);
    }
  }

  lemma ContinuesTransitive(a: seq<Epoch>, b: seq<Epoch>, c: seq<Epoch>)
    requires a != [] && b != [] && Continues(a, b) && Continues(b, c)
    ensures Continues(a, c)
  {
    var last := |a| - 1;
    assert c[..last] == c[..|b| - 1][..last];
    assert last < |b| - 1 ==> c[last] == c[..|b| - 1][last];
  }

  /** Finalised epochs never change; the open one only grows, and keeps its start. */
  lemma {:induction false} FinalisedEpochsAreFrozen(cfg: Config, s: Ledger, calls: seq<Call>)
    requires Sound(cfg, s)
    ensures Continues(s.epochs, Replay(cfg, s, calls).epochs)
    decreases |calls|
  {
    if calls != [] {
      var t := After(cfg, s, calls[0]);
      StepKeepsSound(cfg, s, calls[0]);
      StepContinues(cfg, s, calls[0]);
      FinalisedEpochsAreFrozen(cfg, t, calls[1..]);
      ContinuesTransitive(s.epochs, t.epochs, Replay(cfg, s, calls).epochs);
    }
  }

  /** The blocks at which a run finalises. */
  function Closings(calls: seq<Call>): seq<nat> {
    if calls == [] then [] else (if calls[0].FinalizeEpoch? then [calls[0].block] else []) + Closings(calls[1..])
  }

  /** The nullifiers spent after `i` finalisations and before the next. */
  function SpentBetween(calls: seq<Call>, i: nat): seq<Hash> {
    if calls == [] then []
    else if calls[0].FinalizeEpoch? then (if i == 0 then [] else SpentBetween(calls[1..], i - 1))
    else (if i == 0 then NullifiersOf(calls[0]) else []) + SpentBetween(calls[1..], i)
  }

  lemma EpochsCons(call: Call, rest: seq<Call>, i: nat)
    ensures Closings([call] + rest) == (if call.FinalizeEpoch? then [call.block] else []) + Closings(rest)
    ensures SpentBetween([call] + rest, i) ==
      if call.FinalizeEpoch? then (if i == 0 then [] else SpentBetween(rest, i - 1))
      else (if i == 0 then NullifiersOf(call) else []) + SpentBetween(rest, i)
  {
    assert ([call] + rest)[1..] == rest;
  }

  /** Epoch `i` after the open epoch `open`, with the finalisations `closings` and the nullifiers `spent` of its span. */
  predicate SpansRun(e: Epoch, open: Epoch, closings: seq<nat>, i: nat, spent: seq<Hash>)
    requires i <= |closings|
  {
    && e.start == (if i == 0 then open.start else closings[i - 1])
    && e.end == (if i < |closings| then Some(closings[i]) else None)
    && e.nullifiers == (if i == 0 then open.nullifiers else []) + spent
  }

  /** From epochs `e`, the accepted calls `a` lead to `t`, as far as epoch `i` after the open one goes. */
  ghost predicate RunSpans(e: seq<Epoch>, t: seq<Epoch>, a: seq<Call>, i: nat)
    requires e != []
  {
    && |t| == |e| + |Closings(a)|
    && (i <= |Closings(a)| ==> SpansRun(t[|e| - 1 + i], e[|e| - 1], Closings(a), i, SpentBetween(a, i)))
  }

  /** What an accepted call does to the open epoch. */
  predicate Moves(e: seq<Epoch>, t: seq<Epoch>, call: Call)
    requires e != []
  {
    var last := |e| - 1;
    if call.FinalizeEpoch?
    then |t| == |e| + 1 && t[last] == Epoch(e[last].start, e[last].nullifiers, Some(call.block)) && t[last + 1] == Epoch(call.block, [], None)
    else |t| == |e| && t[last] == Epoch(e[last].start, e[last].nullifiers + NullifiersOf(call), None)
  }

  lemma StepEpochs(cfg: Config, s: Ledger, call: Call)
    requires Sound(cfg, s) && Next(cfg, s, call).Ok?
    ensures Moves(s.epochs, After(cfg, s, call).epochs, call)
  {
    if call.Transfer? || call.Withdraw? {
      SpendKeeps(cfg, s.epochs, call.nullifiers);
    }
  }

  lemma SpansAfterSpend(e: seq<Epoch>, u: seq<Epoch>, t: seq<Epoch>, call: Call, rest: seq<Call>, i: nat)
    requires e != [] && u != [] && Moves(e, u, call) && !call.FinalizeEpoch? && RunSpans(u, t, rest, i)
    ensures RunSpans(e, t, [call] + rest, i)
  {
    EpochsCons(call, rest, i);
    SpendSpan(t, e, u, Closings(rest), NullifiersOf(call), i, SpentBetween(rest, i));
  }

  lemma SpansAfterFinalise(e: seq<Epoch>, u: seq<Epoch>, t: seq<Epoch>, call: Call, rest: seq<Call>, i: nat)
    requires e != [] && u != [] && Moves(e, u, call) && call.FinalizeEpoch? && Continues(u, t)
    requires RunSpans(u, t, rest, if i > 0 then i - 1 else 0)
    ensures RunSpans(e, t, [call] + rest, i)
  {
    EpochsCons(call, rest, i);
    FinaliseSpan(t, e, u, Closings(rest), call.block, i, SpentBetween(rest, if i > 0 then i - 1 else 0));
  }

  /**
   The epochs of a run: one more for each finalisation, starting and ending at their blocks, and each
   listing exactly the nullifiers of the calls accepted in its span, in order.
   */
  lemma {:induction false} EpochsOfRun(cfg: Config, s: Ledger, calls: seq<Call>, i: nat)
    requires Sound(cfg, s)
    ensures RunSpans(s.epochs, Replay(cfg, s, calls).epochs, Accepted(cfg, s, calls), i)
    decreases |calls|
  {
    if calls == [] {
      assert s.epochs[|s.epochs| - 1].nullifiers + [] == s.epochs[|s.epochs| - 1].nullifiers;
    } else {
      var call, u := calls[0], After(cfg, s, calls[0]);
      var rest := Accepted(cfg, u, calls[1..]);
      StepKeepsSound(cfg, s, call);
      if Next(cfg, s, call).Err? {
        EpochsOfRun(cfg, u, calls[1..], i);
        assert [] + rest == rest;
      } else {
        var t := Replay(cfg, s, calls).epochs;
        StepEpochs(cfg, s, call);
        if call.FinalizeEpoch? {
          EpochsOfRun(cfg, u, calls[1..], if i > 0 then i - 1 else 0);
          FinalisedEpochsAreFrozen(cfg, u, calls[1..]);
          SpansAfterFinalise(s.epochs, u.epochs, t, call, rest, i);
        } else {
          EpochsOfRun(cfg, u, calls[1..], i);
          SpansAfterSpend(s.epochs, u.epochs, t, call, rest, i);
        }
      }
    }
  }

  lemma SpendSpan(t: seq<Epoch>, e: seq<Epoch>, u: seq<Epoch>, rest: seq<nat>, now: seq<Hash>, i: nat, spent: seq<Hash>)
    requires e != [] && |u| == |e| && |t| == |u| + |rest|
    requires u[|e| - 1] == Epoch(e[|e| - 1].start, e[|e| - 1].nullifiers + now, None)
    requires i <= |rest| ==> SpansRun(t[|e| - 1 + i], u[|e| - 1], rest, i, spent)
    ensures [] + rest == rest
    ensures i <= |rest| ==> SpansRun(t[|e| - 1 + i], e[|e| - 1], rest, i, (if i == 0 then now else []) + spent)
  {
    var before := e[|e| - 1].nullifiers;
    assert before + (now + spent) == before + now + spent && [] + ([] + spent) == [] + spent;
  }

  lemma FinaliseSpan(t: seq<Epoch>, e: seq<Epoch>, u: seq<Epoch>, rest: seq<nat>, block: nat, i: nat, spent: seq<Hash>)
    requires e != [] && |u| == |e| + 1 && |t| == |u| + |rest| && Continues(u, t)
    requires u[|e| - 1] == Epoch(e[|e| - 1].start, e[|e| - 1].nullifiers, Some(block)) && u[|e|] == Epoch(block, [], None)
    requires 0 < i <= |rest| + 1 ==> SpansRun(t[|e| + i - 1], u[|e|], rest, i - 1, spent)
    ensures i <= |rest| + 1 ==> SpansRun(t[|e| - 1 + i], e[|e| - 1], [block] + rest, i, if i == 0 then [] else spent)
  {
    if i == 0 {
      assert t[|e| - 1] == t[..|e|][|e| - 1] == u[..|e|][|e| - 1];
    }
  }

  /** From a fresh pool, then, epoch `i` spans from finalisation `i - 1` to finalisation `i`. */
  lemma EpochsFromFresh(cfg: Config, block: nat, calls: seq<Call>, i: nat)
    ensures var t, a := Replay(cfg, Initial(block), calls), Accepted(cfg, Initial(block), calls);
      var closings := Closings(a);
      && |t.epochs| == 1 + |closings|
      && (i <= |closings| ==>
            && t.epochs[i].start == (if i == 0 then block else closings[i - 1])
            && t.epochs[i].end == (if i < |closings| then Some(closings[i]) else None)
            && t.epochs[i].nullifiers == SpentBetween(a, i))
  {
    InitialIsSound(cfg, block);
    EpochsOfRun(cfg, Initial(block), calls, i);
    var a := Accepted(cfg, Initial(block), calls);
    if i <= |Closings(a)| {
      FreshSpan(Replay(cfg, Initial(block), calls).epochs[i], block, Closings(a), i, SpentBetween(a, i));
    }
  }

  lemma InitialIsSound(cfg: Config, block: nat)
    ensures Sound(cfg, Initial(block))
  {
    assert AllNullifiers(Initial(block).epochs) == [];
  }

  lemma FreshSpan(e: Epoch, block: nat, closings: seq<nat>, i: nat, spent: seq<Hash>)
    requires i <= |closings| && SpansRun(e, Epoch(block, [], None), closings, i, spent)
    ensures e.start == (if i == 0 then block else closings[i - 1])
    ensures e.end == (if i < |closings| then Some(closings[i]) else None) && e.nullifiers == spent
  {
  }

  /** The linear hash of a nullifier list: zero for none, else a left fold. */
  function NullifierRoot(h: HashFn, list: seq<Hash>): Hash {
    if list == [] then ZERO
    else if |list| == 1 then list[0]
    else h(NullifierRoot(h, list[..|list| - 1]), list[|list| - 1])
  }

  /** Zero for no nullifier, a single one itself, and each further one hashed on the right. */
  lemma NullifierRootValues(h: HashFn, x: Hash, list: seq<Hash>)
    ensures NullifierRoot(h, []) == ZERO && NullifierRoot(h, [x]) == x
    ensures list != [] ==> NullifierRoot(h, list + [x]) == h(NullifierRoot(h, list), x)
  {
    assert (list + [x])[..|list|] == list;
  }

  /** The shortest equal-length prefixes of the two lists that meet in one digest. */
  function ListClash(h: HashFn, a: seq<Hash>, b: seq<Hash>): Clash
    requires |a| == |b| > 0
    decreases |a|
  {
    var n := |a| - 1;
    if n == 0 then Clash(a[0], a[0], b[0], b[0])
    else
      var x, y := NullifierRoot(h, a[..n]), NullifierRoot(h, b[..n]);
      if (x, a[n]) != (y, b[n]) then Clash(x, a[n], y, b[n]) else ListClash(h, a[..n], b[..n])
  }

  /** Root and count of a finalised epoch determine its ordered list, up to a collision that is exhibited. */
  lemma {:induction false} NullifierRootBinds(h: HashFn, a: seq<Hash>, b: seq<Hash>)
    requires |a| == |b| > 0 && NullifierRoot(h, a) == NullifierRoot(h, b)
    ensures a == b || IsCollision(h, ListClash(h, a, b))
    ensures CollisionFree(h) ==> a == b
    decreases |a|
  {
    var n := |a| - 1;
    if n > 0 {
      if (NullifierRoot(h, a[..n]), a[n]) == (NullifierRoot(h, b[..n]), b[n]) {
        NullifierRootBinds(h, a[..n], b[..n]);
        SameFrontAndLast(a, b);
      }
    }
  }

  lemma SameFrontAndLast(a: seq<Hash>, b: seq<Hash>)
    requires |a| == |b| > 0 && a[|a| - 1] == b[|b| - 1]
    ensures a == b <==> a[..|a| - 1] == b[..|b| - 1]
  {
    assert a == a[..|a| - 1] + [a[|a| - 1]] && b == b[..|b| - 1] + [b[|b| - 1]];
  }

  /** The count is needed: without it, folding the first two nullifiers gives another list with the same root. */
  lemma NullifierRootNeedsCount(h: HashFn, x: Hash, y: Hash, z: Hash)
    ensures NullifierRoot(h, [x, y, z]) == NullifierRoot(h, [h(x, y), z])
    ensures [x, y, z] != [h(x, y), z]
  {
    assert [x, y, z][..2] == [x, y] && [x, y][..1] == [x] && [h(x, y), z][..1] == [h(x, y)];
    assert NullifierRoot(h, [x, y]) == h(x, y);
    assert |[x, y, z]| == 3 && |[h(x, y), z]| == 2;
  }

  // ----- Balance -----

  /** No accepted deposit of the run would carry the balance past 128 bits. */
  predicate NeverSaturates(cfg: Config, s: Ledger, calls: seq<Call>)
    requires s.epochs != []
    decreases |calls|
  {
    calls == [] ||
    ((Next(cfg, s, calls[0]).Ok? && calls[0].Deposit? ==> s.balance + calls[0].amount <= MAX_U128)
     && NeverSaturates(cfg, After(cfg, s, calls[0]), calls[1..]))
  }

  /** The balance never exceeds deposits minus withdrawals, and equals it exactly when no deposit saturated. */
  lemma {:induction false} Conservation(cfg: Config, s: Ledger, calls: seq<Call>)
    requires Sound(cfg, s)
    ensures var t, a := Replay(cfg, s, calls), Accepted(cfg, s, calls);
      && t.balance + WithdrawnBy(a) <= s.balance + DepositedBy(a)
      && (t.balance + WithdrawnBy(a) == s.balance + DepositedBy(a) <==> NeverSaturates(cfg, s, calls))
    ensures !cfg.platform.Substrate? ==> NeverSaturates(cfg, s, calls)
    decreases |calls|
  {
    if calls != [] {
      var t := After(cfg, s, calls[0]);
      StepKeepsSound(cfg, s, calls[0]);
      Conservation(cfg, t, calls[1..]);
      StepBalance(cfg, s, calls[0]);
      BalanceCons(calls[0], Accepted(cfg, t, calls[1..]));
    }
  }

  /** From a fresh pool that aborts on overflow, the balance is what was deposited less what was withdrawn. */
  lemma BalanceFromFresh(cfg: Config, block: nat, calls: seq<Call>)
    requires !cfg.platform.Substrate?
    ensures var a := Accepted(cfg, Initial(block), calls);
      Replay(cfg, Initial(block), calls).balance == DepositedBy(a) - WithdrawnBy(a)
  {
    InitialIsSound(cfg, block);
    Conservation(cfg, Initial(block), calls);
  }

  /** An accepted deposit credits its amount exactly when it does not saturate; a withdrawal debits its value. */
  lemma StepBalance(cfg: Config, s: Ledger, call: Call)
    requires Sound(cfg, s)
    ensures var b := After(cfg, s, call).balance;
      if Next(cfg, s, call).Err? then b == s.balance
      else match call
        case Deposit(_, amount) =>
          && b <= s.balance + amount && (b == s.balance + amount <==> s.balance + amount <= MAX_U128)
          && (!cfg.platform.Substrate? ==> b == s.balance + amount)
        case Withdraw(_, _, _, _, _, exitValue) => b + exitValue == s.balance
        case _ => b == s.balance
  {
  }

  lemma BalanceCons(call: Call, rest: seq<Call>)
    ensures DepositedBy([call] + rest) == (if call.Deposit? then call.amount else 0) + DepositedBy(rest)
    ensures WithdrawnBy([call] + rest) == (if call.Withdraw? then call.exitValue else 0) + WithdrawnBy(rest)
    ensures [] + rest == rest
  {
    assert ([call] + rest)[1..] == rest;
  }

  /** The pallet can saturate: after deposits of the maximum and of one more, the one is not in the balance. */
  lemma SaturationLosesValue(cfg: Config, block: nat, a: Hash, b: Hash)
    requires cfg.platform.Substrate? && cfg.depth > 0 && a != b
    ensures var s, calls := Initial(block), [Deposit(a, MAX_U128), Deposit(b, 1)];
      && Accepted(cfg, s, calls) == calls
      && !NeverSaturates(cfg, s, calls)
      && Replay(cfg, s, calls).balance == DepositedBy(calls) - 1
  {
    var s, first, second := Initial(block), Deposit(a, MAX_U128), Deposit(b, 1);
    var t := After(cfg, s, first);
    assert Pow2(cfg.depth) >= 2;
    assert Next(cfg, s, first).Ok? && t.balance == MAX_U128 && t.deposits == {a};
    assert Next(cfg, t, second).Ok? && After(cfg, t, second).balance == MAX_U128;
    var calls := [first, second];
    assert calls[1..] == [second] && [second][1..] == [];
    assert Accepted(cfg, t, [second]) == [second] && Accepted(cfg, s, calls) == [first] + [second] == calls;
    assert DepositedBy([second]) == 1 && DepositedBy(calls) == MAX_U128 + 1;
    assert Replay(cfg, t, [second]) == After(cfg, t, second) && Replay(cfg, s, calls) == Replay(cfg, t, [second]);
    assert !NeverSaturates(cfg, t, [second]);
  }

  // ----- Accepted roots -----

  /** A root stays acceptable while fewer than `historySize` leaves have been added after it. */
  lemma RootRetention(cfg: Config, s: Ledger, calls: seq<Call>)
    requires cfg.Valid() && Sound(cfg, s)
    requires RootOf(cfg.h, cfg.depth, s.leaves) != ZERO
    requires |InsertedBy(Accepted(cfg, s, calls))| < cfg.historySize
    ensures KnownRoot(cfg, Replay(cfg, s, calls).leaves, RootOf(cfg.h, cfg.depth, s.leaves))
  {
    RunTrace(cfg, s, calls);
    var t := Replay(cfg, s, calls);
    assert t.leaves[..|s.leaves|] == s.leaves;
  }

  /** `root` is the padded root of the leaves without the last few, fewer than the history size. */
  ghost predicate RecentRoot(cfg: Config, leaves: seq<Hash>, root: Hash)
    requires |leaves| <= Pow2(cfg.depth)
  {
    exists k :: 0 <= k <= |leaves| && |leaves| - k < cfg.historySize
      && root == SplitRoot(cfg.h, cfg.depth, Padded(leaves[..k], cfg.depth))
  }

  lemma KnownMeans(cfg: Config, leaves: seq<Hash>, root: Hash)
    requires |leaves| <= Pow2(cfg.depth)
    ensures KnownRoot(cfg, leaves, root) <==> root != ZERO && RecentRoot(cfg, leaves, root)
  {
    forall k | 0 <= k <= |leaves|
      ensures RootOf(cfg.h, cfg.depth, leaves[..k]) == SplitRoot(cfg.h, cfg.depth, Padded(leaves[..k], cfg.depth))
    {
      RootIsPaddedRoot(cfg.h, cfg.depth, leaves[..k]);
    }
  }

  /** After any run from a fresh pool, exactly the non-zero padded roots of recent prefixes of the inserted leaves are accepted. */
  lemma KnownAfterRun(cfg: Config, block: nat, calls: seq<Call>, root: Hash)
    ensures var inserted := InsertedBy(Accepted(cfg, Initial(block), calls));
      && |inserted| <= Pow2(cfg.depth)
      && (KnownRoot(cfg, Replay(cfg, Initial(block), calls).leaves, root) <==> root != ZERO && RecentRoot(cfg, inserted, root))
  {
    var s := Initial(block);
    assert AllNullifiers(s.epochs) == [];
    RunTrace(cfg, s, calls);
    RunKeepsSound(cfg, s, calls);
    var inserted := InsertedBy(Accepted(cfg, s, calls));
    assert Replay(cfg, s, calls).leaves == inserted;
    KnownMeans(cfg, inserted, root);
  }

  /** `root` is the root of the first `k` leaves, which all open against it and nothing else does. */
  ghost predicate Opens(cfg: Config, leaves: seq<Hash>, k: nat, root: Hash)
    requires k <= |leaves|
  {
    && root == RootOf(cfg.h, cfg.depth, leaves[..k])
    && (forall i: nat :: i < k ==>
          Fold(cfg.h, leaves[i], i, PathFrom(cfg.h, leaves[..k], 0, i, cfg.depth)) == root)
    && (forall x, i: nat, siblings ::
          |siblings| == cfg.depth && i < Pow2(cfg.depth) && Fold(cfg.h, x, i, siblings) == root ==>
          x == LeafAt(leaves[..k], i) || IsCollision(cfg.h, MeetingPoint(cfg.h, leaves[..k], 0, x, i, siblings)))
  }

  /** Every accepted root is the root of a prefix of the leaves, and opens exactly to it. */
  lemma KnownRootOpens(cfg: Config, leaves: seq<Hash>, root: Hash)
    requires |leaves| <= Pow2(cfg.depth) && KnownRoot(cfg, leaves, root)
    ensures exists k: nat :: k <= |leaves| && |leaves| - k < cfg.historySize && Opens(cfg, leaves, k, root)
  {
    var k :| 0 <= k <= |leaves| && |leaves| - k < cfg.historySize && root == RootOf(cfg.h, cfg.depth, leaves[..k]);
    forall i: nat | i < k
      ensures Fold(cfg.h, leaves[i], i, PathFrom(cfg.h, leaves[..k], 0, i, cfg.depth)) == root
    {
      EveryLeafHasAPath(cfg.h, cfg.depth, leaves[..k], i);
    }
    forall x, i: nat, siblings | |siblings| == cfg.depth && i < Pow2(cfg.depth) && Fold(cfg.h, x, i, siblings) == root
      ensures x == LeafAt(leaves[..k], i) || IsCollision(cfg.h, MeetingPoint(cfg.h, leaves[..k], 0, x, i, siblings))
    {
      PathBindsLeaf(cfg.h, cfg.depth, leaves[..k], x, i, siblings);
    }
    assert Opens(cfg, leaves, k, root);
  }
}
