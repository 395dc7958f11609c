/**
 The stored pool: one filled-subtree digest per level, a ring of recent roots, a spent set and
 per-epoch records. Every call is proved to do exactly what `PoolLedger.Next` says.
 */
module PrivacyPool {
  import opened Hashing
  import opened MerkleTree
  import opened PoolLedger
  import opened Wrappers

  datatype EpochInfo = EpochInfo(
    startBlock: nat, endBlock: Option<nat>, nullifierRoot: Hash, nullifierCount: nat, finalized: bool)

  /** Everything a pool persists; a failed call leaves it as it was. */
  datatype Storage = Storage(
    nextLeafIndex: nat, filledSubtrees: map<nat, Hash>, roots: map<nat, Hash>, currentRootIndex: nat,
    nullifierSpent: set<Hash>, commitmentExists: set<Hash>, poolBalance: nat, currentEpochId: nat,
    epochs: map<nat, EpochInfo>, epochNullifiers: map<nat, seq<Hash>>)

  // ----- What the stored fields mean -----

  /** The last even index reached on `level` after `n` insertions. */
  function LastEven(n: nat, level: nat): nat {
    2 * (Ancestor(if n == 0 then 0 else n - 1, level) / 2)
  }

  ghost predicate SubtreesHold(cfg: Config, filled: map<nat, Hash>, leaves: seq<Hash>, from: nat, to: nat) {
    forall l :: from <= l < to ==> l in filled && filled[l] == Node(cfg.h, leaves, l, LastEven(|leaves|, l))
  }

  /** The ring slot `j` steps before `current`. */
  function Back(current: nat, j: nat, size: nat): nat
    requires current < size && j < size
  {
    if j <= current then current - j else current + size - j
  }

  ghost predicate RingHolds(cfg: Config, roots: map<nat, Hash>, current: nat, leaves: seq<Hash>) {
    && current < cfg.historySize
    && (|leaves| < cfg.historySize ==> current == |leaves|)
    && (forall i: nat :: i in roots <==> i < cfg.historySize && i <= |leaves|)
    && (forall j: nat :: j < cfg.historySize && j <= |leaves| ==>
          roots[Back(current, j, cfg.historySize)] == RootOf(cfg.h, cfg.depth, leaves[..|leaves| - j]))
  }

  ghost predicate TreeHolds(cfg: Config, s: Storage, leaves: seq<Hash>) {
    && s.nextLeafIndex == |leaves| <= Pow2(cfg.depth)
    && SubtreesHold(cfg, s.filledSubtrees, leaves, 0, cfg.depth)
    && RingHolds(cfg, s.roots, s.currentRootIndex, leaves)
  }

  function InfoOf(cfg: Config, e: Epoch): EpochInfo {
    if e.end.Some? then EpochInfo(e.start, e.end, NullifierRoot(cfg.h, e.nullifiers), |e.nullifiers|, true)
    else EpochInfo(e.start, None, ZERO, 0, false)
  }

  /** The stored list of an epoch; an epoch without one reads as empty. */
  function ListOf(lists: map<nat, seq<Hash>>, id: nat): seq<Hash> {
    if id in lists then lists[id] else []
  }

  ghost predicate ListsHold(lists: map<nat, seq<Hash>>, spent: set<Hash>, epochs: seq<Epoch>) {
    && (forall i: nat :: i < |epochs| ==> ListOf(lists, i) == epochs[i].nullifiers)
    && (forall i: nat :: i in lists ==> i < |epochs|)
    && (forall x :: x in spent <==> IsSpent(epochs, x))
  }

  ghost predicate RecordsHold(cfg: Config, infos: map<nat, EpochInfo>, epochs: seq<Epoch>) {
    && (forall i: nat :: i in infos <==> i < |epochs|)
    && (forall i: nat :: i < |epochs| ==> infos[i] == InfoOf(cfg, epochs[i]))
  }

  ghost predicate EpochsHold(cfg: Config, s: Storage, epochs: seq<Epoch>) {
    && s.currentEpochId == |epochs| - 1
    && ListsHold(s.epochNullifiers, s.nullifierSpent, epochs)
    && RecordsHold(cfg, s.epochs, epochs)
  }

  ghost predicate Represents(cfg: Config, s: Storage, m: Ledger) {
    && Sound(cfg, m)
    && TreeHolds(cfg, s, m.leaves)
    && EpochsHold(cfg, s, m.epochs)
    && s.commitmentExists == m.deposits
    && s.poolBalance == m.balance
  }

  // ----- Insertion, level by level -----

  /** The node above the new leaf at an even index: its right sibling is still empty. */
  lemma ClimbLeft(cfg: Config, leaves: seq<Hash>, x: Hash, l: nat)
    requires Ancestor(|leaves|, l) % 2 == 0
    ensures var i := Ancestor(|leaves|, l);
      Node(cfg.h, leaves + [x], l + 1, Ancestor(|leaves|, l + 1))
      == cfg.h(Node(cfg.h, leaves + [x], l, i), ZeroHash(cfg.h, l))
  {
    AncestorUp(|leaves|, l);
    NodePastTheEnd(cfg.h, leaves + [x], l, Ancestor(|leaves|, l) + 1);
  }

  /** At an odd index the stored subtree is the left sibling, and the new leaf does not touch it. */
  lemma ClimbRight(cfg: Config, leaves: seq<Hash>, x: Hash, l: nat)
    requires Ancestor(|leaves|, l) % 2 == 1
    ensures LastEven(|leaves|, l) == LastEven(|leaves| + 1, l) == Ancestor(|leaves|, l) - 1
    ensures Node(cfg.h, leaves + [x], l, LastEven(|leaves|, l)) == Node(cfg.h, leaves, l, LastEven(|leaves|, l))
    ensures Node(cfg.h, leaves + [x], l + 1, Ancestor(|leaves|, l + 1))
         == cfg.h(Node(cfg.h, leaves, l, LastEven(|leaves|, l)), Node(cfg.h, leaves + [x], l, Ancestor(|leaves|, l)))
  {
    var n, i := |leaves|, Ancestor(|leaves|, l);
    AncestorUp(n, l);
    if n == 0 {
      AncestorTop(0, l);
    } else {
      AncestorNext(n - 1, l);
      AncestorMonotone(n - 1, n, l);
    }
    NodeAppendElsewhere(cfg.h, leaves, x, l, i - 1);
  }

  /** Levels below `l` already know the new leaf `x`; the ones from `l` on do not yet. */
  ghost predicate Climbing(cfg: Config, filled: map<nat, Hash>, leaves: seq<Hash>, x: Hash, l: nat) {
    SubtreesHold(cfg, filled, leaves + [x], 0, l) && SubtreesHold(cfg, filled, leaves, l, cfg.depth)
  }

  /** One turn of the insertion loop at an even index, which stores the node. */
  lemma StepLeft(cfg: Config, filled: map<nat, Hash>, leaves: seq<Hash>, x: Hash, l: nat, i: nat, node: Hash)
    requires l < cfg.depth && Climbing(cfg, filled, leaves, x, l)
    requires i == Ancestor(|leaves|, l) && i % 2 == 0 && node == Node(cfg.h, leaves + [x], l, i)
    ensures Climbing(cfg, filled[l := node], leaves, x, l + 1) && i / 2 == Ancestor(|leaves|, l + 1)
    ensures Node(cfg.h, leaves + [x], l + 1, i / 2) == cfg.h(node, ZeroHash(cfg.h, l))
  {
    AncestorUp(|leaves|, l);
    ClimbLeft(cfg, leaves, x, l);
  }

  /** One turn of the insertion loop at an odd index, which reads the stored left sibling. */
  lemma StepRight(cfg: Config, filled: map<nat, Hash>, leaves: seq<Hash>, x: Hash, l: nat, i: nat, node: Hash)
    requires l < cfg.depth && Climbing(cfg, filled, leaves, x, l)
    requires i == Ancestor(|leaves|, l) && i % 2 == 1 && node == Node(cfg.h, leaves + [x], l, i)
    ensures Climbing(cfg, filled, leaves, x, l + 1) && i / 2 == Ancestor(|leaves|, l + 1)
    ensures l in filled && Node(cfg.h, leaves + [x], l + 1, i / 2) == cfg.h(filled[l], node)
  {
    AncestorUp(|leaves|, l);
    ClimbRight(cfg, leaves, x, l);
  }

  lemma WrapsAround(current: nat, size: nat)
    requires current < size
    ensures (current + 1) % size == if current + 1 == size then 0 else current + 1
  {
  }

  lemma RingAdvances(cfg: Config, roots: map<nat, Hash>, current: nat, leaves: seq<Hash>, x: Hash, next: nat)
    requires cfg.Valid() && RingHolds(cfg, roots, current, leaves)
    requires next == if current + 1 == cfg.historySize then 0 else current + 1
    ensures RingHolds(cfg, roots[next := RootOf(cfg.h, cfg.depth, leaves + [x])], next, leaves + [x])
  {
    var n, size, ls := |leaves|, cfg.historySize, leaves + [x];
    assert ls[..n + 1] == ls;
    forall j: nat | j < size && j <= n + 1
      ensures roots[next := RootOf(cfg.h, cfg.depth, ls)][Back(next, j, size)] == RootOf(cfg.h, cfg.depth, ls[..n + 1 - j])
    {
      if j > 0 {
        assert Back(next, j, size) == Back(current, j - 1, size);
        assert ls[..n + 1 - j] == leaves[..n - (j - 1)];
      }
    }
  }

  /** The empty subtree of every level, and the root of the empty tree. */
  method EmptySubtrees(h: HashFn, depth: nat) returns (filled: map<nat, Hash>, top: Hash)
    ensures forall l :: 0 <= l < depth ==> l in filled && filled[l] == Node(h, [], l, LastEven(0, l))
    ensures top == RootOf(h, depth, [])
  {
    filled, top := map[], ZERO;
    for level := 0 to depth
      invariant top == Node(h, [], level, 0)
      invariant forall l :: 0 <= l < level ==> l in filled && filled[l] == Node(h, [], l, LastEven(0, l))
    {
      NodeOfNoLeaves(h, level, LastEven(0, level));
      NodeOfNoLeaves(h, level, 0);
      NodeOfNoLeaves(h, level, 1);
      filled := filled[level := top];
      top := h(top, top);
    }
  }

  /** Subtraction that stops at zero, as the CosmWasm contract and the pallet write it. */
  function ClampedSub(a: nat, b: nat): nat {
    if b <= a then a - b else 0
  }

  /** Computes the linear nullifier hash left to right. */
  method ComputeNullifierRoot(h: HashFn, list: seq<Hash>) returns (root: Hash)
    ensures root == NullifierRoot(h, list)
  {
    if list == [] {
      return ZERO;
    }
    root := list[0];
    for i := 1 to |list|
      invariant root == NullifierRoot(h, list[..i])
    {
      assert list[..i + 1][..i] == list[..i];
      root := h(root, list[i]);
    }
    assert list[..|list|] == list;
  }

  /** What a stored pool says about its ledger, field by field. */
  lemma StoredFields(cfg: Config, s: Storage, m: Ledger)
    requires cfg.Valid() && Represents(cfg, s, m)
    ensures s.nextLeafIndex == |m.leaves| && s.poolBalance == m.balance && s.commitmentExists == m.deposits
    ensures s.currentRootIndex in s.roots && s.roots[s.currentRootIndex] == RootOf(cfg.h, cfg.depth, m.leaves)
    ensures forall x :: x in s.nullifierSpent <==> IsSpent(m.epochs, x)
    ensures s.currentEpochId == |m.epochs| - 1
    ensures forall i: nat :: i < |m.epochs| ==>
      && i in s.epochs && s.epochs[i].startBlock == m.epochs[i].start && s.epochs[i].endBlock == m.epochs[i].end
      && ListOf(s.epochNullifiers, i) == m.epochs[i].nullifiers
      && s.epochs[i].finalized == (i < |m.epochs| - 1)
    ensures forall i: nat :: i < |m.epochs| - 1 ==>
      && s.epochs[i].nullifierRoot == NullifierRoot(cfg.h, m.epochs[i].nullifiers)
      && s.epochs[i].nullifierCount == |m.epochs[i].nullifiers|
  {
    assert Back(s.currentRootIndex, 0, cfg.historySize) == s.currentRootIndex;
    assert m.leaves[..|m.leaves| - 0] == m.leaves;
  }

  class Pool {
    const cfg: Config

    var nextLeafIndex: nat
    var filledSubtrees: map<nat, Hash>
    var roots: map<nat, Hash>
    var currentRootIndex: nat
    var nullifierSpent: set<Hash>
    var commitmentExists: set<Hash>
    var poolBalance: nat
    var currentEpochId: nat
    var epochs: map<nat, EpochInfo>
    var epochNullifiers: map<nat, seq<Hash>>
    ghost var ledger: Ledger

    function Snapshot(): Storage
      reads this
    {
      Storage(nextLeafIndex, filledSubtrees, roots, currentRootIndex, nullifierSpent,
              commitmentExists, poolBalance, currentEpochId, epochs, epochNullifiers)
    }

    ghost predicate Valid()
      reads this
    {
      cfg.Valid() && Represents(cfg, Snapshot(), ledger)
    }

    constructor (config: Config, block: nat)
      requires config.Valid()
      ensures Valid() && cfg == config && ledger == Initial(block)
    {
      cfg := config;
      nextLeafIndex, currentRootIndex, poolBalance, currentEpochId := 0, 0, 0, 0;
      nullifierSpent, commitmentExists := {}, {};
      var filled, top := EmptySubtrees(config.h, config.depth);
      filledSubtrees := filled;
      roots := map[0 := top];
      epochs := map[0 := EpochInfo(block, None, ZERO, 0, false)];
      epochNullifiers := if config.platform.Substrate? then map[] else map[0 := []];
      ledger := Initial(block);
      new;
      InitialRepresents(cfg, Snapshot(), block);
    }

    /** The platform's rollback of a failed call. */
    method Restore(s: Storage)
      modifies this
      ensures Snapshot() == s && ledger == old(ledger)
    {
      nextLeafIndex, filledSubtrees, roots, currentRootIndex := s.nextLeafIndex, s.filledSubtrees, s.roots, s.currentRootIndex;
      nullifierSpent, commitmentExists, poolBalance := s.nullifierSpent, s.commitmentExists, s.poolBalance;
      currentEpochId, epochs, epochNullifiers := s.currentEpochId, s.epochs, s.epochNullifiers;
    }

    /** The walk up from a new leaf: stores it where it is a left child, and returns the new root. */
    method Climb(leaf: Hash, ghost leaves: seq<Hash>) returns (root: Hash)
      requires nextLeafIndex == |leaves| < Pow2(cfg.depth)
      requires SubtreesHold(cfg, filledSubtrees, leaves, 0, cfg.depth)
      modifies this`filledSubtrees
      ensures SubtreesHold(cfg, filledSubtrees, leaves + [leaf], 0, cfg.depth)
      ensures root == RootOf(cfg.h, cfg.depth, leaves + [leaf])
    {
      var currentIndex, currentHash := nextLeafIndex, leaf;
      ghost var ls := leaves + [leaf];
      for level := 0 to cfg.depth
        invariant currentIndex == Ancestor(|leaves|, level)
        invariant currentHash == Node(cfg.h, ls, level, currentIndex)
        invariant Climbing(cfg, filledSubtrees, leaves, leaf, level)
      {
        if currentIndex % 2 == 0 {
          StepLeft(cfg, filledSubtrees, leaves, leaf, level, currentIndex, currentHash);
          filledSubtrees := filledSubtrees[level := currentHash];
          var zero := ComputeZeroHash(cfg.h, level);
          currentHash := cfg.h(currentHash, zero);
        } else {
          StepRight(cfg, filledSubtrees, leaves, leaf, level, currentIndex, currentHash);
          var sibling := if level in filledSubtrees then filledSubtrees[level] else ZERO;
          currentHash := cfg.h(sibling, currentHash);
        }
        currentIndex := currentIndex / 2;
      }
      AncestorTop(|leaves|, cfg.depth);
      return currentHash;
    }

    /** O(depth) insertion: afterwards the newest ring entry is the root of the whole padded tree. */
    method InsertLeaf(leaf: Hash, ghost leaves: seq<Hash>) returns (r: Result<nat>)
      requires cfg.Valid() && TreeHolds(cfg, Snapshot(), leaves)
      modifies this`nextLeafIndex, this`filledSubtrees, this`roots, this`currentRootIndex
      ensures r == if |leaves| < Pow2(cfg.depth) then Ok(|leaves|) else Err(TreeFull)
      ensures r.Err? ==> Snapshot() == old(Snapshot())
      ensures r.Ok? ==> TreeHolds(cfg, Snapshot(), leaves + [leaf])
    {
      if nextLeafIndex >= Pow2(cfg.depth) {
        return Err(TreeFull);
      }
      var idx := nextLeafIndex;
      var root := Climb(leaf, leaves);
      var newRootIndex := (currentRootIndex + 1) % cfg.historySize;
      WrapsAround(currentRootIndex, cfg.historySize);
      RingAdvances(cfg, roots, currentRootIndex, leaves, leaf, newRootIndex);
      roots := roots[newRootIndex := root];
      currentRootIndex := newRootIndex;
      nextLeafIndex := idx + 1;
      return Ok(idx);
    }

    /** Walks the ring backwards from the newest root. */
    method IsKnownRoot(root: Hash, ghost leaves: seq<Hash>) returns (known: bool)
      requires cfg.Valid() && TreeHolds(cfg, Snapshot(), leaves)
      ensures known <==> KnownRoot(cfg, leaves, root)
    {
      if root == ZERO {
        return false;
      }
      var idx := currentRootIndex;
      for j := 0 to cfg.historySize
        invariant j < cfg.historySize ==> idx == Back(currentRootIndex, j, cfg.historySize)
        invariant forall k :: 0 <= k <= |leaves| && |leaves| - k < j ==> root != RootOf(cfg.h, cfg.depth, leaves[..k])
      {
        if idx in roots && roots[idx] == root {
          assert j <= |leaves|;
          return true;
        }
        assert j <= |leaves| ==> root != RootOf(cfg.h, cfg.depth, leaves[..|leaves| - j]);
        if idx == 0 {
          idx := cfg.historySize - 1;
        } else {
          idx := idx - 1;
        }
      }
      return false;
    }

    /** Spends the nullifiers in order; on an error the caller rolls back. */
    method CheckAndSpendNullifiers(nullifiers: seq<Hash>, ghost es: seq<Epoch>) returns (r: Option<Error>)
      requires es != [] && EpochsHold(cfg, Snapshot(), es)
      modifies this`nullifierSpent, this`epochNullifiers
      ensures r == match Spend(cfg, es, nullifiers) case Ok(_) => None case Err(e) => Some(e)
      ensures r.None? ==> ListsHold(epochNullifiers, nullifierSpent, Spend(cfg, es, nullifiers).value)
    {
      var id := currentEpochId;
      var list := ListOf(epochNullifiers, id);
      ghost var now := es;
      for i := 0 to |nullifiers|
        invariant |now| == |es| && Spend(cfg, es, nullifiers) == Spend(cfg, now, nullifiers[i..])
        invariant now[..id] == es[..id] && list == now[id].nullifiers
        invariant forall x :: x in nullifierSpent <==> IsSpent(now, x)
        invariant epochNullifiers == old(epochNullifiers)
      {
        var nullifier := nullifiers[i];
        assert nullifiers[i..][0] == nullifier && nullifiers[i..][1..] == nullifiers[i + 1..];
        if nullifier in nullifierSpent {
          return Some(NullifierAlreadySpent);
        }
        nullifierSpent := nullifierSpent + {nullifier};
        if |list| >= cfg.maxNullifiers {
          return Some(EpochNullifierOverflow);
        }
        list := list + [nullifier];
        RecordSpends(now, nullifier);
        now := Record(now, nullifier);
      }
      assert nullifiers[|nullifiers|..] == [];
      epochNullifiers := epochNullifiers[id := list];
      forall i: nat | i < |now|
        ensures ListOf(epochNullifiers, i) == now[i].nullifiers
      {
        assert i < id ==> now[i] == now[..id][i] == es[i];
      }
      return None;
    }

    method Deposit(commitment: Hash, amount: nat, ghost m: Ledger) returns (r: Result<nat>)
      requires cfg.Valid() && Represents(cfg, Snapshot(), m)
      modifies this
      ensures ledger == old(ledger)
      ensures match Next(cfg, m, Call.Deposit(commitment, amount))
        case Err(e) => r == Err(e) && Snapshot() == old(Snapshot())
        case Ok(t) => r == Ok(|m.leaves|) && Represents(cfg, Snapshot(), t)
    {
      if amount == 0 {
        return Err(ZeroDeposit);
      }
      if commitment in commitmentExists {
        return Err(CommitmentAlreadyExists);
      }
      var before := Snapshot();
      r := Enter(commitment, amount, m);
      if r.Err? {
        Restore(before);
      }
    }

    /** The writes of a deposit; leaves a failed one to be rolled back. */
    method Enter(commitment: Hash, amount: nat, ghost m: Ledger) returns (r: Result<nat>)
      requires cfg.Valid() && Represents(cfg, Snapshot(), m) && amount > 0 && commitment !in m.deposits
      modifies this`nextLeafIndex, this`filledSubtrees, this`roots, this`currentRootIndex, this`commitmentExists, this`poolBalance
      ensures match Next(cfg, m, Call.Deposit(commitment, amount))
        case Err(e) => r == Err(e)
        case Ok(t) => r == Ok(|m.leaves|) && Represents(cfg, Snapshot(), t)
    {
      commitmentExists := commitmentExists + {commitment};
      r := InsertLeaf(commitment, m.leaves);
      if r.Err? {
        return;
      }
      var b := Credit(cfg.platform, poolBalance, amount);
      if b.Err? {
        return Err(b.error);
      }
      poolBalance := b.value;
      DepositRepresents(cfg, old(Snapshot()), Snapshot(), m, Call.Deposit(commitment, amount));
    }

    method InsertOutputs(outputs: seq<Hash>, ghost leaves: seq<Hash>) returns (r: Option<Error>)
      requires cfg.Valid() && TreeHolds(cfg, Snapshot(), leaves) && |outputs| == 2
      modifies this`nextLeafIndex, this`filledSubtrees, this`roots, this`currentRootIndex
      ensures r == if |leaves| + 2 > Pow2(cfg.depth) then Some(TreeFull) else None
      ensures r.None? ==> TreeHolds(cfg, Snapshot(), leaves + outputs)
    {
      var first := InsertLeaf(outputs[0], leaves);
      if first.Err? {
        return Some(first.error);
      }
      var second := InsertLeaf(outputs[1], leaves + [outputs[0]]);
      if second.Err? {
        return Some(second.error);
      }
      assert leaves + [outputs[0]] + [outputs[1]] == leaves + outputs;
      return None;
    }

    /** Spends the nullifiers of a sound ledger; only the open epoch's list grows. */
    method SpendFrom(nullifiers: seq<Hash>, ghost m: Ledger) returns (r: Option<Error>)
      requires Represents(cfg, Snapshot(), m)
      modifies this`nullifierSpent, this`epochNullifiers
      ensures r == match Spend(cfg, m.epochs, nullifiers) case Ok(_) => None case Err(e) => Some(e)
      ensures r.None? ==> EpochsHold(cfg, Snapshot(), Spend(cfg, m.epochs, nullifiers).value)
    {
      r := CheckAndSpendNullifiers(nullifiers, m.epochs);
      if r.None? {
        SpendKeeps(cfg, m.epochs, nullifiers);
        SpendRepresents(cfg, old(Snapshot()), Snapshot(), m.epochs, Spend(cfg, m.epochs, nullifiers).value);
      }
    }

    /** Root check, nullifiers, proof and the two insertions; leaves a failed attempt to be rolled back. */
    method Settle(call: Call, ghost m: Ledger) returns (r: Option<Error>)
      requires cfg.Valid() && Represents(cfg, Snapshot(), m) && (call.Transfer? || call.Withdraw?)
      requires |call.nullifiers| == 2 && |call.outputs| == 2
      modifies this`nextLeafIndex, this`filledSubtrees, this`roots, this`currentRootIndex, this`nullifierSpent, this`epochNullifiers
      ensures r == match Exchange(cfg, m, call) case Ok(_) => None case Err(e) => Some(e)
      ensures r.None? ==> TreeHolds(cfg, Snapshot(), Exchange(cfg, m, call).value.leaves)
      ensures r.None? ==> EpochsHold(cfg, Snapshot(), Exchange(cfg, m, call).value.epochs)
    {
      var known := IsKnownRoot(call.root, m.leaves);
      if !known {
        return Some(UnknownMerkleRoot);
      }
      r := SpendFrom(call.nullifiers, m);
      if r.Some? {
        return;
      }
      if !cfg.verify(call) {
        return Some(InvalidProof);
      }
      r := InsertOutputs(call.outputs, m.leaves);
    }

    /** `Settle`, or the rollback of what it wrote. */
    method Attempt(call: Call, ghost m: Ledger) returns (r: Option<Error>)
      requires cfg.Valid() && Represents(cfg, Snapshot(), m) && (call.Transfer? || call.Withdraw?)
      requires |call.nullifiers| == 2 && |call.outputs| == 2
      modifies this
      ensures ledger == old(ledger)
      ensures match Exchange(cfg, m, call)
        case Err(e) => r == Some(e) && Snapshot() == old(Snapshot())
        case Ok(t) => r == None && Settled(cfg, old(Snapshot()), Snapshot(), t)
    {
      var before := Snapshot();
      r := Settle(call, m);
      if r.Some? {
        Restore(before);
      }
    }

    method Transfer(proof: string, root: Hash, nullifiers: seq<Hash>, outputs: seq<Hash>, ghost m: Ledger) returns (r: Result<()>)
      requires cfg.Valid() && Represents(cfg, Snapshot(), m)
      modifies this
      ensures ledger == old(ledger)
      ensures match Next(cfg, m, Call.Transfer(proof, root, nullifiers, outputs))
        case Err(e) => r == Err(e) && Snapshot() == old(Snapshot())
        case Ok(t) => r.Ok? && Represents(cfg, Snapshot(), t)
    {
      if |nullifiers| != 2 {
        return Err(WrongArity);
      }
      if |outputs| != 2 {
        return Err(WrongArity);
      }
      var call := Call.Transfer(proof, root, nullifiers, outputs);
      var failed := Attempt(call, m);
      if failed.Some? {
        return Err(failed.value);
      }
      SettledRepresents(cfg, old(Snapshot()), Snapshot(), m, call);
      return Ok(());
    }

    method Debit(amount: nat)
      modifies this`poolBalance
      ensures Snapshot() == old(Snapshot()).(poolBalance := ClampedSub(old(poolBalance), amount))
    {
      poolBalance := ClampedSub(poolBalance, amount);
    }

    method Withdraw(proof: string, root: Hash, nullifiers: seq<Hash>, outputs: seq<Hash>, recipient: string, exitValue: nat,
                    ghost m: Ledger) returns (r: Result<()>)
      requires cfg.Valid() && Represents(cfg, Snapshot(), m)
      modifies this
      ensures ledger == old(ledger)
      ensures match Next(cfg, m, Call.Withdraw(proof, root, nullifiers, outputs, recipient, exitValue))
        case Err(e) => r == Err(e) && Snapshot() == old(Snapshot())
        case Ok(t) => r.Ok? && Represents(cfg, Snapshot(), t)
    {
      if |nullifiers| != 2 {
        return Err(WrongArity);
      }
      if |outputs| != 2 {
        return Err(WrongArity);
      }
      if exitValue == 0 {
        return Err(ZeroWithdrawal);
      }
      if exitValue > poolBalance {
        return Err(InsufficientPoolBalance);
      }
      var call := Call.Withdraw(proof, root, nullifiers, outputs, recipient, exitValue);
      var failed := Attempt(call, m);
      if failed.Some? {
        return Err(failed.value);
      }
      // After the guard above the clamp never takes effect: `Next` subtracts without one.
      Debit(exitValue);
      PaidRepresents(cfg, old(Snapshot()), Snapshot(), m, call);
      return Ok(());
    }

    /** Seals the open epoch's record and starts the next epoch. */
    method CloseEpoch(block: nat)
      requires cfg.Valid() && currentEpochId in epochs
      requires |ListOf(epochNullifiers, currentEpochId)| <= cfg.maxNullifiers
      modifies this`epochs, this`currentEpochId, this`epochNullifiers
      ensures Closes(cfg, old(Snapshot()), Snapshot(), block)
    {
      var id := currentEpochId;
      var list := ListOf(epochNullifiers, id);
      var root := ComputeNullifierRoot(cfg.h, list);
      var count := |list| % U32_LIMIT;
      epochs := epochs[id := epochs[id].(nullifierRoot := root, nullifierCount := count, endBlock := Some(block), finalized := true)];
      currentEpochId := id + 1;
      epochs := epochs[id + 1 := EpochInfo(block, None, ZERO, 0, false)];
      if !cfg.platform.Substrate? {
        epochNullifiers := epochNullifiers[id + 1 := []];
      }
    }

    /** Closes the open epoch; its guards against a missing or closed epoch never fire. */
    method FinalizeEpoch(caller: string, block: nat, ghost m: Ledger) returns (r: Result<()>)
      requires cfg.Valid() && Represents(cfg, Snapshot(), m)
      modifies this`epochs, this`currentEpochId, this`epochNullifiers
      ensures match Next(cfg, m, Call.FinalizeEpoch(caller, block))
        case Err(e) => r == Err(e) && Snapshot() == old(Snapshot())
        case Ok(t) => r.Ok? && Represents(cfg, Snapshot(), t)
    {
      OpenEpochIsStored(cfg, Snapshot(), m);
      if caller != cfg.governance {
        return Err(Unauthorized);
      }
      if currentEpochId !in epochs {
        return Err(EpochNotFound);
      }
      if epochs[currentEpochId].finalized {
        return Err(EpochAlreadyFinalized);
      }
      CloseEpoch(block);
      FinalizeRepresents(cfg, old(Snapshot()), Snapshot(), m, block);
      return Ok(());
    }

    /** The entry point: every call moves the ledger exactly as `Next` says, or changes nothing. */
    method Execute(call: Call) returns (r: Option<Error>)
      requires Valid()
      modifies this
      ensures Valid() && ledger == After(cfg, old(ledger), call)
      ensures r == match Next(cfg, old(ledger), call) case Ok(_) => None case Err(e) => Some(e)
      ensures r.Some? ==> Snapshot() == old(Snapshot())
    {
      r := Dispatch(call, ledger);
      ledger := After(cfg, ledger, call);
    }

    method Dispatch(call: Call, ghost m: Ledger) returns (r: Option<Error>)
      requires cfg.Valid() && Represents(cfg, Snapshot(), m)
      modifies this
      ensures ledger == old(ledger)
      ensures match Next(cfg, m, call)
        case Err(e) => r == Some(e) && Snapshot() == old(Snapshot())
        case Ok(t) => r == None && Represents(cfg, Snapshot(), t)
    {
      match call
      case Deposit(commitment, amount) =>
        var d := Deposit(commitment, amount, m);
        return ErrorOf(d);
      case Transfer(proof, root, nullifiers, outputs) =>
        var t := Transfer(proof, root, nullifiers, outputs, m);
        return ErrorOf(t);
      case Withdraw(proof, root, nullifiers, outputs, recipient, exitValue) =>
        var w := Withdraw(proof, root, nullifiers, outputs, recipient, exitValue, m);
        return ErrorOf(w);
      case FinalizeEpoch(caller, block) =>
        var f := FinalizeEpoch(caller, block, m);
        return ErrorOf(f);
    }
  }

  function ErrorOf<T>(r: Result<T>): Option<Error> {
    match r
    case Ok(_) => None
    case Err(e) => Some(e)
  }

  // ----- What the calls write represents the next ledger -----

  lemma DepositRepresents(cfg: Config, s: Storage, t: Storage, m: Ledger, call: Call)
    requires Represents(cfg, s, m) && call.Deposit? && Next(cfg, m, call).Ok?
    requires TreeHolds(cfg, t, m.leaves + [call.commitment])
    requires t == s.(nextLeafIndex := t.nextLeafIndex, filledSubtrees := t.filledSubtrees, roots := t.roots,
                     currentRootIndex := t.currentRootIndex, commitmentExists := s.commitmentExists + {call.commitment},
                     poolBalance := Credit(cfg.platform, s.poolBalance, call.amount).value)
    ensures Represents(cfg, t, After(cfg, m, call))
  {
    StepKeepsSound(cfg, m, call);
  }

  /** The exchange has been written: tree and epochs are those of `e`, the rest is as before. */
  ghost predicate Settled(cfg: Config, s: Storage, t: Storage, e: Ledger) {
    && TreeHolds(cfg, t, e.leaves) && EpochsHold(cfg, t, e.epochs)
    && t.commitmentExists == s.commitmentExists && t.poolBalance == s.poolBalance
  }

  lemma SettledRepresents(cfg: Config, s: Storage, t: Storage, m: Ledger, call: Call)
    requires Represents(cfg, s, m) && call.Transfer? && Next(cfg, m, call).Ok?
    requires Settled(cfg, s, t, Next(cfg, m, call).value)
    ensures Represents(cfg, t, Next(cfg, m, call).value)
  {
    StepKeepsSound(cfg, m, call);
  }

  lemma PaidRepresents(cfg: Config, s: Storage, t: Storage, m: Ledger, call: Call)
    requires Represents(cfg, s, m) && call.Withdraw? && Next(cfg, m, call).Ok?
    requires Settled(cfg, s, t.(poolBalance := s.poolBalance), Next(cfg, m, call).value)
    requires t.poolBalance == s.poolBalance - call.exitValue
    ensures Represents(cfg, t, Next(cfg, m, call).value)
  {
    StepKeepsSound(cfg, m, call);
  }

  lemma InitialRepresents(cfg: Config, s: Storage, block: nat)
    requires cfg.Valid()
    requires s.nextLeafIndex == s.currentRootIndex == s.poolBalance == s.currentEpochId == 0
    requires s.nullifierSpent == {} && s.commitmentExists == {}
    requires forall l :: 0 <= l < cfg.depth ==> l in s.filledSubtrees && s.filledSubtrees[l] == Node(cfg.h, [], l, LastEven(0, l))
    requires s.roots == map[0 := RootOf(cfg.h, cfg.depth, [])]
    requires s.epochs == map[0 := EpochInfo(block, None, ZERO, 0, false)] && (s.epochNullifiers == map[] || s.epochNullifiers == map[0 := []])
    ensures Represents(cfg, s, Initial(block))
  {
    assert AllNullifiers(Initial(block).epochs) == [];
    InitialTreeHolds(cfg, s);
    InitialEpochsHold(cfg, s, block);
  }

  lemma InitialTreeHolds(cfg: Config, s: Storage)
    requires cfg.Valid() && s.nextLeafIndex == s.currentRootIndex == 0
    requires forall l :: 0 <= l < cfg.depth ==> l in s.filledSubtrees && s.filledSubtrees[l] == Node(cfg.h, [], l, LastEven(0, l))
    requires s.roots == map[0 := RootOf(cfg.h, cfg.depth, [])]
    ensures TreeHolds(cfg, s, [])
  {
    var none: seq<Hash> := [];
    assert none[..0] == none;
  }

  lemma InitialEpochsHold(cfg: Config, s: Storage, block: nat)
    requires s.currentEpochId == 0 && s.nullifierSpent == {}
    requires s.epochs == map[0 := EpochInfo(block, None, ZERO, 0, false)] && (s.epochNullifiers == map[] || s.epochNullifiers == map[0 := []])
    ensures EpochsHold(cfg, s, [Epoch(block, [], None)])
  {
  }

  lemma SpendRepresents(cfg: Config, s: Storage, t: Storage, before: seq<Epoch>, after: seq<Epoch>)
    requires before != [] && EpochsHold(cfg, s, before)
    requires before[|before| - 1].end.None?
    requires |after| == |before|
    requires after == before[|before| - 1 := before[|before| - 1].(nullifiers := after[|before| - 1].nullifiers)]
    requires t == s.(nullifierSpent := t.nullifierSpent, epochNullifiers := t.epochNullifiers)
    requires ListsHold(t.epochNullifiers, t.nullifierSpent, after)
    ensures EpochsHold(cfg, t, after)
  {
  }

  /** The open epoch is stored, is not finalised, and its list is within the bound. */
  lemma OpenEpochIsStored(cfg: Config, s: Storage, m: Ledger)
    requires Represents(cfg, s, m)
    ensures s.currentEpochId in s.epochs
    ensures !s.epochs[s.currentEpochId].finalized
    ensures |ListOf(s.epochNullifiers, s.currentEpochId)| <= cfg.maxNullifiers
  {
  }

  /** The epoch fields after closing the open epoch and opening the next. */
  ghost predicate Closes(cfg: Config, s: Storage, t: Storage, block: nat)
    requires s.currentEpochId in s.epochs
  {
    var id := s.currentEpochId;
    var list := ListOf(s.epochNullifiers, id);
    && t == s.(currentEpochId := id + 1, epochs := t.epochs, epochNullifiers := t.epochNullifiers)
    && t.epochs == s.epochs[id := EpochInfo(s.epochs[id].startBlock, Some(block), NullifierRoot(cfg.h, list), |list|, true)]
                           [id + 1 := EpochInfo(block, None, ZERO, 0, false)]
    && (t.epochNullifiers == s.epochNullifiers || t.epochNullifiers == s.epochNullifiers[id + 1 := []])
  }

  lemma AdvanceKeepsLists(epochs: seq<Epoch>, block: nat)
    requires epochs != []
    ensures forall i :: 0 <= i < |epochs| ==> Advance(epochs, block)[i].nullifiers == epochs[i].nullifiers
    ensures forall x :: IsSpent(Advance(epochs, block), x) <==> IsSpent(epochs, x)
  {
    var after := Advance(epochs, block);
    assert forall i :: 0 <= i < |epochs| ==> after[i].nullifiers == epochs[i].nullifiers;
  }

  lemma CloseListsHold(s: Storage, t: Storage, before: seq<Epoch>, block: nat)
    requires before != [] && ListsHold(s.epochNullifiers, s.nullifierSpent, before) && t.nullifierSpent == s.nullifierSpent
    requires t.epochNullifiers == s.epochNullifiers || t.epochNullifiers == s.epochNullifiers[|before| := []]
    ensures ListsHold(t.epochNullifiers, t.nullifierSpent, Advance(before, block))
  {
    AdvanceKeepsLists(before, block);
  }

  lemma CloseRecordsHold(cfg: Config, infos: map<nat, EpochInfo>, before: seq<Epoch>, block: nat)
    requires before != [] && RecordsHold(cfg, infos, before)
    ensures var id := |before| - 1;
      var sealed := EpochInfo(infos[id].startBlock, Some(block), NullifierRoot(cfg.h, before[id].nullifiers), |before[id].nullifiers|, true);
      RecordsHold(cfg, infos[id := sealed][id + 1 := EpochInfo(block, None, ZERO, 0, false)], Advance(before, block))
  {
  }

  lemma CloseEpochsHold(cfg: Config, s: Storage, t: Storage, before: seq<Epoch>, block: nat)
    requires before != [] && EpochsHold(cfg, s, before) && Closes(cfg, s, t, block)
    ensures EpochsHold(cfg, t, Advance(before, block))
  {
    CloseListsHold(s, t, before, block);
    CloseRecordsHold(cfg, s.epochs, before, block);
  }

  lemma FinalizeRepresents(cfg: Config, s: Storage, t: Storage, m: Ledger, block: nat)
    requires Represents(cfg, s, m) && s.currentEpochId in s.epochs && Closes(cfg, s, t, block)
    ensures Represents(cfg, t, Next(cfg, m, Call.FinalizeEpoch(cfg.governance, block)).value)
  {
    var call := Call.FinalizeEpoch(cfg.governance, block);
    StepKeepsSound(cfg, m, call);
    CloseEpochsHold(cfg, s, t, m.epochs, block);
  }
}
