/**
 The stored ink! pool: a (level, index) node map, a leaf-to-index map, a circular root history and
 the commit records. Every message is proved to do exactly what `InkLedger.Next` says.
 */
module InkPool {
  import opened Hashing
  import opened SparseTree
  import opened InkLedger
  import opened Wrappers

  datatype EpochInfo = EpochInfo(epochId: nat, root: Hash, finalized: bool, blockFinalized: nat)

  datatype Storage = Storage(
    leaves: map<Hash, nat>, nodes: Nodes, nextLeafIndex: nat, rootHistory: map<nat, Hash>, rootHistoryCursor: nat,
    currentRoot: Hash, nullifiers: set<Hash>, currentEpoch: nat, epochs: map<nat, EpochInfo>,
    poolBalance: nat, paused: bool, pendingCommits: map<Hash, CommitRecord>)

  // ----- What the stored fields mean -----

  /** The leaf map is the exact inverse of the leaf sequence. */
  ghost predicate IndexHolds(index: map<Hash, nat>, leaves: seq<Hash>) {
    && (forall k :: 0 <= k < |leaves| ==> leaves[k] in index && index[leaves[k]] == k)
    && (forall c :: c in index ==> index[c] < |leaves| && leaves[index[c]] == c)
  }

  ghost predicate TreeHolds(cfg: Config, s: Storage, leaves: seq<Hash>) {
    && s.nextLeafIndex == |leaves|
    && IndexHolds(s.leaves, leaves)
    && NodesHold(cfg.h, s.nodes, leaves, cfg.depth)
    && s.currentRoot == SparseRoot(cfg.h, cfg.depth, leaves)
  }

  /** The slot written `j` pushes ago. */
  function SlotBack(cursor: nat, j: nat): nat
    requires cursor < ROOT_HISTORY_SIZE && 1 <= j <= ROOT_HISTORY_SIZE
  {
    if j <= cursor then cursor - j else cursor + ROOT_HISTORY_SIZE - j
  }

  ghost predicate HistoryHolds(history: map<nat, Hash>, cursor: nat, pushed: seq<Hash>) {
    && cursor < ROOT_HISTORY_SIZE && (|pushed| < ROOT_HISTORY_SIZE ==> cursor == |pushed|)
    && (forall i: nat :: i in history <==> i < ROOT_HISTORY_SIZE && i < |pushed|)
    && (forall j: nat :: 1 <= j <= ROOT_HISTORY_SIZE && j <= |pushed| ==>
          history[SlotBack(cursor, j)] == pushed[|pushed| - j])
  }

  ghost predicate EpochsHold(current: nat, epochs: map<nat, EpochInfo>, closed: seq<Closed>) {
    && current == |closed|
    && (forall i: nat :: i in epochs <==> i <= |closed|)
    && (forall i: nat :: i < |closed| ==> epochs[i] == EpochInfo(i, closed[i].root, true, closed[i].block))
    && epochs[|closed|] == EpochInfo(|closed|, ZERO, false, 0)
  }

  ghost predicate Represents(cfg: Config, s: Storage, m: Ledger) {
    && Sound(cfg, m)
    && TreeHolds(cfg, s, m.leaves)
    && HistoryHolds(s.rootHistory, s.rootHistoryCursor, m.pushed)
    && EpochsHold(s.currentEpoch, s.epochs, m.closed)
    && s.nullifiers == m.spent && s.poolBalance == m.balance && s.paused == m.paused && s.pendingCommits == m.commits
  }

  lemma EmptyNodes(h: HashFn, depth: nat)
    ensures NodesHold(h, map[], [], depth)
    ensures SparseRoot(h, depth, []) == ZERO
  {
  }

  /** The slots are the last 100 pushes, in some order. */
  lemma HistoryIsRecent(history: map<nat, Hash>, cursor: nat, pushed: seq<Hash>, root: Hash)
    requires HistoryHolds(history, cursor, pushed)
    ensures root in Recent(pushed) <==> exists i: nat :: i in history && history[i] == root
  {
    var recent, n := Recent(pushed), |Recent(pushed)|;
    if root in recent {
      var k :| 0 <= k < n && recent[k] == root;
      assert history[SlotBack(cursor, n - k)] == pushed[|pushed| - (n - k)] == recent[k];
    }
    forall i: nat | i in history
      ensures history[i] in recent
    {
      var j := if i < cursor then cursor - i else cursor + ROOT_HISTORY_SIZE - i;
      assert SlotBack(cursor, j) == i && history[i] == pushed[|pushed| - j] == recent[n - j];
    }
  }

  lemma PushHolds(history: map<nat, Hash>, cursor: nat, pushed: seq<Hash>, root: Hash)
    requires HistoryHolds(history, cursor, pushed)
    ensures HistoryHolds(history[cursor := root], (cursor + 1) % ROOT_HISTORY_SIZE, pushed + [root])
  {
    var next := (cursor + 1) % ROOT_HISTORY_SIZE;
    forall j: nat | 1 <= j <= ROOT_HISTORY_SIZE && j <= |pushed| + 1
      ensures history[cursor := root][SlotBack(next, j)] == (pushed + [root])[|pushed| + 1 - j]
    {
      if j > 1 {
        assert SlotBack(next, j) == SlotBack(cursor, j - 1);
      }
    }
  }

  lemma CloseHolds(current: nat, epochs: map<nat, EpochInfo>, closed: seq<Closed>, c: Closed)
    requires EpochsHold(current, epochs, closed)
    ensures EpochsHold(current + 1,
              epochs[current := EpochInfo(current, c.root, true, c.block)][current + 1 := EpochInfo(current + 1, ZERO, false, 0)],
              closed + [c])
  {
  }

  /** After an accepted message that inserts leaves, matching storage represents the next ledger. */
  lemma InsertionRepresents(cfg: Config, s: Storage, t: Storage, m: Ledger, msg: Message)
    requires Represents(cfg, s, m) && Next(cfg, m, msg).Ok? && Pushes(msg.call)
    requires TreeHolds(cfg, t, m.leaves + LeavesOf(msg.call))
    requires HistoryHolds(t.rootHistory, t.rootHistoryCursor, m.pushed + [t.currentRoot])
    requires t.nullifiers == After(cfg, m, msg).spent && t.pendingCommits == After(cfg, m, msg).commits
    requires t.poolBalance == After(cfg, m, msg).balance
    requires t.currentEpoch == s.currentEpoch && t.epochs == s.epochs && t.paused == s.paused
    ensures Represents(cfg, t, After(cfg, m, msg))
  {
    StepTrace(cfg, m, msg);
    InsertionKeepsRest(cfg, m, msg);
  }

  lemma InsertionKeepsRest(cfg: Config, m: Ledger, msg: Message)
    requires Pushes(msg.call)
    ensures After(cfg, m, msg).closed == m.closed && After(cfg, m, msg).paused == m.paused
  {
  }

  function Pay(call: Call): nat {
    if call.Withdraw? then call.amount else 0
  }

  lemma NextIsExchange(cfg: Config, m: Ledger, msg: Message)
    requires msg.call.Transfer? || msg.call.Withdraw?
    ensures Next(cfg, m, msg) == Exchange(cfg, m, msg.call, Pay(msg.call))
  {
  }

  lemma ExchangeRepresents(cfg: Config, s: Storage, t: Storage, m: Ledger, msg: Message)
    requires Represents(cfg, s, m) && (msg.call.Transfer? || msg.call.Withdraw?)
    requires Exchange(cfg, m, msg.call, Pay(msg.call)).Ok?
    requires TreeHolds(cfg, t, m.leaves + [msg.call.c0, msg.call.c1])
    requires t.nullifiers == Exchange(cfg, m, msg.call, Pay(msg.call)).value.spent
    requires HistoryHolds(t.rootHistory, t.rootHistoryCursor, m.pushed + [t.currentRoot])
    requires t.poolBalance == s.poolBalance - Pay(msg.call) && t.pendingCommits == s.pendingCommits
    requires t.currentEpoch == s.currentEpoch && t.epochs == s.epochs && t.paused == s.paused
    ensures Represents(cfg, t, After(cfg, m, msg))
  {
    ExchangeTrace(cfg, m, msg.call, Pay(msg.call));
    InsertionRepresents(cfg, s, t, m, msg);
  }

  lemma FinalizeRepresents(cfg: Config, s: Storage, t: Storage, m: Ledger, msg: Message)
    requires Represents(cfg, s, m) && msg.call.FinalizeEpoch? && msg.caller == cfg.governance
    requires var id := s.currentEpoch;
      t == s.(currentEpoch := id + 1,
              epochs := s.epochs[id := EpochInfo(id, s.currentRoot, true, msg.block)][id + 1 := EpochInfo(id + 1, ZERO, false, 0)])
    ensures Represents(cfg, t, After(cfg, m, msg))
  {
    CloseHolds(s.currentEpoch, s.epochs, m.closed, Closed(s.currentRoot, msg.block));
  }

  lemma DepositRepresents(cfg: Config, s: Storage, t: Storage, m: Ledger, msg: Message)
    requires Represents(cfg, s, m) && msg.call.Deposit? && !m.paused && msg.value > 0
    requires Insert(cfg, m, msg.call.commitment).Ok? && m.balance + msg.value <= MAX_BALANCE
    requires TreeHolds(cfg, t, m.leaves + [msg.call.commitment])
    requires HistoryHolds(t.rootHistory, t.rootHistoryCursor, m.pushed + [t.currentRoot])
    requires t == s.(leaves := t.leaves, nodes := t.nodes, nextLeafIndex := t.nextLeafIndex, currentRoot := t.currentRoot,
                     rootHistory := t.rootHistory, rootHistoryCursor := t.rootHistoryCursor,
                     poolBalance := s.poolBalance + msg.value)
    ensures Next(cfg, m, msg).Ok? && Represents(cfg, t, After(cfg, m, msg))
  {
    InsertionRepresents(cfg, s, t, m, msg);
  }

  lemma RevealRepresents(cfg: Config, s: Storage, t: Storage, m: Ledger, msg: Message)
    requires Represents(cfg, s, m) && msg.call.RevealDeposit? && Reveal(cfg, m, msg).Ok?
    requires TreeHolds(cfg, t, m.leaves + [msg.call.revealed])
    requires HistoryHolds(t.rootHistory, t.rootHistoryCursor, m.pushed + [t.currentRoot])
    requires var c := msg.call.commitHash;
      t == s.(leaves := t.leaves, nodes := t.nodes, nextLeafIndex := t.nextLeafIndex, currentRoot := t.currentRoot,
              rootHistory := t.rootHistory, rootHistoryCursor := t.rootHistoryCursor,
              pendingCommits := s.pendingCommits[c := s.pendingCommits[c].(revealed := true)])
    ensures Next(cfg, m, msg).Ok? && Represents(cfg, t, After(cfg, m, msg))
  {
    InsertionRepresents(cfg, s, t, m, msg);
  }

  function ErrorOf<T>(r: Result<T>): Option<Error> {
    match r
    case Ok(_) => None
    case Err(e) => Some(e)
  }

  /** In a stored pool the full-tree guard, the missing-epoch unwrap and the already-finalised guard never fire. */
  lemma GuardsNeverFire(cfg: Config, s: Storage, m: Ledger)
    requires Represents(cfg, s, m)
    ensures s.nextLeafIndex < Pow2(cfg.depth)
    ensures s.currentEpoch in s.epochs && !s.epochs[s.currentEpoch].finalized
  {
  }

  /** What a stored pool says about its ledger, field by field. */
  lemma StoredFields(cfg: Config, s: Storage, m: Ledger)
    requires Represents(cfg, s, m)
    ensures s.nextLeafIndex == |m.leaves| && s.currentRoot == SparseRoot(cfg.h, cfg.depth, m.leaves)
    ensures forall c :: c in s.leaves <==> c in m.leaves
    ensures forall c :: c in s.leaves ==> s.leaves[c] < |m.leaves| && m.leaves[s.leaves[c]] == c
    ensures s.nullifiers == m.spent && s.poolBalance == m.balance && s.paused == m.paused && s.pendingCommits == m.commits
    ensures s.currentEpoch == |m.closed|
    ensures forall i: nat :: i < |m.closed| ==>
      && i in s.epochs && s.epochs[i].epochId == i && s.epochs[i].finalized
      && s.epochs[i].root == m.closed[i].root && s.epochs[i].blockFinalized == m.closed[i].block
  {
  }

  class Pool {
    const cfg: Config

    var leaves: map<Hash, nat>
    var nodes: Nodes
    var nextLeafIndex: nat
    var rootHistory: map<nat, Hash>
    var rootHistoryCursor: nat
    var currentRoot: Hash
    var nullifiers: set<Hash>
    var currentEpoch: nat
    var epochs: map<nat, EpochInfo>
    var poolBalance: nat
    var paused: bool
    var pendingCommits: map<Hash, CommitRecord>
    ghost var ledger: Ledger

    function Snapshot(): Storage
      reads this
    {
      Storage(leaves, nodes, nextLeafIndex, rootHistory, rootHistoryCursor, currentRoot, nullifiers,
              currentEpoch, epochs, poolBalance, paused, pendingCommits)
    }

    ghost predicate Valid()
      reads this
    {
      Represents(cfg, Snapshot(), ledger)
    }

    constructor (config: Config)
      ensures Valid() && cfg == config && ledger == Initial
    {
      cfg := config;
      leaves, nodes, nextLeafIndex := map[], map[], 0;
      rootHistory, rootHistoryCursor, currentRoot := map[], 0, ZERO;
      nullifiers, poolBalance, paused, pendingCommits := {}, 0, false, map[];
      currentEpoch, epochs := 0, map[0 := EpochInfo(0, ZERO, false, 0)];
      ledger := Initial;
      EmptyNodes(config.h, config.depth);
    }

    method IsKnownRoot(root: Hash, ghost m: Ledger) returns (known: bool)
      requires Represents(cfg, Snapshot(), m)
      ensures known <==> KnownRoot(cfg, m, root)
    {
      if root == currentRoot {
        return true;
      }
      HistoryIsRecent(rootHistory, rootHistoryCursor, m.pushed, root);
      for i := 0 to ROOT_HISTORY_SIZE
        invariant forall k: nat :: k < i && k in rootHistory ==> rootHistory[k] != root
      {
        if i in rootHistory && rootHistory[i] == root {
          return true;
        }
      }
      return false;
    }

    method PushRoot(ghost pushed: seq<Hash>)
      requires HistoryHolds(rootHistory, rootHistoryCursor, pushed)
      modifies this`rootHistory, this`rootHistoryCursor
      ensures HistoryHolds(rootHistory, rootHistoryCursor, pushed + [currentRoot])
    {
      PushHolds(rootHistory, rootHistoryCursor, pushed, currentRoot);
      rootHistory := rootHistory[rootHistoryCursor := currentRoot];
      rootHistoryCursor := (rootHistoryCursor + 1) % ROOT_HISTORY_SIZE;
    }

    /** Stores a commitment that is not in the tree yet; false when the leaf counter would overflow. */
    method InsertCommitment(cm: Hash, ghost ls: seq<Hash>) returns (ok: bool)
      requires TreeHolds(cfg, Snapshot(), ls) && |ls| < Pow2(cfg.depth) && cm !in ls
      modifies this`leaves, this`nodes, this`nextLeafIndex, this`currentRoot
      ensures ok == (|ls| + 1 < Pow2(cfg.depth))
      ensures ok ==> TreeHolds(cfg, Snapshot(), ls + [cm])
    {
      var idx := nextLeafIndex;
      leaves := leaves[cm := idx];
      nodes, currentRoot := UpdateTree(cfg.h, cfg.depth, nodes, cm, idx, ls);
      if idx + 1 >= Pow2(cfg.depth) {
        return false;
      }
      nextLeafIndex := idx + 1;
      return true;
    }

    /** Inserts one commitment and pushes the new root, or changes nothing on overflow. */
    method InsertAndPush(cm: Hash, ghost m: Ledger) returns (ok: bool)
      requires TreeHolds(cfg, Snapshot(), m.leaves) && |m.leaves| < Pow2(cfg.depth) && cm !in m.leaves
      requires HistoryHolds(rootHistory, rootHistoryCursor, m.pushed)
      modifies this`leaves, this`nodes, this`nextLeafIndex, this`currentRoot, this`rootHistory, this`rootHistoryCursor
      ensures ok == (|m.leaves| + 1 < Pow2(cfg.depth))
      ensures ok ==> TreeHolds(cfg, Snapshot(), m.leaves + [cm])
      ensures ok ==> HistoryHolds(rootHistory, rootHistoryCursor, m.pushed + [currentRoot])
      ensures !ok ==> Snapshot() == old(Snapshot())
    {
      var l, n, i, c := leaves, nodes, nextLeafIndex, currentRoot;
      ok := InsertCommitment(cm, m.leaves);
      if ok {
        PushRoot(m.pushed);
      } else {
        leaves, nodes, nextLeafIndex, currentRoot := l, n, i, c;
      }
    }

    /** Inserts an output unless it is already a leaf. */
    method InsertOutput(cm: Hash, ghost m: Ledger) returns (r: Result<()>)
      requires TreeHolds(cfg, Snapshot(), m.leaves) && |m.leaves| < Pow2(cfg.depth)
      modifies this`leaves, this`nodes, this`nextLeafIndex, this`currentRoot
      ensures match Insert(cfg, m, cm)
        case Err(e) => r == Err(e)
        case Ok(t) => r.Ok? && TreeHolds(cfg, Snapshot(), t.leaves)
    {
      if cm in leaves {
        return Err(DuplicateCommitment);
      }
      var ok := InsertCommitment(cm, m.leaves);
      return if ok then Ok(()) else Err(Trap);
    }

    method Deposit(msg: Message, ghost m: Ledger) returns (r: Result<nat>)
      requires Represents(cfg, Snapshot(), m) && msg.call.Deposit?
      modifies this`leaves, this`nodes, this`nextLeafIndex, this`currentRoot, this`rootHistory, this`rootHistoryCursor, this`poolBalance
      ensures match Next(cfg, m, msg)
        case Err(e) => r == Err(e) && Snapshot() == old(Snapshot())
        case Ok(t) => r == Ok(|m.leaves|) && Represents(cfg, Snapshot(), t)
    {
      if paused {
        return Err(PoolPaused);
      }
      if msg.value == 0 {
        return Err(ZeroAmount);
      }
      var commitment := msg.call.commitment;
      if commitment in leaves {
        return Err(DuplicateCommitment);
      }
      var leafIndex := nextLeafIndex;
      if leafIndex >= Pow2(cfg.depth) {
        return Err(TreeFull);
      }
      if poolBalance + msg.value > MAX_BALANCE {
        return Err(Trap);  // the source adds last, but an overflow undoes the whole message
      }
      ghost var before := Snapshot();
      var ok := InsertAndPush(commitment, m);
      if !ok {
        return Err(Trap);
      }
      poolBalance := poolBalance + msg.value;
      DepositRepresents(cfg, before, Snapshot(), m, msg);
      return Ok(leafIndex);
    }

    /** The checks in their order: size, alignment, not all zero, sane inputs, layout, tag. */
    method VerifyProofStructure(call: Call) returns (ok: bool)
      requires call.Transfer? || call.Withdraw?
      ensures ok <==> ProofOk(cfg, call)
    {
      var proof := call.proof;
      if |proof| < 192 || |proof| > 4096 || |proof| % 32 != 0 {
        return false;
      }
      var k := 0;
      while k < |proof| && proof[k] == 0
        invariant k <= |proof| && forall i :: 0 <= i < k ==> proof[i] == 0
      {
        k := k + 1;
      }
      if k == |proof| || call.n0 == call.n1 || call.n0 == ZERO || call.n1 == ZERO || call.c0 == ZERO || call.c1 == ZERO {
        return false;
      }
      var body := proof[32..];
      if |body| < 160 || (|body| - 96) % 64 != 0 {
        return false;
      }
      return proof[..32] == cfg.binding([call.n0, call.n1, call.c0, call.c1], body);
    }

    /** The common part of transfer and withdraw; a failed attempt is rolled back by the caller. */
    method Settle(call: Call, pay: nat, ghost m: Ledger) returns (r: Result<()>)
      requires Represents(cfg, Snapshot(), m) && (call.Transfer? || call.Withdraw?)
      modifies this`leaves, this`nodes, this`nextLeafIndex, this`currentRoot, this`nullifiers
      ensures match Exchange(cfg, m, call, pay)
        case Err(e) => r == Err(e)
        case Ok(t) => r.Ok? && TreeHolds(cfg, Snapshot(), m.leaves + [call.c0, call.c1]) && nullifiers == t.spent
      ensures r.Ok? ==> pay <= poolBalance
    {
      if paused {
        return Err(PoolPaused);
      }
      var known := IsKnownRoot(call.root, m);
      if !known {
        return Err(UnknownRoot);
      }
      if call.n0 in nullifiers || call.n1 in nullifiers {
        return Err(NullifierAlreadySpent);
      }
      var valid := VerifyProofStructure(call);
      if !valid {
        return Err(InvalidProof);
      }
      if pay > poolBalance {
        return Err(InsufficientFunds);
      }
      nullifiers := nullifiers + {call.n0} + {call.n1};
      assert nullifiers == m.spent + {call.n0, call.n1};
      r := InsertOutputs(call, m);
    }

    /** Withdrawals skip a zero output; after the proof check there is none. */
    method InsertOutputs(call: Call, ghost m: Ledger) returns (r: Result<()>)
      requires TreeHolds(cfg, Snapshot(), m.leaves) && |m.leaves| < Pow2(cfg.depth)
      requires (call.Transfer? || call.Withdraw?) && ProofOk(cfg, call)
      modifies this`leaves, this`nodes, this`nextLeafIndex, this`currentRoot
      ensures match Insert(cfg, m, call.c0)
        case Err(e) => r == Err(e)
        case Ok(t) => match Insert(cfg, t, call.c1)
          case Err(e) => r == Err(e)
          case Ok(_) => r.Ok? && TreeHolds(cfg, Snapshot(), m.leaves + [call.c0, call.c1])
    {
      ghost var t := m;
      r := Ok(());
      if call.Transfer? || call.c0 != ZERO {
        r := InsertOutput(call.c0, m);
        if r.Err? {
          return;
        }
        t := Insert(cfg, m, call.c0).value;
      }
      if call.Transfer? || call.c1 != ZERO {
        r := InsertOutput(call.c1, t);
      }
      assert m.leaves + [call.c0] + [call.c1] == m.leaves + [call.c0, call.c1];
    }

    /** `Settle`, or the runtime's rollback of what it wrote. */
    method Attempt(call: Call, pay: nat, ghost m: Ledger) returns (r: Result<()>)
      requires Represents(cfg, Snapshot(), m) && (call.Transfer? || call.Withdraw?)
      modifies this`leaves, this`nodes, this`nextLeafIndex, this`currentRoot, this`nullifiers
      ensures match Exchange(cfg, m, call, pay)
        case Err(e) => r == Err(e) && Snapshot() == old(Snapshot())
        case Ok(t) => r.Ok? && TreeHolds(cfg, Snapshot(), m.leaves + [call.c0, call.c1]) && nullifiers == t.spent
      ensures r.Ok? ==> pay <= poolBalance
    {
      var s := Snapshot();
      r := Settle(call, pay, m);
      if r.Err? {
        leaves, nodes, nextLeafIndex, currentRoot, nullifiers := s.leaves, s.nodes, s.nextLeafIndex, s.currentRoot, s.nullifiers;
      }
    }

    method PayAndPush(pay: nat, ghost m: Ledger, ghost ls: seq<Hash>)
      requires pay <= poolBalance && TreeHolds(cfg, Snapshot(), ls)
      requires HistoryHolds(rootHistory, rootHistoryCursor, m.pushed)
      modifies this`poolBalance, this`rootHistory, this`rootHistoryCursor
      ensures poolBalance == old(poolBalance) - pay && TreeHolds(cfg, Snapshot(), ls)
      ensures HistoryHolds(rootHistory, rootHistoryCursor, m.pushed + [currentRoot])
    {
      poolBalance := poolBalance - pay;
      PushRoot(m.pushed);
    }

    /** The two messages differ only in what they pay out, and in skipping zero outputs. */
    method TransferOrWithdraw(msg: Message, ghost m: Ledger) returns (r: Result<()>)
      requires Represents(cfg, Snapshot(), m) && (msg.call.Transfer? || msg.call.Withdraw?)
      modifies this`leaves, this`nodes, this`nextLeafIndex, this`currentRoot, this`rootHistory, this`rootHistoryCursor, this`poolBalance, this`nullifiers
      ensures match Next(cfg, m, msg)
        case Err(e) => r == Err(e) && Snapshot() == old(Snapshot())
        case Ok(t) => r.Ok? && Represents(cfg, Snapshot(), t)
    {
      ghost var before := Snapshot();
      NextIsExchange(cfg, m, msg);
      r := Attempt(msg.call, Pay(msg.call), m);
      if r.Err? {
        return;
      }
      PayAndPush(Pay(msg.call), m, m.leaves + [msg.call.c0, msg.call.c1]);
      ExchangeRepresents(cfg, before, Snapshot(), m, msg);
    }

    method CommitDeposit(msg: Message, ghost m: Ledger) returns (r: Result<()>)
      requires Represents(cfg, Snapshot(), m) && msg.call.CommitDeposit?
      modifies this`pendingCommits, this`poolBalance
      ensures match Next(cfg, m, msg)
        case Err(e) => r == Err(e) && Snapshot() == old(Snapshot())
        case Ok(t) => r.Ok? && Represents(cfg, Snapshot(), t)
    {
      var commitHash := msg.call.commitHash;
      if paused {
        return Err(PoolPaused);
      }
      if commitHash in pendingCommits {
        return Err(DuplicateCommit);
      }
      if msg.value == 0 {
        return Err(ZeroAmount);
      }
      if poolBalance + msg.value > MAX_BALANCE {
        return Err(Trap);
      }
      pendingCommits := pendingCommits[commitHash := CommitRecord(msg.caller, msg.block, false)];
      poolBalance := poolBalance + msg.value;
      return Ok(());
    }

    /** The checks of a reveal before it writes anything. */
    method CheckReveal(msg: Message, ghost m: Ledger) returns (r: Result<()>)
      requires Represents(cfg, Snapshot(), m) && msg.call.RevealDeposit?
      ensures r.Err? ==> Reveal(cfg, m, msg) == Err(r.error)
      ensures r.Ok? ==> msg.call.commitHash in m.commits && msg.call.revealed !in m.leaves
      ensures r.Ok? ==> (Reveal(cfg, m, msg) == match Insert(cfg, m, msg.call.revealed)
        case Err(e) => Err(e)
        case Ok(t) =>
          var c := msg.call.commitHash;
          Ok(Push(cfg, t.(commits := m.commits[c := m.commits[c].(revealed := true)]))))
    {
      if msg.call.commitHash !in pendingCommits {
        return Err(CommitNotFound);
      }
      var record := pendingCommits[msg.call.commitHash];
      if record.depositor != msg.caller {
        return Err(NotDepositor);
      }
      if record.revealed {
        return Err(AlreadyRevealed);
      }
      var elapsed := Elapsed(msg.block, record.block);
      if elapsed < MIN_COMMIT_DELAY {
        return Err(RevealTooEarly);
      }
      if elapsed > MAX_COMMIT_DELAY {
        return Err(CommitExpired);
      }
      if msg.call.revealed in leaves {
        return Err(DuplicateCommitment);
      }
      if nextLeafIndex >= Pow2(cfg.depth) {
        return Err(TreeFull);
      }
      return Ok(());
    }

    method RevealDeposit(msg: Message, ghost m: Ledger) returns (r: Result<nat>)
      requires Represents(cfg, Snapshot(), m) && msg.call.RevealDeposit?
      modifies this`leaves, this`nodes, this`nextLeafIndex, this`currentRoot, this`rootHistory, this`rootHistoryCursor, this`pendingCommits
      ensures match Next(cfg, m, msg)
        case Err(e) => r == Err(e) && Snapshot() == old(Snapshot())
        case Ok(t) => r == Ok(|m.leaves|) && Represents(cfg, Snapshot(), t)
    {
      var checked := CheckReveal(msg, m);
      if checked.Err? {
        return Err(checked.error);
      }
      ghost var before := Snapshot();
      var leafIndex, commitHash := nextLeafIndex, msg.call.commitHash;
      var record := pendingCommits[commitHash];
      var ok := InsertAndPush(msg.call.revealed, m);
      if !ok {
        return Err(Trap);  // undoes the whole message
      }
      pendingCommits := pendingCommits[commitHash := CommitRecord(record.depositor, record.block, true)];
      RevealRepresents(cfg, before, Snapshot(), m, msg);
      return Ok(leafIndex);
    }

    /** Marks an expired commit as used; the value stays in the pool. */
    method ReclaimExpiredCommit(msg: Message, ghost m: Ledger) returns (r: Result<()>)
      requires Represents(cfg, Snapshot(), m) && msg.call.ReclaimExpiredCommit?
      modifies this`pendingCommits
      ensures match Next(cfg, m, msg)
        case Err(e) => r == Err(e) && Snapshot() == old(Snapshot())
        case Ok(t) => r.Ok? && Represents(cfg, Snapshot(), t)
    {
      var commitHash := msg.call.commitHash;
      if commitHash !in pendingCommits {
        return Err(CommitNotFound);
      }
      var record := pendingCommits[commitHash];
      if record.revealed {
        return Err(AlreadyRevealed);
      }
      if Elapsed(msg.block, record.block) <= MAX_COMMIT_DELAY {
        return Err(CommitNotExpired);
      }
      pendingCommits := pendingCommits[commitHash := CommitRecord(record.depositor, record.block, true)];
      return Ok(());
    }

    /** Snapshots the root and opens the next epoch; the already-finalised guard never fires. */
    method FinalizeEpoch(msg: Message, ghost m: Ledger) returns (r: Result<nat>)
      requires Represents(cfg, Snapshot(), m) && msg.call.FinalizeEpoch?
      modifies this`currentEpoch, this`epochs
      ensures match Next(cfg, m, msg)
        case Err(e) => r == Err(e) && Snapshot() == old(Snapshot())
        case Ok(t) => r == Ok(|m.closed| + 1) && Represents(cfg, Snapshot(), t)
    {
      if msg.caller != cfg.governance {
        return Err(NotGovernance);
      }
      var id := currentEpoch;
      if epochs[id].finalized {
        return Err(EpochAlreadyFinalized);
      }
      ghost var before := Snapshot();
      epochs := epochs[id := EpochInfo(id, currentRoot, true, msg.block)];
      currentEpoch := id + 1;
      epochs := epochs[id + 1 := EpochInfo(id + 1, ZERO, false, 0)];
      FinalizeRepresents(cfg, before, Snapshot(), m, msg);
      return Ok(id + 1);
    }

    /** Pause and unpause. */
    method SetPaused(msg: Message, ghost m: Ledger) returns (r: Result<()>)
      requires Represents(cfg, Snapshot(), m) && msg.call.SetPaused?
      modifies this`paused
      ensures match Next(cfg, m, msg)
        case Err(e) => r == Err(e) && Snapshot() == old(Snapshot())
        case Ok(t) => r.Ok? && Represents(cfg, Snapshot(), t)
    {
      if msg.caller != cfg.governance {
        return Err(NotGovernance);
      }
      paused := msg.call.on;
      return Ok(());
    }

    /** The entry point: every message moves the ledger exactly as `Next` says, or changes nothing. */
    method Execute(msg: Message) returns (failed: Option<Error>)
      requires Valid()
      modifies this
      ensures Valid() && ledger == After(cfg, old(ledger), msg)
      ensures failed == match Next(cfg, old(ledger), msg) case Ok(_) => None case Err(e) => Some(e)
      ensures failed.Some? ==> Snapshot() == old(Snapshot())
    {
      failed := Dispatch(msg, ledger);
      ledger := After(cfg, ledger, msg);
    }

    method Dispatch(msg: Message, ghost m: Ledger) returns (failed: Option<Error>)
      requires Represents(cfg, Snapshot(), m)
      modifies this
      ensures ledger == old(ledger)
      ensures match Next(cfg, m, msg)
        case Err(e) => failed == Some(e) && Snapshot() == old(Snapshot())
        case Ok(t) => failed == None && Represents(cfg, Snapshot(), t)
    {
      match msg.call
      case Deposit(_) =>
        var r := Deposit(msg, m);
        return ErrorOf(r);
      case CommitDeposit(_) =>
        var r := CommitDeposit(msg, m);
        return ErrorOf(r);
      case RevealDeposit(_, _) =>
        var r := RevealDeposit(msg, m);
        return ErrorOf(r);
      case ReclaimExpiredCommit(_) =>
        var r := ReclaimExpiredCommit(msg, m);
        return ErrorOf(r);
      case FinalizeEpoch =>
        var r := FinalizeEpoch(msg, m);
        return ErrorOf(r);
      case SetPaused(_) =>
        var r := SetPaused(msg, m);
        return ErrorOf(r);
      case _ =>
        var r := TransferOrWithdraw(msg, m);
        return ErrorOf(r);
    }
  }
}
