/**
 The ink! pool as an abstract machine over its leaf sequence, the roots it has pushed, and the
 commit records of the two-phase deposit; and the theorems about every run of messages.
 */
module InkLedger {
  import opened Hashing
  import opened MerkleTree
  import opened SparseTree

  const ROOT_HISTORY_SIZE: nat := 100
  const MIN_COMMIT_DELAY: nat := 2
  const MAX_COMMIT_DELAY: nat := 100
  const MAX_BALANCE: nat := 0xFFFF_FFFF_FFFF_FFFF_FFFF_FFFF_FFFF_FFFF

  datatype Error =
    | DuplicateCommitment | TreeFull | InvalidProof | NullifierAlreadySpent | UnknownRoot | ZeroAmount
    | InsufficientFunds | EpochAlreadyFinalized | NotGovernance | PoolPaused | DuplicateCommit | CommitNotFound
    | RevealTooEarly | CommitExpired | AlreadyRevealed | NotDepositor | CommitNotExpired
    | Trap  // arithmetic overflow: the runtime aborts the message

  datatype Result<+T> = Ok(value: T) | Err(error: Error)

  /** `binding` is the tag keccak256 computes over the four public digests and the proof body. */
  datatype Config = Config(h: HashFn, depth: nat, governance: string, binding: (seq<Hash>, seq<int>) -> seq<int>)

  datatype CommitRecord = CommitRecord(depositor: string, block: nat, revealed: bool)

  datatype Call =
    | Deposit(commitment: Hash)
    | Transfer(proof: seq<int>, root: Hash, n0: Hash, n1: Hash, c0: Hash, c1: Hash)
    | Withdraw(proof: seq<int>, root: Hash, n0: Hash, n1: Hash, c0: Hash, c1: Hash, recipient: string, amount: nat)
    | CommitDeposit(commitHash: Hash)
    | RevealDeposit(commitHash: Hash, revealed: Hash)
    | ReclaimExpiredCommit(commitHash: Hash)
    | FinalizeEpoch
    | SetPaused(on: bool)

  /** A call with its caller, transferred value and block number. */
  datatype Message = Message(caller: string, value: nat, block: nat, call: Call)

  /** A closed epoch: the tree root at that time and the closing block. */
  datatype Closed = Closed(root: Hash, block: nat)

  datatype Ledger = Ledger(
    leaves: seq<Hash>, pushed: seq<Hash>, spent: set<Hash>, balance: nat, paused: bool,
    closed: seq<Closed>, commits: map<Hash, CommitRecord>)

  const Initial: Ledger := Ledger([], [], {}, 0, false, [], map[])

  // ----- The pieces of a message -----

  /** Size, layout, distinctness and binding checks on a proof. */
  predicate ProofOk(cfg: Config, call: Call)
    requires call.Transfer? || call.Withdraw?
  {
    && 192 <= |call.proof| <= 4096 && |call.proof| % 32 == 0
    && (exists k :: 0 <= k < |call.proof| && call.proof[k] != 0)
    && call.n0 != call.n1 && call.n0 != ZERO && call.n1 != ZERO
    && call.c0 != ZERO && call.c1 != ZERO
    && (|call.proof| - 32 - 96) % 64 == 0
    && call.proof[..32] == cfg.binding([call.n0, call.n1, call.c0, call.c1], call.proof[32..])
  }

  function Recent(pushed: seq<Hash>): seq<Hash> {
    if |pushed| <= ROOT_HISTORY_SIZE then pushed else pushed[|pushed| - ROOT_HISTORY_SIZE..]
  }

  ghost predicate KnownRoot(cfg: Config, s: Ledger, root: Hash) {
    root == SparseRoot(cfg.h, cfg.depth, s.leaves) || root in Recent(s.pushed)
  }

  /** The 32-bit leaf counter of a depth-32 tree must not overflow: at most 2^depth - 1 leaves. */
  function Insert(cfg: Config, s: Ledger, c: Hash): Result<Ledger> {
    if c in s.leaves then Err(DuplicateCommitment)
    else if |s.leaves| + 1 >= Pow2(cfg.depth) then Err(Trap)
    else Ok(s.(leaves := s.leaves + [c]))
  }

  ghost function Push(cfg: Config, s: Ledger): Ledger {
    s.(pushed := s.pushed + [SparseRoot(cfg.h, cfg.depth, s.leaves)])
  }

  function Receive(s: Ledger, value: nat): Result<Ledger> {
    if s.balance + value > MAX_BALANCE then Err(Trap) else Ok(s.(balance := s.balance + value))
  }

  function Elapsed(now: nat, block: nat): nat {
    if block <= now then now - block else 0
  }

  /** Two nullifiers out, two commitments in; `pay` is what leaves the pool. */
  ghost function Exchange(cfg: Config, s: Ledger, call: Call, pay: nat): Result<Ledger>
    requires call.Transfer? || call.Withdraw?
  {
    if s.paused then Err(PoolPaused)
    else if !KnownRoot(cfg, s, call.root) then Err(UnknownRoot)
    else if call.n0 in s.spent || call.n1 in s.spent then Err(NullifierAlreadySpent)
    else if !ProofOk(cfg, call) then Err(InvalidProof)
    else if pay > s.balance then Err(InsufficientFunds)
    else
      match Insert(cfg, s, call.c0)
      case Err(e) => Err(e)
      case Ok(t) =>
        match Insert(cfg, t, call.c1)
        case Err(e) => Err(e)
        case Ok(u) => Ok(Push(cfg, u.(spent := s.spent + {call.n0, call.n1}, balance := s.balance - pay)))
  }

  ghost function Reveal(cfg: Config, s: Ledger, m: Message): Result<Ledger>
    requires m.call.RevealDeposit?
  {
    var c := m.call.commitHash;
    if c !in s.commits then Err(CommitNotFound) else
    var record := s.commits[c];
    if record.depositor != m.caller then Err(NotDepositor)
    else if record.revealed then Err(AlreadyRevealed)
    else if Elapsed(m.block, record.block) < MIN_COMMIT_DELAY then Err(RevealTooEarly)
    else if Elapsed(m.block, record.block) > MAX_COMMIT_DELAY then Err(CommitExpired)
    else
      match Insert(cfg, s, m.call.revealed)
      case Err(e) => Err(e)
      case Ok(t) => Ok(Push(cfg, t.(commits := s.commits[c := record.(revealed := true)])))
  }

  ghost function Next(cfg: Config, s: Ledger, m: Message): Result<Ledger> {
    match m.call
    case Deposit(c) =>
      if s.paused then Err(PoolPaused)
      else if m.value == 0 then Err(ZeroAmount)
      else (
        match Insert(cfg, s, c)
        case Err(e) => Err(e)
        case Ok(t) =>
          match Receive(t, m.value)
          case Err(e) => Err(e)
          case Ok(u) => Ok(Push(cfg, u)))
    case Transfer(_, _, _, _, _, _) => Exchange(cfg, s, m.call, 0)
    case Withdraw(_, _, _, _, _, _, _, amount) => Exchange(cfg, s, m.call, amount)
    case CommitDeposit(c) =>
      if s.paused then Err(PoolPaused)
      else if c in s.commits then Err(DuplicateCommit)
      else if m.value == 0 then Err(ZeroAmount)
      else Receive(s.(commits := s.commits[c := CommitRecord(m.caller, m.block, false)]), m.value)
    case RevealDeposit(_, _) => Reveal(cfg, s, m)
    case ReclaimExpiredCommit(c) =>
      if c !in s.commits then Err(CommitNotFound)
      else if s.commits[c].revealed then Err(AlreadyRevealed)
      else if Elapsed(m.block, s.commits[c].block) <= MAX_COMMIT_DELAY then Err(CommitNotExpired)
      else Ok(s.(commits := s.commits[c := s.commits[c].(revealed := true)]))
    case FinalizeEpoch =>
      if m.caller != cfg.governance then Err(NotGovernance)
      else Ok(s.(closed := s.closed + [Closed(SparseRoot(cfg.h, cfg.depth, s.leaves), m.block)]))
    case SetPaused(on) =>
      if m.caller != cfg.governance then Err(NotGovernance) else Ok(s.(paused := on))
  }

  // ----- Exactly which proofs are accepted -----

  /** Accepted proofs hold a tag, a commitment, an evaluation and 1 to 62 rounds. */
  lemma ProofLength(cfg: Config, call: Call)
    requires (call.Transfer? || call.Withdraw?) && ProofOk(cfg, call)
    ensures exists k :: 1 <= k <= 62 && |call.proof| == 128 + 64 * k
  {
    var k := (|call.proof| - 128) / 64;
    assert |call.proof| == 128 + 64 * k;
  }

  /** A tag and a body are accepted exactly when inputs and body pass the checks and the tag is the one of both. */
  lemma ProofAcceptedIff(cfg: Config, call: Call, tag: seq<int>, body: seq<int>)
    requires (call.Transfer? || call.Withdraw?) && |tag| == 32 && call.proof == tag + body
    ensures ProofOk(cfg, call) <==>
      && call.n0 != ZERO && call.n1 != ZERO && call.c0 != ZERO && call.c1 != ZERO && call.n0 != call.n1
      && (exists k :: 1 <= k <= 62 && |body| == 96 + 64 * k)
      && (exists k :: 0 <= k < |call.proof| && call.proof[k] != 0)
      && tag == cfg.binding([call.n0, call.n1, call.c0, call.c1], body)
  {
    assert call.proof[..32] == tag && call.proof[32..] == body;
    if ProofOk(cfg, call) {
      ProofLength(cfg, call);
      var k :| 1 <= k <= 62 && |call.proof| == 128 + 64 * k;
      assert |body| == 96 + 64 * k;
    }
    if k :| 1 <= k <= 62 && |body| == 96 + 64 * k {
      assert |call.proof| == 32 * (4 + 2 * k) && |call.proof| - 32 - 96 == 64 * k;
    }
  }

  function DigestsOf(call: Call): seq<Hash>
    requires call.Transfer? || call.Withdraw?
  {
    [call.n0, call.n1, call.c0, call.c1]
  }

  /** One proof accepted for two calls: the same nullifiers and outputs, or two digest lists with one tag. */
  lemma ProofBinds(cfg: Config, a: Call, b: Call)
    requires (a.Transfer? || a.Withdraw?) && (b.Transfer? || b.Withdraw?) && a.proof == b.proof
    requires ProofOk(cfg, a) && ProofOk(cfg, b)
    ensures (a.n0 == b.n0 && a.n1 == b.n1 && a.c0 == b.c0 && a.c1 == b.c1)
         || (DigestsOf(a) != DigestsOf(b) && cfg.binding(DigestsOf(a), a.proof[32..]) == cfg.binding(DigestsOf(b), a.proof[32..]))
  {
    if DigestsOf(a) == DigestsOf(b) {
      assert DigestsOf(a)[0] == DigestsOf(b)[0] && DigestsOf(a)[1] == DigestsOf(b)[1];
      assert DigestsOf(a)[2] == DigestsOf(b)[2] && DigestsOf(a)[3] == DigestsOf(b)[3];
    }
  }

  // ----- Exactly which messages are accepted -----

  /** Exactly when a deposit is accepted. */
  lemma DepositAcceptedIff(cfg: Config, s: Ledger, m: Message)
    requires m.call.Deposit?
    ensures Next(cfg, s, m).Ok? <==>
      && !s.paused && m.value > 0 && m.call.commitment !in s.leaves && |s.leaves| + 1 < Pow2(cfg.depth)
      && s.balance + m.value <= 0xFFFF_FFFF_FFFF_FFFF_FFFF_FFFF_FFFF_FFFF
  {
  }

  /** Exactly when a commit is accepted. */
  lemma CommitAcceptedIff(cfg: Config, s: Ledger, m: Message)
    requires m.call.CommitDeposit?
    ensures Next(cfg, s, m).Ok? <==>
      && !s.paused && m.value > 0 && m.call.commitHash !in s.commits
      && s.balance + m.value <= 0xFFFF_FFFF_FFFF_FFFF_FFFF_FFFF_FFFF_FFFF
  {
  }

  /** A reveal: by the committer, 2 to 100 blocks after the commit, once, with a new leaf. The pause does not matter. */
  lemma RevealAcceptedIff(cfg: Config, s: Ledger, m: Message)
    requires m.call.RevealDeposit?
    ensures Next(cfg, s, m).Ok? <==>
      && m.call.commitHash in s.commits
      && (var r := s.commits[m.call.commitHash];
          r.depositor == m.caller && !r.revealed && 2 <= m.block - r.block <= 100)
      && m.call.revealed !in s.leaves && |s.leaves| + 1 < Pow2(cfg.depth)
  {
  }

  /** A reclaim: more than 100 blocks after the commit, of one not used; by anyone. */
  lemma ReclaimAcceptedIff(cfg: Config, s: Ledger, m: Message)
    requires m.call.ReclaimExpiredCommit?
    ensures Next(cfg, s, m).Ok? <==>
      && m.call.commitHash in s.commits
      && (var r := s.commits[m.call.commitHash]; !r.revealed && m.block - r.block > 100)
  {
  }

  /** Only governance finalises, pauses and unpauses, and it always can. */
  lemma GovernanceAcceptedIff(cfg: Config, s: Ledger, m: Message)
    requires m.call.FinalizeEpoch? || m.call.SetPaused?
    ensures Next(cfg, s, m).Ok? <==> m.caller == cfg.governance
  {
  }

  /** While paused nothing enters or leaves by deposit, commit, transfer or withdrawal; the rest goes on as before. */
  lemma PauseStops(cfg: Config, s: Ledger, m: Message)
    requires s.paused
    ensures if m.call.Deposit? || m.call.CommitDeposit? || m.call.Transfer? || m.call.Withdraw?
      then Next(cfg, s, m) == Err(PoolPaused)
      else Next(cfg, s, m).Ok? <==> Next(cfg, s.(paused := false), m).Ok?
  {
  }

  /** The reason a message is given for its refusal is true of the state it met. */
  lemma ErrorsAreTrue(cfg: Config, s: Ledger, m: Message)
    requires Next(cfg, s, m).Err?
    ensures match Next(cfg, s, m).error
      case PoolPaused => s.paused
      case ZeroAmount => (m.call.Deposit? || m.call.CommitDeposit?) && m.value == 0
      case UnknownRoot => (m.call.Transfer? || m.call.Withdraw?) && !KnownRoot(cfg, s, m.call.root)
      case NullifierAlreadySpent => (m.call.Transfer? || m.call.Withdraw?) && (m.call.n0 in s.spent || m.call.n1 in s.spent)
      case InvalidProof => (m.call.Transfer? || m.call.Withdraw?) && !ProofOk(cfg, m.call)
      case InsufficientFunds => m.call.Withdraw? && m.call.amount > s.balance
      case DuplicateCommitment =>
        (exists c :: c in LeavesOf(m.call) && c in s.leaves) || ((m.call.Transfer? || m.call.Withdraw?) && m.call.c0 == m.call.c1)
      case Trap =>
        || |s.leaves| + |LeavesOf(m.call)| >= Pow2(cfg.depth)
        || ((m.call.Deposit? || m.call.CommitDeposit?) && s.balance + m.value > MAX_BALANCE)
      case DuplicateCommit => m.call.CommitDeposit? && m.call.commitHash in s.commits
      case CommitNotFound => (m.call.RevealDeposit? || m.call.ReclaimExpiredCommit?) && m.call.commitHash !in s.commits
      case NotDepositor => m.call.RevealDeposit? && m.call.commitHash in s.commits && s.commits[m.call.commitHash].depositor != m.caller
      case AlreadyRevealed =>
        && (m.call.RevealDeposit? || m.call.ReclaimExpiredCommit?)
        && m.call.commitHash in s.commits && s.commits[m.call.commitHash].revealed
      case RevealTooEarly => m.call.RevealDeposit? && m.call.commitHash in s.commits && m.block - s.commits[m.call.commitHash].block < 2
      case CommitExpired => m.call.RevealDeposit? && m.call.commitHash in s.commits && m.block - s.commits[m.call.commitHash].block > 100
      case CommitNotExpired =>
        m.call.ReclaimExpiredCommit? && m.call.commitHash in s.commits && m.block - s.commits[m.call.commitHash].block <= 100
      case NotGovernance => (m.call.FinalizeEpoch? || m.call.SetPaused?) && m.caller != cfg.governance
      case _ => false
  {
    if Next(cfg, s, m).error == DuplicateCommitment {
      DuplicateIsTrue(cfg, s, m);
    }
  }

  lemma DuplicateIsTrue(cfg: Config, s: Ledger, m: Message)
    requires Next(cfg, s, m) == Err(DuplicateCommitment)
    ensures (exists c :: c in LeavesOf(m.call) && c in s.leaves) || ((m.call.Transfer? || m.call.Withdraw?) && m.call.c0 == m.call.c1)
  {
    if m.call.Transfer? || m.call.Withdraw? {
      assert m.call.c0 in LeavesOf(m.call) && m.call.c1 in LeavesOf(m.call);
    } else if m.call.Deposit? {
      assert m.call.commitment in LeavesOf(m.call);
    } else {
      assert m.call.revealed in LeavesOf(m.call);
    }
  }

  /** The ledger after an accepted message, field by field: everything that is not named is as it was. */
  lemma MessageEffect(cfg: Config, s: Ledger, m: Message)
    requires Next(cfg, s, m).Ok?
    ensures var t := After(cfg, s, m);
      match m.call
      case Deposit(c) => t == s.(leaves := s.leaves + [c], pushed := t.pushed, balance := s.balance + m.value)
      case RevealDeposit(h, c) =>
        && h in s.commits
        && t == s.(leaves := s.leaves + [c], pushed := t.pushed,
                   commits := s.commits[h := CommitRecord(s.commits[h].depositor, s.commits[h].block, true)])
      case CommitDeposit(h) =>
        t == s.(balance := s.balance + m.value, commits := s.commits[h := CommitRecord(m.caller, m.block, false)])
      case ReclaimExpiredCommit(h) =>
        h in s.commits && t == s.(commits := s.commits[h := CommitRecord(s.commits[h].depositor, s.commits[h].block, true)])
      case FinalizeEpoch => t == s.(closed := s.closed + [Closed(SparseRoot(cfg.h, cfg.depth, s.leaves), m.block)])
      case SetPaused(on) => t == s.(paused := on)
      case Transfer(_, _, n0, n1, c0, c1) =>
        t == s.(leaves := s.leaves + [c0, c1], pushed := t.pushed, spent := s.spent + {n0, n1})
      case Withdraw(_, _, n0, n1, c0, c1, _, amount) =>
        && amount <= s.balance
        && t == s.(leaves := s.leaves + [c0, c1], pushed := t.pushed, spent := s.spent + {n0, n1}, balance := s.balance - amount)
    ensures LeavesOf(m.call) != [] ==>
      After(cfg, s, m).pushed == s.pushed + [SparseRoot(cfg.h, cfg.depth, After(cfg, s, m).leaves)]
  {
    if m.call.Transfer? || m.call.Withdraw? {
      assert s.leaves + [m.call.c0] + [m.call.c1] == s.leaves + [m.call.c0, m.call.c1];
    }
  }

  /** Exactly when a transfer or a withdrawal is accepted. */
  lemma ExchangeAcceptedIff(cfg: Config, s: Ledger, m: Message)
    requires m.call.Transfer? || m.call.Withdraw?
    ensures Next(cfg, s, m).Ok? <==>
      && !s.paused && KnownRoot(cfg, s, m.call.root)
      && m.call.n0 !in s.spent && m.call.n1 !in s.spent && ProofOk(cfg, m.call)
      && (m.call.Withdraw? ==> m.call.amount <= s.balance)
      && m.call.c0 !in s.leaves && m.call.c1 !in s.leaves && m.call.c0 != m.call.c1
      && |s.leaves| + 2 < Pow2(cfg.depth)
  {
  }

  // ----- Runs -----

  ghost function After(cfg: Config, s: Ledger, m: Message): Ledger {
    match Next(cfg, s, m)
    case Ok(t) => t
    case Err(_) => s
  }

  ghost function Replay(cfg: Config, s: Ledger, ms: seq<Message>): Ledger
    decreases |ms|
  {
    if ms == [] then s else After(cfg, Replay(cfg, s, ms[..|ms| - 1]), ms[|ms| - 1])
  }

  ghost function Accepted(cfg: Config, s: Ledger, ms: seq<Message>): seq<Message>
    decreases |ms|
  {
    if ms == [] then []
    else
      var front, last := ms[..|ms| - 1], ms[|ms| - 1];
      Accepted(cfg, s, front) + if Next(cfg, Replay(cfg, s, front), last).Ok? then [last] else []
  }

  function LeavesOf(call: Call): seq<Hash> {
    match call
    case Deposit(c) => [c]
    case RevealDeposit(_, c) => [c]
    case Transfer(_, _, _, _, c0, c1) => [c0, c1]
    case Withdraw(_, _, _, _, c0, c1, _, _) => [c0, c1]
    case _ => []
  }

  function NullifiersOf(call: Call): seq<Hash> {
    if call.Transfer? || call.Withdraw? then [call.n0, call.n1] else []
  }

  function InsertedBy(ms: seq<Message>): seq<Hash> {
    if ms == [] then [] else InsertedBy(ms[..|ms| - 1]) + LeavesOf(ms[|ms| - 1].call)
  }

  function SpentBy(ms: seq<Message>): seq<Hash> {
    if ms == [] then [] else SpentBy(ms[..|ms| - 1]) + NullifiersOf(ms[|ms| - 1].call)
  }

  /** Deposits and commits both bring value in. */
  function PaidIn(ms: seq<Message>): nat {
    if ms == [] then 0
    else PaidIn(ms[..|ms| - 1]) + var m := ms[|ms| - 1]; if m.call.Deposit? || m.call.CommitDeposit? then m.value else 0
  }

  function PaidOut(ms: seq<Message>): nat {
    if ms == [] then 0
    else PaidOut(ms[..|ms| - 1]) + var m := ms[|ms| - 1]; if m.call.Withdraw? then m.call.amount else 0
  }

  function Count(p: Call -> bool, ms: seq<Message>): nat {
    if ms == [] then 0 else Count(p, ms[..|ms| - 1]) + if p(ms[|ms| - 1].call) then 1 else 0
  }

  // ----- Invariant -----

  ghost predicate Sound(cfg: Config, s: Ledger) {
    && |s.leaves| < Pow2(cfg.depth) && s.balance <= MAX_BALANCE
    && Distinct(s.leaves)
    && (if s.pushed == [] then s.leaves == []
        else s.pushed[|s.pushed| - 1] == SparseRoot(cfg.h, cfg.depth, s.leaves))
  }

  lemma ExchangeTrace(cfg: Config, s: Ledger, call: Call, pay: nat)
    requires Sound(cfg, s) && (call.Transfer? || call.Withdraw?) && Exchange(cfg, s, call, pay).Ok?
    ensures var t := Exchange(cfg, s, call, pay).value;
      && t.leaves == s.leaves + [call.c0, call.c1]
      && Distinct(t.leaves) && |t.leaves| < Pow2(cfg.depth)
      && t.pushed == s.pushed + [SparseRoot(cfg.h, cfg.depth, t.leaves)]
      && t.balance + pay == s.balance
  {
    assert s.leaves + [call.c0] + [call.c1] == s.leaves + [call.c0, call.c1];
  }

  /** What one accepted message does. */
  lemma StepTrace(cfg: Config, s: Ledger, m: Message)
    requires Sound(cfg, s) && Next(cfg, s, m).Ok?
    ensures var t, adds := After(cfg, s, m), LeavesOf(m.call);
      && Sound(cfg, t)
      && t.leaves == s.leaves + adds
      && t.pushed == (if adds == [] then s.pushed else s.pushed + [SparseRoot(cfg.h, cfg.depth, t.leaves)])
      && t.balance + (if m.call.Withdraw? then m.call.amount else 0)
         == s.balance + (if m.call.Deposit? || m.call.CommitDeposit? then m.value else 0)
  {
    if m.call.Transfer? {
      ExchangeTrace(cfg, s, m.call, 0);
    } else if m.call.Withdraw? {
      ExchangeTrace(cfg, s, m.call, m.call.amount);
    } else if LeavesOf(m.call) == [] {
      assert s.leaves + [] == s.leaves;
    }
  }

  /** An accepted message spends its nullifiers, which were distinct and unspent. */
  lemma StepSpends(cfg: Config, s: Ledger, m: Message)
    requires Next(cfg, s, m).Ok?
    ensures AddsFresh(s.spent, NullifiersOf(m.call), After(cfg, s, m).spent)
  {
  }

  /** Every reachable ledger is sound: in particular no commitment is ever in the tree twice. */
  lemma {:induction false} RunKeepsSound(cfg: Config, s: Ledger, ms: seq<Message>)
    requires Sound(cfg, s)
    ensures Sound(cfg, Replay(cfg, s, ms))
    decreases |ms|
  {
    if ms != [] {
      var front := ms[..|ms| - 1];
      RunKeepsSound(cfg, s, front);
      if Next(cfg, Replay(cfg, s, front), ms[|ms| - 1]).Ok? {
        StepTrace(cfg, Replay(cfg, s, front), ms[|ms| - 1]);
      }
    }
  }

  lemma SnocTrace(ms: seq<Message>, m: Message)
    ensures InsertedBy(ms + [m]) == InsertedBy(ms) + LeavesOf(m.call)
    ensures SpentBy(ms + [m]) == SpentBy(ms) + NullifiersOf(m.call)
    ensures PaidIn(ms + [m]) == PaidIn(ms) + if m.call.Deposit? || m.call.CommitDeposit? then m.value else 0
    ensures PaidOut(ms + [m]) == PaidOut(ms) + if m.call.Withdraw? then m.call.amount else 0
  {
    assert (ms + [m])[..|ms|] == ms;
  }

  /** The leaves of the accepted messages are the tree, in order; value in equals value out plus balance. */
  lemma {:induction false} RunTrace(cfg: Config, s: Ledger, ms: seq<Message>)
    requires Sound(cfg, s)
    ensures var t, a := Replay(cfg, s, ms), Accepted(cfg, s, ms);
      && t.leaves == s.leaves + InsertedBy(a)
      && t.balance + PaidOut(a) == s.balance + PaidIn(a)
    decreases |ms|
  {
    if ms == [] {
      assert s.leaves + [] == s.leaves;
    } else {
      var front, m := ms[..|ms| - 1], ms[|ms| - 1];
      RunKeepsSound(cfg, s, front);
      RunTrace(cfg, s, front);
      if Next(cfg, Replay(cfg, s, front), m).Ok? {
        StepTrace(cfg, Replay(cfg, s, front), m);
        SnocTrace(Accepted(cfg, s, front), m);
        Assoc(s.leaves, InsertedBy(Accepted(cfg, s, front)), LeavesOf(m.call));
      } else {
        assert Accepted(cfg, s, ms) == Accepted(cfg, s, front);
      }
    }
  }

  lemma Assoc(a: seq<Hash>, b: seq<Hash>, c: seq<Hash>)
    ensures (a + b) + c == a + (b + c)
  {
  }

  lemma AddsFreshTwice(s: set<Hash>, a: seq<Hash>, t: set<Hash>, b: seq<Hash>, u: set<Hash>)
    requires AddsFresh(s, a, t) && AddsFresh(t, b, u)
    ensures AddsFresh(s, a + b, u)
  {
    forall i, j | 0 <= i < j < |a + b|
      ensures (a + b)[i] != (a + b)[j]
    {
      assert i < |a| ==> a[i] in t;
      assert j >= |a| ==> b[j - |a|] in b;
    }
  }

  /** No run spends a nullifier twice, nor one that was spent before it; the spent set is all of them. */
  lemma {:induction false} NoDoubleSpend(cfg: Config, s: Ledger, ms: seq<Message>)
    ensures AddsFresh(s.spent, SpentBy(Accepted(cfg, s, ms)), Replay(cfg, s, ms).spent)
    decreases |ms|
  {
    if ms != [] {
      var front, m := ms[..|ms| - 1], ms[|ms| - 1];
      var t, a := Replay(cfg, s, front), Accepted(cfg, s, front);
      NoDoubleSpend(cfg, s, front);
      if Next(cfg, t, m).Ok? {
        StepSpends(cfg, t, m);
        SnocTrace(a, m);
        AddsFreshTwice(s.spent, SpentBy(a), t.spent, NullifiersOf(m.call), After(cfg, t, m).spent);
      } else {
        assert Accepted(cfg, s, ms) == a;
      }
    }
  }

  /** The leaf counter is deposits + reveals + 2 transfers + 2 withdrawals. */
  lemma {:induction false} LeafCount(ms: seq<Message>)
    ensures |InsertedBy(ms)| == Count((c: Call) => c.Deposit?, ms) + Count((c: Call) => c.RevealDeposit?, ms)
         + 2 * Count((c: Call) => c.Transfer?, ms) + 2 * Count((c: Call) => c.Withdraw?, ms)
    decreases |ms|
  {
    if ms != [] {
      LeafCount(ms[..|ms| - 1]);
    }
  }

  lemma NextLeafIndexCounts(cfg: Config, ms: seq<Message>)
    ensures var a := Accepted(cfg, Initial, ms);
      |Replay(cfg, Initial, ms).leaves|
      == Count((c: Call) => c.Deposit?, a) + Count((c: Call) => c.RevealDeposit?, a)
         + 2 * Count((c: Call) => c.Transfer?, a) + 2 * Count((c: Call) => c.Withdraw?, a)
  {
    RunTrace(cfg, Initial, ms);
    LeafCount(Accepted(cfg, Initial, ms));
  }

  /** From a fresh pool: the balance is what came in less what went out, and the spent set is what was spent. */
  lemma ValueFromFresh(cfg: Config, ms: seq<Message>)
    ensures var t, a := Replay(cfg, Initial, ms), Accepted(cfg, Initial, ms);
      && t.balance == PaidIn(a) - PaidOut(a)
      && Distinct(SpentBy(a)) && (forall x :: x in t.spent <==> x in SpentBy(a))
      && t.leaves == InsertedBy(a)
  {
    RunTrace(cfg, Initial, ms);
    NoDoubleSpend(cfg, Initial, ms);
  }

  // ----- Splitting a run -----

  lemma {:induction false} ReplaySplit(cfg: Config, s: Ledger, ms: seq<Message>, i: nat)
    requires i <= |ms|
    ensures Replay(cfg, s, ms) == Replay(cfg, Replay(cfg, s, ms[..i]), ms[i..])
    decreases |ms|
  {
    if i == |ms| {
      assert ms[..i] == ms;
    } else {
      var front := ms[..|ms| - 1];
      ReplaySplit(cfg, s, front, i);
      assert front[..i] == ms[..i] && front[i..] == ms[i..][..|ms| - i - 1];
    }
  }

  /** The ledger before message `i`. */
  ghost function Before(cfg: Config, ms: seq<Message>, i: nat): Ledger
    requires i <= |ms|
  {
    Replay(cfg, Initial, ms[..i])
  }

  ghost predicate AcceptedAt(cfg: Config, ms: seq<Message>, i: nat) {
    i < |ms| && Next(cfg, Before(cfg, ms, i), ms[i]).Ok?
  }

  // ----- Commit, reveal, reclaim -----

  predicate Commits(m: Message, c: Hash) {
    m.call.CommitDeposit? && m.call.commitHash == c
  }

  /** A reveal or a reclaim of `c`. */
  predicate Consumes(m: Message, c: Hash) {
    (m.call.RevealDeposit? || m.call.ReclaimExpiredCommit?) && m.call.commitHash == c
  }

  /** `use` comes in its window after `commit`; a reveal must come from the committer. */
  predicate InTime(commit: Message, use: Message) {
    if use.call.RevealDeposit?
    then use.caller == commit.caller && 2 <= use.block - commit.block <= 100
    else use.block - commit.block > 100
  }

  /** The later record of one hash: same depositor and block, revealed if it was. */
  predicate Continues(a: CommitRecord, b: CommitRecord) {
    b == a.(revealed := b.revealed) && (a.revealed ==> b.revealed)
  }

  lemma StepRecord(cfg: Config, s: Ledger, m: Message, c: Hash)
    requires c in s.commits
    ensures c in After(cfg, s, m).commits && Continues(s.commits[c], After(cfg, s, m).commits[c])
  {
  }

  lemma StepNewRecord(cfg: Config, s: Ledger, m: Message, c: Hash)
    requires c !in s.commits && c in After(cfg, s, m).commits
    ensures Next(cfg, s, m).Ok? && Commits(m, c)
    ensures After(cfg, s, m).commits[c] == CommitRecord(m.caller, m.block, false)
  {
  }

  /** A record never disappears, keeps its depositor and block, and is never un-revealed. */
  lemma {:induction false} RecordPersists(cfg: Config, s: Ledger, ms: seq<Message>, c: Hash)
    requires c in s.commits
    ensures c in Replay(cfg, s, ms).commits && Continues(s.commits[c], Replay(cfg, s, ms).commits[c])
    decreases |ms|
  {
    if ms != [] {
      RecordPersists(cfg, s, ms[..|ms| - 1], c);
      StepRecord(cfg, Replay(cfg, s, ms[..|ms| - 1]), ms[|ms| - 1], c);
    }
  }

  lemma LaterRecord(cfg: Config, ms: seq<Message>, i: nat, j: nat, c: Hash)
    requires i < j <= |ms| && c in After(cfg, Before(cfg, ms, i), ms[i]).commits
    ensures c in Before(cfg, ms, j).commits
    ensures After(cfg, Before(cfg, ms, i), ms[i]).commits[c].revealed ==> Before(cfg, ms, j).commits[c].revealed
  {
    assert ms[..i + 1][..i] == ms[..i];
    ReplaySplit(cfg, Initial, ms[..j], i + 1);
    assert ms[..j][..i + 1] == ms[..i + 1];
    RecordPersists(cfg, Before(cfg, ms, i + 1), ms[..j][i + 1..], c);
  }

  /** A commit hash is committed at most once in a run, even after its record was used up. */
  lemma CommittedOnce(cfg: Config, ms: seq<Message>, i: nat, j: nat, c: Hash)
    requires AcceptedAt(cfg, ms, i) && Commits(ms[i], c)
    requires AcceptedAt(cfg, ms, j) && Commits(ms[j], c)
    ensures i == j
  {
    if i < j {
      LaterRecord(cfg, ms, i, j, c);
    } else if j < i {
      LaterRecord(cfg, ms, j, i, c);
    }
  }

  /** A commit hash is consumed at most once: one reveal or one reclaim, never both. */
  lemma ConsumedOnce(cfg: Config, ms: seq<Message>, i: nat, j: nat, c: Hash)
    requires AcceptedAt(cfg, ms, i) && Consumes(ms[i], c)
    requires AcceptedAt(cfg, ms, j) && Consumes(ms[j], c)
    ensures i == j
  {
    if i < j {
      LaterRecord(cfg, ms, i, j, c);
    } else if j < i {
      LaterRecord(cfg, ms, j, i, c);
    }
  }

  /** Where a record comes from. */
  lemma {:induction false} RecordOrigin(cfg: Config, ms: seq<Message>, c: Hash) returns (i: nat)
    requires c in Replay(cfg, Initial, ms).commits
    ensures AcceptedAt(cfg, ms, i) && Commits(ms[i], c)
    ensures Replay(cfg, Initial, ms).commits[c].depositor == ms[i].caller
    ensures Replay(cfg, Initial, ms).commits[c].block == ms[i].block
    decreases |ms|
  {
    var n := |ms| - 1;
    var front := ms[..n];
    if c in Replay(cfg, Initial, front).commits {
      i := RecordOrigin(cfg, front, c);
      assert front[..i] == ms[..i];
      StepRecord(cfg, Replay(cfg, Initial, front), ms[n], c);
    } else {
      StepNewRecord(cfg, Replay(cfg, Initial, front), ms[n], c);
      i := n;
    }
  }

  lemma StepRevealed(cfg: Config, s: Ledger, m: Message, c: Hash)
    requires c in s.commits && After(cfg, s, m).commits[c].revealed && !s.commits[c].revealed
    ensures Next(cfg, s, m).Ok? && Consumes(m, c)
  {
  }

  /** Where a used record was used. */
  lemma {:induction false} RevealedOrigin(cfg: Config, ms: seq<Message>, c: Hash) returns (i: nat)
    requires c in Replay(cfg, Initial, ms).commits && Replay(cfg, Initial, ms).commits[c].revealed
    ensures AcceptedAt(cfg, ms, i) && Consumes(ms[i], c)
    decreases |ms|
  {
    var n := |ms| - 1;
    var front := ms[..n];
    var s := Replay(cfg, Initial, front);
    if c in s.commits && s.commits[c].revealed {
      i := RevealedOrigin(cfg, front, c);
      assert front[..i] == ms[..i];
    } else {
      if c in s.commits {
        StepRevealed(cfg, s, ms[n], c);
      } else {
        StepNewRecord(cfg, s, ms[n], c);
      }
      i := n;
    }
  }

  lemma RecordAfter(cfg: Config, ms: seq<Message>, i: nat, c: Hash)
    requires AcceptedAt(cfg, ms, i) && (Commits(ms[i], c) || Consumes(ms[i], c))
    ensures c in Replay(cfg, Initial, ms).commits
    ensures Consumes(ms[i], c) ==> Replay(cfg, Initial, ms).commits[c].revealed
  {
    var s := Before(cfg, ms, i);
    MessageEffect(cfg, s, ms[i]);
    assert c in After(cfg, s, ms[i]).commits;
    LaterRecord(cfg, ms, i, |ms|, c);
    assert ms[..|ms|] == ms;
  }

  /** `c` was committed by an accepted message of the run. */
  ghost predicate Committed(cfg: Config, ms: seq<Message>, c: Hash) {
    exists i: nat :: AcceptedAt(cfg, ms, i) && Commits(ms[i], c)
  }

  /** `c` was revealed or reclaimed by an accepted message of the run. */
  ghost predicate Consumed(cfg: Config, ms: seq<Message>, c: Hash) {
    exists i: nat :: AcceptedAt(cfg, ms, i) && Consumes(ms[i], c)
  }

  /** After any run there is a record exactly for each accepted commit, and it is used exactly if a use was accepted. */
  lemma RecordsOfRun(cfg: Config, ms: seq<Message>, c: Hash)
    ensures var commits := Replay(cfg, Initial, ms).commits;
      && (c in commits <==> Committed(cfg, ms, c))
      && (c in commits ==> (commits[c].revealed <==> Consumed(cfg, ms, c)))
  {
    if c in Replay(cfg, Initial, ms).commits {
      var i := RecordOrigin(cfg, ms, c);
      if Replay(cfg, Initial, ms).commits[c].revealed {
        var j := RevealedOrigin(cfg, ms, c);
      }
    }
    if Committed(cfg, ms, c) {
      var i: nat :| AcceptedAt(cfg, ms, i) && Commits(ms[i], c);
      RecordAfter(cfg, ms, i, c);
    }
    if Consumed(cfg, ms, c) {
      var i: nat :| AcceptedAt(cfg, ms, i) && Consumes(ms[i], c);
      RecordAfter(cfg, ms, i, c);
    }
  }

  /**
   An accepted reveal or reclaim follows an accepted commit of the same hash: a reveal by the same
   caller 2 to 100 blocks later, a reclaim more than 100 blocks later.
   */
  lemma ConsumedInTime(cfg: Config, ms: seq<Message>, j: nat, c: Hash)
    requires AcceptedAt(cfg, ms, j) && Consumes(ms[j], c)
    ensures exists i: nat :: i < j && AcceptedAt(cfg, ms, i) && Commits(ms[i], c) && InTime(ms[i], ms[j])
  {
    var i := RecordOrigin(cfg, ms[..j], c);
    assert ms[..j][..i] == ms[..i] && ms[..j][i] == ms[i];
    assert AcceptedAt(cfg, ms, i);
  }

  // ----- Roots and epochs -----

  predicate Pushes(call: Call) {
    LeavesOf(call) != []
  }

  lemma StepPushes(cfg: Config, s: Ledger, m: Message)
    requires Sound(cfg, s) && Next(cfg, s, m).Ok?
    ensures var t := After(cfg, s, m);
      s.pushed <= t.pushed && s.closed <= t.closed && |t.pushed| == |s.pushed| + if Pushes(m.call) then 1 else 0
  {
    StepTrace(cfg, s, m);
  }

  lemma CountSnoc(p: Call -> bool, ms: seq<Message>, m: Message)
    ensures Count(p, ms + [m]) == Count(p, ms) + if p(m.call) then 1 else 0
  {
    assert (ms + [m])[..|ms|] == ms;
  }

  /** Each accepted message that inserts leaves pushes one root; pushed roots and closed epochs are never rewritten. */
  lemma {:induction false} PushesPerRun(cfg: Config, s: Ledger, ms: seq<Message>)
    requires Sound(cfg, s)
    ensures var t := Replay(cfg, s, ms);
      && s.pushed <= t.pushed && s.closed <= t.closed
      && |t.pushed| == |s.pushed| + Count(Pushes, Accepted(cfg, s, ms))
    decreases |ms|
  {
    if ms != [] {
      var front, m := ms[..|ms| - 1], ms[|ms| - 1];
      PushesPerRun(cfg, s, front);
      RunKeepsSound(cfg, s, front);
      var a := Accepted(cfg, s, front);
      if Next(cfg, Replay(cfg, s, front), m).Ok? {
        StepPushes(cfg, Replay(cfg, s, front), m);
        CountSnoc(Pushes, a, m);
      } else {
        assert a + [] == a;
      }
    }
  }

  /** A pushed root is accepted until 100 further messages have pushed. */
  lemma RootRetention(cfg: Config, s: Ledger, ms: seq<Message>)
    requires Sound(cfg, s) && s.pushed != []
    requires Count(Pushes, Accepted(cfg, s, ms)) < 100
    ensures KnownRoot(cfg, Replay(cfg, s, ms), SparseRoot(cfg.h, cfg.depth, s.leaves))
  {
    PushesPerRun(cfg, s, ms);
    var t, k := Replay(cfg, s, ms), |s.pushed| - 1;
    assert t.pushed[k] == SparseRoot(cfg.h, cfg.depth, s.leaves);
    if |t.pushed| > ROOT_HISTORY_SIZE {
      assert Recent(t.pushed)[k - (|t.pushed| - ROOT_HISTORY_SIZE)] == t.pushed[k];
    }
  }

  /** What the last accepted pause or unpause said. */
  function LastPause(ms: seq<Message>): bool {
    if ms == [] then false
    else if ms[|ms| - 1].call.SetPaused? then ms[|ms| - 1].call.on
    else LastPause(ms[..|ms| - 1])
  }

  /** For each accepted finalisation, the number of leaves before it and its block. */
  function Closures(ms: seq<Message>): seq<(nat, nat)> {
    if ms == [] then []
    else
      var front, m := ms[..|ms| - 1], ms[|ms| - 1];
      Closures(front) + if m.call.FinalizeEpoch? then [(|InsertedBy(front)|, m.block)] else []
  }

  lemma ClosuresSnoc(ms: seq<Message>, m: Message)
    ensures Closures(ms + [m]) == Closures(ms) + if m.call.FinalizeEpoch? then [(|InsertedBy(ms)|, m.block)] else []
    ensures LastPause(ms + [m]) == if m.call.SetPaused? then m.call.on else LastPause(ms)
  {
    assert (ms + [m])[..|ms|] == ms;
  }

  ghost predicate ClosedAt(cfg: Config, closed: seq<Closed>, leaves: seq<Hash>, at: seq<(nat, nat)>) {
    && |closed| == |at|
    && (forall i :: 0 <= i < |at| ==>
          at[i].0 <= |leaves| && closed[i] == Closed(SparseRoot(cfg.h, cfg.depth, leaves[..at[i].0]), at[i].1))
  }

  lemma ClosedAtStep(cfg: Config, s: Ledger, a: seq<Message>, m: Message)
    requires Sound(cfg, s) && Next(cfg, s, m).Ok? && s.leaves == InsertedBy(a)
    requires s.paused == LastPause(a) && ClosedAt(cfg, s.closed, s.leaves, Closures(a))
    ensures var t := After(cfg, s, m);
      t.paused == LastPause(a + [m]) && ClosedAt(cfg, t.closed, t.leaves, Closures(a + [m]))
  {
    var t := After(cfg, s, m);
    MessageEffect(cfg, s, m);
    StepTrace(cfg, s, m);
    ClosuresSnoc(a, m);
    assert forall n :: 0 <= n <= |s.leaves| ==> t.leaves[..n] == s.leaves[..n];
    assert s.leaves[..|s.leaves|] == s.leaves;
  }

  /**
   After any run the pool is paused exactly if the last accepted pause message said so, and the closed
   epochs hold, one for each accepted finalisation, the sparse root of the leaves present and the block.
   */
  lemma {:induction false} PauseAndEpochsOfRun(cfg: Config, ms: seq<Message>)
    ensures var t, a := Replay(cfg, Initial, ms), Accepted(cfg, Initial, ms);
      t.paused == LastPause(a) && ClosedAt(cfg, t.closed, t.leaves, Closures(a))
    decreases |ms|
  {
    if ms != [] {
      var front, m := ms[..|ms| - 1], ms[|ms| - 1];
      var s, a := Replay(cfg, Initial, front), Accepted(cfg, Initial, front);
      PauseAndEpochsOfRun(cfg, front);
      RunKeepsSound(cfg, Initial, front);
      RunTrace(cfg, Initial, front);
      if Next(cfg, s, m).Ok? {
        ClosedAtStep(cfg, s, a, m);
      } else {
        assert Accepted(cfg, Initial, ms) == a;
      }
    }
  }

  // ----- Which roots are accepted -----

  /** The number of leaves in the tree at each push of a run. */
  function Cuts(ms: seq<Message>): seq<nat> {
    if ms == [] then []
    else Cuts(ms[..|ms| - 1]) + if Pushes(ms[|ms| - 1].call) then [|InsertedBy(ms)|] else []
  }

  /** `roots` are the sparse roots of the prefixes of `leaves` with these lengths. */
  ghost predicate PrefixRoots(cfg: Config, roots: seq<Hash>, leaves: seq<Hash>, cuts: seq<nat>) {
    && |roots| == |cuts|
    && (forall i :: 0 <= i < |cuts| ==> 0 < cuts[i] <= |leaves| && roots[i] == SparseRoot(cfg.h, cfg.depth, leaves[..cuts[i]]))
    && (forall i, j :: 0 <= i < j < |cuts| ==> cuts[i] < cuts[j])
  }

  lemma PrefixRootsPush(cfg: Config, roots: seq<Hash>, leaves: seq<Hash>, cuts: seq<nat>, adds: seq<Hash>)
    requires PrefixRoots(cfg, roots, leaves, cuts) && adds != []
    ensures PrefixRoots(cfg, roots + [SparseRoot(cfg.h, cfg.depth, leaves + adds)], leaves + adds, cuts + [|leaves + adds|])
  {
    var now := leaves + adds;
    assert now[..|now|] == now;
    forall i | 0 <= i < |cuts|
      ensures now[..cuts[i]] == leaves[..cuts[i]]
    {
    }
  }

  lemma StepPrefixRoots(cfg: Config, s: Ledger, a: seq<Message>, m: Message)
    requires Sound(cfg, s) && Next(cfg, s, m).Ok?
    requires s.leaves == InsertedBy(a) && PrefixRoots(cfg, s.pushed, s.leaves, Cuts(a))
    ensures var t := After(cfg, s, m);
      PrefixRoots(cfg, t.pushed, t.leaves, Cuts(a + [m]))
  {
    StepTrace(cfg, s, m);
    SnocTrace(a, m);
    CutsSnoc(a, m);
    if Pushes(m.call) {
      PrefixRootsPush(cfg, s.pushed, s.leaves, Cuts(a), LeavesOf(m.call));
    } else {
      assert s.leaves + [] == s.leaves;
    }
  }

  /** The roots pushed over a run are the sparse roots of ever longer prefixes of its leaves, one for each push. */
  lemma {:induction false} PushedRootsArePrefixRoots(cfg: Config, ms: seq<Message>)
    ensures var t := Replay(cfg, Initial, ms);
      PrefixRoots(cfg, t.pushed, t.leaves, Cuts(Accepted(cfg, Initial, ms)))
    decreases |ms|
  {
    if ms != [] {
      var front, m := ms[..|ms| - 1], ms[|ms| - 1];
      var s, a := Replay(cfg, Initial, front), Accepted(cfg, Initial, front);
      PushedRootsArePrefixRoots(cfg, front);
      RunKeepsSound(cfg, Initial, front);
      if Next(cfg, s, m).Ok? {
        RunTrace(cfg, Initial, front);
        StepPrefixRoots(cfg, s, a, m);
      } else {
        assert Accepted(cfg, Initial, ms) == a;
      }
    }
  }

  lemma CutsSnoc(ms: seq<Message>, m: Message)
    ensures Cuts(ms + [m]) == Cuts(ms) + if Pushes(m.call) then [|InsertedBy(ms + [m])|] else []
  {
    assert (ms + [m])[..|ms|] == ms;
  }

  /** The accepted prefix lengths: those of the last 100 pushes, or of the empty tree before the first. */
  function Window(cuts: seq<nat>): seq<nat> {
    if cuts == [] then [0]
    else if |cuts| <= 100 then cuts
    else cuts[|cuts| - 100..]
  }

  /** `root` is the sparse root of the prefix of one of these lengths. */
  ghost predicate OfPrefix(cfg: Config, leaves: seq<Hash>, lengths: seq<nat>, root: Hash) {
    exists i :: 0 <= i < |lengths| && lengths[i] <= |leaves| && root == SparseRoot(cfg.h, cfg.depth, leaves[..lengths[i]])
  }

  /** After any run, the accepted roots are exactly the sparse roots of the prefixes in the window. */
  lemma KnownRootIff(cfg: Config, ms: seq<Message>, root: Hash)
    ensures var t, w := Replay(cfg, Initial, ms), Window(Cuts(Accepted(cfg, Initial, ms)));
      KnownRoot(cfg, t, root) <==> OfPrefix(cfg, t.leaves, w, root)
  {
    var t, cuts := Replay(cfg, Initial, ms), Cuts(Accepted(cfg, Initial, ms));
    PushedRootsArePrefixRoots(cfg, ms);
    RunKeepsSound(cfg, Initial, ms);
    WindowIsRecent(cfg, t.pushed, t.leaves, cuts, root);
  }

  lemma WindowIsRecent(cfg: Config, pushed: seq<Hash>, leaves: seq<Hash>, cuts: seq<nat>, root: Hash)
    requires PrefixRoots(cfg, pushed, leaves, cuts) && (pushed == [] ==> leaves == [])
    requires pushed != [] ==> pushed[|pushed| - 1] == SparseRoot(cfg.h, cfg.depth, leaves)
    ensures root == SparseRoot(cfg.h, cfg.depth, leaves) || root in Recent(pushed)
       <==> OfPrefix(cfg, leaves, Window(cuts), root)
  {
    var w, r := Window(cuts), Recent(pushed);
    if pushed == [] {
      assert w[0] == 0 && leaves[..0] == leaves;
    } else {
      assert |w| == |r| && r[|r| - 1] == SparseRoot(cfg.h, cfg.depth, leaves);
      assert forall i :: 0 <= i < |r| ==> w[i] <= |leaves| && r[i] == SparseRoot(cfg.h, cfg.depth, leaves[..w[i]]);
    }
  }

  /** `root` is the sparse root of the first `k` leaves; each of them opens against it, and no other value at its position does. */
  ghost predicate Opens(cfg: Config, leaves: seq<Hash>, k: nat, root: Hash)
    requires k <= |leaves|
  {
    && root == SparseRoot(cfg.h, cfg.depth, leaves[..k])
    && (forall i: nat :: i < k ==>
          Fold(cfg.h, leaves[i], i, SparsePath(cfg.h, leaves[..k], 0, i, cfg.depth)) == root)
    && (forall x, i: nat, siblings ::
          |siblings| == cfg.depth && i < Pow2(cfg.depth) && Fold(cfg.h, x, i, siblings) == root ==>
          || x == LeafAt(leaves[..k], i)
          || IsCollision(cfg.h, SparseMeeting(cfg.h, leaves[..k], 0, x, i, siblings))
          || (i >= k && HitsZero(cfg.h)))
  }

  lemma PrefixOpens(cfg: Config, leaves: seq<Hash>, k: nat)
    requires k <= |leaves| < Pow2(cfg.depth)
    ensures Opens(cfg, leaves, k, SparseRoot(cfg.h, cfg.depth, leaves[..k]))
  {
    var root := SparseRoot(cfg.h, cfg.depth, leaves[..k]);
    forall i: nat | i < k
      ensures Fold(cfg.h, leaves[i], i, SparsePath(cfg.h, leaves[..k], 0, i, cfg.depth)) == root
    {
      EverySparseLeafHasAPath(cfg.h, cfg.depth, leaves[..k], i);
    }
    forall x, i: nat, siblings | |siblings| == cfg.depth && i < Pow2(cfg.depth) && Fold(cfg.h, x, i, siblings) == root
      ensures x == LeafAt(leaves[..k], i) || IsCollision(cfg.h, SparseMeeting(cfg.h, leaves[..k], 0, x, i, siblings))
           || (i >= k && HitsZero(cfg.h))
    {
      PathBindsSparseLeaf(cfg.h, cfg.depth, leaves[..k], x, i, siblings);
    }
  }

  /** After any run, every accepted root is the sparse root of a prefix of the leaves, and opens to it. */
  lemma KnownRootOpens(cfg: Config, ms: seq<Message>, root: Hash)
    requires KnownRoot(cfg, Replay(cfg, Initial, ms), root)
    ensures var t, w := Replay(cfg, Initial, ms), Window(Cuts(Accepted(cfg, Initial, ms)));
      exists i :: 0 <= i < |w| && w[i] <= |t.leaves| && Opens(cfg, t.leaves, w[i], root)
  {
    var t, w := Replay(cfg, Initial, ms), Window(Cuts(Accepted(cfg, Initial, ms)));
    KnownRootIff(cfg, ms, root);
    RunKeepsSound(cfg, Initial, ms);
    var i :| 0 <= i < |w| && w[i] <= |t.leaves| && root == SparseRoot(cfg.h, cfg.depth, t.leaves[..w[i]]);
    PrefixOpens(cfg, t.leaves, w[i]);
  }
}
