/** Note selection of the TypeScript and Python wallets: the largest notes first, until the target is met. */
module NoteWallet {
  import opened Wrappers
  import opened Subsequence

  datatype Note = Note(id: string, value: int, spent: bool)

  datatype Selection = Selection(selected: seq<Note>, change: int)

  function Sum(notes: seq<Note>): int {
    if notes == [] then 0 else Sum(notes[..|notes| - 1]) + notes[|notes| - 1].value
  }

  function Unspent(notes: seq<Note>): seq<Note> {
    if notes == [] then []
    else
      var front, last := Unspent(notes[..|notes| - 1]), notes[|notes| - 1];
      if last.spent then front else front + [last]
  }

  predicate IsUnspent(n: Note) {
    !n.spent
  }

  ghost predicate TakenAt(taken: seq<Note>, notes: seq<Note>, at: seq<nat>) {
    |taken| == |at| && forall i :: 0 <= i < |at| ==> at[i] < |notes| && taken[i] == notes[at[i]]
  }

  lemma TakenLonger(taken: seq<Note>, front: seq<Note>, n: Note, at: seq<nat>)
    requires TakenAt(taken, front, at)
    ensures TakenAt(taken, front + [n], at) && TakenAt(taken + [n], front + [n], at + [|front|])
  {
  }

  /** `Unspent` is the subsequence of the notes that are not spent: all of them, once, in wallet order. */
  lemma {:induction false} UnspentIsSubsequence(notes: seq<Note>) returns (at: seq<nat>)
    ensures Picks(notes, IsUnspent, at) && TakenAt(Unspent(notes), notes, at)
    decreases |notes|
  {
    if notes == [] {
      return [];
    }
    var n := |notes| - 1;
    var front := UnspentIsSubsequence(notes[..n]);
    assert notes == notes[..n] + [notes[n]];
    TakenLonger(Unspent(notes[..n]), notes[..n], notes[n], front);
    if notes[n].spent {
      at := front;
      SkipLast(notes[..n], notes[n], IsUnspent, front);
    } else {
      at := front + [n];
      PickLast(notes[..n], notes[n], IsUnspent, front);
    }
  }

  /** Any choice of notes, each at most as often as it is held. */
  ghost predicate ChosenFrom(chosen: seq<Note>, notes: seq<Note>) {
    multiset(chosen) <= multiset(notes)
  }

  // ----- Sorting -----

  ghost predicate Descending(notes: seq<Note>) {
    forall i, j :: 0 <= i < j < |notes| ==> notes[i].value >= notes[j].value
  }

  /** Stable insertion: after everything that is not smaller. */
  function InsertDescending(notes: seq<Note>, n: Note): seq<Note> {
    if notes == [] then [n]
    else
      var k := |notes| - 1;
      if notes[k].value >= n.value then notes + [n] else InsertDescending(notes[..k], n) + [notes[k]]
  }

  function SortDescending(notes: seq<Note>): seq<Note> {
    if notes == [] then [] else InsertDescending(SortDescending(notes[..|notes| - 1]), notes[|notes| - 1])
  }

  lemma {:induction false} InsertFloor(notes: seq<Note>, n: Note, v: int)
    requires n.value >= v && forall i :: 0 <= i < |notes| ==> notes[i].value >= v
    ensures forall i :: 0 <= i < |InsertDescending(notes, n)| ==> InsertDescending(notes, n)[i].value >= v
    decreases |notes|
  {
    if notes != [] {
      InsertFloor(notes[..|notes| - 1], n, v);
    }
  }

  lemma {:induction false} InsertSorts(notes: seq<Note>, n: Note)
    requires Descending(notes)
    ensures Descending(InsertDescending(notes, n))
    decreases |notes|
  {
    if notes != [] {
      var k := |notes| - 1;
      if notes[k].value < n.value {
        InsertSorts(notes[..k], n);
        InsertFloor(notes[..k], n, notes[k].value);
      }
    }
  }

  lemma {:induction false} InsertCounts(notes: seq<Note>, n: Note)
    ensures multiset(InsertDescending(notes, n)) == multiset(notes) + multiset{n}
    decreases |notes|
  {
    if notes != [] {
      var k := |notes| - 1;
      assert notes == notes[..k] + [notes[k]];
      InsertCounts(notes[..k], n);
    }
  }

  lemma {:induction false} SortSorts(notes: seq<Note>)
    ensures Descending(SortDescending(notes))
    ensures multiset(SortDescending(notes)) == multiset(notes)
    decreases |notes|
  {
    if notes != [] {
      var k := |notes| - 1;
      assert notes == notes[..k] + [notes[k]];
      SortSorts(notes[..k]);
      InsertSorts(SortDescending(notes[..k]), notes[k]);
      InsertCounts(SortDescending(notes[..k]), notes[k]);
    }
  }

  /** The notes of one value, in order. */
  function OfValue(notes: seq<Note>, v: int): seq<Note> {
    if notes == [] then []
    else
      var front, last := OfValue(notes[..|notes| - 1], v), notes[|notes| - 1];
      if last.value == v then front + [last] else front
  }

  lemma OfValueAppend(notes: seq<Note>, n: Note, v: int)
    ensures OfValue(notes + [n], v) == OfValue(notes, v) + if n.value == v then [n] else []
  {
    assert (notes + [n])[..|notes|] == notes;
  }

  /** Putting `last` behind an inserted `n` of another value is inserting `n` behind `last`. */
  lemma OfValueStep(front: seq<Note>, last: Note, n: Note, inserted: seq<Note>, v: int)
    requires OfValue(inserted, v) == OfValue(front + [n], v) && last.value != n.value
    ensures OfValue(inserted + [last], v) == OfValue(front + [last] + [n], v)
  {
    OfValueAppend(inserted, last, v);
    OfValueAppend(front, n, v);
    OfValueAppend(front, last, v);
    OfValueAppend(front + [last], n, v);
  }

  lemma InsertBefore(front: seq<Note>, last: Note, n: Note)
    requires last.value < n.value
    ensures InsertDescending(front + [last], n) == InsertDescending(front, n) + [last]
  {
    assert (front + [last])[..|front|] == front;
  }

  lemma {:induction false} InsertIsStable(notes: seq<Note>, n: Note, v: int)
    ensures OfValue(InsertDescending(notes, n), v) == OfValue(notes + [n], v)
    decreases |notes|
  {
    if notes == [] {
      assert notes + [n] == [n];
    } else if notes[|notes| - 1].value < n.value {
      var front, last := notes[..|notes| - 1], notes[|notes| - 1];
      InsertIsStable(front, n, v);
      OfValueStep(front, last, n, InsertDescending(front, n), v);
      InsertBefore(front, last, n);
      assert notes == front + [last];
    }
  }

  /** Sorting keeps notes of equal value in wallet order. */
  lemma {:induction false} SortIsStable(notes: seq<Note>, v: int)
    ensures OfValue(SortDescending(notes), v) == OfValue(notes, v)
    decreases |notes|
  {
    if notes != [] {
      var k := |notes| - 1;
      SortIsStable(notes[..k], v);
      InsertIsStable(SortDescending(notes[..k]), notes[k], v);
      OfValueAppend(SortDescending(notes[..k]), notes[k], v);
    }
  }

  // ----- The exchange argument -----

  lemma {:induction false} SumAppend(a: seq<Note>, b: seq<Note>)
    ensures Sum(a + b) == Sum(a) + Sum(b)
    decreases |b|
  {
    if b == [] {
      assert a + b == a;
    } else {
      SumAppend(a, b[..|b| - 1]);
      assert (a + b)[..|a + b| - 1] == a + b[..|b| - 1];
    }
  }

  lemma SumNext(s: seq<Note>, n: nat)
    requires n < |s|
    ensures s[..n + 1] == s[..n] + [s[n]] && Sum(s[..n + 1]) == Sum(s[..n]) + s[n].value
  {
    assert s[..n + 1][..n] == s[..n];
  }

  lemma {:induction false} SumShift(s: seq<Note>, n: nat)
    requires Descending(s) && n < |s|
    ensures Sum(s[1..n + 1]) <= Sum(s[..n])
    decreases n
  {
    if n > 0 {
      var tail := s[1..];
      SumShift(s, n - 1);
      assert s[1..n] == tail[..n - 1] && s[1..n + 1] == tail[..n];
      SumNext(tail, n - 1);
      SumNext(s, n - 1);
    }
  }

  function RemoveAt(chosen: seq<Note>, k: nat): seq<Note>
    requires k < |chosen|
  {
    chosen[..k] + chosen[k + 1..]
  }

  lemma SumOne(n: Note)
    ensures Sum([n]) == n.value
  {
    assert [n][..0] == [];
  }

  lemma SumRemove(chosen: seq<Note>, k: nat)
    requires k < |chosen|
    ensures Sum(chosen) == chosen[k].value + Sum(RemoveAt(chosen, k))
  {
    SumNext(chosen, k);
    assert chosen == chosen[..k + 1] + chosen[k + 1..];
    SumAppend(chosen[..k + 1], chosen[k + 1..]);
    SumAppend(chosen[..k], chosen[k + 1..]);
  }

  lemma RemoveChosen(head: Note, tail: seq<Note>, chosen: seq<Note>, k: nat)
    requires k < |chosen| && chosen[k] == head && ChosenFrom(chosen, [head] + tail)
    ensures ChosenFrom(RemoveAt(chosen, k), tail)
  {
    assert chosen == chosen[..k] + [head] + chosen[k + 1..];
    assert multiset(chosen) == multiset(RemoveAt(chosen, k)) + multiset{head};
    assert multiset([head] + tail) == multiset{head} + multiset(tail);
    forall x
      ensures multiset(RemoveAt(chosen, k))[x] <= multiset(tail)[x]
    {
      assert multiset(chosen)[x] <= multiset([head] + tail)[x];
    }
  }

  lemma SkipChosen(head: Note, tail: seq<Note>, chosen: seq<Note>)
    requires head !in chosen && ChosenFrom(chosen, [head] + tail)
    ensures ChosenFrom(chosen, tail)
  {
    assert multiset([head] + tail) == multiset{head} + multiset(tail);
    assert head !in multiset(chosen);
  }

  lemma BestWithHead(head: Note, tail: seq<Note>, chosen: seq<Note>, k: nat)
    requires k < |chosen| && chosen[k] == head && Beaten(tail, RemoveAt(chosen, k))
    ensures Beaten([head] + tail, chosen)
  {
    SumRemove(chosen, k);
    HeadFirst(head, tail, |chosen| - 1);
  }

  lemma BestWithoutHead(s: seq<Note>, chosen: seq<Note>)
    requires s != [] && Descending(s) && Beaten(s[1..], chosen)
    ensures Beaten(s, chosen)
  {
    assert s[1..][..|chosen|] == s[1..|chosen| + 1];
    SumShift(s, |chosen|);
  }

  lemma HeadTail(s: seq<Note>)
    requires s != [] && Descending(s)
    ensures s == [s[0]] + s[1..] && Descending(s[1..])
  {
  }

  lemma NothingChosen(chosen: seq<Note>)
    requires ChosenFrom(chosen, [])
    ensures chosen == []
  {
    var none: seq<Note> := [];
    assert |chosen| > 0 ==> multiset(chosen)[chosen[0]] > 0;
    assert |chosen| > 0 ==> multiset(chosen)[chosen[0]] <= multiset(none)[chosen[0]];
    assert |none| == 0;
  }

  /** The predicate the induction is about: `chosen` is worth no more than as many of the first notes of `s`. */
  ghost predicate Beaten(s: seq<Note>, chosen: seq<Note>) {
    |chosen| <= |s| && Sum(chosen) <= Sum(s[..|chosen|])
  }

  /** No choice of n notes is worth more than the n largest. */
  lemma {:induction false} LargestAreBest(s: seq<Note>, chosen: seq<Note>)
    requires Descending(s) && ChosenFrom(chosen, s)
    ensures Beaten(s, chosen)
    decreases |s|
  {
    if s == [] {
      NothingChosen(chosen);
    } else {
      HeadTail(s);
      if s[0] in chosen {
        var k: nat :| k < |chosen| && chosen[k] == s[0];
        RemoveChosen(s[0], s[1..], chosen, k);
        LargestAreBest(s[1..], RemoveAt(chosen, k));
        BestWithHead(s[0], s[1..], chosen, k);
      } else {
        SkipChosen(s[0], s[1..], chosen);
        LargestAreBest(s[1..], chosen);
        BestWithoutHead(s, chosen);
      }
    }
  }

  lemma HeadFirst(head: Note, tail: seq<Note>, n: nat)
    requires n <= |tail|
    ensures Sum(([head] + tail)[..n + 1]) == head.value + Sum(tail[..n])
  {
    assert ([head] + tail)[..n + 1] == [head] + tail[..n];
    SumAppend([head], tail[..n]);
    SumOne(head);
  }

  // ----- Selection -----

  /** `n` is the least number of the largest notes that reaches the target. */
  ghost predicate LeastPrefix(s: seq<Note>, target: int, n: nat) {
    && n <= |s| && Sum(s[..n]) >= target
    && forall k :: 0 <= k < n ==> Sum(s[..k]) < target
  }

  /** The TypeScript loop: stop before a note once the target is met. */
  method TakeUntil(sorted: seq<Note>, target: int) returns (selected: seq<Note>, total: int)
    ensures selected <= sorted && selected == sorted[..|selected|] && total == Sum(selected)
    ensures total >= target ==> LeastPrefix(sorted, target, |selected|)
    ensures total < target ==> Short(sorted, target)
  {
    selected, total := [], 0;
    for n := 0 to |sorted|
      invariant selected == sorted[..n] && total == Sum(sorted[..n])
      invariant forall k :: 0 <= k < n ==> Sum(sorted[..k]) < target
    {
      if total >= target {
        return;
      }
      SumNext(sorted, n);
      selected := selected + [sorted[n]];
      total := total + sorted[n].value;
    }
  }

  method SelectNotesForSpend(notes: seq<Note>, target: int) returns (r: Option<Selection>)
    ensures var s := SortDescending(Unspent(notes));
      match r
      case None => Short(s, target)
      case Some(x) =>
        LeastPrefix(s, target, |x.selected|) && x == Selection(s[..|x.selected|], Sum(x.selected) - target)
  {
    var unspent := SortDescending(Unspent(notes));
    var selected, total := TakeUntil(unspent, target);
    if total < target {
      return None;
    }
    return Some(Selection(selected, total - target));
  }

  /** No first few notes, one at least and fewer than `n`, reach the target. */
  ghost predicate ShortUpTo(s: seq<Note>, target: int, n: nat) {
    forall k :: 1 <= k < n && k <= |s| ==> Sum(s[..k]) < target
  }

  lemma ShortOneMore(s: seq<Note>, target: int, n: nat)
    requires ShortUpTo(s, target, n) && n <= |s| && Sum(s[..n]) < target
    ensures ShortUpTo(s, target, n + 1)
  {
  }

  /** The Python loop: take a note, then test. */
  method TakeAndTest(sorted: seq<Note>, target: int) returns (r: Option<seq<Note>>)
    ensures match r
      case None => ShortUpTo(sorted, target, |sorted| + 1)
      case Some(x) => 1 <= |x| <= |sorted| && x == sorted[..|x|] && Sum(x) >= target && ShortUpTo(sorted, target, |x|)
  {
    var selected: seq<Note> := [];
    var total := 0;
    for n := 0 to |sorted|
      invariant selected == sorted[..n] && total == Sum(sorted[..n])
      invariant ShortUpTo(sorted, target, n + 1)
    {
      SumNext(sorted, n);
      selected := selected + [sorted[n]];
      total := total + sorted[n].value;
      if total >= target {
        return Some(selected);
      }
      ShortOneMore(sorted, target, n + 1);
    }
    return None;
  }

  method SelectNotes(notes: seq<Note>, target: int) returns (r: Option<seq<Note>>)
    ensures var s := SortDescending(Unspent(notes));
      match r
      case None => ShortUpTo(s, target, |s| + 1)
      case Some(x) => 1 <= |x| <= |s| && x == s[..|x|] && Sum(x) >= target && ShortUpTo(s, target, |x|)
  {
    r := TakeAndTest(SortDescending(Unspent(notes)), target);
  }

  /** No choice with fewer notes reaches the target. */
  lemma SelectionIsMinimal(notes: seq<Note>, target: int, n: nat, chosen: seq<Note>)
    requires LeastPrefix(SortDescending(Unspent(notes)), target, n)
    requires ChosenFrom(chosen, Unspent(notes)) && Sum(chosen) >= target
    ensures n <= |chosen|
  {
    SortSorts(Unspent(notes));
    LargestAreBest(SortDescending(Unspent(notes)), chosen);
  }

  /** For a positive target the change is below every selected note. */
  lemma ChangeIsSmall(notes: seq<Note>, target: int, n: nat, k: nat)
    requires LeastPrefix(SortDescending(Unspent(notes)), target, n) && target > 0
    ensures n > 0
    ensures k < n ==> Sum(SortDescending(Unspent(notes))[..n]) - target < SortDescending(Unspent(notes))[k].value
  {
    var s := SortDescending(Unspent(notes));
    SortSorts(Unspent(notes));
    if k < n {
      assert s[..n][..n - 1] == s[..n - 1] && s[..n][n - 1] == s[n - 1];
      assert k < n - 1 ==> s[k].value >= s[n - 1].value;
    }
  }

  /** Any number of the first sorted notes is a possible choice. */
  lemma PrefixIsChoice(notes: seq<Note>, k: nat)
    requires k <= |SortDescending(notes)|
    ensures ChosenFrom(SortDescending(notes)[..k], notes)
  {
    SortSorts(notes);
    var s := SortDescending(notes);
    assert s == s[..k] + s[k..];
  }

  /** Not even all of the sorted notes, nor any first few, reach the target. */
  ghost predicate Short(s: seq<Note>, target: int) {
    forall k :: 0 <= k <= |s| ==> Sum(s[..k]) < target
  }

  ghost predicate OutOfReach(notes: seq<Note>, target: int) {
    forall chosen :: ChosenFrom(chosen, notes) ==> Sum(chosen) < target
  }

  lemma ShortForAll(notes: seq<Note>, target: int, chosen: seq<Note>)
    requires Short(SortDescending(notes), target) && ChosenFrom(chosen, notes)
    ensures Sum(chosen) < target
  {
    SortSorts(notes);
    LargestAreBest(SortDescending(notes), chosen);
  }

  lemma OutOfReachIsShort(notes: seq<Note>, target: int)
    requires OutOfReach(notes, target)
    ensures Short(SortDescending(notes), target)
  {
    forall k | 0 <= k <= |SortDescending(notes)|
      ensures Sum(SortDescending(notes)[..k]) < target
    {
      PrefixIsChoice(notes, k);
    }
  }

  /** Selection fails exactly when no choice of unspent notes reaches the target. */
  lemma FailsOnlyIfShort(notes: seq<Note>, target: int)
    ensures Short(SortDescending(Unspent(notes)), target) <==> OutOfReach(Unspent(notes), target)
  {
    var unspent := Unspent(notes);
    if Short(SortDescending(unspent), target) {
      forall chosen | ChosenFrom(chosen, unspent)
        ensures Sum(chosen) < target
      {
        ShortForAll(unspent, target, chosen);
      }
    } else if OutOfReach(unspent, target) {
      OutOfReachIsShort(unspent, target);
    }
  }

  /** The two wallets pick the same notes, or both fail, exactly when the target is positive. */
  method SelectBoth(notes: seq<Note>, target: int) returns (a: Option<Selection>, b: Option<seq<Note>>)
    ensures (match (a, b)
             case (None, None) => true
             case (Some(x), Some(y)) => x.selected == y
             case _ => false) <==> target > 0
  {
    a := SelectNotesForSpend(notes, target);
    b := SelectNotes(notes, target);
    ghost var s := SortDescending(Unspent(notes));
    assert Sum(s[..0]) == 0;
  }

  // ----- The wallet object -----

  function Balance(notes: seq<Note>): int {
    Sum(Unspent(notes))
  }

  /** The notes with note `k` marked spent. */
  function Mark(notes: seq<Note>, k: nat): seq<Note>
    requires k < |notes|
  {
    notes[k := notes[k].(spent := true)]
  }

  /** The balance is the balance of all but the last note, plus the last if it is unspent. */
  lemma BalanceLast(notes: seq<Note>)
    requires notes != []
    ensures Balance(notes) == Balance(notes[..|notes| - 1])
         + if notes[|notes| - 1].spent then 0 else notes[|notes| - 1].value
  {
    var front, last := Unspent(notes[..|notes| - 1]), notes[|notes| - 1];
    SumOne(last);
    SumAppend(front, [last]);
  }

  lemma MarkLast(notes: seq<Note>)
    requires notes != []
    ensures var last := notes[|notes| - 1];
      Balance(Mark(notes, |notes| - 1)) == Balance(notes) - if last.spent then 0 else last.value
  {
    var n := |notes| - 1;
    assert Mark(notes, n)[..n] == notes[..n];
    BalanceLast(notes);
    BalanceLast(Mark(notes, n));
  }

  lemma MarkFront(notes: seq<Note>, k: nat)
    requires k < |notes| - 1
    ensures var front := notes[..|notes| - 1];
      Balance(Mark(notes, k)) - Balance(notes) == Balance(Mark(front, k)) - Balance(front)
  {
    var n := |notes| - 1;
    assert Mark(notes, k)[..n] == Mark(notes[..n], k);
    BalanceLast(notes);
    BalanceLast(Mark(notes, k));
  }

  /** Marking an unspent note lowers the balance by its value; marking it again does nothing. */
  lemma {:induction false} MarkLowersBalance(notes: seq<Note>, k: nat)
    requires k < |notes|
    ensures Balance(Mark(notes, k)) == Balance(notes) - if notes[k].spent then 0 else notes[k].value
    decreases |notes|
  {
    if k == |notes| - 1 {
      MarkLast(notes);
    } else {
      MarkFront(notes, k);
      MarkLowersBalance(notes[..|notes| - 1], k);
    }
  }

  /** Where the note with this id is kept, or the length when there is none. */
  function IndexOf(notes: seq<Note>, id: string): (k: nat)
    ensures k <= |notes| && (k < |notes| ==> notes[k].id == id)
    ensures forall i :: 0 <= i < k ==> notes[i].id != id
  {
    if notes == [] then 0
    else if notes[0].id == id then 0
    else 1 + IndexOf(notes[1..], id)
  }

  class Wallet {
    /** In insertion order, one note per id. */
    var notes: seq<Note>

    ghost predicate Valid()
      reads this
    {
      forall i, j :: 0 <= i < j < |notes| ==> notes[i].id != notes[j].id
    }

    constructor ()
      ensures Valid() && notes == []
    {
      notes := [];
    }

    /** Adds an unspent note; an id already present is overwritten in place. */
    method AddNote(id: string, value: int)
      requires Valid()
      modifies this
      ensures Valid()
      ensures var k, n := IndexOf(old(notes), id), Note(id, value, false);
        notes == if k < |old(notes)| then old(notes)[k := n] else old(notes) + [n]
    {
      var k := IndexOf(notes, id);
      if k < |notes| {
        notes := notes[k := Note(id, value, false)];
      } else {
        notes := notes + [Note(id, value, false)];
      }
    }

    /** Marks a note spent, or reports that there is none; the balance falls by its value, once. */
    method MarkSpent(id: string) returns (found: bool)
      requires Valid()
      modifies this
      ensures Valid() && found == (IndexOf(old(notes), id) < |old(notes)|)
      ensures !found ==> notes == old(notes)
      ensures found ==> notes == Mark(old(notes), IndexOf(old(notes), id))
      ensures found ==> var n := old(notes)[IndexOf(old(notes), id)];
        Balance(notes) == Balance(old(notes)) - if n.spent then 0 else n.value
    {
      var k := IndexOf(notes, id);
      if k == |notes| {
        return false;
      }
      MarkLowersBalance(notes, k);
      notes := Mark(notes, k);
      return true;
    }
  }
}
