// Whole transactions: any run of operations at one depth, and its rollback.

module TransactionRuns {
  import opened Common
  import opened Keys
  import opened SortedSequence
  import opened TableStore

  ghost predicate Feasible(lay: Layout, s: Store, ops: seq<Op>) {
    Good(lay, s) &&
    (ops != [] ==>
       var n := |ops| - 1;
       Feasible(lay, s, ops[..n]) && Good(lay, Final(s, ops[..n])) && Applicable(lay, Final(s, ops[..n]), ops[n]))
  }

  /** The table after a run. */
  function Final(s: Store, ops: seq<Op>): Store {
    if ops == [] then s else
      var n := |ops| - 1;
      var t := Final(s, ops[..n]);
      if t.live <= t.mem.Keys && (ops[n].Update? ==> ops[n].row in t.live) then Step(t, ops[n]) else t
  }

  /** Its log, newest change first. */
  function LogOf(ops: seq<Op>): seq<Change> {
    if ops == [] then [] else [Logged(ops[|ops| - 1])] + LogOf(ops[..|ops| - 1])
  }

  /** A replacement hits a row that an earlier operation of the run inserted or updated. */
  predicate ReplacesLogged(ops: seq<Op>) {
    ops != [] &&
    var n := |ops| - 1;
    ReplacesLogged(ops[..n]) || (ops[n].Replace? && ops[n].replaced in Afters(LogOf(ops[..n])))
  }

  predicate Replaces(ops: seq<Op>) {
    exists i :: 0 <= i < |ops| && ops[i].Replace?
  }

  /** The same rows by content. Rows with distinct keys are determined by the set
      of their data; without an index the addresses agree as well. */
  ghost predicate SameContent(lay: Layout, s: Store, t: Store)
    requires s.live <= s.mem.Keys && t.live <= t.mem.Keys
  {
    if lay.Indexed? then Data(s) == Data(t) else s == t
  }

  ghost function Data(s: Store): set<Bytes>
    requires s.live <= s.mem.Keys
  {
    set p | p in s.live :: s.mem[p]
  }

  lemma {:induction false} RunStep(lay: Layout, s: Store, ops: seq<Op>)
    requires ops != [] && Feasible(lay, s, ops)
    ensures var t := Final(s, ops[..|ops| - 1]);
            && Good(lay, t) && Applicable(lay, t, ops[|ops| - 1])
            && Final(s, ops) == Step(t, ops[|ops| - 1]) && Good(lay, Final(s, ops))
    ensures LogOf(ops) == [Logged(ops[|ops| - 1])] + LogOf(ops[..|ops| - 1])
    ensures LogOf(ops)[1..] == LogOf(ops[..|ops| - 1]) && LogOf(ops)[0] == Logged(ops[|ops| - 1])
  {
    StepGood(lay, Final(s, ops[..|ops| - 1]), ops[|ops| - 1]);
  }

  /** Throughout a run every allocated row has one owner, and the log mentions
      allocated rows only. */
  lemma {:induction false} RunOwns(lay: Layout, s: Store, ops: seq<Op>, others: set<Ptr>)
    requires Feasible(lay, s, ops) && Owns(s, [], others)
    ensures Good(lay, Final(s, ops)) && Owns(Final(s, ops), LogOf(ops), others)
    ensures Mentions(LogOf(ops)) <= Final(s, ops).mem.Keys
    decreases |ops|
  {
    if ops != [] {
      var n := |ops| - 1;
      RunOwns(lay, s, ops[..n], others);
      RunStep(lay, s, ops);
      StepOwns(lay, Final(s, ops[..n]), ops[n], LogOf(ops[..n]), others);
    }
  }

  /** A linked row that the log mentions is mentioned as the row after a change. */
  lemma {:induction false} MentionedLive(s: Store, log: seq<Change>, p: Ptr)
    requires p in Mentions(log) && p !in Befores(log)
    ensures p in Afters(log)
  {
    if p !in Touched(log[0]) || p in Before(log[0]) {
      MentionedLive(s, log[1..], p);
    }
  }

  lemma {:induction false} RenameKeepsData(s: Store, p: Ptr, q: Ptr)
    requires s.live <= s.mem.Keys && p in s.live && q !in s.mem
    ensures Rename(s, p, q).live <= Rename(s, p, q).mem.Keys
    ensures Data(Rename(s, p, q)) == Data(s)
  {
    var t := Rename(s, p, q);
    forall d | d in Data(s) ensures d in Data(t) {
      var x :| x in s.live && s.mem[x] == d;
      assert (if x == p then q else x) in t.live;
    }
  }

  /** Rolling back any run that replaces no logged row succeeds and restores the
      content of the table. */
  lemma {:induction false} RollbackRestores(lay: Layout, s: Store, ops: seq<Op>, others: set<Ptr>)
    requires Feasible(lay, s, ops) && Owns(s, [], others) && !ReplacesLogged(ops)
    ensures Recoverable(lay, Final(s, ops), LogOf(ops))
    ensures UndoAll(Final(s, ops), LogOf(ops)).live <= UndoAll(Final(s, ops), LogOf(ops)).mem.Keys
    ensures SameContent(lay, UndoAll(Final(s, ops), LogOf(ops)), s)
    decreases |ops|
  {
    if ops != [] {
      var n := |ops| - 1;
      var t, log, op := Final(s, ops[..n]), LogOf(ops[..n]), ops[n];
      RollbackRestores(lay, s, ops[..n], others);
      RunStep(lay, s, ops);
      hide Final, LogOf, ReplacesLogged, Feasible, Applicable, Recoverable, Undo;
      if op.Replace? {
        RunReplace(lay, s, ops, others);
      } else {
        UndoInvertsStep(lay, t, op);
        PushRecoverable(lay, t, Step(t, op), Logged(op), log);
      }
    }
  }

  /** A new change whose undo leads back to a recoverable store is recoverable. */
  lemma {:induction false} PushRecoverable(lay: Layout, t: Store, s: Store, c: Change, log: seq<Change>)
    requires Good(lay, s) && Enabled(s, c) && Undo(s, c) == t && Recoverable(lay, t, log)
    ensures Recoverable(lay, s, [c] + log) && UndoAll(s, [c] + log) == UndoAll(t, log)
  {
    assert ([c] + log)[1..] == log;
  }

  lemma {:induction false} RunReplace(lay: Layout, s: Store, ops: seq<Op>, others: set<Ptr>)
    requires ops != [] && ops[|ops| - 1].Replace?
    requires Feasible(lay, s, ops) && Owns(s, [], others) && !ReplacesLogged(ops)
    requires Recoverable(lay, Final(s, ops[..|ops| - 1]), LogOf(ops[..|ops| - 1]))
    ensures var t, log := Final(s, ops[..|ops| - 1]), LogOf(ops[..|ops| - 1]);
            && Recoverable(lay, Final(s, ops), LogOf(ops))
            && UndoAll(t, log).live <= UndoAll(t, log).mem.Keys
            && UndoAll(Final(s, ops), LogOf(ops)).live <= UndoAll(Final(s, ops), LogOf(ops)).mem.Keys
            && Data(UndoAll(Final(s, ops), LogOf(ops))) == Data(UndoAll(t, log)) && lay.Indexed?
  {
    var n := |ops| - 1;
    var t, log, op := Final(s, ops[..n]), LogOf(ops[..n]), ops[n];
    RunStep(lay, s, ops);
    RunOwns(lay, s, ops[..n], others);
    if op.replaced in Mentions(log) {
      MentionedLive(t, log, op.replaced);
    }
    UndoReplace(lay, t, op);
    RenameRecoverable(lay, t, log, op.replaced, op.row);
    RenameKeepsData(UndoAll(t, log), op.replaced, op.row);
    PushRecoverable(lay, Rename(t, op.replaced, op.row), Step(t, op), Logged(op), log);
  }

  /** Without replacements even the addresses are restored. */
  lemma {:induction false} RollbackIsInverse(lay: Layout, s: Store, ops: seq<Op>)
    requires Feasible(lay, s, ops) && !Replaces(ops)
    ensures UndoAll(Final(s, ops), LogOf(ops)) == s
    decreases |ops|
  {
    if ops != [] {
      var n := |ops| - 1;
      assert !Replaces(ops[..n]) && !ops[n].Replace?;
      RollbackIsInverse(lay, s, ops[..n]);
      RunStep(lay, s, ops);
      UndoInvertsStep(lay, Final(s, ops[..n]), ops[n]);
    }
  }

  // ----- exactly when a rollback is memory-safe

  lemma {:induction false} RecoverableNoFault(lay: Layout, s: Store, log: seq<Change>)
    requires Recoverable(lay, s, log)
    ensures NoFault(s, log)
    decreases |log|
  {
    if log != [] {
      RecoverableNoFault(lay, Undo(s, log[0]), log[1..]);
    }
  }

  /** A row that is gone stays gone, so a log that refers to it faults. */
  lemma {:induction false} GoneFaults(s: Store, log: seq<Change>, p: Ptr)
    requires p !in s.mem && p in Afters(log)
    ensures !NoFault(s, log)
    decreases |log|
  {
    if p !in After(log[0]) && Allocated(s, log[0]) {
      GoneFaults(Undo(s, log[0]), log[1..], p);
    }
  }

  /** Some row is replaced although older entries refer to it. */
  predicate Reused(log: seq<Change>) {
    log != [] &&
    ((log[0].Updated? && log[0].before in Afters(log[1..])) || Reused(log[1..]))
  }

  lemma {:induction false} ReusedFaults(s: Store, log: seq<Change>)
    requires Reused(log)
    ensures !NoFault(s, log)
    decreases |log|
  {
    if Allocated(s, log[0]) {
      if log[0].Updated? && log[0].before in Afters(log[1..]) {
        GoneFaults(Undo(s, log[0]), log[1..], log[0].before);
      } else {
        ReusedFaults(Undo(s, log[0]), log[1..]);
      }
    }
  }

  lemma {:induction false} ReplacedIsReused(lay: Layout, s: Store, ops: seq<Op>)
    requires Feasible(lay, s, ops) && ReplacesLogged(ops)
    ensures Reused(LogOf(ops))
    decreases |ops|
  {
    RunStep(lay, s, ops);
    if ReplacesLogged(ops[..|ops| - 1]) {
      ReplacedIsReused(lay, s, ops[..|ops| - 1]);
    }
  }

  /** The rollback of a run touches freed memory exactly when the run replaced a
      row that it had itself inserted, updated or put in place of another. */
  lemma {:induction false} RollbackSafeIff(lay: Layout, s: Store, ops: seq<Op>, others: set<Ptr>)
    requires Feasible(lay, s, ops) && Owns(s, [], others)
    ensures NoFault(Final(s, ops), LogOf(ops)) <==> !ReplacesLogged(ops)
  {
    if ReplacesLogged(ops) {
      ReplacedIsReused(lay, s, ops);
      ReusedFaults(Final(s, ops), LogOf(ops));
    } else {
      RollbackRestores(lay, s, ops, others);
      RecoverableNoFault(lay, Final(s, ops), LogOf(ops));
    }
  }

  /** The shortest such run: insert a row, insert another over it with `ignore`. */
  lemma {:induction false} ReplaceCounterexample(lay: Layout, d: Bytes)
    requires lay.Indexed? && lay.Valid() && lay.Fits(d)
    ensures var ops := [Insert(1, d), Replace(1, 2, d)];
            Feasible(lay, Store(map[], {}), ops) && !NoFault(Final(Store(map[], {}), ops), LogOf(ops))
  {
    var s, ops, first := Store(map[], {}), [Insert(1, d), Replace(1, 2, d)], [Insert(1, d)];
    assert ops[..1] == first && first[..0] == [];
    assert Feasible(lay, s, []) && Feasible(lay, s, first);
    RunStep(lay, s, first);
    assert Final(s, first) == Store(map[1 := d], {1});
    assert LogOf(first) == [Inserted(1)] && 1 in Afters([Inserted(1)]);
    assert Feasible(lay, s, ops);
    RollbackSafeIff(lay, s, ops, {});
  }

  // ----- several tables

  /** The whole database undone in the reverse of the order in which the changes
      were made, whatever table they belong to; `history` is newest first. */
  function UndoHistory(tables: seq<Store>, history: seq<(nat, Change)>): (r: seq<Store>)
    requires forall i | 0 <= i < |history| :: history[i].0 < |tables|
    ensures |r| == |tables|
    decreases |history|
  {
    if history == [] then tables else
      var (t, c) := history[0];
      UndoHistory(tables[t := Undo(tables[t], c)], history[1..])
  }

  /** The log of one table. */
  function LogFor(history: seq<(nat, Change)>, t: nat): seq<Change> {
    if history == [] then []
    else (if history[0].0 == t then [history[0].1] else []) + LogFor(history[1..], t)
  }

  lemma {:induction false} LogForLast(history: seq<(nat, Change)>, e: (nat, Change), t: nat)
    ensures LogFor(history + [e], t) == LogFor(history, t) + if e.0 == t then [e.1] else []
  {
    if history == [] {
      assert history + [e] == [e] && [e][1..] == [];
    } else {
      assert (history + [e])[1..] == history[1..] + [e];
      LogForLast(history[1..], e, t);
    }
  }

  /** The history without the newest change of a table. */
  function WithoutNewest(history: seq<(nat, Change)>, t: nat): seq<(nat, Change)> {
    if history == [] then []
    else if history[0].0 == t then history[1..] else [history[0]] + WithoutNewest(history[1..], t)
  }

  /** ...and without the oldest. */
  function WithoutOldest(history: seq<(nat, Change)>, t: nat): seq<(nat, Change)> {
    if history == [] then []
    else
      var n := |history| - 1;
      if history[n].0 == t then history[..n] else WithoutOldest(history[..n], t) + [history[n]]
  }

  lemma {:induction false} NewestTaken(history: seq<(nat, Change)>, t: nat, u: nat)
    ensures forall e | e in WithoutNewest(history, t) :: e in history
    ensures LogFor(history, t) != [] ==> LogFor(WithoutNewest(history, t), t) == LogFor(history, t)[1..]
    ensures u != t ==> LogFor(WithoutNewest(history, t), u) == LogFor(history, u)
  {
    if history != [] && history[0].0 != t {
      NewestTaken(history[1..], t, u);
      var rest := WithoutNewest(history[1..], t);
      assert ([history[0]] + rest)[1..] == rest;
    }
  }

  lemma {:induction false} OldestTaken(history: seq<(nat, Change)>, t: nat, u: nat)
    ensures forall e | e in WithoutOldest(history, t) :: e in history
    ensures var log := LogFor(history, t);
            log != [] ==> LogFor(WithoutOldest(history, t), t) == log[..|log| - 1]
    ensures u != t ==> LogFor(WithoutOldest(history, t), u) == LogFor(history, u)
    decreases |history|
  {
    if history != [] {
      var n := |history| - 1;
      var h, e := history[..n], history[n];
      assert history == h + [e];
      LogForLast(h, e, t);
      LogForLast(h, e, u);
      if e.0 != t {
        OldestTaken(h, t, u);
        LogForLast(WithoutOldest(h, t), e, t);
        LogForLast(WithoutOldest(h, t), e, u);
      }
    }
  }

  /** The drain: table after table, each with its own log. */
  function Drain(tables: seq<Store>, history: seq<(nat, Change)>, order: seq<nat>): (r: seq<Store>)
    requires forall i | 0 <= i < |order| :: order[i] < |tables|
    ensures |r| == |tables|
    decreases |order|
  {
    if order == [] then tables else
      var t := order[0];
      Drain(tables[t := UndoAll(tables[t], LogFor(history, t))], history, order[1..])
  }

  lemma {:induction false} UndoHistoryAt(tables: seq<Store>, history: seq<(nat, Change)>, t: nat)
    requires (forall i | 0 <= i < |history| :: history[i].0 < |tables|) && t < |tables|
    ensures UndoHistory(tables, history)[t] == UndoAll(tables[t], LogFor(history, t))
    decreases |history|
  {
    if history != [] {
      var (u, c) := history[0];
      UndoHistoryAt(tables[u := Undo(tables[u], c)], history[1..], t);
      if u == t {
        assert LogFor(history, t)[1..] == LogFor(history[1..], t);
      } else {
        assert LogFor(history, t) == LogFor(history[1..], t);
      }
    }
  }

  lemma {:induction false} DrainAt(tables: seq<Store>, history: seq<(nat, Change)>, order: seq<nat>, t: nat)
    requires (forall i | 0 <= i < |order| :: order[i] < |tables|) && t < |tables|
    requires forall i, j | 0 <= i < j < |order| :: order[i] != order[j]
    ensures Drain(tables, history, order)[t]
         == if t in order then UndoAll(tables[t], LogFor(history, t)) else tables[t]
    decreases |order|
  {
    if order != [] {
      var u := order[0];
      assert order == [u] + order[1..] && u !in order[1..];
      DrainAt(tables[u := UndoAll(tables[u], LogFor(history, u))], history, order[1..], t);
    }
  }

  lemma {:induction false} NoLogFor(history: seq<(nat, Change)>, t: nat)
    requires forall i | 0 <= i < |history| :: history[i].0 != t
    ensures LogFor(history, t) == []
  {
    if history != [] {
      NoLogFor(history[1..], t);
    }
  }

  /** Draining the log table by table, newest change first within each, in any order
      of the tables, is undoing all changes in global reverse order. */
  lemma {:induction false} DrainIsReverseOrder(tables: seq<Store>, history: seq<(nat, Change)>, order: seq<nat>)
    requires forall i | 0 <= i < |history| :: history[i].0 < |tables| && history[i].0 in order
    requires forall i | 0 <= i < |order| :: order[i] < |tables|
    requires forall i, j | 0 <= i < j < |order| :: order[i] != order[j]
    ensures Drain(tables, history, order) == UndoHistory(tables, history)
  {
    forall t | 0 <= t < |tables|
      ensures Drain(tables, history, order)[t] == UndoHistory(tables, history)[t]
    {
      UndoHistoryAt(tables, history, t);
      DrainAt(tables, history, order, t);
      if t !in order {
        NoLogFor(history, t);
      }
    }
  }

  // ----- commit

  /** Freeing the before-images one after the other, oldest change first. */
  function Commit(s: Store, log: seq<Change>): Store {
    if log == [] then s else
      var t := Commit(s, log[1..]);
      Store(t.mem - (set p | p in Before(log[0])), t.live)
  }

  /** Each freed row is still allocated when it is freed, and unlinked. */
  ghost predicate CommitSafe(s: Store, log: seq<Change>) {
    log != [] ==>
      && CommitSafe(s, log[1..])
      && forall p | p in Before(log[0]) :: p in Commit(s, log[1..]).mem && p !in Commit(s, log[1..]).live
  }

  /** Commit frees each before-image exactly once, leaves the linked rows alone and
      leaves no garbage. */
  lemma {:induction false} CommitFreesOwned(s: Store, log: seq<Change>, others: set<Ptr>)
    requires Owns(s, log, others)
    ensures CommitSafe(s, log)
    ensures Commit(s, log).live == s.live
    ensures forall p :: p in Commit(s, log).mem <==> p in s.live || p in others
    ensures forall p | p in Commit(s, log).mem :: Commit(s, log).mem[p] == s.mem[p]
  {
    CommitFreesSuffix(s, log, 0, others);
    assert log[0..] == log;
  }

  lemma {:induction false} CommitFreesSuffix(s: Store, log: seq<Change>, k: nat, others: set<Ptr>)
    requires Owns(s, log, others) && k <= |log|
    ensures CommitSafe(s, log[k..]) && Commit(s, log[k..]).live == s.live
    ensures forall p :: p in Commit(s, log[k..]).mem <==> p in s.mem && p !in Befores(log[k..])
    ensures forall p | p in Commit(s, log[k..]).mem :: Commit(s, log[k..]).mem[p] == s.mem[p]
    decreases |log| - k
  {
    if k < |log| {
      CommitFreesSuffix(s, log, k + 1, others);
      assert log[k..][1..] == log[k + 1..] && log[k..][0] == log[k];
      BeforesSplit(log, k);
      assert Befores(log[k..]) == Before(log[k]) + Befores(log[k + 1..]);
      forall p | p in Before(log[k]) ensures p !in Befores(log[k + 1..]) && p in Befores(log) {
        assert Before(log[k])[0] == p;
        assert Befores(log)[|Befores(log[..k])|] == p;
        if p in Befores(log[k + 1..]) {
          var j :| 0 <= j < |Befores(log[k + 1..])| && Befores(log[k + 1..])[j] == p;
          BeforesDiffer(log, k, j, others, s);
        }
      }
      assert forall p | p in Before(log[k]) :: p in Befores(log[k..]);
      assert forall p | p in Befores(log[k + 1..]) :: p in Befores(log[k..]);
    }
  }

  /** The before-image of a change is not that of a later one in the log. */
  lemma {:induction false} BeforesDiffer(log: seq<Change>, k: nat, j: nat, others: set<Ptr>, s: Store)
    requires Owns(s, log, others) && k < |log| && !log[k].Inserted? && j < |Befores(log[k + 1..])|
    ensures Before(log[k])[0] != Befores(log[k + 1..])[j]
  {
    hide Owns, Befores;
    OwnedOnce(s, log, others);
    BeforesSplit(log, k);
    var n := |Befores(log[..k])|;
    assert log[k..][0] == log[k] && log[k..][1..] == log[k + 1..];
    BeforesOfFirst(log[k..]);
    assert Befores(log)[n] == Before(log[k])[0] && Befores(log)[n + 1 + j] == Befores(log[k + 1..])[j];
  }

  lemma {:induction false} BeforesOfFirst(log: seq<Change>)
    requires log != []
    ensures Befores(log) == Before(log[0]) + Befores(log[1..])
  {
  }

  lemma {:induction false} OwnedOnce(s: Store, log: seq<Change>, others: set<Ptr>)
    requires Owns(s, log, others)
    ensures forall i, j | 0 <= i < j < |Befores(log)| :: Befores(log)[i] != Befores(log)[j]
  {
  }

  lemma {:induction false} BeforesSplit(log: seq<Change>, k: nat)
    requires k <= |log|
    ensures Befores(log) == Befores(log[..k]) + Befores(log[k..])
  {
    if k > 0 {
      BeforesSplit(log[1..], k - 1);
      assert log[1..][..k - 1] == log[..k][1..] && log[1..][k - 1..] == log[k..];
    } else {
      assert log[0..] == log;
    }
  }
}
