// The undo log, threaded by table and by transaction (src/murphy-db/mdb/log.c).
//
// Every change is reached in two ways. The logs of a table are on a list, that of the
// deepest transaction last, each with the changes of the table at that depth, the newest
// first. The logs of a transaction are the tables that have changed in it. A log enters
// both threads with the first change of a table at a depth and leaves both once it is
// drained. Here the first thread is `tbl` and the second is `tx`; the ghost `history`
// records the changes of all tables at the present depth, the newest first.
//
// `Threaded` says that the threads fit each other, `Told` that they tell the history.

module UndoLog {
  import opened Common
  import opened SortedSequence
  import opened TableStore
  import opened TransactionRuns

  /** The changes of one table at one depth, newest first. */
  datatype TableLog = TableLog(depth: nat, changes: seq<Change>)

  /** The log of a transaction: the tables that have a log at its depth. */
  datatype TxLog = TxLog(depth: nat, tables: seq<nat>)

  function Last<T>(s: seq<T>): T
    requires s != []
  {
    s[|s| - 1]
  }

  function Front<T>(s: seq<T>): seq<T>
    requires s != []
  {
    s[..|s| - 1]
  }

  /** A table has a log at the given depth; it is then the last on its list. */
  predicate OnTop(l: seq<TableLog>, depth: nat) { l != [] && Last(l).depth == depth }

  /** The changes of a table at a depth. */
  function Current(l: seq<TableLog>, depth: nat): seq<Change> {
    if OnTop(l, depth) then Last(l).changes else []
  }

  /** The logs of a table at outer depths. */
  function Older(l: seq<TableLog>, depth: nat): seq<TableLog> {
    if OnTop(l, depth) then Front(l) else l
  }

  /** The before-images that logs keep. */
  function Kept(l: seq<TableLog>): set<Ptr> {
    if l == [] then {} else Kept(Front(l)) + set p | p in Befores(Last(l).changes)
  }

  /** The table logs of the transaction at `depth`. */
  function Thread(tx: seq<TxLog>, depth: nat): seq<nat> {
    if tx != [] && Last(tx).depth == depth then Last(tx).tables else []
  }

  ghost predicate ListOk(l: seq<TableLog>, depth: nat) {
    && (forall i | 0 <= i < |l| :: 1 <= l[i].depth <= depth)
    && (forall i, j | 0 <= i < j < |l| :: l[i].depth < l[j].depth)
  }

  ghost predicate TxOk(tx: seq<TxLog>, depth: nat) {
    && (forall i | 0 <= i < |tx| :: 1 <= tx[i].depth <= depth)
    && (forall i, j | 0 <= i < j < |tx| :: tx[i].depth < tx[j].depth)
  }

  /** The transaction's list holds each table with a log at the depth once. */
  ghost predicate ThreadOk(thread: seq<nat>, tbl: seq<seq<TableLog>>, depth: nat) {
    && (forall i, j | 0 <= i < j < |thread| :: thread[i] != thread[j])
    && (forall t: nat :: t in thread <==> t < |tbl| && OnTop(tbl[t], depth))
  }

  /** Both threads are consistent; while a log is being drained, the table whose
      turn it is may have no changes left. */
  ghost predicate Threaded(tx: seq<TxLog>, tbl: seq<seq<TableLog>>, depth: nat, draining: Option<nat>) {
    && TxOk(tx, depth) && ThreadOk(Thread(tx, depth), tbl, depth)
    && (forall t | 0 <= t < |tbl| :: ListOk(tbl[t], depth))
    && (forall t | 0 <= t < |tbl| && draining != Some(t) :: OnTop(tbl[t], depth) ==> Current(tbl[t], depth) != [])
    && (draining.Some? ==> Thread(tx, depth) != [] && Thread(tx, depth)[0] == draining.value)
  }

  /** The logs of a depth tell the `history` of its changes, table by table. */
  ghost predicate Told(history: seq<(nat, Change)>, tbl: seq<seq<TableLog>>, depth: nat) {
    && (forall i | 0 <= i < |history| :: history[i].0 < |tbl|)
    && (forall t: nat | t < |tbl| :: Current(tbl[t], depth) == LogFor(history, t))
  }

  /** The history once the newest or the oldest change of a table is gone. */
  function Without(history: seq<(nat, Change)>, t: nat, forward: bool): seq<(nat, Change)> {
    if forward then WithoutNewest(history, t) else WithoutOldest(history, t)
  }

  lemma {:induction false} ToldFrame(history: seq<(nat, Change)>, tbl: seq<seq<TableLog>>, tbl': seq<seq<TableLog>>,
                                     depth: nat)
    requires Told(history, tbl, depth) && |tbl'| == |tbl|
    requires forall t | 0 <= t < |tbl| :: Current(tbl'[t], depth) == Current(tbl[t], depth)
    ensures Told(history, tbl', depth)
  {
    hide Current, LogFor;
  }

  lemma {:induction false} ToldPush(history: seq<(nat, Change)>, tbl: seq<seq<TableLog>>, tbl': seq<seq<TableLog>>,
                                    t: nat, c: Change, depth: nat)
    requires Told(history, tbl, depth) && |tbl'| == |tbl| && t < |tbl|
    requires Current(tbl'[t], depth) == [c] + Current(tbl[t], depth)
    requires forall u | 0 <= u < |tbl| && u != t :: Current(tbl'[u], depth) == Current(tbl[u], depth)
    ensures Told([(t, c)] + history, tbl', depth)
  {
    hide Current;
    assert ([(t, c)] + history)[1..] == history;
  }

  lemma {:induction false} ToldTake(history: seq<(nat, Change)>, tbl: seq<seq<TableLog>>, tbl': seq<seq<TableLog>>,
                                    t: nat, c: Change, forward: bool, depth: nat)
    requires Told(history, tbl, depth) && |tbl'| == |tbl| && t < |tbl|
    requires Taken(Current(tbl[t], depth), forward, c, Current(tbl'[t], depth))
    requires forall u | 0 <= u < |tbl| && u != t :: Current(tbl'[u], depth) == Current(tbl[u], depth)
    ensures Told(Without(history, t, forward), tbl', depth)
  {
    hide Current, LogFor, WithoutNewest, WithoutOldest;
    var log, rest := Current(tbl[t], depth), Current(tbl'[t], depth);
    assert log[1..] == rest || log[..|log| - 1] == rest;
    forall u: nat | u < |tbl| ensures Current(tbl'[u], depth) == LogFor(Without(history, t, forward), u) {
      if forward {
        assert log[1..] == rest;
        NewestTaken(history, t, u);
      } else {
        assert log[..|log| - 1] == rest;
        OldestTaken(history, t, u);
      }
    }
    var left := Without(history, t, forward);
    forall i | 0 <= i < |left| ensures left[i].0 < |tbl'| {
      if forward {
        NewestTaken(history, t, t);
      } else {
        OldestTaken(history, t, t);
      }
      assert left[i] in history;
    }
  }

  // ----- the list of one table

  lemma {:induction false} ReplaceTop(l: seq<TableLog>, depth: nat, changes: seq<Change>)
    requires ListOk(l, depth) && OnTop(l, depth)
    ensures var l' := Front(l) + [TableLog(depth, changes)];
            ListOk(l', depth) && OnTop(l', depth) && Current(l', depth) == changes
              && Older(l', depth) == Older(l, depth)
  {
    assert Front(Front(l) + [TableLog(depth, changes)]) == Front(l);
  }

  lemma {:induction false} TopChanges(l: seq<TableLog>, depth: nat)
    requires OnTop(l, depth)
    ensures l != [] && Current(l, depth) == Last(l).changes
  {
  }

  lemma {:induction false} PushTop(l: seq<TableLog>, depth: nat, changes: seq<Change>)
    requires ListOk(l, depth) && !OnTop(l, depth) && depth > 0
    ensures (l != [] ==> Last(l).depth < depth) && Current(l, depth) == []
    ensures var l' := l + [TableLog(depth, changes)];
            ListOk(l', depth) && OnTop(l', depth) && Current(l', depth) == changes
              && Older(l', depth) == Older(l, depth)
  {
    assert Front(l + [TableLog(depth, changes)]) == l;
  }

  lemma {:induction false} PopTop(l: seq<TableLog>, depth: nat)
    requires ListOk(l, depth) && OnTop(l, depth)
    ensures ListOk(Front(l), depth) && !OnTop(Front(l), depth)
    ensures Current(Front(l), depth) == [] && Older(Front(l), depth) == Older(l, depth)
  {
  }

  // ----- the list of the transaction

  lemma {:induction false} SetThread(tx: seq<TxLog>, depth: nat, thread: seq<nat>)
    requires TxOk(tx, depth) && tx != [] && Last(tx).depth == depth
    ensures var tx' := Front(tx) + [TxLog(depth, thread)];
            TxOk(tx', depth) && Last(tx').depth == depth && Thread(tx', depth) == thread
  {
  }

  lemma {:induction false} OpenThread(tx: seq<TxLog>, depth: nat)
    requires TxOk(tx, depth) && depth > 0 && (tx == [] || Last(tx).depth != depth)
    ensures tx != [] ==> Last(tx).depth < depth
    ensures var tx' := tx + [TxLog(depth, [])];
            TxOk(tx', depth) && Last(tx').depth == depth && Thread(tx', depth) == Thread(tx, depth) == []
  {
  }

  lemma {:induction false} ThreadGrows(thread: seq<nat>, tbl: seq<seq<TableLog>>, depth: nat, t: nat, l: seq<TableLog>)
    requires ThreadOk(thread, tbl, depth) && t < |tbl| && !OnTop(tbl[t], depth) && OnTop(l, depth)
    ensures ThreadOk(thread + [t], tbl[t := l], depth)
  {
    hide OnTop;
  }

  lemma {:induction false} ThreadShrinks(thread: seq<nat>, tbl: seq<seq<TableLog>>, depth: nat, l: seq<TableLog>)
    requires ThreadOk(thread, tbl, depth) && thread != [] && !OnTop(l, depth)
    ensures thread[0] < |tbl| && OnTop(tbl[thread[0]], depth) && ThreadOk(thread[1..], tbl[thread[0] := l], depth)
  {
    hide OnTop;
    assert thread[0] in thread && thread == [thread[0]] + thread[1..];
    assert thread[0] !in thread[1..];
    assert forall t: nat :: t in thread[1..] <==> t in thread && t != thread[0];
  }

  lemma {:induction false} ThreadStays(thread: seq<nat>, tbl: seq<seq<TableLog>>, depth: nat, t: nat, l: seq<TableLog>)
    requires ThreadOk(thread, tbl, depth) && t < |tbl| && OnTop(tbl[t], depth) && OnTop(l, depth)
    ensures ThreadOk(thread, tbl[t := l], depth)
  {
    hide OnTop;
  }

  lemma {:induction false} AppendThreaded(tx: seq<TxLog>, tbl: seq<seq<TableLog>>, tx': seq<TxLog>,
                                          tbl': seq<seq<TableLog>>, t: nat, depth: nat)
    requires Threaded(tx, tbl, depth, None) && |tbl'| == |tbl| && t < |tbl|
    requires TxOk(tx', depth) && ThreadOk(Thread(tx', depth), tbl', depth)
    requires ListOk(tbl'[t], depth) && Current(tbl'[t], depth) != []
    requires forall u | 0 <= u < |tbl| && u != t :: tbl'[u] == tbl[u]
    ensures Threaded(tx', tbl', depth, None)
  {
    hide OnTop, Current, ListOk, TxOk, ThreadOk, Thread;
  }

  lemma {:induction false} ThreadedParts(tx: seq<TxLog>, tbl: seq<seq<TableLog>>, depth: nat, t: nat)
    requires Threaded(tx, tbl, depth, None) && t < |tbl|
    ensures TxOk(tx, depth) && ThreadOk(Thread(tx, depth), tbl, depth) && ListOk(tbl[t], depth)
    ensures tx != [] ==> Last(tx).depth <= depth
    ensures OnTop(tbl[t], depth) ==> Thread(tx, depth) != [] && t in Thread(tx, depth)
  {
  }

  class Log {
    var tx: seq<TxLog>                // tx_head
    var tbl: seq<seq<TableLog>>       // the `logs` list of every table
    ghost var history: seq<(nat, Change)>   // the changes of the present depth, newest first

    constructor (ntable: nat)
      ensures tx == [] && tbl == seq(ntable, _ => []) && Threaded(tx, tbl, 0, None)
      ensures history == [] && Told(history, tbl, 0)
    {
      tx, tbl, history := [], seq(ntable, _ => []), [];
    }

    /** At a new depth nothing has happened yet. */
    ghost method Deeper(depth: nat)
      requires forall t | 0 <= t < |tbl| :: Current(tbl[t], depth) == []
      modifies `history
      ensures history == [] && Told(history, tbl, depth)
    {
      history := [];
    }

    /** get_tx_log and get_tbl_log: the table has a log at the depth afterwards. */
    method OpenLog(t: nat, depth: nat)
      requires t < |tbl| && depth > 0 && Threaded(tx, tbl, depth, None)
      modifies `tx, `tbl
      ensures TxOk(tx, depth) && ThreadOk(Thread(tx, depth), tbl, depth)
      ensures |tbl| == |old(tbl)| && ListOk(tbl[t], depth) && OnTop(tbl[t], depth)
      ensures forall u | 0 <= u < |tbl| && u != t :: tbl[u] == old(tbl)[u]
      ensures Older(tbl[t], depth) == Older(old(tbl)[t], depth)
      ensures Current(tbl[t], depth) == Current(old(tbl)[t], depth)
    {
      hide OnTop, Current, Older, ListOk, TxOk, ThreadOk, Threaded;
      ThreadedParts(tx, tbl, depth, t);
      if tx == [] || depth > Last(tx).depth {
        OpenThread(tx, depth);
        tx := tx + [TxLog(depth, [])];
      }
      if !OnTop(tbl[t], depth) {
        PushTop(tbl[t], depth, []);
        var l := tbl[t] + [TableLog(depth, [])];
        ThreadGrows(Thread(tx, depth), tbl, depth, t, l);
        SetThread(tx, depth, Last(tx).tables + [t]);
        tx := Front(tx) + [TxLog(depth, Last(tx).tables + [t])];
        tbl := tbl[t := l];
      }
    }

    /** mdb_log_change */
    method Append(t: nat, depth: nat, c: Change) returns (status: int)
      requires t < |tbl| && Threaded(tx, tbl, depth, None) && Told(history, tbl, depth)
      modifies this
      ensures Threaded(tx, tbl, depth, None) && |tbl| == |old(tbl)| && status == 0
      ensures history == if depth == 0 then old(history) else [(t, c)] + old(history)
      ensures Told(history, tbl, depth)
      ensures forall u | 0 <= u < |tbl| && u != t :: tbl[u] == old(tbl)[u]
      ensures Older(tbl[t], depth) == Older(old(tbl)[t], depth)
      ensures Current(tbl[t], depth) == if depth == 0 then [] else [c] + Current(old(tbl)[t], depth)
    {
      if depth == 0 {
        DepthPositive(tbl[t], 0);
        return 0;
      }
      hide OnTop, Current, Older, ListOk, TxOk, ThreadOk, Thread, Threaded, Told;
      OpenAndPush(t, depth, c);
      ToldPush(history, old(tbl), tbl, t, c, depth);
      history := [(t, c)] + history;
      status := 0;
    }

    method OpenAndPush(t: nat, depth: nat, c: Change)
      requires t < |tbl| && depth > 0 && Threaded(tx, tbl, depth, None)
      modifies `tx, `tbl
      ensures Threaded(tx, tbl, depth, None) && |tbl| == |old(tbl)|
      ensures forall u | 0 <= u < |tbl| && u != t :: tbl[u] == old(tbl)[u]
      ensures Older(tbl[t], depth) == Older(old(tbl)[t], depth)
      ensures Current(tbl[t], depth) == [c] + Current(old(tbl)[t], depth)
    {
      hide OnTop, Current, Older, ListOk, TxOk, ThreadOk, Thread, Threaded;
      OpenLog(t, depth);
      Push(t, depth, c);
      AppendThreaded(old(tx), old(tbl), tx, tbl, t, depth);
    }

    /** MDB_DLIST_PREPEND on the changes of the table's last log. */
    method Push(t: nat, depth: nat, c: Change)
      requires t < |tbl| && TxOk(tx, depth) && ThreadOk(Thread(tx, depth), tbl, depth)
      requires ListOk(tbl[t], depth) && OnTop(tbl[t], depth)
      modifies `tbl
      ensures ThreadOk(Thread(tx, depth), tbl, depth)
      ensures |tbl| == |old(tbl)| && ListOk(tbl[t], depth)
      ensures forall u | 0 <= u < |tbl| && u != t :: tbl[u] == old(tbl)[u]
      ensures Older(tbl[t], depth) == Older(old(tbl)[t], depth)
      ensures Current(tbl[t], depth) == [c] + Current(old(tbl)[t], depth)
    {
      hide OnTop, Current, Older, ListOk, TxOk, ThreadOk;
      var l := tbl[t];
      TopChanges(l, depth);
      var changes := [c] + Last(l).changes;
      ReplaceTop(l, depth, changes);
      ThreadStays(Thread(tx, depth), tbl, depth, t, Front(l) + [TableLog(depth, changes)]);
      tbl := tbl[t := Front(l) + [TableLog(depth, changes)]];
    }

    /** delete_log: the drained log leaves both lists. */
    method DeleteLog(t: nat, depth: nat)
      requires Threaded(tx, tbl, depth, Some(t)) && t < |tbl| && Current(tbl[t], depth) == []
      modifies `tx, `tbl
      ensures Threaded(tx, tbl, depth, None) && |tbl| == |old(tbl)|
      ensures forall u | 0 <= u < |tbl| :: Older(tbl[u], depth) == Older(old(tbl)[u], depth)
      ensures forall u | 0 <= u < |tbl| :: Current(tbl[u], depth) == Current(old(tbl)[u], depth)
      ensures tx != [] && Last(tx).depth == depth && |Thread(tx, depth)| < |Thread(old(tx), depth)|
    {
      assert t in Thread(tx, depth) && OnTop(tbl[t], depth) && Thread(tx, depth) == Last(tx).tables;
      hide OnTop, Current, Older, ListOk, TxOk, ThreadOk;
      PopTop(tbl[t], depth);
      ThreadShrinks(Thread(tx, depth), tbl, depth, Front(tbl[t]));
      SetThread(tx, depth, Last(tx).tables[1..]);
      tbl := tbl[t := Front(tbl[t])];
      tx := Front(tx) + [TxLog(depth, Last(tx).tables[1..])];
    }

    /** Takes a change off the log of the table whose turn it is. */
    method Take(t: nat, depth: nat, forward: bool) returns (c: Change)
      requires Threaded(tx, tbl, depth, Some(t)) && t < |tbl| && Current(tbl[t], depth) != []
      modifies `tbl
      ensures Threaded(tx, tbl, depth, Some(t)) && |tbl| == |old(tbl)|
      ensures forall u | 0 <= u < |tbl| && u != t :: tbl[u] == old(tbl)[u]
      ensures Older(tbl[t], depth) == Older(old(tbl)[t], depth)
      ensures Taken(Current(old(tbl)[t], depth), forward, c, Current(tbl[t], depth))
    {
      var l := tbl[t];
      assert OnTop(l, depth) && Current(l, depth) == Last(l).changes;
      var changes := Last(l).changes;
      var rest := if forward then changes[1..] else Front(changes);
      c := if forward then changes[0] else Last(changes);
      hide OnTop, Current, Older, ListOk, TxOk, ThreadOk;
      ReplaceTop(l, depth, rest);
      ThreadStays(Thread(tx, depth), tbl, depth, t, Front(l) + [TableLog(depth, rest)]);
      tbl := tbl[t := Front(l) + [TableLog(depth, rest)]];
    }

    /** Entering the next table of the transaction. */
    method Enter(depth: nat) returns (next: Option<nat>)
      requires depth > 0 && Threaded(tx, tbl, depth, None)
      ensures next.Some? ==> next.value < |tbl| && Threaded(tx, tbl, depth, next)
      ensures next.None? ==> forall u | 0 <= u < |tbl| :: Current(tbl[u], depth) == []
    {
      if tx == [] || depth > Last(tx).depth || Last(tx).tables == [] {
        return None;
      }
      assert Last(tx).depth == depth && Thread(tx, depth)[0] in Thread(tx, depth);
      next := Some(Last(tx).tables[0]);
    }

    /** mdb_log_transaction_iterate with the delete flag: unlinks and returns the
        next change, and the cursor for the next call. */
    method Next(depth: nat, cursor: Option<nat>, forward: bool)
      returns (entry: Option<(nat, Change)>, next: Option<nat>)
      requires depth > 0 && Threaded(tx, tbl, depth, cursor) && Told(history, tbl, depth)
      modifies this
      ensures Threaded(tx, tbl, depth, next) && |tbl| == |old(tbl)| && Told(history, tbl, depth)
      ensures history == if entry.Some? then Without(old(history), entry.value.0, forward) else old(history)
      ensures forall u | 0 <= u < |tbl| :: Older(tbl[u], depth) == Older(old(tbl)[u], depth)
      ensures entry.None? ==> next == None && forall u | 0 <= u < |tbl| :: Current(tbl[u], depth) == []
      ensures entry.None? ==> forall u | 0 <= u < |tbl| :: Current(old(tbl)[u], depth) == []
      ensures entry.Some? ==>
                var (t, c) := entry.value;
                && next == Some(t) && t < |tbl|
                && Taken(Current(old(tbl)[t], depth), forward, c, Current(tbl[t], depth))
                && (forall u | 0 <= u < |tbl| && u != t :: Current(tbl[u], depth) == Current(old(tbl)[u], depth))
      ensures entry.Some? ==>
                || |Thread(tx, depth)| < |Thread(old(tx), depth)|
                || Thread(tx, depth) == Thread(old(tx), depth)
    {
      hide OnTop, Current, Older, ListOk, TxOk, ThreadOk, Told;
      next := cursor;
      if next == None {
        next := Enter(depth);
        if next == None {
          return None, None;
        }
      } else {
        CursorInRange(tx, tbl, depth, cursor.value);
      }
      while true
        invariant next.Some? && next.value < |tbl| && Threaded(tx, tbl, depth, next) && |tbl| == |old(tbl)|
        invariant history == old(history) && Told(history, tbl, depth)
        invariant forall u | 0 <= u < |tbl| :: Older(tbl[u], depth) == Older(old(tbl)[u], depth)
        invariant forall u | 0 <= u < |tbl| :: Current(tbl[u], depth) == Current(old(tbl)[u], depth)
        invariant Thread(tx, depth) == Thread(old(tx), depth) || |Thread(tx, depth)| < |Thread(old(tx), depth)|
        decreases |Thread(tx, depth)|
      {
        var t := next.value;
        if Current(tbl[t], depth) == [] {
          ghost var tbl0 := tbl;
          DeleteLog(t, depth);
          ToldFrame(history, tbl0, tbl, depth);
          next := Enter(depth);
          if next == None {
            return None, None;
          }
        } else {
          ghost var tbl0 := tbl;
          var c := Take(t, depth, forward);
          ToldTake(history, tbl0, tbl, t, c, forward, depth);
          history := Without(history, t, forward);
          return Some((t, c)), next;
        }
      }
    }
  }

  /** `c` is one end of a log and `rest` is what remains. */
  ghost predicate Taken(log: seq<Change>, forward: bool, c: Change, rest: seq<Change>) {
    log == if forward then [c] + rest else rest + [c]
  }

  lemma {:induction false} DepthPositive(l: seq<TableLog>, depth: nat)
    requires ListOk(l, depth)
    ensures l != [] ==> depth > 0
  {
    if l != [] {
      assert 1 <= l[0].depth;
    }
  }

  lemma {:induction false} CursorInRange(tx: seq<TxLog>, tbl: seq<seq<TableLog>>, depth: nat, t: nat)
    requires Threaded(tx, tbl, depth, Some(t))
    ensures t < |tbl|
  {
    assert t in Thread(tx, depth);
  }
}
