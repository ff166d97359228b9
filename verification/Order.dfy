// The order of the rows of a table: what operations and their rollback do to the list
// (src/murphy-db/mdb/row.c, transaction.c).

module RowOrder {
  import opened LinkedLists
  import opened SortedSequence
  import opened TableStore
  import opened TransactionRuns

  /** What an operation does to the row list; a new row is the last. */
  function StepInList(rows: seq<Ptr>, op: Op): seq<Ptr> {
    match op
    case Insert(p, _) => rows + [p]
    case Update(_, _, _) => rows
    case Delete(p) => Unlink(rows, p)
    case Replace(p, q, _) => Unlink(rows, p) + [q]
  }

  /** What undoing a change does to it; a deleted row comes back as the last. */
  function UndoInList(rows: seq<Ptr>, c: Change): seq<Ptr> {
    match c
    case Inserted(p) => Unlink(rows, p)
    case Deleted(p) => rows + [p]
    case Updated(_, _) => rows
  }

  /** Logs are newest first. */
  function UndoAllInList(rows: seq<Ptr>, log: seq<Change>): seq<Ptr>
    decreases |log|
  {
    if log == [] then rows else UndoAllInList(UndoInList(rows, log[0]), log[1..])
  }

  lemma {:induction false} UndoFirst(rows: seq<Ptr>, c: Change, rest: seq<Change>)
    ensures UndoAllInList(rows, [c] + rest) == UndoAllInList(UndoInList(rows, c), rest)
  {
    assert ([c] + rest)[1..] == rest;
  }

  lemma {:induction false} UndoLast(rows: seq<Ptr>, log: seq<Change>, c: Change)
    ensures UndoAllInList(rows, log + [c]) == UndoInList(UndoAllInList(rows, log), c)
    decreases |log|
  {
    if log == [] {
      assert log + [c] == [c] + [];
      UndoFirst(rows, c, []);
    } else {
      assert (log + [c])[1..] == log[1..] + [c];
      UndoLast(UndoInList(rows, log[0]), log[1..], c);
    }
  }

  /** The list after a run. */
  function FinalList(rows: seq<Ptr>, ops: seq<Op>): seq<Ptr>
    decreases |ops|
  {
    if ops == [] then rows else FinalList(StepInList(rows, ops[0]), ops[1..])
  }

  lemma {:induction false} LogOfFirst(ops: seq<Op>)
    requires ops != []
    ensures LogOf(ops) == LogOf(ops[1..]) + [Logged(ops[0])]
    decreases |ops|
  {
    hide Logged;
    if |ops| > 1 {
      var n := |ops| - 1;
      LogOfFirst(ops[..n]);
      assert ops[..n][1..] == ops[1..][..n - 1] && ops[1..][n - 1] == ops[n] && ops[..n][0] == ops[0];
    }
  }

  /** The list after a run and its rollback. */
  function Undone(rows: seq<Ptr>, ops: seq<Op>): seq<Ptr> { UndoAllInList(FinalList(rows, ops), LogOf(ops)) }

  lemma {:induction false} UndoneStep(rows: seq<Ptr>, ops: seq<Op>)
    requires ops != []
    ensures Undone(rows, ops) == UndoInList(Undone(StepInList(rows, ops[0]), ops[1..]), Logged(ops[0]))
  {
    hide UndoInList, StepInList, UndoAllInList, LogOf;
    LogOfFirst(ops);
    UndoLast(FinalList(rows, ops), LogOf(ops[1..]), Logged(ops[0]));
  }

  /** Rows that are inserted are new to the run, rows that are deleted are in the list, and
      no row is replaced. `used` are the rows that were there before. */
  predicate PlainRun(rows: seq<Ptr>, used: set<Ptr>, ops: seq<Op>)
    decreases |ops|
  {
    ops == [] ||
    match ops[0]
    case Insert(p, _) => p !in used && PlainRun(rows + [p], used + {p}, ops[1..])
    case Update(p, _, _) => p in rows && PlainRun(rows, used, ops[1..])
    case Delete(p) => p in rows && PlainRun(Unlink(rows, p), used, ops[1..])
    case Replace(_, _, _) => false
  }

  /** The rows of a list that the run has not inserted. */
  function Elder(rows: seq<Ptr>, young: set<Ptr>): seq<Ptr> {
    if rows == [] then [] else (if rows[0] in young then [] else [rows[0]]) + Elder(rows[1..], young)
  }

  /** Of the rows that the run has not inserted itself, it deletes the last one each time. */
  predicate BackToFront(rows: seq<Ptr>, young: set<Ptr>, ops: seq<Op>)
    decreases |ops|
  {
    ops == [] ||
    match ops[0]
    case Insert(p, _) => BackToFront(rows + [p], young + {p}, ops[1..])
    case Delete(p) =>
      var elder := Elder(rows, young);
      (p in young || (elder != [] && elder[|elder| - 1] == p)) && BackToFront(Unlink(rows, p), young, ops[1..])
    case _ => BackToFront(rows, young, ops[1..])
  }

  lemma {:induction false} ElderParts(a: seq<Ptr>, b: seq<Ptr>, young: set<Ptr>)
    ensures Elder(a + b, young) == Elder(a, young) + Elder(b, young)
  {
    if a == [] {
      assert a + b == b;
    } else {
      assert (a + b)[1..] == a[1..] + b;
      ElderParts(a[1..], b, young);
    }
  }

  lemma {:induction false} ElderOne(p: Ptr, young: set<Ptr>)
    ensures Elder([p], young) == if p in young then [] else [p]
  {
  }

  lemma {:induction false} ElderMembers(rows: seq<Ptr>, young: set<Ptr>)
    ensures forall p :: p in Elder(rows, young) <==> p in rows && p !in young
  {
    if rows != [] {
      ElderMembers(rows[1..], young);
      assert rows == [rows[0]] + rows[1..];
    }
  }

  /** A row that is not in the list makes no difference. */
  lemma {:induction false} ElderYounger(rows: seq<Ptr>, young: set<Ptr>, p: Ptr)
    requires p !in rows
    ensures Elder(rows, young + {p}) == Elder(rows, young)
  {
    if rows != [] {
      ElderYounger(rows[1..], young, p);
    }
  }

  lemma {:induction false} Split(rows: seq<Ptr>, p: Ptr) returns (a: seq<Ptr>, b: seq<Ptr>)
    requires p in rows && NoDuplicates(rows)
    ensures rows == a + [p] + b && p !in a && p !in b && Unlink(rows, p) == a + b
  {
    var i :| 0 <= i < |rows| && rows[i] == p;
    a, b := rows[..i], rows[i + 1..];
    assert forall k | 0 <= k < |b| :: b[k] == rows[i + 1 + k];
    assert rows == a + [p] + b;
    UnlinkSplit(a, p, b);
  }

  /** After the rollback the rows of the list are there again. */
  lemma {:induction false} UndoneRows(rows: seq<Ptr>, used: set<Ptr>, ops: seq<Op>)
    requires NoDuplicates(rows) && Linked(rows) <= used && PlainRun(rows, used, ops)
    ensures NoDuplicates(Undone(rows, ops)) && Linked(Undone(rows, ops)) == Linked(rows)
    decreases |ops|
  {
    hide Undone, NoDuplicates;
    if ops == [] {
      NothingUndone(rows);
    } else {
      UndoneStep(rows, ops);
      match ops[0] {
        case Insert(p, _) =>
          assert p !in Linked(rows);
          FreshLink(rows, p);
          UndoneRows(rows + [p], used + {p}, ops[1..]);
          UnlinkRemoves(Undone(rows + [p], ops[1..]), p);
          assert Linked(rows) + {p} - {p} == Linked(rows);
        case Update(_, _, _) =>
          UndoneRows(rows, used, ops[1..]);
        case Delete(p) =>
          UnlinkRemoves(rows, p);
          UndoneRows(Unlink(rows, p), used, ops[1..]);
          FreshLink(Undone(Unlink(rows, p), ops[1..]), p);
          assert p in Linked(rows) && Linked(rows) - {p} + {p} == Linked(rows);
      }
    }
  }

  lemma {:induction false} NothingUndone(rows: seq<Ptr>)
    ensures Undone(rows, []) == rows
  {
  }

  /** A row leaves a list in which it stands for itself: the elder rows do not notice if it
      is young. */
  lemma {:induction false} ElderUnlink(rows: seq<Ptr>, young: set<Ptr>, p: Ptr)
    requires NoDuplicates(rows) && p in rows
    ensures Elder(Unlink(rows, p), young) == Elder(Unlink(rows, p), young + {p}) == Elder(rows, young + {p})
  {
    var a, b := Split(rows, p);
    ElderParts(a, b, young);
    ElderParts(a, b, young + {p});
    ElderParts(a + [p], b, young + {p});
    ElderParts(a, [p], young + {p});
    ElderOne(p, young + {p});
    ElderYounger(a, young, p);
    ElderYounger(b, young, p);
  }

  /** An elder row leaves and comes back as the last: the elder rows are in their order
      again exactly if it was the last and the others are in theirs. */
  lemma {:induction false} ElderReturns(rows: seq<Ptr>, r: seq<Ptr>, young: set<Ptr>, p: Ptr)
    requires NoDuplicates(rows) && p in rows && p !in young && p !in r
    ensures var elder := Elder(rows, young);
            elder != [] && (Elder(r + [p], young) == elder <==>
              elder[|elder| - 1] == p && Elder(r, young) == Elder(Unlink(rows, p), young))
  {
    hide Elder, Unlink, NoDuplicates;
    var a, b := Split(rows, p);
    ElderParts(r, [p], young);
    ElderParts(a, b, young);
    ElderParts(a + [p], b, young);
    ElderParts(a, [p], young);
    ElderOne(p, young);
    ElderMembers(b, young);
    assert Elder(rows, young) == Elder(a, young) + [p] + Elder(b, young);
    SameLast(Elder(r, young), Elder(a, young), p, Elder(b, young));
  }

  lemma {:induction false} SameLast(r: seq<Ptr>, x: seq<Ptr>, p: Ptr, y: seq<Ptr>)
    requires p !in y
    ensures var elder := x + [p] + y;
            r + [p] == elder <==> elder[|elder| - 1] == p && r == x + y
  {
    var elder := x + [p] + y;
    if y != [] {
      assert y[|y| - 1] in y && elder[|elder| - 1] == y[|y| - 1];
    } else {
      assert elder == x + [p] && x + y == x;
      assert x == (x + [p])[..|x|] && r == (r + [p])[..|r|];
    }
  }

  lemma {:induction false} ElderRestoredIff(rows: seq<Ptr>, used: set<Ptr>, young: set<Ptr>, ops: seq<Op>)
    requires NoDuplicates(rows) && Linked(rows) <= used && young <= used && PlainRun(rows, used, ops)
    ensures Elder(Undone(rows, ops), young) == Elder(rows, young) <==> BackToFront(rows, young, ops)
    decreases |ops|
  {
    hide Undone, NoDuplicates, Elder, Unlink;
    if ops == [] {
      NothingUndone(rows);
    } else {
      UndoneStep(rows, ops);
      match ops[0] {
        case Insert(p, _) => RestoredInsert(rows, used, young, ops, p);
        case Update(_, _, _) => ElderRestoredIff(rows, used, young, ops[1..]);
        case Delete(p) => RestoredDelete(rows, used, young, ops, p);
      }
    }
  }

  lemma {:induction false} RestoredInsert(rows: seq<Ptr>, used: set<Ptr>, young: set<Ptr>, ops: seq<Op>, p: Ptr)
    requires NoDuplicates(rows) && Linked(rows) <= used && young <= used && PlainRun(rows, used, ops)
    requires ops != [] && ops[0].Insert? && ops[0].row == p
    ensures Elder(Undone(rows, ops), young) == Elder(rows, young) <==> BackToFront(rows, young, ops)
    decreases |ops|, 0
  {
    hide Undone, NoDuplicates, Elder, Unlink;
    var longer, r := rows + [p], Undone(rows + [p], ops[1..]);
    assert p !in Linked(rows) && p !in rows;
    FreshLink(rows, p);
    UndoneStep(rows, ops);
    UndoneRows(longer, used + {p}, ops[1..]);
    assert p in Linked(longer) && p in Linked(r);
    ElderUnlink(r, young, p);
    ElderParts(rows, [p], young + {p});
    ElderOne(p, young + {p});
    ElderYounger(rows, young, p);
    ElderRestoredIff(longer, used + {p}, young + {p}, ops[1..]);
  }

  lemma {:induction false} RestoredDelete(rows: seq<Ptr>, used: set<Ptr>, young: set<Ptr>, ops: seq<Op>, p: Ptr)
    requires NoDuplicates(rows) && Linked(rows) <= used && young <= used && PlainRun(rows, used, ops)
    requires ops != [] && ops[0] == Op.Delete(p)
    ensures Elder(Undone(rows, ops), young) == Elder(rows, young) <==> BackToFront(rows, young, ops)
    decreases |ops|, 0
  {
    hide Undone, NoDuplicates, Elder, Unlink;
    var shorter, r := Unlink(rows, p), Undone(Unlink(rows, p), ops[1..]);
    UnlinkRemoves(rows, p);
    UndoneStep(rows, ops);
    UndoneRows(shorter, used, ops[1..]);
    assert p !in Linked(r) && p !in r;
    ElderRestoredIff(shorter, used, young, ops[1..]);
    if p in young {
      ElderUnlink(rows, young, p);
      assert young + {p} == young;
      ElderParts(r, [p], young);
      ElderOne(p, young);
    } else {
      ElderReturns(rows, r, young, p);
    }
  }

  /** A rollback brings the rows back in their order exactly if the transaction, of the rows
      that were there before it, deleted the last one each time. */
  lemma {:induction false} OrderRestoredIff(rows: seq<Ptr>, ops: seq<Op>)
    requires NoDuplicates(rows) && PlainRun(rows, Linked(rows), ops)
    ensures UndoAllInList(FinalList(rows, ops), LogOf(ops)) == rows <==> BackToFront(rows, {}, ops)
  {
    hide PlainRun, BackToFront, NoDuplicates;
    ElderRestoredIff(rows, Linked(rows), {}, ops);
    ElderAll(rows);
    ElderAll(Undone(rows, ops));
  }

  lemma {:induction false} ElderAll(rows: seq<Ptr>)
    ensures Elder(rows, {}) == rows
  {
    if rows != [] {
      ElderAll(rows[1..]);
    }
  }

  /** Deleting the first of two rows and rolling back turns them round. */
  lemma {:induction false} OrderCounterexample(a: Ptr, b: Ptr)
    requires a != b
    ensures UndoAllInList(FinalList([a, b], [Op.Delete(a)]), LogOf([Op.Delete(a)])) == [b, a]
  {
    var op := Op.Delete(a);
    assert [op][..0] == [] && LogOf([op]) == [Deleted(a)];
    assert [op][1..] == [] && FinalList([a, b], [op]) == Unlink([a, b], a) == [b];
    UndoFirst([b], Deleted(a), []);
    assert [Deleted(a)] + [] == [Deleted(a)];
  }
}
