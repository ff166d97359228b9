// Tables under transactions (src/murphy-db/mdb/transaction.c and the row loops
// of src/murphy-db/mdb/table.c).

module Transactions {
  import opened Common
  import opened LinkedLists
  import opened Keys
  import opened SortedSequence
  import opened TableStore
  import opened RowTable
  import opened UndoLog
  import opened TransactionRuns
  import opened RowOrder

  /** What one table and its logs owe each other at the current depth. */
  ghost predicate Accounted(lay: Layout, s: Store, l: seq<TableLog>, depth: nat) {
    && Owns(s, Current(l, depth), Kept(Older(l, depth)))
    && Recoverable(lay, s, Current(l, depth))
    && Mentions(Current(l, depth)) <= s.mem.Keys
  }

  /** The index of a table is the same. */
  twostate predicate IndexKept(t: Table)
    reads t, t.Repr
  {
    t.Repr == old(t.Repr) && t.hash == old(t.hash) && t.order == old(t.order) && unchanged(t.Repr - {t})
  }

  ghost function AllReprs(tables: seq<Table>): set<object>
    reads tables
  {
    set t, o | t in tables && o in t.Repr :: o
  }

  lemma {:induction false} InAllReprs(tables: seq<Table>)
    requires forall i | 0 <= i < |tables| :: tables[i].Valid()
    ensures forall i | 0 <= i < |tables| :: tables[i] in AllReprs(tables)
    ensures forall i | 0 <= i < |tables| :: tables[i].Repr <= AllReprs(tables)
  {
  }

  class Database {
    const tables: seq<Table>
    const log: Log
    var txdepth: nat
    ghost var Repr: set<object>

    constructor (tables: seq<Table>)
      requires forall i | 0 <= i < |tables| :: tables[i].Valid()
      requires forall i, j | 0 <= i < |tables| && 0 <= j < |tables| && i != j :: tables[i].Repr !! tables[j].Repr
      requires forall i | 0 <= i < |tables| :: Owns(tables[i].View(), [], {})
      ensures Valid() && this.tables == tables && txdepth == 0 && fresh(log) && fresh(Repr - AllReprs(tables))
    {
      hide AllReprs, Table.Valid, Threaded, Owns;
      this.tables, txdepth := tables, 0;
      log := new Log(|tables|);
      Repr := AllReprs(tables);
      InAllReprs(tables);
      new;
      Repr := Repr + {this, log};
      Established();
    }

    /** Tables without unlinked rows and an empty log make a database. */
    lemma {:induction false} Established()
      requires TablesOk() && |log.tbl| == |tables| && Threaded(log.tx, log.tbl, txdepth, None)
      requires Told(log.history, log.tbl, txdepth)
      requires txdepth == 0 && forall i | 0 <= i < |tables| :: Owns(tables[i].View(), [], {}) && log.tbl[i] == []
      ensures Valid()
    {
      hide Table.Valid, Threaded, Accounted;
      forall i | 0 <= i < |tables| ensures Accounted(tables[i].lay, tables[i].View(), log.tbl[i], 0) {
        tables[i].ValidIsGood();
        NothingLogged(tables[i].lay, tables[i].View());
      }
    }

    /** The tables do not share memory. */
    ghost predicate Apart()
      reads this, Repr
    {
      && this in Repr && log in Repr
      && (forall i | 0 <= i < |tables| :: tables[i] in Repr && tables[i].Repr <= Repr)
      && (forall i | 0 <= i < |tables| :: this !in tables[i].Repr && log !in tables[i].Repr)
      && (forall i, j | 0 <= i < |tables| && 0 <= j < |tables| && i != j :: tables[i].Repr !! tables[j].Repr)
    }

    /** ...and are healthy. */
    ghost predicate TablesOk()
      reads this, Repr
    {
      Apart() && forall i | 0 <= i < |tables| :: tables[i].Valid()
    }

    /** What is left when the index of table `i` or the log has lost touch with its rows. */
    ghost predicate Standing(i: nat)
      reads this, Repr
      requires i < |tables|
    {
      && Apart() && tables[i].Shape() && (forall u | 0 <= u < |tables| && u != i :: tables[u].Valid())
      && |log.tbl| == |tables| && Threaded(log.tx, log.tbl, txdepth, None) && Told(log.history, log.tbl, txdepth)
    }

    lemma {:induction false} ValidStands(i: nat)
      requires Valid() && i < |tables|
      ensures Standing(i) && tables[i].Valid()
    {
      hide Accounted, Threaded;
    }

    lemma {:induction false} StandingParts(i: nat)
      requires i < |tables| && Standing(i)
      ensures tables[i].Shape() && tables[i] in Repr && log in Repr && |log.tbl| == |tables|
    {
      hide Table.Shape, Table.Valid, Threaded;
    }

    ghost predicate Ledger()
      reads this, Repr
      requires TablesOk() && |log.tbl| == |tables|
    {
      forall i | 0 <= i < |tables| :: Accounted(tables[i].lay, tables[i].View(), log.tbl[i], txdepth)
    }

    ghost predicate Valid()
      reads this, Repr
    {
      && TablesOk() && |log.tbl| == |tables|
      && Threaded(log.tx, log.tbl, txdepth, None) && Told(log.history, log.tbl, txdepth) && Ledger()
    }

    /** The changes of table `i` in the current transaction. */
    ghost function Changes(i: nat): seq<Change>
      reads this, log
      requires i < |log.tbl|
    {
      Current(log.tbl[i], txdepth)
    }

    /** The store that a rollback would leave in table `i`. */
    ghost function Origin(i: nat): Store
      reads this, log, tables
      requires i < |tables| == |log.tbl|
    {
      UndoAll(tables[i].View(), Changes(i))
    }

    ghost function Views(): (r: seq<Store>)
      reads this, tables
      ensures |r| == |tables|
    {
      seq(|tables|, i requires 0 <= i < |tables| reads this, tables => tables[i].View())
    }

    /** What a rollback leads to is what undoing all changes in reverse order leads to,
        whatever tables they belong to. */
    lemma {:induction false} OriginsOfHistory()
      requires Valid()
      ensures forall i | 0 <= i < |log.history| :: log.history[i].0 < |Views()|
      ensures forall i | 0 <= i < |tables| :: Origin(i) == UndoHistory(Views(), log.history)[i]
    {
      hide Accounted, Threaded, Table.Valid, Current, LogFor, UndoAll, UndoHistory;
      forall i: nat | i < |tables| ensures Origin(i) == UndoHistory(Views(), log.history)[i] {
        UndoHistoryAt(Views(), log.history, i);
      }
    }

    /** mdb_transaction_begin */
    method Begin() returns (depth: nat)
      requires Valid()
      modifies `txdepth, log`history
      ensures Valid() && depth == txdepth == old(txdepth) + 1
      ensures forall i | 0 <= i < |tables| :: Origin(i) == tables[i].View() && Changes(i) == []
      ensures log.history == []
    {
      hide Accounted, Table.Valid, Current, OnTop, ListOk, TxOk, ThreadOk;
      forall i | 0 <= i < |tables|
        ensures Accounted(tables[i].lay, tables[i].View(), log.tbl[i], txdepth + 1)
        ensures Current(log.tbl[i], txdepth + 1) == []
      {
        Deepen(tables[i].lay, tables[i].View(), log.tbl[i], txdepth);
      }
      DeepenThreads(log.tx, log.tbl, txdepth);
      txdepth := txdepth + 1;
      log.Deeper(txdepth);
      depth := txdepth;
    }

    /** Everything but table `i` is as it was. */
    twostate predicate OthersKept(i: nat)
      reads this, log, tables
    {
      && |log.tbl| == |old(log.tbl)| && txdepth == old(txdepth)
      && (forall u | 0 <= u < |tables| :: tables[u].lay == old(tables[u].lay))
      && (forall u | 0 <= u < |tables| && u != i ::
            tables[u].View() == old(tables[u].View()) && tables[u].rows == old(tables[u].rows))
      && (forall u | 0 <= u < |log.tbl| && u != i :: log.tbl[u] == old(log.tbl[u]))
    }

    /** An operation on table `i` leaves the other tables alone. */
    twostate lemma {:induction false} Undisturbed(i: nat)
      requires i < |tables| && old(Apart()) && old(forall u | 0 <= u < |tables| && u != i :: tables[u].Valid())
      requires fresh(tables[i].Repr - old(tables[i].Repr))
      requires unchanged(old(Repr) - old(tables[i].Repr) - {this, log})
      requires Repr == old(Repr) + tables[i].Repr
      ensures Apart() && (tables[i].Valid() ==> TablesOk())
      ensures forall u | 0 <= u < |tables| && u != i ::
                && tables[u].Valid() && tables[u].View() == old(tables[u].View())
                && tables[u].rows == old(tables[u].rows) && tables[u].lay == old(tables[u].lay)
    {
      forall u | 0 <= u < |tables| && u != i
        ensures unchanged(old(tables[u].Repr)) && tables[u].Valid() && tables[u] in old(tables[u].Repr)
      {
        assert old(tables[u].Repr) !! old(tables[i].Repr) && old(tables[u].Valid());
      }
    }

    /** The part of mdb_table_insert that deals with one row. The database stays
        consistent exactly if the insertion is safe. */
    method Insert(i: nat, data: Bytes, ignore: bool) returns (status: int, p: Ptr)
      requires Valid() && i < |tables|
      requires tables[i].lay.Fits(data) && (tables[i].lay.Indexed? ==> KeyOf(tables[i].lay, data) in tables[i].universe)
      modifies Repr
      ensures fresh(Repr - old(Repr))
      ensures Valid() <==> old(SafeInsert(tables[i].lay, tables[i].View(), data, ignore, Changes(i), txdepth))
      ensures Valid() ==> OthersKept(i)
      ensures status == if old(KeyFree(tables[i].lay, tables[i].View(), data, {})) then 1
                        else if ignore && old(txdepth) > 0 then 0 else -1
      ensures status == 1 ==> tables[i].View() == Step(old(tables[i].View()), Op.Insert(p, data))
      ensures status == 0 ==> exists r :: Applicable(old(tables[i].lay), old(tables[i].View()), Replace(r, p, data))
                                          && tables[i].View() == Step(old(tables[i].View()), Replace(r, p, data))
                                          && tables[i].rows == Unlink(old(tables[i].rows), r) + [p]
      ensures status == 1 || (status == -1 && ignore) ==> tables[i].rows == old(tables[i].rows) + [p]
      ensures status == -1 && !ignore ==> tables[i].rows == old(tables[i].rows)
      ensures status != -1 || ignore ==> p in tables[i].mem && tables[i].mem[p] == data
      ensures Fresh(old(tables[i].View()), p)
      ensures status == -1 ==>
                tables[i].View()
                == if ignore then Step(old(tables[i].View()), Op.Insert(p, data)) else old(tables[i].View())
      ensures Valid() && txdepth > 0 ==> SameOrigin(old(tables[i].lay), old(tables[i].View()), old(Changes(i)),
                                                    tables[i].View(), Changes(i), status != 0)
    {
      hide Accounted, SameOrigin, Applicable, Good, Step, KeyFree, Room, Threaded, Told, Current, Older, Table.Valid,
        NotTouched, UndoAll, Recoverable, Table.Shape;
      var t := tables[i];
      ghost var s, l := t.View(), log.tbl[i];
      t.ValidIsGood();
      if txdepth == 0 {
        NothingAtZero(log.tx, log.tbl, i);
      }
      ghost var safe := SafeInsert(t.lay, s, data, ignore, Current(l, txdepth), txdepth);
      var change;
      status, p, change := t.Insert(data, ignore, txdepth);
      if change.Some? {
        var sts := log.Append(i, txdepth, change.value);
      }
      Repr := Repr + t.Repr;
      if safe {
        Undisturbed(i);
        InsertSettles(t.lay, s, t.View(), l, log.tbl[i], txdepth, status, p, data, change);
      } else if status == 0 {
        TouchedFaults(t.lay, s, t.View(), change.value.before, p, data, l, log.tbl[i], txdepth);
        NotAccounted(i);
      } else {
        NotHealthy(i);
      }
    }

    lemma {:induction false} NotHealthy(i: nat)
      requires i < |tables| && !tables[i].Valid()
      ensures !Valid()
    {
    }

    lemma {:induction false} NotAccounted(i: nat)
      requires i < |tables| == |log.tbl| && !Accounted(tables[i].lay, tables[i].View(), log.tbl[i], txdepth)
      ensures !Valid()
    {
      hide Accounted;
    }

    /** Another row has the key of `data`. */
    ghost predicate Collides(i: nat, p: Ptr, data: Bytes)
      reads this, Repr
      requires i < |tables| && Standing(i) && tables[i].lay.Fits(data)
    {
      !KeyFree(tables[i].lay, tables[i].View(), data, {p})
    }

    /** The row gets a new key, and the index is not told. */
    ghost predicate Overlooked(i: nat, p: Ptr, data: Bytes, indexUpdate: bool)
      reads this, Repr
      requires i < |tables| && Standing(i) && tables[i].lay.Fits(data) && p in tables[i].View().live
    {
      Unnoticed(tables[i].lay, tables[i].mem[p], data, indexUpdate)
    }

    /** update_single_row. The database stays consistent exactly if the index notices a
        new key and, inside a transaction, no other row has that key: there the log would
        refer to the row that a collision frees. */
    method Update(i: nat, p: Ptr, data: Bytes, indexUpdate: bool) returns (copy: Ptr)
      requires i < |tables| && Standing(i) && (indexUpdate ==> tables[i].Valid()) && p in tables[i].View().live
      requires tables[i].lay.Fits(data) && (tables[i].lay.Indexed? ==> KeyOf(tables[i].lay, data) in tables[i].universe)
      modifies Repr
      ensures Standing(i) && fresh(Repr - old(Repr)) && OthersKept(i)
      ensures old(tables[i].Valid()) ==> (tables[i].Valid() <==> !old(Overlooked(i, p, data, indexUpdate)))
      ensures old(Valid()) ==> (Valid() <==>
                && !old(Overlooked(i, p, data, indexUpdate))
                && (indexUpdate && txdepth > 0 ==> !old(Collides(i, p, data))))
      ensures if !(indexUpdate && old(Collides(i, p, data)))
              then && tables[i].View() == UpdateAt(old(tables[i].View()), p, copy, data, txdepth)
                   && tables[i].rows == old(tables[i].rows)
              else && tables[i].View() == Collided(old(tables[i].View()), p, if txdepth > 0 then {copy} else {})
                   && tables[i].rows == Unlink(old(tables[i].rows), p)
      ensures !indexUpdate ==> IndexKept(tables[i])
      ensures txdepth > 0 ==> Fresh(old(tables[i].View()), copy)
      ensures Changes(i) == if txdepth == 0 then [] else [Updated(copy, p)] + old(Changes(i))
      ensures old(Valid()) && Valid() && txdepth > 0 ==>
                SameOrigin(old(tables[i].lay), old(tables[i].View()), old(Changes(i)), tables[i].View(), Changes(i),
                  true)
      ensures Shows(old(tables[i].View()), tables[i].View(), p, copy, data, txdepth)
    {
      hide Shows, Lacks, Accounted, SameOrigin, Applicable, Good, Step, UpdateAt, DeleteAt, KeyFree, Threaded, Told,
        Current, Older, Table.Valid, Table.Shape, Table.Agrees, Collided, Unnoticed, UndoAll;
      var t := tables[i];
      ghost var s, l, was := t.View(), log.tbl[i], Valid();
      t.ShapeParts();
      ghost var free, unnoticed := KeyFree(t.lay, s, data, {p}), Unnoticed(t.lay, t.mem[p], data, indexUpdate);
      UpdateReady(i, p, data, indexUpdate);
      copy := UpdateLogged(i, p, data, indexUpdate);
      UpdateShows(s, t.View(), p, copy, data, txdepth);
      if was {
        if unnoticed {
          NotHealthy(i);
        } else if free || txdepth == 0 {
          UpdateSettles(t.lay, s, t.View(), p, copy, data, l, log.tbl[i], txdepth);
        } else {
          CollidedFaults(t.lay, s, p, copy, l, log.tbl[i], txdepth);
          NotAccounted(i);
        }
      }
    }

    /** The copy, the new bytes and the log entry. */
    method UpdateLogged(i: nat, p: Ptr, data: Bytes, indexUpdate: bool) returns (copy: Ptr)
      requires i < |tables| && Standing(i) && (indexUpdate ==> tables[i].Valid()) && p in tables[i].View().live
      requires tables[i].lay.Fits(data) && (tables[i].lay.Indexed? ==> KeyOf(tables[i].lay, data) in tables[i].universe)
      modifies Repr
      ensures Standing(i) && fresh(Repr - old(Repr)) && OthersKept(i)
      ensures old(tables[i].Valid()) ==> (tables[i].Valid() <==> !old(Overlooked(i, p, data, indexUpdate)))
      ensures if !(indexUpdate && old(Collides(i, p, data)))
              then && tables[i].View() == UpdateAt(old(tables[i].View()), p, copy, data, txdepth)
                   && tables[i].rows == old(tables[i].rows)
              else && tables[i].View() == Collided(old(tables[i].View()), p, if txdepth > 0 then {copy} else {})
                   && tables[i].rows == Unlink(old(tables[i].rows), p)
      ensures !indexUpdate ==> IndexKept(tables[i])
      ensures txdepth > 0 ==> Fresh(old(tables[i].View()), copy)
      ensures Older(log.tbl[i], txdepth) == old(Older(log.tbl[i], txdepth))
      ensures Current(log.tbl[i], txdepth) == if txdepth == 0 then []
              else [Updated(copy, p)] + old(Current(log.tbl[i], txdepth))
    {
      hide Good, UpdateAt, KeyFree, Threaded, Told, Current, Older, Table.Valid, Table.Shape, Table.Agrees, Collided,
        Unnoticed;
      var t := tables[i];
      t.ShapeParts();
      assert p in t.rows;
      copy := t.UpdateRow(p, data, indexUpdate, txdepth);
      var sts := log.Append(i, txdepth, Updated(copy, p));
      Repr := Repr + t.Repr;
      t.ShapeParts();
      Undisturbed(i);
    }

    /** What the state before an update offers. */
    lemma {:induction false} UpdateReady(i: nat, p: Ptr, data: Bytes, indexUpdate: bool)
      requires i < |tables| && Standing(i) && p in tables[i].View().live
      requires tables[i].lay.Fits(data) && Sane(tables[i].lay, tables[i].View())
      ensures p in tables[i].rows
      ensures Valid() ==> Good(tables[i].lay, tables[i].View())
      ensures Valid() && txdepth == 0 ==> Current(log.tbl[i], txdepth) == []
      ensures Valid() && !indexUpdate && !Unnoticed(tables[i].lay, tables[i].mem[p], data, indexUpdate) ==>
                KeyFree(tables[i].lay, tables[i].View(), data, {p})
    {
      hide Accounted, Good, KeyFree, Threaded, Current, Table.Valid, Table.Shape, Table.Agrees;
      if Valid() {
        tables[i].ValidIsGood();
        if txdepth == 0 {
          NothingAtZero(log.tx, log.tbl, i);
        }
        if !indexUpdate && !Unnoticed(tables[i].lay, tables[i].mem[p], data, indexUpdate) {
          tables[i].NoticedIsFree(p, data);
        }
      }
    }

    /** delete_single_row */
    method Delete(i: nat, p: Ptr)
      requires Valid() && i < |tables| && p in tables[i].View().live
      modifies Repr
      ensures Valid() && fresh(Repr - old(Repr)) && OthersKept(i)
      ensures tables[i].View() == DeleteAt(old(tables[i].View()), p, txdepth)
      ensures tables[i].rows == Unlink(old(tables[i].rows), p)
      ensures txdepth > 0 ==> SameOrigin(old(tables[i].lay), old(tables[i].View()), old(Changes(i)),
                                         tables[i].View(), Changes(i), true)
      ensures Lacks(old(tables[i].View()), tables[i].View(), p, txdepth)
    {
      hide Shows, Lacks, Accounted, SameOrigin, Applicable, Good, Step, UpdateAt, DeleteAt, KeyFree, Threaded, Told,
        Current, Older, Table.Valid;
      var t := tables[i];
      ghost var s, l := t.View(), log.tbl[i];
      t.ValidIsGood();
      if txdepth == 0 {
        NothingAtZero(log.tx, log.tbl, i);
      }
      t.DeleteRow(p, txdepth);
      var sts := log.Append(i, txdepth, Deleted(p));
      Repr := Repr + t.Repr;
      Undisturbed(i);
      DeleteAccounted(t.lay, s, p, l, log.tbl[i], txdepth);
      DeleteShows(s, p, txdepth);
    }

    // ----- ending a transaction

    /** One turn of the rollback loop. */
    method UndoOne(i: nat, c: Change) returns (status: int)
      requires TablesOk() && i < |tables|
      requires Enabled(tables[i].View(), c) && Good(tables[i].lay, Undo(tables[i].View(), c))
      modifies Repr - {log}
      ensures TablesOk() && fresh(Repr - old(Repr)) && txdepth == old(txdepth) && status >= 0
      ensures forall u | 0 <= u < |tables| :: tables[u].lay == old(tables[u].lay)
      ensures forall u | 0 <= u < |tables| ::
                tables[u].View() == if u == i then Undo(old(tables[u].View()), c) else old(tables[u].View())
      ensures forall u | 0 <= u < |tables| ::
                tables[u].rows == if u == i then UndoInList(old(tables[u].rows), c) else old(tables[u].rows)
    {
      hide Good, Enabled, Undo, Table.Valid;
      var t := tables[i];
      match c {
        case Inserted(p) => status := t.RemoveRow(p);
        case Deleted(p) => status := t.AddRow(p);
        case Updated(b, a) => status := t.CopyRow(a, b);
      }
      Repr := Repr + t.Repr;
      Undisturbed(i);
    }

    /** mdb_transaction_rollback */
    method Rollback(depth: nat) returns (status: int)
      requires Valid()
      modifies Repr
      ensures Valid() && fresh(Repr - old(Repr)) && txdepth == old(txdepth)
      ensures status == -1 <==> !(0 < depth == old(txdepth))
      ensures forall i | 0 <= i < |tables| :: tables[i].lay == old(tables[i].lay)
      ensures status == -1 ==> forall i | 0 <= i < |tables| :: tables[i].View() == old(tables[i].View())
      ensures status != -1 ==> forall i | 0 <= i < |tables| :: tables[i].View() == old(Origin(i)) && Changes(i) == []
      ensures status != -1 ==> Views() == UndoHistory(old(Views()), old(log.history))
      ensures status == -1 ==> forall i | 0 <= i < |tables| :: tables[i].rows == old(tables[i].rows)
      ensures status != -1 ==>
                forall i | 0 <= i < |tables| :: tables[i].rows == UndoAllInList(old(tables[i].rows), old(Changes(i)))
    {
      hide UndoAllInList, Accounted, Threaded, Told, Current, Older, Returning, UndoAll, UndoHistory, Table.Valid,
        Views;
      if !(depth > 0 && depth == txdepth) {
        return -1;
      }
      OriginsOfHistory();
      ghost var origins := Origins();
      ghost var older := seq(|tables|, i requires 0 <= i < |tables| reads this, Repr
        requires Valid() => Older(log.tbl[i], depth));
      ghost var lists := seq(|tables|, i requires 0 <= i < |tables| == |log.tbl| reads this, log, tables
        => UndoAllInList(tables[i].rows, Changes(i)));
      StartReturning(depth, origins, older);
      status := UndoLoop(depth, origins, older, lists);
      ListsReturned(depth, lists);
      AllReturned(depth, origins, older);
      ViewsAre(origins);
    }

    ghost function Origins(): (r: seq<Store>)
      requires Valid()
      reads this, Repr
      ensures |r| == |tables| && forall i | 0 <= i < |tables| :: r[i] == Origin(i)
    {
      seq(|tables|, i requires 0 <= i < |tables| reads this, Repr requires Valid() => Origin(i))
    }

    lemma {:induction false} ViewsAre(stores: seq<Store>)
      requires |stores| == |tables| && forall i | 0 <= i < |tables| :: tables[i].View() == stores[i]
      ensures Views() == stores
    {
    }

    lemma {:induction false} StartReturning(depth: nat, origins: seq<Store>, older: seq<seq<TableLog>>)
      requires Valid() && depth == txdepth > 0 && |origins| == |tables| == |older|
      requires forall i | 0 <= i < |tables| :: origins[i] == Origin(i) && older[i] == Older(log.tbl[i], depth)
      ensures TablesOk() && AllReturning(depth, origins, older)
    {
      hide Accounted, Threaded, Told, Current, Older, Returning, UndoAll;
      forall i | 0 <= i < |tables|
        ensures Returning(tables[i].lay, tables[i].View(), log.tbl[i], depth, origins[i], older[i])
      {
        AccountedReturns(tables[i].lay, tables[i].View(), log.tbl[i], depth);
      }
    }

    lemma {:induction false} AllReturned(depth: nat, origins: seq<Store>, older: seq<seq<TableLog>>)
      requires TablesOk() && AllReturning(depth, origins, older) && Threaded(log.tx, log.tbl, depth, None)
      requires Told(log.history, log.tbl, depth) && forall i | 0 <= i < |tables| :: Current(log.tbl[i], depth) == []
      ensures Valid() && forall i | 0 <= i < |tables| :: tables[i].View() == origins[i] && Changes(i) == []
    {
      hide Accounted, Threaded, Told, Current, Older, Returning;
      forall i | 0 <= i < |tables|
        ensures tables[i].View() == origins[i] && Accounted(tables[i].lay, tables[i].View(), log.tbl[i], depth)
      {
        Returned(tables[i].lay, tables[i].View(), log.tbl[i], depth, origins[i], older[i]);
      }
    }

    /** Every table is on its way back to its origin. */
    ghost predicate AllReturning(depth: nat, origins: seq<Store>, older: seq<seq<TableLog>>)
      reads this, Repr
      requires TablesOk()
    {
      && |log.tbl| == |tables| == |origins| == |older| && depth == txdepth > 0
      && forall i | 0 <= i < |tables| ::
           Returning(tables[i].lay, tables[i].View(), log.tbl[i], depth, origins[i], older[i])
    }

    /** Every row list is on its way to the list that undoing its log leads to. */
    ghost predicate ListsReturning(depth: nat, lists: seq<seq<Ptr>>)
      reads this, log, tables
    {
      && |log.tbl| == |tables| == |lists|
      && forall i | 0 <= i < |tables| :: UndoAllInList(tables[i].rows, Current(log.tbl[i], depth)) == lists[i]
    }

    lemma {:induction false} ListsReturned(depth: nat, lists: seq<seq<Ptr>>)
      requires ListsReturning(depth, lists) && forall i | 0 <= i < |tables| :: Current(log.tbl[i], depth) == []
      ensures forall i | 0 <= i < |tables| :: tables[i].rows == lists[i]
    {
    }

    method UndoLoop(depth: nat, ghost origins: seq<Store>, ghost older: seq<seq<TableLog>>, ghost lists: seq<seq<Ptr>>)
      returns (status: int)
      requires ListsReturning(depth, lists)
      requires TablesOk() && AllReturning(depth, origins, older) && Threaded(log.tx, log.tbl, depth, None)
      requires Told(log.history, log.tbl, depth)
      modifies Repr
      ensures TablesOk() && AllReturning(depth, origins, older) && Threaded(log.tx, log.tbl, depth, None)
      ensures Told(log.history, log.tbl, depth)
      ensures fresh(Repr - old(Repr)) && txdepth == old(txdepth) && status >= 0
      ensures forall i | 0 <= i < |tables| :: tables[i].lay == old(tables[i].lay)
      ensures forall i | 0 <= i < |tables| :: Current(log.tbl[i], depth) == []
      ensures ListsReturning(depth, lists)
    {
      hide Threaded, Told, Current, Older, Returning, TablesOk, ListsReturning;
      status := 0;
      var cursor: Option<nat> := None;
      while true
        invariant TablesOk() && AllReturning(depth, origins, older) && fresh(Repr - old(Repr))
        invariant ListsReturning(depth, lists)
        invariant Threaded(log.tx, log.tbl, depth, cursor) && Told(log.history, log.tbl, depth)
        invariant forall i | 0 <= i < |tables| :: tables[i].lay == old(tables[i].lay)
        invariant status >= 0 && txdepth == old(txdepth)
        decreases |Thread(log.tx, depth)|, cursor.None?,
                  if cursor.Some? && cursor.value < |log.tbl| then |Current(log.tbl[cursor.value], depth)| else 0
      {
        var s, going;
        going, cursor, s := UndoNext(depth, cursor, origins, older, lists);
        if !going {
          break;
        }
        if status == 0 {
          status := s;
        }
      }
    }

    /** The next change is taken off the log and undone. */
    method UndoNext(depth: nat, cursor: Option<nat>, ghost origins: seq<Store>, ghost older: seq<seq<TableLog>>,
                    ghost lists: seq<seq<Ptr>>)
      returns (going: bool, next: Option<nat>, status: int)
      requires ListsReturning(depth, lists)
      requires TablesOk() && AllReturning(depth, origins, older) && Threaded(log.tx, log.tbl, depth, cursor)
      requires Told(log.history, log.tbl, depth)
      modifies Repr
      ensures TablesOk() && AllReturning(depth, origins, older) && Threaded(log.tx, log.tbl, depth, next)
      ensures Told(log.history, log.tbl, depth)
      ensures fresh(Repr - old(Repr)) && txdepth == old(txdepth) && status >= 0
      ensures forall i | 0 <= i < |tables| :: tables[i].lay == old(tables[i].lay)
      ensures !going ==> next == None && forall i | 0 <= i < |tables| :: Current(log.tbl[i], depth) == []
      ensures going ==> Advanced(old(log.tx), old(log.tbl), cursor, log.tx, log.tbl, next, depth)
      ensures ListsReturning(depth, lists)
    {
      hide UndoInList, UndoAllInList, Threaded, Told, Current, Older, Returning, Undo, Good, Enabled, Table.Valid,
        Taken, Advanced;
      label start:
      ghost var tbl0, tx0 := log.tbl, log.tx;
      var entry;
      entry, next := log.Next(depth, cursor, true);
      Undisturbed0();
      if entry == None {
        forall i | 0 <= i < |tables|
          ensures Returning(tables[i].lay, tables[i].View(), log.tbl[i], depth, origins[i], older[i])
        {
          ReturnFrame(tables[i].lay, tables[i].View(), tbl0[i], log.tbl[i], depth, origins[i], older[i]);
        }
        return false, None, 0;
      }
      var (t, c) := entry.value;
      ghost var s := tables[t].View();
      ReturnStep(tables[t].lay, s, tbl0[t], log.tbl[t], depth, origins[t], older[t], c);
      NextAdvances(tx0, tbl0, cursor, log.tx, log.tbl, t, depth, c, true);
      NewestUndone(tables[t].rows, Current(tbl0[t], depth), Current(log.tbl[t], depth), c);
      status := UndoOne(t, c);
      forall i | 0 <= i < |tables|
        ensures Returning(tables[i].lay, tables[i].View(), log.tbl[i], depth, origins[i], older[i])
      {
        if i != t {
          ReturnFrame(tables[i].lay, tables[i].View(), tbl0[i], log.tbl[i], depth, origins[i], older[i]);
        }
      }
      going := true;
    }

    /** The log is not part of any table. */
    twostate lemma {:induction false} Undisturbed0()
      requires old(TablesOk()) && unchanged(old(Repr) - {log})
      ensures TablesOk()
    {
      forall i | 0 <= i < |tables| ensures tables[i].Valid() {
        assert old(tables[i].Valid()) && unchanged(tables[i].Repr);
      }
    }

    /** One turn of the commit loop, without the triggers. */
    method CommitOne(i: nat, c: Change) returns (status: int)
      requires TablesOk() && i < |tables|
      requires forall p | p in Before(c) :: p in tables[i].View().mem && p !in tables[i].View().live
      modifies Repr - {log}
      ensures TablesOk() && fresh(Repr - old(Repr)) && txdepth == old(txdepth) && status == 0
      ensures forall u | 0 <= u < |tables| :: tables[u].lay == old(tables[u].lay)
      ensures forall u | 0 <= u < |tables| ::
                tables[u].View() == if u == i then Freed(old(tables[u].View()), c) else old(tables[u].View())
      ensures forall u | 0 <= u < |tables| :: tables[u].rows == old(tables[u].rows)
    {
      hide Good, Table.Valid;
      var t := tables[i];
      match c {
        case Inserted(_) =>
          status := 0;
        case Updated(b, _) =>
          assert b in Before(c);
          status := t.DestroyRow(b);
        case Deleted(b) =>
          assert b in Before(c);
          status := t.DestroyRow(b);
      }
      Repr := Repr + t.Repr;
      Undisturbed(i);
    }

    /** Every table has the rows it had, and its log still owns what it has to free. */
    ghost predicate AllSettling(depth: nat, stores: seq<Store>, older: seq<seq<TableLog>>)
      reads this, Repr
      requires TablesOk()
    {
      && |log.tbl| == |tables| == |stores| == |older| && depth == txdepth > 0
      && forall i | 0 <= i < |tables| ::
           Settling(tables[i].lay, tables[i].View(), log.tbl[i], depth, stores[i], older[i])
    }

    /** The oldest change is taken off the log and its before-image freed. */
    method CommitNext(depth: nat, cursor: Option<nat>, ghost stores: seq<Store>, ghost older: seq<seq<TableLog>>)
      returns (going: bool, next: Option<nat>, status: int)
      requires TablesOk() && AllSettling(depth, stores, older) && Threaded(log.tx, log.tbl, depth, cursor)
      requires Told(log.history, log.tbl, depth)
      modifies Repr
      ensures TablesOk() && AllSettling(depth, stores, older) && Threaded(log.tx, log.tbl, depth, next)
      ensures Told(log.history, log.tbl, depth)
      ensures fresh(Repr - old(Repr)) && txdepth == old(txdepth) && status == 0
      ensures forall i | 0 <= i < |tables| ::
                tables[i].lay == old(tables[i].lay) && tables[i].rows == old(tables[i].rows)
      ensures !going ==> next == None && forall i | 0 <= i < |tables| :: Current(log.tbl[i], depth) == []
      ensures going ==> Advanced(old(log.tx), old(log.tbl), cursor, log.tx, log.tbl, next, depth)
    {
      hide Threaded, Told, Current, Older, Settling, Freed, Good, Table.Valid, Taken, Advanced, Before;
      ghost var tbl0, tx0 := log.tbl, log.tx;
      var entry;
      entry, next := log.Next(depth, cursor, false);
      Undisturbed0();
      if entry == None {
        forall i | 0 <= i < |tables|
          ensures Settling(tables[i].lay, tables[i].View(), log.tbl[i], depth, stores[i], older[i])
        {
          SettleFrame(tables[i].lay, tables[i].View(), tbl0[i], log.tbl[i], depth, stores[i], older[i]);
        }
        return false, None, 0;
      }
      var (t, c) := entry.value;
      ghost var s := tables[t].View();
      SettleStep(tables[t].lay, s, tbl0[t], log.tbl[t], depth, stores[t], older[t], c);
      NextAdvances(tx0, tbl0, cursor, log.tx, log.tbl, t, depth, c, false);
      status := CommitOne(t, c);
      forall i | 0 <= i < |tables|
        ensures Settling(tables[i].lay, tables[i].View(), log.tbl[i], depth, stores[i], older[i])
      {
        if i != t {
          SettleFrame(tables[i].lay, tables[i].View(), tbl0[i], log.tbl[i], depth, stores[i], older[i]);
        }
      }
      going := true;
    }

    method CommitLoop(depth: nat, ghost stores: seq<Store>, ghost older: seq<seq<TableLog>>) returns (status: int)
      requires TablesOk() && AllSettling(depth, stores, older) && Threaded(log.tx, log.tbl, depth, None)
      requires Told(log.history, log.tbl, depth)
      modifies Repr
      ensures TablesOk() && AllSettling(depth, stores, older) && Threaded(log.tx, log.tbl, depth, None)
      ensures Told(log.history, log.tbl, depth)
      ensures fresh(Repr - old(Repr)) && txdepth == old(txdepth) && status == 0
      ensures forall i | 0 <= i < |tables| ::
                tables[i].lay == old(tables[i].lay) && tables[i].rows == old(tables[i].rows)
      ensures forall i | 0 <= i < |tables| :: Current(log.tbl[i], depth) == []
    {
      hide Threaded, Told, Current, Older, Settling, TablesOk;
      status := 0;
      var cursor: Option<nat> := None;
      while true
        invariant TablesOk() && AllSettling(depth, stores, older) && fresh(Repr - old(Repr))
        invariant Threaded(log.tx, log.tbl, depth, cursor) && Told(log.history, log.tbl, depth)
        invariant forall i | 0 <= i < |tables| ::
                    tables[i].lay == old(tables[i].lay) && tables[i].rows == old(tables[i].rows)
        invariant status == 0 && txdepth == old(txdepth)
        decreases |Thread(log.tx, depth)|, cursor.None?,
                  if cursor.Some? && cursor.value < |log.tbl| then |Current(log.tbl[cursor.value], depth)| else 0
      {
        var s, going;
        going, cursor, s := CommitNext(depth, cursor, stores, older);
        if !going {
          break;
        }
        if status == 0 {
          status := s;
        }
      }
    }

    /** mdb_transaction_commit */
    method Commit(depth: nat) returns (status: int)
      requires Valid()
      modifies Repr
      ensures Valid() && fresh(Repr - old(Repr)) && txdepth == old(txdepth)
      ensures status == if 0 < depth == old(txdepth) then 0 else -1
      ensures forall i | 0 <= i < |tables| ::
                tables[i].lay == old(tables[i].lay) && tables[i].rows == old(tables[i].rows)
      ensures status == -1 ==> forall i | 0 <= i < |tables| :: tables[i].View() == old(tables[i].View())
      ensures status == 0 ==> forall i | 0 <= i < |tables| ::
                Committed(old(tables[i].View()), old(log.tbl[i]), depth, tables[i].View()) && Changes(i) == []
    {
      hide Accounted, Threaded, Told, Current, Older, Settling, Committed;
      if !(depth > 0 && depth == txdepth) {
        return -1;
      }
      ghost var stores := seq(|tables|, i requires 0 <= i < |tables| reads this, Repr
        requires Valid() => tables[i].View());
      ghost var older := seq(|tables|, i requires 0 <= i < |tables| reads this, Repr
        requires Valid() => Older(log.tbl[i], depth));
      forall i | 0 <= i < |tables|
        ensures Settling(tables[i].lay, tables[i].View(), log.tbl[i], depth, stores[i], older[i])
      {
        AccountedSettles(tables[i].lay, tables[i].View(), log.tbl[i], depth);
      }
      status := CommitLoop(depth, stores, older);
      forall i | 0 <= i < |tables|
        ensures Accounted(tables[i].lay, tables[i].View(), log.tbl[i], depth)
        ensures Committed(stores[i], old(log.tbl[i]), depth, tables[i].View())
      {
        Settled(tables[i].lay, tables[i].View(), log.tbl[i], depth, stores[i], old(log.tbl[i]));
      }
    }
  }

  // ----- what operations do to every row

  /** The new bytes of a row that was updated, its before-image, and the other rows. */
  ghost predicate Shows(s: Store, s': Store, p: Ptr, copy: Ptr, data: Bytes, depth: nat) {
    && (p in s'.live ==> p in s'.mem && s'.mem[p] == data)
    && (p in s'.live && depth > 0 ==> copy in s'.mem && p in s.mem && s'.mem[copy] == s.mem[p])
    && forall q | q in s.mem && q != p :: q in s'.mem && s'.mem[q] == s.mem[q]
  }

  lemma {:induction false} UpdateShows(s: Store, s': Store, p: Ptr, copy: Ptr, data: Bytes, depth: nat)
    requires s.live <= s.mem.Keys && p in s.live && (depth > 0 ==> Fresh(s, copy))
    requires s' == UpdateAt(s, p, copy, data, depth) || s' == Collided(s, p, if depth > 0 then {copy} else {})
    ensures Shows(s, s', p, copy, data, depth)
  {
  }

  /** A row has left the list, inside a transaction not the memory; the others are as before. */
  ghost predicate Lacks(s: Store, s': Store, p: Ptr, depth: nat) {
    && (forall q :: q in s'.live <==> q in s.live && q != p)
    && forall q | q in s.mem && (depth > 0 || q != p) :: q in s'.mem && s'.mem[q] == s.mem[q]
  }

  lemma {:induction false} DeleteShows(s: Store, p: Ptr, depth: nat)
    requires s.live <= s.mem.Keys
    ensures Lacks(s, DeleteAt(s, p, depth), p, depth)
  {
  }

  // ----- a step of a transaction

  lemma {:induction false} NewestUndone(rows: seq<Ptr>, log: seq<Change>, rest: seq<Change>, c: Change)
    requires Taken(log, true, c, rest)
    ensures UndoAllInList(rows, log) == UndoAllInList(UndoInList(rows, c), rest)
  {
    UndoFirst(rows, c, rest);
  }

  /** No row with the key of `data` was inserted or updated in this transaction. */
  ghost predicate NotTouched(lay: Layout, s: Store, data: Bytes, log: seq<Change>) {
    Sane(lay, s) && lay.Fits(data) &&
    (lay.Indexed? ==>
       forall q | q in s.live && KeyOf(lay, s.mem[q]) == KeyOf(lay, data) :: q !in Afters(log))
  }

  lemma {:induction false} ReplacedNotTouched(lay: Layout, s: Store, r: Ptr, p: Ptr, data: Bytes, log: seq<Change>)
    requires Good(lay, s) && Applicable(lay, s, Replace(r, p, data)) && NotTouched(lay, s, data, log)
    ensures r !in Afters(log)
  {
  }

  /** An insertion finds room, or a duplicate it refuses, or one to replace inside a
      transaction that has not touched it. */
  ghost predicate SafeInsert(lay: Layout, s: Store, data: Bytes, ignore: bool, log: seq<Change>, depth: nat) {
    && Sane(lay, s) && lay.Fits(data)
    && if KeyFree(lay, s, data, {}) then Room(lay, s) else ignore ==> depth > 0 && NotTouched(lay, s, data, log)
  }

  /** Replacing a row that the transaction has touched makes its log refer to a row that
      a rollback will have freed. */
  lemma {:induction false} TouchedFaults(lay: Layout, s: Store, s': Store, r: Ptr, p: Ptr, data: Bytes,
                                         l: seq<TableLog>, l': seq<TableLog>, depth: nat)
    requires Good(lay, s) && lay.Fits(data) && Applicable(lay, s, Replace(r, p, data))
    requires !NotTouched(lay, s, data, Current(l, depth))
    requires Current(l', depth) == [Updated(r, p)] + Current(l, depth)
    ensures !Accounted(lay, s', l', depth)
  {
    hide Recoverable, NoFault, Current;
    var log := Current(l', depth);
    assert log[1..] == Current(l, depth);
    assert r in Afters(log[1..]);
    ReusedFaults(s', log);
    if Recoverable(lay, s', log) {
      RecoverableNoFault(lay, s', log);
    }
  }

  lemma {:induction false} CollidedIsDeleted(s: Store, p: Ptr)
    requires s.live <= s.mem.Keys && p in s.mem
    ensures Collided(s, p, {}) == DeleteAt(s, p, 0)
  {
    assert Collided(s, p, {}).mem == s.mem - {p};
  }

  /** A collision inside a transaction frees a row that the log refers to. */
  lemma {:induction false} CollidedFaults(lay: Layout, s: Store, p: Ptr, copy: Ptr,
                                          l: seq<TableLog>, l': seq<TableLog>, depth: nat)
    requires p in s.mem && Current(l', depth) == [Updated(copy, p)] + Current(l, depth)
    ensures !Accounted(lay, Collided(s, p, {copy}), l', depth)
  {
    hide Current;
    assert Current(l', depth)[0] == Updated(copy, p);
  }

  /** The undone store is the same, or has the same rows if one was replaced. */
  ghost predicate SameOrigin(lay: Layout, s: Store, log: seq<Change>, s': Store, log': seq<Change>, exact: bool) {
    && UndoAll(s, log).live <= UndoAll(s, log).mem.Keys && UndoAll(s', log').live <= UndoAll(s', log').mem.Keys
    && (if exact then UndoAll(s', log') == UndoAll(s, log) else Data(UndoAll(s', log')) == Data(UndoAll(s, log)))
  }

  lemma {:induction false} OriginUnchanged(lay: Layout, s: Store, l: seq<TableLog>, depth: nat)
    requires Accounted(lay, s, l, depth)
    ensures SameOrigin(lay, s, Current(l, depth), s, Current(l, depth), true)
  {
    OriginSane(lay, s, Current(l, depth));
  }

  lemma {:induction false} NothingLogged(lay: Layout, s: Store)
    requires Good(lay, s) && Owns(s, [], {})
    ensures Accounted(lay, s, [], 0)
  {
  }

  /** Outside transactions nothing is logged. */
  lemma {:induction false} NothingAtZero(tx: seq<TxLog>, tbl: seq<seq<TableLog>>, i: nat)
    requires Threaded(tx, tbl, 0, None) && i < |tbl|
    ensures Current(tbl[i], 0) == []
  {
    DepthPositive(tbl[i], 0);
  }

  lemma {:induction false} OriginSane(lay: Layout, s: Store, log: seq<Change>)
    requires Recoverable(lay, s, log)
    ensures UndoAll(s, log).live <= UndoAll(s, log).mem.Keys
    decreases |log|
  {
    if log != [] {
      OriginSane(lay, Undo(s, log[0]), log[1..]);
    }
  }

  /** Every operation, once logged, leaves the store to which a rollback leads. */
  lemma {:induction false} StepAccounted(lay: Layout, s: Store, op: Op, l: seq<TableLog>, l': seq<TableLog>, depth: nat)
    requires depth > 0 && Accounted(lay, s, l, depth) && Good(lay, s) && Applicable(lay, s, op)
    requires op.Replace? ==> op.replaced !in Afters(Current(l, depth))
    requires Older(l', depth) == Older(l, depth) && Current(l', depth) == [Logged(op)] + Current(l, depth)
    ensures Accounted(lay, Step(s, op), l', depth)
    ensures SameOrigin(lay, s, Current(l, depth), Step(s, op), Current(l', depth), !op.Replace?)
  {
    var log := Current(l, depth);
    var t := Step(s, op);
    StepGood(lay, s, op);
    StepOwns(lay, s, op, log, Kept(Older(l, depth)));
    OriginSane(lay, s, log);
    assert Current(l', depth)[1..] == log;
    if op.Replace? {
      if op.replaced in Mentions(log) {
        MentionedLive(s, log, op.replaced);
      }
      UndoReplace(lay, s, op);
      RenameRecoverable(lay, s, log, op.replaced, op.row);
      RenameKeepsData(UndoAll(s, log), op.replaced, op.row);
      PushRecoverable(lay, Rename(s, op.replaced, op.row), t, Logged(op), log);
    } else {
      UndoInvertsStep(lay, s, op);
      PushRecoverable(lay, s, t, Logged(op), log);
    }
  }

  lemma {:induction false} InsertAccounted(lay: Layout, s: Store, p: Ptr, data: Bytes,
                                           l: seq<TableLog>, l': seq<TableLog>, depth: nat)
    requires Accounted(lay, s, l, depth) && Good(lay, s) && Applicable(lay, s, Op.Insert(p, data))
    requires Older(l', depth) == Older(l, depth) && (depth == 0 ==> Current(l, depth) == [])
    requires Current(l', depth) == if depth == 0 then [] else [Inserted(p)] + Current(l, depth)
    ensures Accounted(lay, Step(s, Op.Insert(p, data)), l', depth)
    ensures depth > 0 ==> SameOrigin(lay, s, Current(l, depth), Step(s, Op.Insert(p, data)), Current(l', depth), true)
  {
    var op := Op.Insert(p, data);
    if depth > 0 {
      StepAccounted(lay, s, op, l, l', depth);
    } else {
      StepGood(lay, s, op);
      StepOwns(lay, s, op, [], Kept(Older(l, depth)));
      assert Befores([Inserted(p)]) == Befores([]);
    }
  }

  /** The three outcomes of an insertion. */
  lemma {:induction false} InsertSettles(lay: Layout, s: Store, s': Store, l: seq<TableLog>, l': seq<TableLog>,
                                         depth: nat, status: int, p: Ptr, data: Bytes, change: Option<Change>)
    requires Accounted(lay, s, l, depth) && Good(lay, s) && lay.Fits(data) && Fresh(s, p)
    requires Older(l', depth) == Older(l, depth) && (depth == 0 ==> Current(l, depth) == [])
    requires change.None? <==> status == -1
    requires status == 1 ==>
               Room(lay, s) && s' == Step(s, Op.Insert(p, data)) && KeyFree(lay, s, data, {})
                 && change.value == Inserted(p)
    requires status == 0 ==>
               && depth > 0 && change.value.Updated? && change.value.after == p
                 && NotTouched(lay, s, data, Current(l, depth))
               && Applicable(lay, s, Replace(change.value.before, p, data))
               && s' == Step(s, Replace(change.value.before, p, data))
    requires status == -1 ==> s' == s && l' == l
    requires status == -1 || status == 0 || status == 1
    requires change.Some? ==> Current(l', depth) == if depth == 0 then [] else [change.value] + Current(l, depth)
    ensures Accounted(lay, s', l', depth)
    ensures depth > 0 ==> SameOrigin(lay, s, Current(l, depth), s', Current(l', depth), status != 0)
  {
    hide Accounted, SameOrigin, Step, Older, Current, NotTouched, KeyFree, Room;
    if status == 1 {
      InsertAccounted(lay, s, p, data, l, l', depth);
    } else if status == 0 {
      ReplacedNotTouched(lay, s, change.value.before, p, data, Current(l, depth));
      StepAccounted(lay, s, Replace(change.value.before, p, data), l, l', depth);
    } else {
      OriginUnchanged(lay, s, l, depth);
    }
  }

  lemma {:induction false} UpdateAccounted(lay: Layout, s: Store, p: Ptr, copy: Ptr, data: Bytes,
                                           l: seq<TableLog>, l': seq<TableLog>, depth: nat)
    requires Accounted(lay, s, l, depth) && Good(lay, s)
    requires p in s.live && lay.Fits(data) && KeyFree(lay, s, data, {p}) && (depth > 0 ==> Fresh(s, copy))
    requires Older(l', depth) == Older(l, depth) && (depth == 0 ==> Current(l, depth) == [])
    requires Current(l', depth) == if depth == 0 then [] else [Updated(copy, p)] + Current(l, depth)
    ensures Accounted(lay, UpdateAt(s, p, copy, data, depth), l', depth)
    ensures depth > 0 ==>
              SameOrigin(lay, s, Current(l, depth), UpdateAt(s, p, copy, data, depth), Current(l', depth), true)
  {
    if depth > 0 {
      hide Accounted, SameOrigin, Good, KeyFree, Older, Current;
      StepAccounted(lay, s, Op.Update(p, copy, data), l, l', depth);
    } else {
      hide Good, KeyFree, Older, Current, SameOrigin;
      WriteGood(lay, s, p, data);
    }
  }

  lemma {:induction false} WriteGood(lay: Layout, s: Store, p: Ptr, data: Bytes)
    requires Good(lay, s) && p in s.live && lay.Fits(data) && KeyFree(lay, s, data, {p})
    ensures Good(lay, Store(s.mem[p := data], s.live))
  {
  }

  /** The outcomes of an update that the database survives. */
  lemma {:induction false} UpdateSettles(lay: Layout, s: Store, s': Store, p: Ptr, copy: Ptr, data: Bytes,
                                         l: seq<TableLog>, l': seq<TableLog>, depth: nat)
    requires Accounted(lay, s, l, depth) && Sane(lay, s) && Good(lay, s) && p in s.live && lay.Fits(data)
    requires KeyFree(lay, s, data, {p}) || depth == 0
    requires s' == if KeyFree(lay, s, data, {p}) then UpdateAt(s, p, copy, data, depth) else Collided(s, p, {})
    requires depth > 0 ==> Fresh(s, copy)
    requires Older(l', depth) == Older(l, depth) && (depth == 0 ==> Current(l, depth) == [])
    requires Current(l', depth) == if depth == 0 then [] else [Updated(copy, p)] + Current(l, depth)
    ensures Accounted(lay, s', l', depth)
    ensures depth > 0 ==> SameOrigin(lay, s, Current(l, depth), s', Current(l', depth), true)
  {
    hide Accounted, SameOrigin, UpdateAt, DeleteAt, Older, Current, KeyFree, Good, Collided;
    if KeyFree(lay, s, data, {p}) {
      UpdateAccounted(lay, s, p, copy, data, l, l', depth);
    } else {
      CollidedIsDeleted(s, p);
      DeleteAccounted(lay, s, p, l, l', 0);
    }
  }

  lemma {:induction false} DeleteAccounted(lay: Layout, s: Store, p: Ptr, l: seq<TableLog>, l': seq<TableLog>,
                                           depth: nat)
    requires Accounted(lay, s, l, depth) && Good(lay, s) && p in s.live
    requires Older(l', depth) == Older(l, depth) && (depth == 0 ==> Current(l, depth) == [])
    requires Current(l', depth) == if depth == 0 then [] else [Deleted(p)] + Current(l, depth)
    ensures Accounted(lay, DeleteAt(s, p, depth), l', depth)
    ensures depth > 0 ==> SameOrigin(lay, s, Current(l, depth), DeleteAt(s, p, depth), Current(l', depth), true)
  {
    if depth > 0 {
      StepAccounted(lay, s, Op.Delete(p), l, l', depth);
    } else {
      var t := Store(s.mem - {p}, s.live - {p});
      assert Sane(lay, t) && Distinct(lay, t);
    }
  }

  // ----- on the way back

  /** A table in the middle of a rollback. */
  ghost predicate Returning(lay: Layout, s: Store, l: seq<TableLog>, depth: nat, origin: Store, older: seq<TableLog>) {
    && Owns(s, Current(l, depth), Kept(older)) && Recoverable(lay, s, Current(l, depth))
    && UndoAll(s, Current(l, depth)) == origin && Older(l, depth) == older
  }

  lemma {:induction false} AccountedReturns(lay: Layout, s: Store, l: seq<TableLog>, depth: nat)
    requires Accounted(lay, s, l, depth)
    ensures Returning(lay, s, l, depth, UndoAll(s, Current(l, depth)), Older(l, depth))
  {
  }

  lemma {:induction false} ReturnStep(lay: Layout, s: Store, l: seq<TableLog>, l': seq<TableLog>, depth: nat,
                                      origin: Store, older: seq<TableLog>, c: Change)
    requires Returning(lay, s, l, depth, origin, older)
    requires Taken(Current(l, depth), true, c, Current(l', depth)) && Older(l', depth) == Older(l, depth)
    ensures Enabled(s, c) && Good(lay, Undo(s, c)) && Returning(lay, Undo(s, c), l', depth, origin, older)
  {
    var log := Current(l, depth);
    assert log[0] == c && log[1..] == Current(l', depth);
    assert Recoverable(lay, Undo(s, c), log[1..]);
    UndoOwns(s, log, Kept(older));
  }

  lemma {:induction false} ReturnFrame(lay: Layout, s: Store, l: seq<TableLog>, l': seq<TableLog>, depth: nat,
                                       origin: Store, older: seq<TableLog>)
    requires Returning(lay, s, l, depth, origin, older)
    requires Current(l', depth) == Current(l, depth) && Older(l', depth) == Older(l, depth)
    ensures Returning(lay, s, l', depth, origin, older)
  {
  }

  /** The drain makes progress: fewer tables, or fewer changes in the same table. */
  ghost predicate Advanced(tx: seq<TxLog>, tbl: seq<seq<TableLog>>, cursor: Option<nat>,
                           tx': seq<TxLog>, tbl': seq<seq<TableLog>>, cursor': Option<nat>, depth: nat)
  {
    && cursor'.Some? && cursor'.value < |tbl'|
    && (|| |Thread(tx', depth)| < |Thread(tx, depth)|
        || (&& Thread(tx', depth) == Thread(tx, depth)
            && (cursor.Some? ==>
                  (&& cursor == cursor' && cursor.value < |tbl|
                   && |Current(tbl'[cursor.value], depth)| < |Current(tbl[cursor.value], depth)|))))
  }

  lemma {:induction false} NextAdvances(tx: seq<TxLog>, tbl: seq<seq<TableLog>>, cursor: Option<nat>,
                                        tx': seq<TxLog>, tbl': seq<seq<TableLog>>, t: nat, depth: nat, c: Change,
                                        forward: bool)
    requires Threaded(tx, tbl, depth, cursor) && Threaded(tx', tbl', depth, Some(t)) && |tbl| == |tbl'| && t < |tbl|
    requires |Thread(tx', depth)| < |Thread(tx, depth)| || Thread(tx', depth) == Thread(tx, depth)
    requires Taken(Current(tbl[t], depth), forward, c, Current(tbl'[t], depth))
    ensures Advanced(tx, tbl, cursor, tx', tbl', Some(t), depth)
  {
  }

  // ----- commit

  /** The before-image of a change is freed. */
  function Freed(s: Store, c: Change): Store {
    match c
    case Inserted(_) => s
    case Updated(b, _) => Store(s.mem - {b}, s.live)
    case Deleted(b) => Store(s.mem - {b}, s.live)
  }

  /** A table in the middle of a commit. */
  ghost predicate Settling(lay: Layout, s: Store, l: seq<TableLog>, depth: nat, s0: Store, older: seq<TableLog>) {
    && Owns(s, Current(l, depth), Kept(older)) && Older(l, depth) == older
    && Good(lay, s) && s.live == s0.live
    && forall p | p in s.mem :: p in s0.mem && s.mem[p] == s0.mem[p]
  }

  /** The linked rows are as they were; besides them only the before-images of outer
      transactions remain allocated. */
  ghost predicate Committed(s0: Store, l0: seq<TableLog>, depth: nat, s: Store) {
    && s.live == s0.live
    && (forall p :: p in s.mem <==> p in s0.live || p in Kept(Older(l0, depth)))
    && (forall p | p in s.mem :: p in s0.mem && s.mem[p] == s0.mem[p])
  }

  lemma {:induction false} AccountedSettles(lay: Layout, s: Store, l: seq<TableLog>, depth: nat)
    requires Accounted(lay, s, l, depth)
    ensures Settling(lay, s, l, depth, s, Older(l, depth))
  {
  }

  lemma {:induction false} SettleFrame(lay: Layout, s: Store, l: seq<TableLog>, l': seq<TableLog>, depth: nat,
                                       s0: Store, older: seq<TableLog>)
    requires Settling(lay, s, l, depth, s0, older)
    requires Current(l', depth) == Current(l, depth) && Older(l', depth) == Older(l, depth)
    ensures Settling(lay, s, l', depth, s0, older)
  {
  }

  /** Committing the oldest change hands its before-image back. */
  lemma {:induction false} FreeOwns(s: Store, rest: seq<Change>, c: Change, others: set<Ptr>)
    requires Owns(s, rest + [c], others)
    ensures forall p | p in Before(c) :: p in s.mem && p !in s.live
    ensures Owns(Freed(s, c), rest, others)
    ensures Freed(s, c).live == s.live
    ensures forall p | p in Freed(s, c).mem :: p in s.mem && Freed(s, c).mem[p] == s.mem[p]
  {
    hide Befores;
    var all, kept := Befores(rest + [c]), Befores(rest);
    BeforesOfLast(rest, c);
    assert forall i | 0 <= i < |kept| :: all[i] == kept[i];
    assert forall p :: p in all <==> p in kept || p in Before(c);
    if !c.Inserted? {
      assert all[|kept|] == Before(c)[0] && Before(c)[0] in all;
      assert Before(c)[0] !in kept;
    }
  }

  lemma {:induction false} BeforesOfLast(rest: seq<Change>, c: Change)
    ensures Befores(rest + [c]) == Befores(rest) + Before(c)
  {
    BeforesSplit(rest + [c], |rest|);
    assert (rest + [c])[..|rest|] == rest && (rest + [c])[|rest|..] == [c];
    assert Befores([c]) == Before(c) + Befores([]);
  }

  lemma {:induction false} FreeGood(lay: Layout, s: Store, c: Change)
    requires Good(lay, s) && forall p | p in Before(c) :: p !in s.live
    ensures Good(lay, Freed(s, c))
  {
  }

  lemma {:induction false} SettleStep(lay: Layout, s: Store, l: seq<TableLog>, l': seq<TableLog>, depth: nat,
                                      s0: Store, older: seq<TableLog>, c: Change)
    requires Settling(lay, s, l, depth, s0, older)
    requires Taken(Current(l, depth), false, c, Current(l', depth)) && Older(l', depth) == Older(l, depth)
    ensures forall p | p in Before(c) :: p in s.mem && p !in s.live
    ensures Settling(lay, Freed(s, c), l', depth, s0, older)
  {
    hide Owns, Good, Freed;
    var log, rest := Current(l, depth), Current(l', depth);
    assert log == rest + [c];
    FreeOwns(s, rest, c, Kept(older));
    FreeGood(lay, s, c);
  }

  lemma {:induction false} Settled(lay: Layout, s: Store, l: seq<TableLog>, depth: nat, s0: Store, l0: seq<TableLog>)
    requires Settling(lay, s, l, depth, s0, Older(l0, depth)) && Current(l, depth) == []
    ensures Accounted(lay, s, l, depth) && Committed(s0, l0, depth, s)
  {
  }

  lemma {:induction false} Returned(lay: Layout, s: Store, l: seq<TableLog>, depth: nat, origin: Store,
                                    older: seq<TableLog>)
    requires Returning(lay, s, l, depth, origin, older) && Current(l, depth) == []
    ensures s == origin && Accounted(lay, s, l, depth)
  {
  }

  lemma {:induction false} KeptOfOlder(l: seq<TableLog>, depth: nat)
    ensures Kept(l) == Kept(Older(l, depth)) + set p | p in Befores(Current(l, depth))
  {
  }

  lemma {:induction false} Deepen(lay: Layout, s: Store, l: seq<TableLog>, depth: nat)
    requires Accounted(lay, s, l, depth) && ListOk(l, depth)
    ensures Accounted(lay, s, l, depth + 1) && Current(l, depth + 1) == []
  {
    KeptOfOlder(l, depth);
    assert forall p :: p in Kept(l) <==> p in Kept(Older(l, depth)) || p in Befores(Current(l, depth));
  }

  lemma {:induction false} DeepenThreads(tx: seq<TxLog>, tbl: seq<seq<TableLog>>, depth: nat)
    requires Threaded(tx, tbl, depth, None)
    ensures Threaded(tx, tbl, depth + 1, None)
  {
    assert Thread(tx, depth + 1) == [];
    assert forall t: nat :: t < |tbl| ==> !OnTop(tbl[t], depth + 1);
  }
}
