// The set-oriented operations of src/murphy-db/mdb/table.c: loops that change the table
// they iterate over.
//
// An update visits the rows by a cursor, which runs along the list or along a snapshot of
// the sorted array. It is moved on before a row is changed, so that every row has one turn
// whatever happens to its place. What the turns amount to is told by `UpdateSweep`.

module TableLoops {
  import opened Common
  import opened LinkedLists
  import opened Keys
  import opened SortedSequence
  import opened ChainedHash
  import opened TableStore
  import opened TransactionRuns
  import opened RowTable
  import opened UndoLog
  import opened Transactions
  import opened UpdateSweep

  // ----- table_iterator

  datatype Iterator = Start | Copied(entries: seq<Ptr>, index: nat) | AtLink(row: Ptr)

  function Head(s: seq<Ptr>): Ptr { if s == [] then 0 else s[0] }

  /** The list from a row on; address 0 stands for the list head. */
  function From(rows: seq<Ptr>, p: Ptr): (r: seq<Ptr>)
    ensures |r| <= |rows| && r == rows[|rows| - |r|..]
    ensures r != [] ==> r[0] == p
  {
    if rows == [] then [] else if rows[0] == p then rows else From(rows[1..], p)
  }

  lemma {:induction false} FromSplit(a: seq<Ptr>, b: seq<Ptr>)
    requires NoDuplicates(a + b) && 0 !in a + b
    ensures From(a + b, Head(b)) == b
  {
    if a == [] {
      assert a + b == b;
    } else {
      assert (a + b)[0] == a[0] && (a + b)[1..] == a[1..] + b;
      assert forall i | 0 <= i < |a[1..] + b| :: (a[1..] + b)[i] == (a + b)[i + 1];
      assert b != [] ==> b[0] == (a + b)[|a|];
      assert a[0] in a + b;
      FromSplit(a[1..], b);
    }
  }

  lemma {:induction false} FromMember(rows: seq<Ptr>, p: Ptr)
    ensures p in rows <==> From(rows, p) != []
  {
    if rows != [] && rows[0] != p {
      FromMember(rows[1..], p);
      assert rows == [rows[0]] + rows[1..];
    }
  }

  /** The rows that are still to come. */
  ghost function Todo(it: Iterator, t: Table): seq<Ptr>
    reads t, t.order
  {
    match it
    case Start => if t.order != null then SortedSequence.Rows(t.order.contents) else t.rows
    case Copied(entries, index) => if index <= |entries| then entries[index..] else []
    case AtLink(p) => From(t.rows, p)
  }

  /** The rows come in the order of the list, or of the keys if the table has an index. */
  lemma {:induction false} OrderOfRows(t: Table)
    requires t.Valid()
    ensures !t.lay.Indexed? ==> Todo(Start, t) == t.rows
    ensures t.lay.Indexed? ==>
              && t.order != null && |Todo(Start, t)| == |t.order.contents|
              && (forall i | 0 <= i < |t.order.contents| :: Todo(Start, t)[i] == t.order.contents[i].data)
              && Sorted(t.lay.keyType, t.lay.length, t.order.contents)
  {
  }

  ghost predicate Proper(it: Iterator, t: Table)
    reads t
  {
    match it
    case Start => true
    case Copied(entries, index) => t.lay.Indexed? && index <= |entries| && 0 !in entries
    case AtLink(p) => !t.lay.Indexed?
  }

  /** Both indexes list the linked rows once. */
  lemma {:induction false} IndexVisitsAll(t: Table)
    requires t.Valid()
    ensures NoDuplicates(Todo(Start, t)) && Linked(Todo(Start, t)) == t.View().live && 0 !in Todo(Start, t)
    ensures t.lay.Indexed? ==> t.order != null && t.order.Valid()
  {
    if t.order != null {
      var s, m := t.order.contents, t.hash.contents;
      var rows := SortedSequence.Rows(s);
      forall p | p in t.rows ensures p in rows {
        assert Entry(KeyOf(t.lay, t.mem[p]), p) in s;
        var i :| 0 <= i < |s| && s[i] == Entry(KeyOf(t.lay, t.mem[p]), p);
        assert rows[i] == p;
      }
      forall i | 0 <= i < |rows| ensures rows[i] in t.rows {
        assert m[s[i].key] == s[i].data;
      }
      forall i, j | 0 <= i < j < |rows| ensures rows[i] != rows[j] {
        assert KeyOf(t.lay, t.mem[rows[i]]) == s[i].key && KeyOf(t.lay, t.mem[rows[j]]) == s[j].key;
      }
    }
  }

  lemma {:induction false} LinkMoves(rows: seq<Ptr>, link: Ptr)
    requires NoDuplicates(rows) && 0 !in rows
    ensures var rest := From(rows, link);
            rest != [] ==> link != 0 && rest == [link] + From(rows, Head(rest[1..]))
  {
    hide From, NoDuplicates;
    var rest := From(rows, link);
    if rest != [] {
      var n := |rows| - |rest|;
      assert rows[..n + 1] + rows[n + 1..] == rows && rest[1..] == rows[n + 1..];
      FromSplit(rows[..n + 1], rows[n + 1..]);
      assert rows[n] == link && rest == [link] + rest[1..];
    }
  }

  lemma {:induction false} FromHead(rows: seq<Ptr>)
    ensures From(rows, Head(rows)) == rows
  {
  }

  /** The next row, or 0; the cursor moves on before the caller sees the row. */
  method NextRow(t: Table, it: Iterator) returns (row: Ptr, next: Iterator)
    requires t.Shape() && (it.Start? ==> t.Valid()) && Proper(it, t)
    ensures Proper(next, t) && next != Start
    ensures if row == 0 then Todo(it, t) == [] else Todo(it, t) == [row] + Todo(next, t)
    ensures row != 0 && !t.lay.Indexed? ==>
              From(t.rows, row) == Todo(it, t) && next == AtLink(Head(Todo(next, t)))
  {
    if t.lay.Indexed? {
      row, next := NextCopied(t, it);
    } else {
      row, next := NextLinked(t, it);
    }
  }

  /** An indexed table is iterated through a copy of the sorted array. */
  method NextCopied(t: Table, it: Iterator) returns (row: Ptr, next: Iterator)
    requires t.Shape() && (it.Start? ==> t.Valid()) && Proper(it, t) && t.lay.Indexed?
    ensures Proper(next, t) && next != Start
    ensures if row == 0 then Todo(it, t) == [] else Todo(it, t) == [row] + Todo(next, t)
  {
    hide NoDuplicates, Linked, From, Table.Valid, Table.View, Table.Shape;
    var entries, index := [], 0;
    if it.Start? {
      IndexVisitsAll(t);
      entries := t.order.Snapshot();
    } else {
      entries, index := it.entries, it.index;
    }
    if index >= |entries| {
      return 0, Copied(entries, index);
    }
    return entries[index], Copied(entries, index + 1);
  }

  /** Any other table is iterated along its row list. */
  method NextLinked(t: Table, it: Iterator) returns (row: Ptr, next: Iterator)
    requires t.Shape() && Proper(it, t) && !t.lay.Indexed?
    ensures Proper(next, t) && next != Start
    ensures if row == 0 then Todo(it, t) == [] else Todo(it, t) == [row] + Todo(next, t)
    ensures row != 0 ==> From(t.rows, row) == Todo(it, t) && next == AtLink(Head(Todo(next, t)))
  {
    hide From, NoDuplicates;
    var link := if it.Start? then Head(t.rows) else it.row;
    FromHead(t.rows);
    LinkMoves(t.rows, link);
    var rest := From(t.rows, link);
    if rest == [] {
      return 0, AtLink(0);
    }
    row, next := link, AtLink(Head(rest[1..]));
  }

  // ----- update

  /** The selected rows that have been dealt with. */
  ghost function Done(s: Store, todo: seq<Ptr>, pred: Bytes -> bool): set<Ptr>
    requires s.live <= s.mem.Keys
  {
    set p | p in s.live && p !in todo && pred(s.mem[p])
  }

  lemma {:induction false} DoneStep(s: Store, todo: seq<Ptr>, pred: Bytes -> bool)
    requires s.live <= s.mem.Keys && todo != [] && todo[0] !in todo[1..] && todo[0] in s.live
    ensures Done(s, todo[1..], pred) == if pred(s.mem[todo[0]]) then Done(s, todo, pred) + {todo[0]}
            else Done(s, todo, pred)
    ensures |Done(s, todo[1..], pred)| == |Done(s, todo, pred)| + if pred(s.mem[todo[0]]) then 1 else 0
  {
    assert todo == [todo[0]] + todo[1..];
    assert todo[0] !in Done(s, todo, pred);
  }

  /** The keys of an update are known to the comparator. */
  ghost predicate Admissible(lay: Layout, s: Store, universe: iset<Key>, pred: Bytes -> bool, patch: Patch)
    requires Sane(lay, s)
  {
    && |patch| == lay.dlgh
    && (lay.Indexed? ==> forall p | p in s.live && pred(s.mem[p]) :: KeyOf(lay, Overlay(patch, s.mem[p])) in universe)
  }

  /** No selected row gets a new key behind the back of the index. */
  ghost predicate Noticed(lay: Layout, rows: map<Ptr, Bytes>, pred: Bytes -> bool, patch: Patch, indexUpdate: bool)
    requires Fitting(lay, rows, patch)
  {
    forall p | p in rows && pred(rows[p]) :: !Unnoticed(lay, rows[p], Overlay(patch, rows[p]), indexUpdate)
  }

  lemma {:induction false} RowsOfUpdate(lay: Layout, s: Store, p: Ptr, copy: Ptr, d: Bytes, depth: nat, patch: Patch)
    requires Sane(lay, s) && p in s.live && lay.Fits(d) && (depth > 0 ==> Fresh(s, copy)) && |patch| == lay.dlgh
    ensures Fitting(lay, RowsOf(s), patch) && s.live <= s.mem.Keys
    ensures UpdateAt(s, p, copy, d, depth).live <= UpdateAt(s, p, copy, d, depth).mem.Keys
    ensures RowsOf(UpdateAt(s, p, copy, d, depth)) == RowsOf(s)[p := d]
    ensures var t := Collided(s, p, if depth > 0 then {copy} else {});
            t.live <= t.mem.Keys && RowsOf(t) == RowsOf(s) - {p}
    ensures (KeyFree(lay, s, d, {p}) <==> !Clashes(lay, RowsOf(s), p, d)) && (!lay.Indexed? ==> KeyFree(lay, s, d, {p}))
  {
    hide KeyOf;
    assert forall q | q in RowsOf(s) :: RowsOf(s)[q] == s.mem[q];
  }

  lemma {:induction false} RowAt(s: Store, p: Ptr)
    requires s.live <= s.mem.Keys && p in s.live
    ensures p in RowsOf(s) && RowsOf(s)[p] == s.mem[p]
  {
  }

  /** The log has one more entry, for an update of `row`. */
  ghost predicate Recorded(row: Ptr, log: seq<Change>, log': seq<Change>) {
    log' != [] && log'[1..] == log && log'[0].Updated? && log'[0].after == row
  }

  /** The log has grown by updates only, and every row that was lost is among them. */
  ghost predicate Blamed(s0: Store, s: Store, log0: seq<Change>, log: seq<Change>) {
    && |log0| <= |log| && s.live <= s0.live
    && (forall k: nat | k < |log| - |log0| :: log[k].Updated?)
    && s0.live - s.live <= Afters(log[..|log| - |log0|])
  }

  lemma {:induction false} BlamedTurn(lay: Layout, s0: Store, s: Store, s': Store, log0: seq<Change>, log: seq<Change>,
                                      log': seq<Change>, row: Ptr, pred: Bytes -> bool, patch: Patch,
                                      indexUpdate: bool)
    requires Blamed(s0, s, log0, log) && s.live <= s.mem.Keys && s'.live <= s'.mem.Keys && row in s.live
    requires Fitting(lay, RowsOf(s), patch) && RowsOf(s') == Turn(lay, RowsOf(s), row, pred, patch, indexUpdate)
    requires if pred(s.mem[row]) then Recorded(row, log, log') else log' == log
    ensures Blamed(s0, s', log0, log')
  {
    hide Clashes, Overlay, Afters;
    assert s'.live == RowsOf(s').Keys && s.live == RowsOf(s).Keys && RowsOf(s)[row] == s.mem[row];
    if log' != log {
      var n := |log| - |log0|;
      assert log'[..n + 1][1..] == log[..n] && log'[..n + 1] != [] && log'[..n + 1][0] == log'[0];
      forall k: nat | k < n + 1 ensures log'[k].Updated? {
        assert k > 0 ==> log'[k] == log'[1..][k - 1];
      }
      AftersOf(log'[..n + 1]);
    }
  }

  lemma {:induction false} NothingLost(s: Store, log: seq<Change>)
    ensures Blamed(s, s, log, log)
  {
  }

  lemma {:induction false} AftersOf(log: seq<Change>)
    requires log != []
    ensures Afters(log) == After(log[0]) + Afters(log[1..])
  {
  }

  /** The update of a row that is not in the list any more cannot be undone. */
  lemma {:induction false} LostFaults(lay: Layout, s: Store, log: seq<Change>, n: nat, p: Ptr)
    requires n <= |log| && (forall k: nat | k < n :: log[k].Updated?) && p in Afters(log[..n]) && p !in s.live
    ensures !Recoverable(lay, s, log)
    decreases n
  {
    hide Good;
    assert log[..n][1..] == log[1..][..n - 1];
    if log[0].after != p && Enabled(s, log[0]) {
      LostFaults(lay, Undo(s, log[0]), log[1..], n - 1, p);
    }
  }

  /** One turn of update_conditional. */
  method UpdateTurn(db: Database, i: nat, row: Ptr, pred: Bytes -> bool, patch: Patch, indexUpdate: bool)
    returns (n: int)
    requires i < |db.tables| && db.Standing(i) && (indexUpdate ==> db.tables[i].Valid())
    requires Sane(db.tables[i].lay, db.tables[i].View()) && row in db.tables[i].View().live
    requires |patch| == db.tables[i].lay.dlgh
    requires db.tables[i].lay.Indexed? && pred(db.tables[i].mem[row]) ==>
               KeyOf(db.tables[i].lay, Overlay(patch, db.tables[i].mem[row])) in db.tables[i].universe
    modifies db.Repr
    ensures db.Standing(i) && fresh(db.Repr - old(db.Repr)) && db.OthersKept(i)
    ensures Sane(db.tables[i].lay, db.tables[i].View()) && Sane(old(db.tables[i].lay), old(db.tables[i].View()))
    ensures RowsOf(db.tables[i].View())
         == Turn(old(db.tables[i].lay), RowsOf(old(db.tables[i].View())), row, pred, patch, indexUpdate)
    ensures n == if pred(old(db.tables[i].mem[row])) then 1 else 0
    ensures db.txdepth > 0 ==>
              if pred(old(db.tables[i].mem[row])) then Recorded(row, old(db.Changes(i)), db.Changes(i))
              else db.Changes(i) == old(db.Changes(i))
    ensures !db.tables[i].lay.Indexed? ==> db.tables[i].rows == old(db.tables[i].rows)
    ensures !indexUpdate ==> IndexKept(db.tables[i])
    ensures indexUpdate ==> db.tables[i].Valid()
    ensures var d := old(db.tables[i].mem[row]); var lay := old(db.tables[i].lay);
            && (old(db.tables[i].Valid()) && (pred(d) ==> !Unnoticed(lay, d, Overlay(patch, d), indexUpdate)) ==>
                  db.tables[i].Valid())
            && (old(db.Valid()) && (pred(d) ==> !Unnoticed(lay, d, Overlay(patch, d), indexUpdate))
                && (pred(d) && indexUpdate && db.txdepth > 0 ==>
                      !Clashes(lay, RowsOf(old(db.tables[i].View())), row, Overlay(patch, d))) ==>
                  && db.Valid()
                  && (db.txdepth > 0 ==> SameOrigin(lay, old(db.tables[i].View()), old(db.Changes(i)),
                                                    db.tables[i].View(), db.Changes(i), true)))
  {
    hide Good, KeyFree, SameOrigin, Overlay, Accounted, Threaded, Current, UpdateAt, Collided, Table.Valid,
      Table.Shape, Table.Agrees, RowsOf, Clashes, UndoAll, Database.Valid, Database.Standing;
    var t := db.tables[i];
    ghost var s := t.View();
    RowAt(s, row);
    if pred(t.mem[row]) {
      var d := Overlay(patch, t.mem[row]);
      var copy := db.Update(i, row, d, indexUpdate);
      RowsOfUpdate(t.lay, s, row, copy, d, db.txdepth, patch);
      n := 1;
    } else {
      n := 0;
    }
    AfterTurn(db, i);
  }

  lemma {:induction false} AfterTurn(db: Database, i: nat)
    requires i < |db.tables| && db.Standing(i)
    ensures Sane(db.tables[i].lay, db.tables[i].View())
    ensures db.Valid() ==>
              SameOrigin(db.tables[i].lay, db.tables[i].View(), db.Changes(i), db.tables[i].View(), db.Changes(i), true)
  {
    hide Accounted, SameOrigin, Table.Valid, Table.Shape, Current;
    db.tables[i].ShapeParts();
    if db.Valid() {
      OriginStays(db, i);
    }
  }

  lemma {:induction false} TableGood(db: Database, i: nat)
    requires db.Valid() && i < |db.tables|
    ensures Good(db.tables[i].lay, db.tables[i].View())
  {
    db.tables[i].ValidIsGood();
  }

  lemma {:induction false} OriginStays(db: Database, i: nat)
    requires db.Valid() && i < |db.tables|
    ensures SameOrigin(db.tables[i].lay, db.tables[i].View(), db.Changes(i), db.tables[i].View(), db.Changes(i), true)
  {
    OriginUnchanged(db.tables[i].lay, db.tables[i].View(), db.log.tbl[i], db.txdepth);
  }

  lemma {:induction false} TodoTail(row: Ptr, rest: seq<Ptr>, todo: seq<Ptr>)
    requires todo == [row] + rest && NoDuplicates(todo)
    ensures todo[1..] == rest && row !in rest && NoDuplicates(rest) && todo != [] && todo[0] == row
  {
    forall k | 0 <= k < |rest| ensures todo[k + 1] == rest[k] && rest[k] != row {
      assert todo[0] != todo[k + 1];
    }
  }

  lemma {:induction false} SameOriginTransitive(lay: Layout, a: Store, la: seq<Change>, b: Store, lb: seq<Change>,
                                                c: Store, lc: seq<Change>)
    requires SameOrigin(lay, a, la, b, lb, true) && SameOrigin(lay, b, lb, c, lc, true)
    ensures SameOrigin(lay, a, la, c, lc, true)
  {
  }

  // ----- the whole loop

  /** The rows still to come are as at the start. */
  ghost predicate Waiting(s0: Store, s: Store, todo: seq<Ptr>) {
    && s0.live <= s0.mem.Keys && s.live <= s.mem.Keys
    && forall p | p in todo :: p in s0.live && p in s.live && s.mem[p] == s0.mem[p]
  }

  /** The rows have been swept as far as `todo`. */
  ghost predicate Swept(lay: Layout, s0: Store, s: Store, todo0: seq<Ptr>, todo: seq<Ptr>, pred: Bytes -> bool,
                        patch: Patch, indexUpdate: bool)
  {
    && Waiting(s0, s, todo) && Fitting(lay, RowsOf(s0), patch) && Fitting(lay, RowsOf(s), patch)
    && Sweep(lay, RowsOf(s), todo, pred, patch, indexUpdate) == Sweep(lay, RowsOf(s0), todo0, pred, patch, indexUpdate)
    && (Orderly(lay, RowsOf(s0), pred, patch, indexUpdate) ==> Partly(lay, RowsOf(s0), RowsOf(s), todo, pred, patch))
  }

  /** The row whose turn it is. */
  lemma {:induction false} SweptAt(lay: Layout, s0: Store, s: Store, todo0: seq<Ptr>, todo: seq<Ptr>,
                                   pred: Bytes -> bool, patch: Patch, indexUpdate: bool)
    requires Swept(lay, s0, s, todo0, todo, pred, patch, indexUpdate) && todo != []
    ensures Fitting(lay, RowsOf(s0), patch) && Fitting(lay, RowsOf(s), patch)
    ensures s0.live <= s0.mem.Keys && s.live <= s.mem.Keys
    ensures todo[0] in s0.live && todo[0] in s.live && s.mem[todo[0]] == s0.mem[todo[0]]
    ensures |s.mem[todo[0]]| == |patch| == lay.dlgh && lay.Valid()
    ensures Orderly(lay, RowsOf(s0), pred, patch, indexUpdate) && pred(s.mem[todo[0]]) && indexUpdate ==>
              !Clashes(lay, RowsOf(s), todo[0], Overlay(patch, s.mem[todo[0]]))
  {
    hide Clashes, AtOnce, Orderly, Partly, KeysApart, Sweep;
    assert RowsOf(s)[todo[0]] == s.mem[todo[0]];
    if Orderly(lay, RowsOf(s0), pred, patch, indexUpdate) && pred(s.mem[todo[0]]) && indexUpdate {
      OrderlyApart(lay, RowsOf(s0), pred, patch);
      NoClash(lay, RowsOf(s0), RowsOf(s), todo, pred, patch);
    }
  }

  /** What a turn does to the rows, whether or not it frees its row. */
  lemma {:induction false} TurnTaken(lay: Layout, s0: Store, s: Store, s': Store, todo0: seq<Ptr>, todo: seq<Ptr>,
                                     pred: Bytes -> bool, patch: Patch, indexUpdate: bool)
    requires Swept(lay, s0, s, todo0, todo, pred, patch, indexUpdate)
    requires s'.live <= s'.mem.Keys && todo != [] && NoDuplicates(todo) && Fitting(lay, RowsOf(s), patch)
    requires RowsOf(s') == Turn(lay, RowsOf(s), todo[0], pred, patch, indexUpdate)
    ensures Swept(lay, s0, s', todo0, todo[1..], pred, patch, indexUpdate)
  {
    hide Fitting, Clashes, AtOnce, Orderly, Partly, Turn, KeysApart;
    forall p | p in todo[1..] ensures p in s'.live && s'.mem[p] == s0.mem[p] {
      assert p != todo[0] && p in todo && p in RowsOf(s) && p in RowsOf(s') && RowsOf(s')[p] == s'.mem[p];
    }
    if Orderly(lay, RowsOf(s0), pred, patch, indexUpdate) {
      PartlyTurn(lay, RowsOf(s0), RowsOf(s), todo, pred, patch, indexUpdate);
    }
  }

  lemma {:induction false} OrderlyApart(lay: Layout, rows: map<Ptr, Bytes>, pred: Bytes -> bool, patch: Patch)
    requires Fitting(lay, rows, patch) && Orderly(lay, rows, pred, patch, true)
    ensures KeysApart(lay, AtOnce(lay, rows, pred, patch))
  {
  }

  /** Nothing happens that would put the log or the index out of step. */
  ghost predicate Calm(lay: Layout, rows: map<Ptr, Bytes>, pred: Bytes -> bool, patch: Patch, indexUpdate: bool,
                       depth: nat)
    requires Fitting(lay, rows, patch)
  {
    Noticed(lay, rows, pred, patch, indexUpdate) && (depth > 0 ==> Orderly(lay, rows, pred, patch, indexUpdate))
  }

  /** The state of an update between two rows. */
  ghost predicate Updating(db: Database, i: nat, s0: Store, log0: seq<Change>, todo0: seq<Ptr>,
                           todo: seq<Ptr>, pred: Bytes -> bool, patch: Patch, indexUpdate: bool)
    reads db, db.Repr
    requires i < |db.tables|
  {
    var t := db.tables[i];
    && db.Standing(i) && (indexUpdate ==> t.Valid())
    && Sane(t.lay, s0) && Sane(t.lay, t.View()) && |patch| == t.lay.dlgh
    && NoDuplicates(todo) && Fitting(t.lay, RowsOf(s0), patch)
    && Swept(t.lay, s0, t.View(), todo0, todo, pred, patch, indexUpdate)
    && (Noticed(t.lay, RowsOf(s0), pred, patch, indexUpdate) ==> t.Valid())
    && (db.txdepth > 0 ==> Blamed(s0, t.View(), log0, db.Changes(i)))
    && (Calm(t.lay, RowsOf(s0), pred, patch, indexUpdate, db.txdepth) ==>
          db.Valid() && (db.txdepth > 0 ==> SameOrigin(t.lay, s0, log0, t.View(), db.Changes(i), true)))
  }

  lemma {:induction false} StartUpdating(db: Database, i: nat, pred: Bytes -> bool, patch: Patch, indexUpdate: bool)
    returns (todo: seq<Ptr>)
    requires db.Valid() && i < |db.tables| && Sane(db.tables[i].lay, db.tables[i].View())
    requires |patch| == db.tables[i].lay.dlgh
    ensures At(Start, db.tables[i], todo) && todo == Todo(Start, db.tables[i]) && NoDuplicates(todo)
            && Linked(todo) == db.tables[i].View().live
    ensures Updating(db, i, db.tables[i].View(), db.Changes(i), todo, todo, pred, patch, indexUpdate)
    ensures |Done(db.tables[i].View(), todo, pred)| == 0
  {
    hide Good, SameOrigin, Overlay, Accounted, Threaded, Current, Blamed, Table.Valid, NoDuplicates, Linked, Orderly,
      Noticed;
    var t := db.tables[i];
    NothingLost(t.View(), db.Changes(i));
    todo := Todo(Start, t);
    IndexVisitsAll(t);
    StartsWaiting(t.lay, t.View(), todo, pred, patch);
    OriginStays(db, i);
    t.ValidParts();
    t.ShapeParts();
  }

  lemma {:induction false} StartsWaiting(lay: Layout, s: Store, todo: seq<Ptr>, pred: Bytes -> bool, patch: Patch)
    requires Sane(lay, s) && Linked(todo) == s.live && |patch| == lay.dlgh
    ensures Fitting(lay, RowsOf(s), patch) && |Done(s, todo, pred)| == 0
    ensures forall indexUpdate :: Swept(lay, s, s, todo, todo, pred, patch, indexUpdate)
  {
    hide Sweep, Orderly, KeysApart;
    assert forall p :: p in todo <==> p in Linked(todo);
    assert Done(s, todo, pred) == {};
  }

  /** The cursor stands at the first row to come. */
  ghost predicate At(it: Iterator, t: Table, todo: seq<Ptr>)
    reads t, t.Repr, t.order
  {
    (it.Start? ==> t.Valid()) && Proper(it, t) && todo == Todo(it, t)
  }

  /** The cursor has moved on; the row it was at is dealt with. */
  method UpdateStep(db: Database, i: nat, row: Ptr, next: Iterator, pred: Bytes -> bool, patch: Patch,
                    indexUpdate: bool, ghost s0: Store, ghost log0: seq<Change>, ghost todo0: seq<Ptr>,
                    ghost todo: seq<Ptr>)
    returns (n: int)
    requires i < |db.tables| && Updating(db, i, s0, log0, todo0, todo, pred, patch, indexUpdate)
    requires Admissible(db.tables[i].lay, s0, db.tables[i].universe, pred, patch)
    requires todo != [] && todo[0] == row && row !in todo[1..] && NoDuplicates(todo[1..])
    requires At(next, db.tables[i], todo[1..]) && next != Start
    modifies db.Repr
    ensures fresh(db.Repr - old(db.Repr)) && db.OthersKept(i)
    ensures Updating(db, i, s0, log0, todo0, todo[1..], pred, patch, indexUpdate)
    ensures At(next, db.tables[i], todo[1..])
    ensures !indexUpdate ==> IndexKept(db.tables[i])
    ensures s0.live <= s0.mem.Keys && |Done(s0, todo[1..], pred)| == |Done(s0, todo, pred)| + n
  {
    hide Good, SameOrigin, Overlay, Accounted, Threaded, Current, Blamed, Table.Valid, Table.Shape, NoDuplicates,
      Linked, Done, From, RowsOf, Turn, Orderly, Swept, Noticed, Clashes, Fitting, Unnoticed, Database.Valid,
      Database.Standing, UndoAll;
    var t := db.tables[i];
    db.StandingParts(i);
    ghost var lay, s, log := t.lay, t.View(), db.Changes(i);
    SweptAt(lay, s0, s, todo0, todo, pred, patch, indexUpdate);
    DoneStep(s0, todo, pred);
    NoticedAt(lay, s0, row, pred, patch, indexUpdate);
    n := UpdateTurn(db, i, row, pred, patch, indexUpdate);
    TurnTaken(lay, s0, s, t.View(), todo0, todo, pred, patch, indexUpdate);
    if db.txdepth > 0 {
      BlamedTurn(lay, s0, s, t.View(), log0, log, db.Changes(i), row, pred, patch, indexUpdate);
    }
    if db.txdepth > 0 && Calm(lay, RowsOf(s0), pred, patch, indexUpdate, db.txdepth) {
      SameOriginTransitive(lay, s0, log0, s, log, t.View(), db.Changes(i));
    }
  }

  /** The cursor moves on, then the row it was at is dealt with. */
  method UpdateNext(db: Database, i: nat, it: Iterator, pred: Bytes -> bool, patch: Patch, indexUpdate: bool,
                    ghost s0: Store, ghost log0: seq<Change>, ghost todo0: seq<Ptr>, ghost todo: seq<Ptr>)
    returns (going: bool, next: Iterator, n: int)
    requires i < |db.tables| && Updating(db, i, s0, log0, todo0, todo, pred, patch, indexUpdate)
    requires Admissible(db.tables[i].lay, s0, db.tables[i].universe, pred, patch) && At(it, db.tables[i], todo)
    modifies db.Repr
    ensures fresh(db.Repr - old(db.Repr)) && db.OthersKept(i)
    ensures going <==> todo != []
    ensures Updating(db, i, s0, log0, todo0, if going then todo[1..] else todo, pred, patch, indexUpdate)
    ensures At(next, db.tables[i], if going then todo[1..] else todo)
    ensures !indexUpdate ==> IndexKept(db.tables[i])
    ensures s0.live <= s0.mem.Keys
    ensures |Done(s0, if going then todo[1..] else todo, pred)| == |Done(s0, todo, pred)| + n
  {
    hide Good, SameOrigin, Accounted, Threaded, Current, Table.Valid, Table.Shape, Table.View, NoDuplicates, Linked,
      Done, From, RowsOf, Todo, Proper, Swept, Noticed, Calm, Fitting, Admissible, Database.Valid, Database.Standing;
    var t := db.tables[i];
    db.StandingParts(i);
    t.ShapeParts();
    var row;
    row, next := NextRow(t, it);
    if row == 0 {
      return false, it, 0;
    }
    TodoTail(row, Todo(next, t), todo);
    n := UpdateStep(db, i, row, next, pred, patch, indexUpdate, s0, log0, todo0, todo);
    going := true;
  }

  lemma {:induction false} NoticedAt(lay: Layout, s: Store, p: Ptr, pred: Bytes -> bool, patch: Patch,
                                     indexUpdate: bool)
    requires Sane(lay, s) && Fitting(lay, RowsOf(s), patch) && p in s.live
    ensures Noticed(lay, RowsOf(s), pred, patch, indexUpdate) && pred(s.mem[p]) ==>
              !Unnoticed(lay, s.mem[p], Overlay(patch, s.mem[p]), indexUpdate)
  {
    assert RowsOf(s)[p] == s.mem[p];
  }

  /** Turn after turn. */
  method UpdateLoop(db: Database, i: nat, pred: Bytes -> bool, patch: Patch, indexUpdate: bool,
                    ghost s0: Store, ghost log0: seq<Change>, ghost todo0: seq<Ptr>)
    returns (nupdate: int)
    requires i < |db.tables| && Updating(db, i, s0, log0, todo0, todo0, pred, patch, indexUpdate)
    requires At(Start, db.tables[i], todo0) && |Done(s0, todo0, pred)| == 0 && s0.live <= s0.mem.Keys
    requires Sane(db.tables[i].lay, s0) && Admissible(db.tables[i].lay, s0, db.tables[i].universe, pred, patch)
    modifies db.Repr
    ensures fresh(db.Repr - old(db.Repr)) && db.OthersKept(i) && (!indexUpdate ==> IndexKept(db.tables[i]))
    ensures Updating(db, i, s0, log0, todo0, [], pred, patch, indexUpdate) && nupdate == |Done(s0, [], pred)|
  {
    hide Updating, At, Admissible, Done;
    var it, going := Start, true;
    nupdate := 0;
    ghost var todo := todo0;
    while going
      invariant fresh(db.Repr - old(db.Repr)) && db.OthersKept(i)
      invariant Updating(db, i, s0, log0, todo0, todo, pred, patch, indexUpdate) && At(it, db.tables[i], todo)
      invariant nupdate == |Done(s0, todo, pred)| && (!going ==> todo == [])
      invariant !indexUpdate ==> IndexKept(db.tables[i])
      decreases |todo|, going
    {
      var n;
      going, it, n := UpdateNext(db, i, it, pred, patch, indexUpdate, s0, log0, todo0, todo);
      nupdate := nupdate + n;
      todo := if going then todo[1..] else todo;
    }
  }

  /** update_conditional, and update_all with a condition that always holds. The loop
      changes the table it iterates over, and may move keys in the index whose order it
      follows; still every selected row has exactly one turn. If the index does not
      follow, it stays in agreement exactly if no selected row gets a new key. The database
      stays consistent exactly if, besides, no transaction is to remember a lost row. */
  method UpdateWhere(db: Database, i: nat, pred: Bytes -> bool, patch: Patch, indexUpdate: bool) returns (nupdate: int)
    requires db.Valid() && i < |db.tables| && Sane(db.tables[i].lay, db.tables[i].View())
    requires Admissible(db.tables[i].lay, db.tables[i].View(), db.tables[i].universe, pred, patch)
    modifies db.Repr
    ensures db.Standing(i) && fresh(db.Repr - old(db.Repr)) && db.OthersKept(i)
    ensures !indexUpdate ==> IndexKept(db.tables[i])
    ensures var lay, s0, s := old(db.tables[i].lay), old(db.tables[i].View()), db.tables[i].View();
            && Sane(lay, s0) && Sane(lay, s) && Fitting(lay, RowsOf(s0), patch)
            && nupdate == |Selected(s0, pred)|
            && RowsOf(s) == Sweep(lay, RowsOf(s0), old(Todo(Start, db.tables[i])), pred, patch, indexUpdate)
            && (Orderly(lay, RowsOf(s0), pred, patch, indexUpdate) ==>
                RowsOf(s) == AtOnce(lay, RowsOf(s0), pred, patch))
            && (db.tables[i].Valid() <==> Noticed(lay, RowsOf(s0), pred, patch, indexUpdate))
            && (db.Valid() <==> Calm(lay, RowsOf(s0), pred, patch, indexUpdate, db.txdepth))
            && (db.Valid() && db.txdepth > 0 ==> SameOrigin(lay, s0, old(db.Changes(i)), s, db.Changes(i), true))
  {
    hide Updating, Sweep, Noticed, KeysApart, SameOrigin, Accounted, Threaded, Current, Table.Valid, Done, Partly,
      Admissible, RowsOf, Fitting, Database.Valid, Database.Standing, Calm, Todo, At, Blamed, Linked;
    db.ValidStands(i);
    db.StandingParts(i);
    ghost var s0, lay, log0 := db.tables[i].View(), db.tables[i].lay, db.Changes(i);
    IndexInHand(db.tables[i]);
    ghost var m := if lay.Indexed? then db.tables[i].hash.contents else map[];
    AdmissibleFits(lay, s0, db.tables[i].universe, pred, patch);
    ghost var todo := StartUpdating(db, i, pred, patch, indexUpdate);
    nupdate := UpdateLoop(db, i, pred, patch, indexUpdate, s0, log0, todo);
    DoneUpdating(db, i, s0, log0, todo, pred, patch, indexUpdate);
    if !indexUpdate {
      db.StandingParts(i);
      IndexInHand(db.tables[i]);
      if lay.Indexed? && db.tables[i].Valid() {
        StillAgrees(lay, s0, db.tables[i].View(), m, pred, patch);
      }
      if !lay.Indexed? {
        PlainNoticed(lay, RowsOf(s0), pred, patch);
      }
    }
    UpdateNoticed(lay, RowsOf(s0), pred, patch);
    if !Calm(lay, RowsOf(s0), pred, patch, indexUpdate, db.txdepth) {
      NotCalm(db, i, lay, s0, log0, todo, pred, patch, indexUpdate);
    }
  }

  lemma {:induction false} SomeLost(lay: Layout, s0: Store, s: Store, todo0: seq<Ptr>, pred: Bytes -> bool,
                                    patch: Patch, indexUpdate: bool)
    returns (p: Ptr)
    requires Sane(lay, s0) && Distinct(lay, s0) && s.live <= s.mem.Keys && Fitting(lay, RowsOf(s0), patch)
    requires NoDuplicates(todo0) && Linked(todo0) == s0.live && !Orderly(lay, RowsOf(s0), pred, patch, indexUpdate)
    requires RowsOf(s) == Sweep(lay, RowsOf(s0), todo0, pred, patch, indexUpdate)
    ensures p in s0.live && p !in s.live
  {
    hide Sweep, Orderly, Linked, NoDuplicates, KeyOf;
    assert forall q | q in RowsOf(s0) :: RowsOf(s0)[q] == s0.mem[q];
    SweepLoses(lay, RowsOf(s0), todo0, pred, patch, indexUpdate);
    assert s.live == RowsOf(s).Keys;
    p :| p in s0.live && p !in s.live;
  }

  /** An update that is not calm leaves an index that disagrees, or a log that refers to
      a row that is lost. */
  lemma {:induction false} NotCalm(db: Database, i: nat, lay: Layout, s0: Store, log0: seq<Change>, todo0: seq<Ptr>,
                                   pred: Bytes -> bool, patch: Patch, indexUpdate: bool)
    requires i < |db.tables| && db.Standing(i) && lay == db.tables[i].lay && Sane(lay, s0) && Distinct(lay, s0)
    requires Fitting(lay, RowsOf(s0), patch) && !Calm(lay, RowsOf(s0), pred, patch, indexUpdate, db.txdepth)
    requires NoDuplicates(todo0) && Linked(todo0) == s0.live && db.tables[i].View().live <= db.tables[i].View().mem.Keys
    requires RowsOf(db.tables[i].View()) == Sweep(lay, RowsOf(s0), todo0, pred, patch, indexUpdate)
    requires db.tables[i].Valid() ==> Noticed(lay, RowsOf(s0), pred, patch, indexUpdate)
    requires db.txdepth > 0 ==> Blamed(s0, db.tables[i].View(), log0, db.Changes(i))
    ensures !db.Valid()
  {
    hide Sweep, Noticed, Orderly, Current, Threaded, Told, Table.Valid, Table.Shape, Owns, Recoverable, Linked,
      NoDuplicates, Older, Kept, KeyOf, Afters, RowsOf, Distinct, Fitting;
    var t := db.tables[i];
    db.StandingParts(i);
    if !t.Valid() {
      db.NotHealthy(i);
    } else {
      var p := SomeLost(lay, s0, t.View(), todo0, pred, patch, indexUpdate);
      LostFaults(lay, t.View(), db.Changes(i), |db.Changes(i)| - |log0|, p);
      db.NotAccounted(i);
    }
  }

  lemma {:induction false} AdmissibleFits(lay: Layout, s: Store, universe: iset<Key>, pred: Bytes -> bool, patch: Patch)
    requires Sane(lay, s) && Admissible(lay, s, universe, pred, patch)
    ensures |patch| == lay.dlgh && s.live <= s.mem.Keys && Fitting(lay, RowsOf(s), patch)
  {
  }

  lemma {:induction false} DoneUpdating(db: Database, i: nat, s0: Store, log0: seq<Change>, todo0: seq<Ptr>,
                                        pred: Bytes -> bool, patch: Patch, indexUpdate: bool)
    requires i < |db.tables| && Updating(db, i, s0, log0, todo0, [], pred, patch, indexUpdate)
    ensures db.Standing(i) && s0.live <= s0.mem.Keys && Done(s0, [], pred) == Selected(s0, pred)
    ensures Sane(db.tables[i].lay, db.tables[i].View()) && Fitting(db.tables[i].lay, RowsOf(s0), patch)
    ensures RowsOf(db.tables[i].View()) == Sweep(db.tables[i].lay, RowsOf(s0), todo0, pred, patch, indexUpdate)
    ensures Orderly(db.tables[i].lay, RowsOf(s0), pred, patch, indexUpdate) ==>
              RowsOf(db.tables[i].View()) == AtOnce(db.tables[i].lay, RowsOf(s0), pred, patch)
    ensures Noticed(db.tables[i].lay, RowsOf(s0), pred, patch, indexUpdate) ==> db.tables[i].Valid()
    ensures db.txdepth > 0 ==> Blamed(s0, db.tables[i].View(), log0, db.Changes(i))
    ensures Calm(db.tables[i].lay, RowsOf(s0), pred, patch, indexUpdate, db.txdepth) ==>
              && db.Valid()
              && (db.txdepth > 0 ==>
                    SameOrigin(db.tables[i].lay, s0, log0, db.tables[i].View(), db.Changes(i), true))
  {
    hide SameOrigin, Accounted, Threaded, Current, Table.Valid, Table.Shape, Orderly, Noticed, Turn, Calm;
  }

  /** With the index the keys are noticed. */
  lemma {:induction false} UpdateNoticed(lay: Layout, rows: map<Ptr, Bytes>, pred: Bytes -> bool, patch: Patch)
    requires Fitting(lay, rows, patch)
    ensures Noticed(lay, rows, pred, patch, true)
  {
  }

  lemma {:induction false} PlainNoticed(lay: Layout, rows: map<Ptr, Bytes>, pred: Bytes -> bool, patch: Patch)
    requires Fitting(lay, rows, patch) && !lay.Indexed?
    ensures Noticed(lay, rows, pred, patch, false)
  {
  }

  /** The index of a table that agrees with it. */
  lemma {:induction false} IndexInHand(t: Table)
    requires t.Shape()
    ensures t.lay.Indexed? ==> t.hash != null && t.hash in t.Repr
    ensures t.lay.Indexed? && t.Valid() ==>
              Sane(t.lay, t.View()) && IndexOf(t.lay, t.mem, Linked(t.rows), t.hash.contents)
  {
  }

  /** If the same index agrees again, no selected row has a new key. */
  lemma {:induction false} StillAgrees(lay: Layout, s0: Store, s: Store, m: map<Key, Ptr>, pred: Bytes -> bool,
                                       patch: Patch)
    requires lay.Indexed? && Sane(lay, s0) && Sane(lay, s) && Fitting(lay, RowsOf(s0), patch)
    requires IndexOf(lay, s0.mem, s0.live, m) && IndexOf(lay, s.mem, s.live, m)
    requires RowsOf(s) == AtOnce(lay, RowsOf(s0), pred, patch)
    ensures Noticed(lay, RowsOf(s0), pred, patch, false)
  {
    forall p | p in RowsOf(s0) && pred(RowsOf(s0)[p])
      ensures !Unnoticed(lay, RowsOf(s0)[p], Overlay(patch, RowsOf(s0)[p]), false)
    {
      assert p in RowsOf(s) && RowsOf(s)[p] == s.mem[p] == Overlay(patch, s0.mem[p]);
      assert m[KeyOf(lay, s0.mem[p])] == p;
    }
  }

  // ----- delete

  /** The selected rows outside `todo` are deleted. */
  ghost predicate Shrunk(lay: Layout, s0: Store, s: Store, todo: seq<Ptr>, pred: Bytes -> bool, depth: nat) {
    && Good(lay, s0) && (forall p | p in todo :: p in s.live)
    && s.live == s0.live - Done(s0, todo, pred)
    && s.mem == if depth > 0 then s0.mem else s0.mem - Done(s0, todo, pred)
  }

  lemma {:induction false} ShrinkStep(lay: Layout, s0: Store, s: Store, todo: seq<Ptr>, pred: Bytes -> bool, depth: nat)
    requires Shrunk(lay, s0, s, todo, pred, depth) && todo != [] && todo[0] !in todo[1..]
    ensures todo[0] in s.live && s.live <= s.mem.Keys
    ensures todo[0] in s0.live && s0.live <= s0.mem.Keys && todo[0] in s.mem && s.mem[todo[0]] == s0.mem[todo[0]]
    ensures Shrunk(lay, s0, if pred(s0.mem[todo[0]]) then DeleteAt(s, todo[0], depth) else s, todo[1..], pred, depth)
  {
    hide Done, Distinct, Roomy, KeyOf;
    assert todo[0] in s.live;
    DoneStep(s0, todo, pred);
    assert forall p | p in todo[1..] :: p in todo;
  }

  lemma {:induction false} StartShrunk(lay: Layout, s: Store, todo: seq<Ptr>, pred: Bytes -> bool, depth: nat)
    requires Good(lay, s) && Linked(todo) == s.live
    ensures Shrunk(lay, s, s, todo, pred, depth) && |Done(s, todo, pred)| == 0
  {
    assert forall p :: p in todo <==> p in Linked(todo);
    assert Done(s, todo, pred) == {};
    assert s.mem - {} == s.mem;
  }

  /** Taking the row before the cursor out of the list leaves what is behind it. */
  lemma {:induction false} UnlinkKeepsRest(rows: seq<Ptr>, row: Ptr, rest: seq<Ptr>)
    requires NoDuplicates(rows) && 0 !in rows && From(rows, row) == [row] + rest
    ensures From(Unlink(rows, row), Head(rest)) == rest
  {
    hide Unlink, From;
    var n := |rows| - |From(rows, row)|;
    var a := rows[..n];
    assert rows == a + ([row] + rest) == a + [row] + rest;
    assert forall k | 0 <= k < n :: rows[k] != rows[n];
    UnlinkSplit(a, row, rest);
    assert forall k | 0 <= k < |a + rest| :: (a + rest)[k] == rows[if k < n then k else k + 1];
    FromSplit(a, rest);
  }

  /** One turn of delete_conditional. */
  method DeleteTurn(db: Database, i: nat, row: Ptr, it: Iterator, pred: Bytes -> bool,
                    ghost s0: Store, ghost todo: seq<Ptr>) returns (n: int)
    requires db.Valid() && i < |db.tables| && todo != [] && todo[0] == row && row !in todo[1..]
    requires Shrunk(db.tables[i].lay, s0, db.tables[i].View(), todo, pred, db.txdepth)
    requires Proper(it, db.tables[i]) && it != Start && Todo(it, db.tables[i]) == todo[1..]
    requires !db.tables[i].lay.Indexed? ==> From(db.tables[i].rows, row) == todo && it == AtLink(Head(todo[1..]))
    modifies db.Repr
    ensures db.Valid() && fresh(db.Repr - old(db.Repr)) && db.OthersKept(i)
    ensures Shrunk(old(db.tables[i].lay), s0, db.tables[i].View(), todo[1..], pred, db.txdepth)
    ensures Proper(it, db.tables[i]) && Todo(it, db.tables[i]) == todo[1..]
    ensures row in s0.mem && n == if pred(s0.mem[row]) then 1 else 0
    ensures db.txdepth > 0 ==> SameOrigin(old(db.tables[i].lay), old(db.tables[i].View()), old(db.Changes(i)),
                                          db.tables[i].View(), db.Changes(i), true)
  {
    hide Shrunk, SameOrigin, Accounted, Threaded, Current, DeleteAt, Table.Valid, From, Unlink, NoDuplicates, Linked;
    var t := db.tables[i];
    ShrinkStep(t.lay, s0, t.View(), todo, pred, db.txdepth);
    if pred(t.mem[row]) {
      RowInList(t, row);
      if !t.lay.Indexed? {
        UnlinkKeepsRest(t.rows, row, todo[1..]);
      }
      db.Delete(i, row);
      n := 1;
    } else {
      OriginStays(db, i);
      n := 0;
    }
  }

  lemma {:induction false} RowInList(t: Table, row: Ptr)
    requires t.Valid() && row in t.View().live
    ensures row in t.rows && NoDuplicates(t.rows) && 0 !in t.rows
  {
  }

  /** The state of a deletion between two rows. */
  ghost predicate Deleting(db: Database, i: nat, s0: Store, log0: seq<Change>, todo: seq<Ptr>, pred: Bytes -> bool)
    reads db, db.Repr
  {
    && db.Valid() && i < |db.tables| && NoDuplicates(todo)
    && Shrunk(db.tables[i].lay, s0, db.tables[i].View(), todo, pred, db.txdepth)
    && (db.txdepth > 0 ==> SameOrigin(db.tables[i].lay, s0, log0, db.tables[i].View(), db.Changes(i), true))
  }

  /** The cursor moves on, then the row it was at is dealt with. */
  method DeleteNext(db: Database, i: nat, it: Iterator, pred: Bytes -> bool,
                    ghost s0: Store, ghost log0: seq<Change>, ghost todo: seq<Ptr>)
    returns (going: bool, next: Iterator, n: int)
    requires Deleting(db, i, s0, log0, todo, pred) && At(it, db.tables[i], todo)
    modifies db.Repr
    ensures fresh(db.Repr - old(db.Repr)) && db.OthersKept(i)
    ensures going <==> todo != []
    ensures Deleting(db, i, s0, log0, if going then todo[1..] else todo, pred)
    ensures At(next, db.tables[i], if going then todo[1..] else todo) && (going ==> next != Start)
    ensures s0.live <= s0.mem.Keys
    ensures |Done(s0, if going then todo[1..] else todo, pred)| == |Done(s0, todo, pred)| + n
  {
    hide Shrunk, Good, SameOrigin, Accounted, Threaded, Told, Current, Table.Valid, Table.Shape, UndoAll,
      NoDuplicates, Linked, Done, From, DeleteAt, Head, Todo, Proper;
    var t := db.tables[i];
    ghost var s, lay, log := t.View(), t.lay, db.Changes(i);
    t.ValidParts();
    var row;
    row, next := NextRow(t, it);
    if row == 0 {
      ShrunkLive(lay, s0, s, todo, pred, db.txdepth);
      return false, it, 0;
    }
    TodoTail(row, Todo(next, t), todo);
    ShrinkStep(lay, s0, s, todo, pred, db.txdepth);
    DoneStep(s0, todo, pred);
    n := DeleteTurn(db, i, row, next, pred, s0, todo);
    if db.txdepth > 0 {
      SameOriginTransitive(lay, s0, log0, s, log, t.View(), db.Changes(i));
    }
    going := true;
  }

  lemma {:induction false} ShrunkLive(lay: Layout, s0: Store, s: Store, todo: seq<Ptr>, pred: Bytes -> bool, depth: nat)
    requires Shrunk(lay, s0, s, todo, pred, depth)
    ensures s0.live <= s0.mem.Keys
  {
  }

  /** delete_conditional: exactly the selected rows leave the table. */
  method DeleteWhere(db: Database, i: nat, pred: Bytes -> bool) returns (ndelete: int)
    requires db.Valid() && i < |db.tables|
    modifies db.Repr
    ensures db.Valid() && fresh(db.Repr - old(db.Repr)) && db.OthersKept(i)
    ensures var s0, s := old(db.tables[i].View()), db.tables[i].View();
            && s0.live <= s0.mem.Keys && ndelete == |Selected(s0, pred)|
            && s.live == s0.live - Selected(s0, pred)
            && s.mem == if db.txdepth > 0 then s0.mem else s0.mem - Selected(s0, pred)
    ensures db.txdepth > 0 ==> SameOrigin(old(db.tables[i].lay), old(db.tables[i].View()), old(db.Changes(i)),
                                          db.tables[i].View(), db.Changes(i), true)
  {
    hide Shrunk, Good, SameOrigin, Accounted, Threaded, Told, Current, Table.Valid, Table.Shape, UndoAll,
      NoDuplicates, Linked, Done, From, Todo;
    var t := db.tables[i];
    ghost var s0, lay, log0 := t.View(), t.lay, db.Changes(i);
    var it, going := Start, true;
    ghost var todo := Todo(Start, t);
    ndelete := 0;
    TableGood(db, i);
    GoodLive(lay, s0);
    IndexVisitsAll(t);
    StartShrunk(lay, s0, todo, pred, db.txdepth);
    OriginStays(db, i);
    while going
      invariant fresh(db.Repr - old(db.Repr)) && db.OthersKept(i)
      invariant Deleting(db, i, s0, log0, todo, pred) && At(it, t, todo)
      invariant ndelete == |Done(s0, todo, pred)| && (!going ==> todo == [])
      decreases |todo|, going
    {
      var n;
      going, it, n := DeleteNext(db, i, it, pred, s0, log0, todo);
      ndelete := ndelete + n;
      todo := if going then todo[1..] else todo;
    }
    EndShrunk(lay, s0, t.View(), pred, db.txdepth);
  }

  lemma {:induction false} EndShrunk(lay: Layout, s0: Store, s: Store, pred: Bytes -> bool, depth: nat)
    requires Shrunk(lay, s0, s, [], pred, depth)
    ensures s0.live <= s0.mem.Keys && Done(s0, [], pred) == Selected(s0, pred)
    ensures s.live == s0.live - Selected(s0, pred)
    ensures s.mem == if depth > 0 then s0.mem else s0.mem - Selected(s0, pred)
  {
  }

  // ----- delete_all

  /** The log after deleting the rows of a sequence one by one. */
  ghost predicate DeletedUpTo(lay: Layout, s0: Store, log0: seq<Change>, rows: seq<Ptr>, k: nat,
                              l: seq<TableLog>, depth: nat)
  {
    && k <= |rows| && Good(lay, s0)
    && var s := Store(s0.mem, s0.live - Linked(rows[..k]));
       Accounted(lay, s, l, depth) && SameOrigin(lay, s0, log0, s, Current(l, depth), true)
  }

  lemma {:induction false} DeletedOne(lay: Layout, s0: Store, log0: seq<Change>, rows: seq<Ptr>, k: nat,
                                      l: seq<TableLog>, l': seq<TableLog>, depth: nat)
    requires depth > 0 && DeletedUpTo(lay, s0, log0, rows, k, l, depth) && k < |rows|
    requires NoDuplicates(rows) && Linked(rows) == s0.live
    requires Older(l', depth) == Older(l, depth) && Current(l', depth) == [Deleted(rows[k])] + Current(l, depth)
    ensures DeletedUpTo(lay, s0, log0, rows, k + 1, l', depth)
  {
    hide Good, Accounted, SameOrigin, Older, Current, KeyFree, Room;
    var s := Store(s0.mem, s0.live - Linked(rows[..k]));
    assert rows[k] in Linked(rows) && rows[k] !in rows[..k];
    assert rows[..k + 1] == rows[..k] + [rows[k]];
    FewerGood(lay, s0, s.live);
    StepAccounted(lay, s, Op.Delete(rows[k]), l, l', depth);
    assert s0.live - Linked(rows[..k + 1]) == s.live - {rows[k]};
    SameOriginTransitive(lay, s0, log0, s, Current(l, depth), Step(s, Op.Delete(rows[k])), Current(l', depth));
  }

  lemma {:induction false} FewerGood(lay: Layout, s: Store, live: set<Ptr>)
    requires Good(lay, s) && live <= s.live
    ensures Sane(lay, Store(s.mem, live)) && Good(lay, Store(s.mem, live))
  {
    assert s.live == live + (s.live - live);
  }

  lemma {:induction false} DeletedNone(lay: Layout, s: Store, rows: seq<Ptr>, l: seq<TableLog>, depth: nat)
    requires Good(lay, s) && Accounted(lay, s, l, depth)
    ensures DeletedUpTo(lay, s, Current(l, depth), rows, 0, l, depth)
  {
    OriginUnchanged(lay, s, l, depth);
    assert s.live - Linked(rows[..0]) == s.live;
  }

  lemma {:induction false} DeletedAllUnlogged(lay: Layout, s: Store, l: seq<TableLog>)
    requires Good(lay, s) && Accounted(lay, s, l, 0) && Current(l, 0) == []
    ensures Accounted(lay, Store(s.mem - s.live, {}), l, 0)
  {
  }

  /** The log entries of delete_all. */
  method LogDeletions(log: Log, i: nat, rows: seq<Ptr>, depth: nat, ghost lay: Layout, ghost s0: Store)
    requires depth > 0 && i < |log.tbl| && Threaded(log.tx, log.tbl, depth, None) && Told(log.history, log.tbl, depth)
    requires Good(lay, s0) && Accounted(lay, s0, log.tbl[i], depth) && NoDuplicates(rows) && Linked(rows) == s0.live
    modifies log
    ensures Threaded(log.tx, log.tbl, depth, None) && |log.tbl| == |old(log.tbl)| && Told(log.history, log.tbl, depth)
    ensures forall u | 0 <= u < |log.tbl| && u != i :: log.tbl[u] == old(log.tbl)[u]
    ensures Accounted(lay, Store(s0.mem, {}), log.tbl[i], depth)
    ensures SameOrigin(lay, s0, Current(old(log.tbl)[i], depth), Store(s0.mem, {}), Current(log.tbl[i], depth), true)
  {
    hide Threaded, Current, Older, DeletedUpTo, Accounted, Good, Linked, NoDuplicates;
    ghost var log0 := Current(log.tbl[i], depth);
    DeletedNone(lay, s0, rows, log.tbl[i], depth);
    for k := 0 to |rows|
      invariant Threaded(log.tx, log.tbl, depth, None) && |log.tbl| == |old(log.tbl)|
                && Told(log.history, log.tbl, depth)
      invariant forall u | 0 <= u < |log.tbl| && u != i :: log.tbl[u] == old(log.tbl)[u]
      invariant DeletedUpTo(lay, s0, log0, rows, k, log.tbl[i], depth)
    {
      ghost var l := log.tbl[i];
      var status := log.Append(i, depth, Deleted(rows[k]));
      DeletedOne(lay, s0, log0, rows, k, l, log.tbl[i], depth);
    }
    DeletedEvery(lay, s0, log0, rows, log.tbl[i], depth);
  }

  lemma {:induction false} DeletedEvery(lay: Layout, s0: Store, log0: seq<Change>, rows: seq<Ptr>,
                                        l: seq<TableLog>, depth: nat)
    requires DeletedUpTo(lay, s0, log0, rows, |rows|, l, depth) && Linked(rows) == s0.live
    ensures Accounted(lay, Store(s0.mem, {}), l, depth)
    ensures SameOrigin(lay, s0, log0, Store(s0.mem, {}), Current(l, depth), true)
  {
    assert rows[..|rows|] == rows;
    assert s0.live - Linked(rows) == {};
  }

  /** delete_all: the table is empty, and a rollback would bring all rows back. The count
      starts from the `junk` in an uninitialised variable. */
  method DeleteAll(db: Database, i: nat, junk: int) returns (ndelete: int)
    requires db.Valid() && i < |db.tables|
    modifies db.Repr
    ensures db.Valid() && fresh(db.Repr - old(db.Repr)) && db.OthersKept(i)
    ensures var s0, s := old(db.tables[i].View()), db.tables[i].View();
            && s == Store(if db.txdepth > 0 then s0.mem else s0.mem - s0.live, {})
            && ndelete == if junk < 0 then junk else junk + |s0.live|
    ensures db.txdepth > 0 ==> SameOrigin(old(db.tables[i].lay), old(db.tables[i].View()), old(db.Changes(i)),
                                          db.tables[i].View(), db.Changes(i), true)
  {
    hide Accounted, SameOrigin, Good, Threaded, Current, Table.Valid, NoDuplicates;
    var t := db.tables[i];
    ghost var s0, lay := t.View(), t.lay;
    TableGood(db, i);
    ListGood(t);
    if db.txdepth == 0 {
      NothingAtZero(db.log.tx, db.log.tbl, i);
      DeletedAllUnlogged(lay, s0, db.log.tbl[i]);
    }
    var rows;
    rows, ndelete := t.Clear(db.txdepth, junk);
    CountLinks(rows);
    assert Linked(t.rows) == {};
    if db.txdepth > 0 {
      LogDeletions(db.log, i, rows, db.txdepth, lay, s0);
    }
    db.Repr := db.Repr + t.Repr;
    db.Undisturbed(i);
  }

  lemma {:induction false} ListGood(t: Table)
    requires t.Valid()
    ensures NoDuplicates(t.rows)
  {
  }
}
