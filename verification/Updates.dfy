// Updating columns of the rows that satisfy a condition (mdb_table_update in
// src/murphy-db/mdb/table.c, mdb_row_update in row.c).

module ColumnUpdates {
  import opened Common
  import opened LinkedLists
  import opened Keys
  import opened SortedSequence
  import opened HashFunctions
  import opened ChainedHash
  import opened TableStore
  import opened RowTable
  import opened UndoLog
  import opened Transactions
  import opened UpdateSweep
  import opened TableLoops
  import opened Columns

  /** The columns to be updated exist and the values suit them. */
  ghost predicate Updatable(columns: seq<Column>, size: nat, updated: seq<nat>, values: seq<Var>) {
    && LaidOut(columns, size) && |values| == |updated|
    && forall j | 0 <= j < |updated| :: updated[j] < |columns| && VarFits(columns[updated[j]], values[j])
  }

  /** What writing a value into a column does to a row. */
  function Stamp(size: nat, c: Column, v: Var): (p: Patch)
    requires VarFits(c, v)
    ensures |p| == size
  {
    if c.kind.Floating? then seq(size, _ => None)
    else
      seq(size, k requires 0 <= k < size =>
        if c.offset <= k < c.offset + c.length then Some(Canonical(c, v)[k - c.offset]) else None)
  }

  /** One patch, and then another. */
  function Then(p: Patch, q: Patch): (r: Patch)
    requires |p| == |q|
    ensures |r| == |p|
  {
    seq(|p|, k requires 0 <= k < |p| => if q[k].Some? then q[k] else p[k])
  }

  /** What writing the first `n` of the columns does. */
  function PatchOf(columns: seq<Column>, size: nat, updated: seq<nat>, values: seq<Var>, n: nat): (p: Patch)
    requires Updatable(columns, size, updated, values) && n <= |updated|
    ensures |p| == size
  {
    if n == 0 then seq(size, _ => None)
    else Then(PatchOf(columns, size, updated, values, n - 1), Stamp(size, columns[updated[n - 1]], values[n - 1]))
  }

  lemma {:induction false} OverlayThen(p: Patch, q: Patch, d: Bytes)
    requires |p| == |q| == |d|
    ensures Overlay(Then(p, q), d) == Overlay(q, Overlay(p, d))
  {
  }

  lemma {:induction false} OverlayNone(d: Bytes)
    ensures Overlay(seq(|d|, _ => None), d) == d
  {
  }

  /** A row that differs from another in a column only, which holds a value. */
  lemma {:induction false} Stamped(b: Bytes, b': Bytes, c: Column, v: Var)
    requires VarFits(c, v) && SameBut(b, b', 0, c)
    requires if c.kind.Floating? then b' == b else Holds(b', 0, c, v)
    ensures b' == Overlay(Stamp(|b|, c, v), b)
  {
    if !c.kind.Floating? {
      hide VarFits, Canonical;
      forall k | 0 <= k < |b| ensures b'[k] == Overlay(Stamp(|b|, c, v), b)[k] {
        if c.offset <= k < c.offset + c.length {
          assert b'[c.offset..c.offset + c.length][k - c.offset] == b'[k];
        }
      }
    }
  }

  /** The loop of mdb_row_update over the columns. */
  method WriteColumns(row: array<byte>, columns: seq<Column>, updated: seq<nat>, values: seq<Var>)
    requires Updatable(columns, row.Length, updated, values)
    modifies row
    ensures row[..] == Overlay(PatchOf(columns, row.Length, updated, values, |updated|), old(row[..]))
  {
    hide Overlay, Stamp, Then, SameBut, Holds, VarFits;
    OverlayNone(row[..]);
    var j := 0;
    while j < |updated|
      invariant j <= |updated|
      invariant row[..] == Overlay(PatchOf(columns, row.Length, updated, values, j), old(row[..]))
    {
      var c, v := columns[updated[j]], values[j];
      ghost var before := row[..];
      WriteColumn(row, 0, c, v);
      Stamped(before, row[..], c, v);
      OverlayThen(PatchOf(columns, row.Length, updated, values, j), Stamp(row.Length, c, v), old(row[..]));
      j := j + 1;
    }
  }

  // ----- when the key bytes stay

  /** The bytes of a column as an update leaves them. */
  ghost function ColumnAfter(columns: seq<Column>, updated: seq<nat>, values: seq<Var>, c: nat, n: nat, d: Bytes): Bytes
    requires c < |columns| && columns[c].offset + columns[c].length <= |d|
    requires Updatable(columns, |d|, updated, values) && n <= |updated|
  {
    if n == 0 then d[columns[c].offset..columns[c].offset + columns[c].length]
    else if updated[n - 1] == c && !columns[c].kind.Floating? then Canonical(columns[c], values[n - 1])
    else ColumnAfter(columns, updated, values, c, n - 1, d)
  }

  lemma {:induction false} ColumnPatched(columns: seq<Column>, updated: seq<nat>, values: seq<Var>, c: nat, n: nat,
                                         d: Bytes)
    requires c < |columns| && Updatable(columns, |d|, updated, values) && n <= |updated|
    ensures columns[c].offset + columns[c].length <= |d|
    ensures var d' := Overlay(PatchOf(columns, |d|, updated, values, n), d);
            d'[columns[c].offset..columns[c].offset + columns[c].length]
            == ColumnAfter(columns, updated, values, c, n, d)
  {
    hide Overlay, Stamp, Then, Canonical;
    if n == 0 {
      OverlayNone(d);
    } else {
      ColumnPatched(columns, updated, values, c, n - 1, d);
      var p := PatchOf(columns, |d|, updated, values, n - 1);
      OverlayThen(p, Stamp(|d|, columns[updated[n - 1]], values[n - 1]), d);
      StampAt(columns, |d|, updated[n - 1], values[n - 1], c, Overlay(p, d));
    }
  }

  /** A value written into one column shows in that column only. */
  lemma {:induction false} StampAt(columns: seq<Column>, size: nat, u: nat, v: Var, c: nat, d: Bytes)
    requires LaidOut(columns, size) && u < |columns| && c < |columns| && VarFits(columns[u], v) && |d| == size
    ensures columns[c].offset + columns[c].length <= |d|
    ensures Overlay(Stamp(size, columns[u], v), d)[columns[c].offset..columns[c].offset + columns[c].length]
         == if u == c && !columns[c].kind.Floating? then Canonical(columns[c], v)
            else d[columns[c].offset..columns[c].offset + columns[c].length]
  {
  }

  predicate SameColumn(c: Column, a: Bytes, b: Bytes)
    requires c.offset + c.length <= |a| == |b|
  {
    a[c.offset..c.offset + c.length] == b[c.offset..c.offset + c.length]
  }

  /** Two rows agree on the bytes of an index exactly if they agree on its columns. */
  lemma {:induction false} AgreeByColumns(columns: seq<Column>, chain: seq<nat>, beg: nat, end: nat, a: Bytes, b: Bytes)
    requires Tiles(columns, chain, beg, end) && |a| == |b| && end <= |a|
    ensures beg <= end && forall i | 0 <= i < |chain| :: columns[chain[i]].offset + columns[chain[i]].length <= end
    ensures a[beg..end] == b[beg..end] <==> forall i | 0 <= i < |chain| :: SameColumn(columns[chain[i]], a, b)
  {
    forall i | 0 <= i < |chain| ensures columns[chain[i]].offset + columns[chain[i]].length <= end {
      EndsInside(columns, chain, beg, end, i);
    }
    hide SameColumn;
    AgreeFrom(columns, chain, beg, end, a, b, 0);
  }

  lemma {:induction false} AgreeFrom(columns: seq<Column>, chain: seq<nat>, beg: nat, end: nat, a: Bytes, b: Bytes,
                                     i: nat)
    requires Tiles(columns, chain, beg, end) && |a| == |b| && end <= |a| && i < |chain|
    requires forall k | 0 <= k < |chain| :: columns[chain[k]].offset + columns[chain[k]].length <= end
    ensures a[columns[chain[i]].offset..end] == b[columns[chain[i]].offset..end]
            <==> forall k | i <= k < |chain| :: SameColumn(columns[chain[k]], a, b)
    decreases |chain| - i
  {
    var c := columns[chain[i]];
    var to := c.offset + c.length;
    if i + 1 < |chain| {
      AgreeFrom(columns, chain, beg, end, a, b, i + 1);
    }
    SplitEqual(a, c.offset, to, end, b[c.offset..to], b[to..end]);
    assert b[c.offset..end] == b[c.offset..to] + b[to..end];
    assert SameColumn(c, a, b) <==> a[c.offset..to] == b[c.offset..to];
  }

  /** The column has, before the update, the bytes that the update leaves in it. */
  ghost predicate HeldAlready(columns: seq<Column>, updated: seq<nat>, values: seq<Var>, c: nat, d: Bytes)
    requires c < |columns| && Updatable(columns, |d|, updated, values)
  {
    && columns[c].offset + columns[c].length <= |d|
    && ColumnAfter(columns, updated, values, c, |updated|, d)
         == d[columns[c].offset..columns[c].offset + columns[c].length]
  }

  lemma {:induction false} ColumnKept(columns: seq<Column>, updated: seq<nat>, values: seq<Var>, c: nat, d: Bytes)
    requires c < |columns| && Updatable(columns, |d|, updated, values)
    ensures columns[c].offset + columns[c].length <= |d|
    ensures SameColumn(columns[c], Overlay(PatchOf(columns, |d|, updated, values, |updated|), d), d)
            <==> HeldAlready(columns, updated, values, c, d)
  {
    hide Overlay, PatchOf, ColumnAfter, Updatable;
    ColumnPatched(columns, updated, values, c, |updated|, d);
  }

  /** An update leaves the key of a row alone exactly if every key column that it writes
      holds already the value that it is given last. */
  lemma {:induction false} KeyKeptIff(columns: seq<Column>, chain: seq<nat>, lay: Layout, updated: seq<nat>,
                                      values: seq<Var>, d: Bytes)
    requires lay.Indexed? && lay.Valid() && lay.Fits(d) && Updatable(columns, |d|, updated, values)
    requires Tiles(columns, chain, lay.offset, lay.offset + lay.length)
    ensures forall i | 0 <= i < |chain| :: chain[i] < |columns|
    ensures KeyOf(lay, Overlay(PatchOf(columns, |d|, updated, values, |updated|), d)) == KeyOf(lay, d) <==>
              forall i | 0 <= i < |chain| :: HeldAlready(columns, updated, values, chain[i], d)
  {
    hide Overlay, PatchOf, HeldAlready, Updatable, Tiles, SameColumn;
    TilesExist(columns, chain, lay.offset, lay.offset + lay.length);
    var e := Overlay(PatchOf(columns, |d|, updated, values, |updated|), d);
    AgreeByColumns(columns, chain, lay.offset, lay.offset + lay.length, e, d);
    forall i | 0 <= i < |chain|
      ensures SameColumn(columns[chain[i]], e, d) <==> HeldAlready(columns, updated, values, chain[i], d)
    {
      ColumnKept(columns, updated, values, chain[i], d);
    }
  }

  lemma {:induction false} TilesExist(columns: seq<Column>, chain: seq<nat>, beg: nat, end: nat)
    requires Tiles(columns, chain, beg, end)
    ensures forall i | 0 <= i < |chain| :: chain[i] < |columns|
  {
  }

  // ----- mdb_table_update

  /** The columns are updated in the rows that satisfy the condition. The index is told
      only if the table has one and more columns are updated than precede its first key
      column; it then stays in agreement, and otherwise exactly if no selected row gets
      a new key. */
  method Update(db: Database, i: nat, columns: seq<Column>, isKey: seq<bool>, updated: seq<nat>, values: seq<Var>,
                pred: Bytes -> bool)
    returns (nupdate: int)
    requires db.Valid() && i < |db.tables| && Sane(db.tables[i].lay, db.tables[i].View())
    requires Updatable(columns, db.tables[i].lay.dlgh, updated, values) && |updated| <= |isKey|
    requires Admissible(db.tables[i].lay, db.tables[i].View(), db.tables[i].universe, pred,
                        PatchOf(columns, db.tables[i].lay.dlgh, updated, values, |updated|))
    modifies db.Repr
    ensures db.Standing(i) && fresh(db.Repr - old(db.Repr)) && db.OthersKept(i)
    ensures var lay, s0, s := old(db.tables[i].lay), old(db.tables[i].View()), db.tables[i].View();
            var patch := PatchOf(columns, lay.dlgh, updated, values, |updated|);
            var told := lay.Indexed? && FirstKey(isKey) < |updated|;
            && Sane(lay, s0) && Sane(lay, s) && Fitting(lay, RowsOf(s0), patch)
            && nupdate == |Selected(s0, pred)|
            && RowsOf(s) == Sweep(lay, RowsOf(s0), old(Todo(Start, db.tables[i])), pred, patch, told)
            && (db.tables[i].Valid() <==> told || forall p | p in RowsOf(s0) && pred(RowsOf(s0)[p]) ::
                  lay.Indexed? ==> KeyOf(lay, Overlay(patch, RowsOf(s0)[p])) == KeyOf(lay, RowsOf(s0)[p]))
            && (!told ==> IndexKept(db.tables[i]) && RowsOf(s) == AtOnce(lay, RowsOf(s0), pred, patch))
            && (db.Valid() <==> Calm(lay, RowsOf(s0), pred, patch, told, db.txdepth))
  {
    hide SameOrigin, Accounted, Threaded, Current, Table.Valid, Table.Shape, Database.Valid, Database.Standing, Sweep,
      Todo, Fitting, Calm, Updatable, PatchOf, Admissible;
    ghost var lay, s0 := db.tables[i].lay, db.tables[i].View();
    var patch := PatchOf(columns, db.tables[i].lay.dlgh, updated, values, |updated|);
    var indexUpdate := false;
    if db.tables[i].lay.Indexed? {
      indexUpdate := UpdatesKey(isKey, updated);
      KeyTestIff(isKey, updated);
    }
    nupdate := UpdateWhere(db, i, pred, patch, indexUpdate);
  }

  // ----- an update that the index misses

  const TWO_COLUMNS := [Column(Unsignd, 0, 4), Column(Unsignd, 4, 4)]
  const KEY_SECOND := Indexed(8, 4, 4, UnsigndKey)

  ghost const WORDS: iset<Key> := iset k: Key | |k| == 4

  function RowWithKey(key: byte): Bytes { [0, 0, 0, 0, key, 0, 0, 0] }

  lemma {:induction false} KeysOfRows(key: byte)
    ensures KEY_SECOND.Valid() && KEY_SECOND.Fits(RowWithKey(key))
            && KeyOf(KEY_SECOND, RowWithKey(key)) == [key, 0, 0, 0]
  {
  }

  /** A table with one row. */
  method OneRow() returns (db: Database, p: Ptr)
    ensures db.Valid() && fresh(db.Repr) && |db.tables| == 1 && db.txdepth == 0 && db.tables[0].lay == KEY_SECOND
    ensures db.tables[0].universe == WORDS && db.tables[0].View() == Store(map[p := RowWithKey(1)], {p})
  {
    hide Accounted, Threaded, Table.Valid, Table.Shape, TotalOn;
    UnsigndTotal();
    KeysOfRows(1);
    var t := new Table(KEY_SECOND, WORDS);
    NothingOwned();
    assert AllReprs([t]) == t.Repr;
    db := new Database([t]);
    var status;
    status, p := db.Insert(0, RowWithKey(1), false);
  }

  const TO_TWO: seq<Var> := [Number(2)]

  /** The second column is the key, and the update writes it alone. */
  lemma {:induction false} SecondColumn()
    ensures Updatable(TWO_COLUMNS, 8, [1], TO_TWO) && FirstKey([false, true]) == 1
    ensures Overlay(PatchOf(TWO_COLUMNS, 8, [1], TO_TWO, 1), RowWithKey(1)) == RowWithKey(2)
  {
    assert LaidOut(TWO_COLUMNS, 8);
    assert FirstKey([true]) == 0 && [false, true][1..] == [true];
    var p := PatchOf(TWO_COLUMNS, 8, [1], TO_TWO, 0);
    assert PatchOf(TWO_COLUMNS, 8, [1], TO_TWO, 1) == Then(p, Stamp(8, TWO_COLUMNS[1], TO_TWO[0]));
    var q := Stamp(8, TWO_COLUMNS[1], TO_TWO[0]);
    var two: Bytes := [2, 0, 0, 0];
    assert TWO_COLUMNS[1] == Column(Unsignd, 4, 4) && Canonical(TWO_COLUMNS[1], TO_TWO[0]) == two;
    forall k | 0 <= k < 8 ensures Overlay(q, RowWithKey(1))[k] == RowWithKey(2)[k] {
      assert q[k] == if k < 4 then None else Some(two[k - 4]);
    }
    OverlayThen(p, q, RowWithKey(1));
    OverlayNone(RowWithKey(1));
  }

  lemma {:induction false} ChainsOfKeys()
    ensures Defined(UnsigndKey, Size(101, 7))
    ensures ChainOf(UnsigndKey, Size(101, 7), [1, 0, 0, 0]) == 1 && ChainOf(UnsigndKey, Size(101, 7), [2, 0, 0, 0]) == 2
  {
    IndexSizeDefined(UnsigndKey);
    assert Keys.Word([1, 0, 0, 0]) == 1 && Keys.Word([2, 0, 0, 0]) == 2;
  }

  predicate Any(d: Bytes) { true }

  /** What the update makes of the one row. */
  lemma {:induction false} OneRowUpdated(p: Ptr, s: Store, patch: Patch)
    requires s.live <= s.mem.Keys && Fitting(KEY_SECOND, map[p := RowWithKey(1)], patch)
    requires RowsOf(s) == AtOnce(KEY_SECOND, map[p := RowWithKey(1)], Any, patch)
    requires Overlay(patch, RowWithKey(1)) == RowWithKey(2)
    ensures p in s.live && s.mem[p] == RowWithKey(2)
  {
    assert p in RowsOf(s);
  }

  /** The key of the row becomes 2, its second column being updated alone. Afterwards the
      index disagrees, and a walk along its chains finds no row under either key. */
  method StaleIndex() returns (t: Table, p: Ptr)
    ensures t.Shape() && !t.Valid() && t.lay == KEY_SECOND && p in t.View().live && t.mem[p] == RowWithKey(2)
    ensures forall q | q in t.mem :: !t.Reaches([1, 0, 0, 0], q)
    ensures !t.Reaches([2, 0, 0, 0], p)
  {
    hide Accounted, Threaded, Overlay, PatchOf, Updatable, Fitting, RowsOf, AtOnce, Sweep, Selected, FirstKey, Todo,
      Calm, RowWithKey, KeyOf, ChainOf, Lists, Hash.Valid, Sequence.Valid, NoDuplicates;
    SecondColumn();
    KeysOfRows(1);
    KeysOfRows(2);
    ChainsOfKeys();
    var db;
    db, p := OneRow();
    t := db.tables[0];
    db.ValidStands(0);
    db.StandingParts(0);
    IndexInHand(t);
    OneKey(p, t.hash.contents);
    Prepared(t.View(), p);
    var n := Update(db, 0, TWO_COLUMNS, [false, true], [1], TO_TWO, Any);
    OneRowUpdated(p, t.View(), PatchOf(TWO_COLUMNS, 8, [1], TO_TWO, 1));
    db.StandingParts(0);
    t.ReachesMissed(p, [1, 0, 0, 0]);
  }

  lemma {:induction false} OneKey(p: Ptr, m: map<Key, Ptr>)
    requires KEY_SECOND.Valid() && KEY_SECOND.Fits(RowWithKey(1))
    requires IndexOf(KEY_SECOND, map[p := RowWithKey(1)], {p}, m)
    ensures m == map[[1, 0, 0, 0] := p]
  {
    KeysOfRows(1);
  }

  lemma {:induction false} Prepared(s: Store, p: Ptr)
    requires s == Store(map[p := RowWithKey(1)], {p}) && Sane(KEY_SECOND, s)
    ensures Updatable(TWO_COLUMNS, 8, [1], TO_TWO) && RowsOf(s) == map[p := RowWithKey(1)]
    ensures Admissible(KEY_SECOND, s, WORDS, Any, PatchOf(TWO_COLUMNS, 8, [1], TO_TWO, 1))
  {
    hide PatchOf, Overlay, Updatable, RowWithKey;
    SecondColumn();
    KeysOfRows(2);
  }

  lemma {:induction false} NothingOwned()
    ensures Owns(Store(map[], {}), [], {})
  {
  }
}
