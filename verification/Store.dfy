// What a table of murphy-db holds, and how its changes are undone, seen without lists and
// indexes (src/murphy-db/mdb/transaction.c, log.c).

module TableStore {
  import opened Common
  import opened Keys
  import opened SortedSequence

  type Bytes = seq<byte>

  /** The row length and, for an indexed table, the bytes that form the key. */
  datatype Layout =
    | Plain(dlgh: nat)
    | Indexed(dlgh: nat, offset: nat, length: nat, keyType: KeyType)
  {
    predicate Valid() { Indexed? ==> offset + length <= dlgh }

    predicate Fits(d: Bytes) { |d| == dlgh }
  }

  function KeyOf(lay: Layout, d: Bytes): Key
    requires lay.Indexed? && lay.Valid() && lay.Fits(d)
  {
    d[lay.offset..lay.offset + lay.length]
  }

  /** The rows allocated for a table and, among them, those linked in its list.
      Deleted rows and before-images are allocated but not linked. */
  datatype Store = Store(mem: map<Ptr, Bytes>, live: set<Ptr>)

  /** A log entry: what happened, and the rows the log keeps pointers to. */
  datatype Change =
    | Inserted(row: Ptr)
    | Deleted(row: Ptr)
    | Updated(before: Ptr, after: Ptr)

  ghost predicate Sane(lay: Layout, s: Store) {
    && lay.Valid() && s.live <= s.mem.Keys && 0 !in s.mem
    && forall p | p in s.mem :: lay.Fits(s.mem[p])
  }

  /** No two linked rows have the same key. */
  ghost predicate Distinct(lay: Layout, s: Store)
    requires Sane(lay, s)
  {
    lay.Indexed? ==>
      forall p, q | p in s.live && q in s.live && KeyOf(lay, s.mem[p]) == KeyOf(lay, s.mem[q]) :: p == q
  }

  /** The number of rows a sorted index can hold: the first allocation of its array,
      which the source cannot enlarge without writing outside it. */
  const INDEX_ROOM := 16

  ghost predicate Roomy(lay: Layout, s: Store) { lay.Indexed? ==> |s.live| <= INDEX_ROOM }

  ghost predicate Good(lay: Layout, s: Store) { Sane(lay, s) && Distinct(lay, s) && Roomy(lay, s) }

  // ----- undoing

  /** remove_row, add_row and copy_row. */
  function Undo(s: Store, c: Change): Store {
    match c
    case Inserted(p) => Store(s.mem - {p}, s.live - {p})
    case Deleted(p) => Store(s.mem, s.live + {p})
    case Updated(b, a) => if b in s.mem then Store(s.mem[a := s.mem[b]] - {b}, s.live) else s
  }

  /** The rows that undoing a change dereferences are still allocated. */
  predicate Allocated(s: Store, c: Change) {
    match c
    case Inserted(p) => p in s.mem
    case Deleted(p) => p in s.mem
    case Updated(b, a) => b in s.mem && a in s.mem
  }

  /** ...and are linked or unlinked as the undo primitives expect. */
  predicate Enabled(s: Store, c: Change) {
    match c
    case Inserted(p) => p in s.mem && p in s.live
    case Deleted(p) => p in s.mem && p !in s.live
    case Updated(b, a) => b in s.mem && b !in s.live && a in s.mem && a in s.live
  }

  /** Logs are newest first. */
  function UndoAll(s: Store, log: seq<Change>): Store
    decreases |log|
  {
    if log == [] then s else UndoAll(Undo(s, log[0]), log[1..])
  }

  /** No step of the rollback touches a freed row. */
  predicate NoFault(s: Store, log: seq<Change>)
    decreases |log|
  {
    log == [] || (Allocated(s, log[0]) && NoFault(Undo(s, log[0]), log[1..]))
  }

  /** Every step of the rollback finds what it expects and leaves unique keys. */
  ghost predicate Recoverable(lay: Layout, s: Store, log: seq<Change>)
    decreases |log|
  {
    Good(lay, s) && (log != [] ==> Enabled(s, log[0]) && Recoverable(lay, Undo(s, log[0]), log[1..]))
  }

  // ----- what the log mentions and owns

  function Touched(c: Change): set<Ptr> {
    match c
    case Inserted(p) => {p}
    case Deleted(p) => {p}
    case Updated(b, a) => {b, a}
  }

  function Mentions(log: seq<Change>): set<Ptr> {
    if log == [] then {} else Touched(log[0]) + Mentions(log[1..])
  }

  /** The row a log entry refers to as the linked one after the change. */
  function After(c: Change): set<Ptr> {
    match c
    case Inserted(p) => {p}
    case Deleted(_) => {}
    case Updated(_, a) => {a}
  }

  function Afters(log: seq<Change>): set<Ptr> {
    if log == [] then {} else After(log[0]) + Afters(log[1..])
  }

  /** The unlinked row a log entry keeps alive. */
  function Before(c: Change): seq<Ptr> {
    match c
    case Inserted(_) => []
    case Deleted(p) => [p]
    case Updated(b, _) => [b]
  }

  function Befores(log: seq<Change>): seq<Ptr> {
    if log == [] then [] else Before(log[0]) + Befores(log[1..])
  }

  /** Every allocated row is either linked, or one of the `befores`, or one of the `others`. */
  ghost predicate Parted(s: Store, befores: seq<Ptr>, others: set<Ptr>) {
    && s.live <= s.mem.Keys
    && (forall i, j | 0 <= i < j < |befores| :: befores[i] != befores[j])
    && (forall p | p in befores :: p !in s.live && p !in others)
    && s.live !! others
    && (forall p :: p in s.mem <==> p in s.live || p in befores || p in others)
  }

  /** Every allocated row is either linked or the before-image of exactly one log
      entry: of `log`, or of the older logs that keep `others`. */
  ghost predicate Owns(s: Store, log: seq<Change>, others: set<Ptr>) { Parted(s, Befores(log), others) }

  lemma {:induction false} PartedTail(s: Store, b: Ptr, befores: seq<Ptr>, others: set<Ptr>)
    requires Parted(s, [b] + befores, others)
    ensures b in s.mem && b !in s.live && b !in befores && b !in others
    ensures forall p | p in befores :: p !in s.live && p !in others
    ensures forall p :: p in s.mem <==> p in s.live || p == b || p in befores || p in others
    ensures forall i, j | 0 <= i < j < |befores| :: befores[i] != befores[j]
  {
    var all := [b] + befores;
    assert all[0] == b;
    assert forall i | 0 <= i < |befores| :: befores[i] == all[i + 1];
    assert forall p :: p in all <==> p == b || p in befores;
  }

  /** Undoing the newest change hands its before-image back or frees a row. */
  lemma {:induction false} UndoOwns(s: Store, log: seq<Change>, others: set<Ptr>)
    requires log != [] && Enabled(s, log[0]) && Owns(s, log, others)
    ensures Owns(Undo(s, log[0]), log[1..], others)
  {
    hide Befores;
    BeforesCons(log);
    var kept := Befores(log[1..]);
    match log[0] {
      case Inserted(p) =>
        assert Befores(log) == kept;
      case Deleted(p) =>
        PartedTail(s, p, kept, others);
      case Updated(b, a) =>
        PartedTail(s, b, kept, others);
    }
  }

  lemma {:induction false} BeforesCons(log: seq<Change>)
    requires log != []
    ensures Befores(log) == Before(log[0]) + Befores(log[1..])
  {
  }

  /** A new change adds its before-image to what the log owns. */
  lemma {:induction false} PushOwns(s: Store, s1: Store, log: seq<Change>, c: Change, others: set<Ptr>)
    requires Owns(s, log, others) && s1.live <= s1.mem.Keys
    requires forall p | p in Before(c) :: p !in s1.live && p !in Befores(log) && p !in others
    requires s1.live !! others && forall p | p in Befores(log) :: p !in s1.live
    requires forall p :: p in s1.mem <==> p in s1.live || p in Before(c) || p in Befores(log) || p in others
    ensures Owns(s1, [c] + log, others)
  {
    hide Befores;
    BeforesCons([c] + log);
    assert ([c] + log)[1..] == log;
    if c.Inserted? {
      assert Befores([c] + log) == Befores(log);
    } else {
      PartedPush(s, s1, Before(c)[0], Befores(log), others);
    }
  }

  lemma {:induction false} PartedPush(s: Store, s1: Store, b: Ptr, befores: seq<Ptr>, others: set<Ptr>)
    requires Parted(s, befores, others) && s1.live <= s1.mem.Keys
    requires b !in s1.live && b !in befores && b !in others
    requires s1.live !! others && forall p | p in befores :: p !in s1.live
    requires forall p :: p in s1.mem <==> p in s1.live || p == b || p in befores || p in others
    ensures Parted(s1, [b] + befores, others)
  {
    var all := [b] + befores;
    assert forall i | 0 <= i < |befores| :: all[i + 1] == befores[i] && befores[i] in befores;
    assert forall p :: p in all <==> p == b || p in befores;
  }

  // ----- the operations

  /** `fresh` rows are addresses the allocator handed out. */
  datatype Op =
    | Insert(row: Ptr, data: Bytes)
    | Update(row: Ptr, copy: Ptr, data: Bytes)
    | Delete(row: Ptr)
    | Replace(replaced: Ptr, row: Ptr, data: Bytes)

  predicate Fresh(s: Store, p: Ptr) { p != 0 && p !in s.mem }

  ghost predicate KeyFree(lay: Layout, s: Store, d: Bytes, except: set<Ptr>)
    requires Sane(lay, s) && lay.Fits(d)
  {
    lay.Indexed? ==> forall p | p in s.live && p !in except :: KeyOf(lay, s.mem[p]) != KeyOf(lay, d)
  }

  /** One more row fits the index. */
  ghost predicate Room(lay: Layout, s: Store) { lay.Indexed? ==> |s.live| < INDEX_ROOM }

  ghost predicate Applicable(lay: Layout, s: Store, op: Op)
    requires Sane(lay, s)
  {
    match op
    case Insert(p, d) => Fresh(s, p) && lay.Fits(d) && KeyFree(lay, s, d, {}) && Room(lay, s)
    case Update(p, b, d) => p in s.live && Fresh(s, b) && lay.Fits(d) && KeyFree(lay, s, d, {p})
    case Delete(p) => p in s.live
    case Replace(p, q, d) =>
      lay.Indexed? && p in s.live && Fresh(s, q) && lay.Fits(d) && KeyOf(lay, d) == KeyOf(lay, s.mem[p])
  }

  function Step(s: Store, op: Op): Store
    requires s.live <= s.mem.Keys && (op.Update? ==> op.row in s.live)
  {
    match op
    case Insert(p, d) => Store(s.mem[p := d], s.live + {p})
    case Update(p, b, d) => Store(s.mem[b := s.mem[p]][p := d], s.live)
    case Delete(p) => Store(s.mem, s.live - {p})
    case Replace(p, q, d) => Store(s.mem[q := d], s.live - {p} + {q})
  }

  /** What each operation does to every row: which are linked, and what bytes they have. */
  lemma {:induction false} StepMeans(s: Store, op: Op, q: Ptr)
    requires s.live <= s.mem.Keys && (op.Update? ==> op.row in s.live)
    ensures var t := Step(s, op);
            match op
            case Insert(p, d) =>
              && (q in t.live <==> q in s.live || q == p) && (q in t.mem <==> q in s.mem || q == p)
              && (q in t.mem ==> t.mem[q] == if q == p then d else s.mem[q])
            case Update(p, b, d) =>
              && (q in t.live <==> q in s.live) && (q in t.mem <==> q in s.mem || q == b)
              && (q in t.mem ==> t.mem[q] == if q == p then d else if q == b then s.mem[p] else s.mem[q])
            case Delete(p) =>
              && (q in t.live <==> q in s.live && q != p) && (q in t.mem <==> q in s.mem)
              && (q in t.mem ==> t.mem[q] == s.mem[q])
            case Replace(p, r, d) =>
              && (q in t.live <==> (q in s.live && q != p) || q == r) && (q in t.mem <==> q in s.mem || q == r)
              && (q in t.mem ==> t.mem[q] == if q == r then d else s.mem[q])
  {
  }

  /** An update or a deletion at some depth: outside transactions nothing is kept. */
  function UpdateAt(s: Store, p: Ptr, copy: Ptr, d: Bytes, depth: nat): Store
    requires s.live <= s.mem.Keys && p in s.live
  {
    if depth > 0 then Step(s, Update(p, copy, d)) else Store(s.mem[p := d], s.live)
  }

  function DeleteAt(s: Store, p: Ptr, depth: nat): Store
    requires s.live <= s.mem.Keys
  {
    if depth > 0 then Step(s, Delete(p)) else Store(s.mem - {p}, s.live - {p})
  }

  function Logged(op: Op): Change {
    match op
    case Insert(p, _) => Inserted(p)
    case Update(p, b, _) => Updated(b, p)
    case Delete(p) => Deleted(p)
    case Replace(p, q, _) => Updated(p, q)
  }

  /** The linked rows and the keys they have, as an operation leaves them. */
  lemma {:induction false} StepRows(lay: Layout, s: Store, op: Op, p: Ptr)
    requires Sane(lay, s) && Applicable(lay, s, op) && p in Step(s, op).live
    ensures p in Step(s, op).mem && lay.Fits(Step(s, op).mem[p])
    ensures p !in s.live ==> (op.Insert? || op.Replace?) && p == op.row
    ensures op.Replace? ==> p != op.replaced
    ensures Step(s, op).mem[p] == if !op.Delete? && p == op.row then op.data else s.mem[p]
  {
    hide KeyFree, Room;
  }

  lemma {:induction false} StepSane(lay: Layout, s: Store, op: Op)
    requires Sane(lay, s) && Applicable(lay, s, op)
    ensures Sane(lay, Step(s, op))
  {
    hide KeyFree, Room;
  }

  /** Of two rows linked after an operation at most one is new or has a new key. */
  lemma {:induction false} StepDistinct(lay: Layout, s: Store, op: Op)
    requires Sane(lay, s) && Distinct(lay, s) && Applicable(lay, s, op) && Sane(lay, Step(s, op))
    ensures Distinct(lay, Step(s, op))
  {
    if lay.Indexed? {
      var t := Step(s, op);
      forall p, q | p in t.live && q in t.live && KeyOf(lay, t.mem[p]) == KeyOf(lay, t.mem[q]) ensures p == q {
        StepRows(lay, s, op, p);
        StepRows(lay, s, op, q);
        hide Step, Room;
        if op.Replace? && (p == op.row || q == op.row) {
          assert op.replaced in s.live;
        }
      }
    }
  }

  lemma {:induction false} StepRoomy(lay: Layout, s: Store, op: Op)
    requires Sane(lay, s) && Roomy(lay, s) && Applicable(lay, s, op)
    ensures Roomy(lay, Step(s, op))
  {
    hide KeyFree, Sane;
    match op {
      case Insert(p, _) => assert |s.live + {p}| <= |s.live| + 1;
      case Update(_, _, _) =>
      case Delete(p) => assert |s.live - {p}| <= |s.live|;
      case Replace(p, q, _) => assert |s.live - {p} + {q}| <= |s.live - {p}| + 1 && |s.live - {p}| == |s.live| - 1;
    }
  }

  lemma {:induction false} StepGood(lay: Layout, s: Store, op: Op)
    requires Good(lay, s) && Applicable(lay, s, op)
    ensures Good(lay, Step(s, op))
  {
    hide Sane, Distinct, Roomy, Applicable, Step;
    StepSane(lay, s, op);
    StepDistinct(lay, s, op);
    StepRoomy(lay, s, op);
  }

  /** Undo is the inverse of every plain operation, down to the addresses. */
  lemma {:induction false} UndoInvertsStep(lay: Layout, s: Store, op: Op)
    requires Good(lay, s) && Applicable(lay, s, op) && !op.Replace?
    ensures Enabled(Step(s, op), Logged(op)) && Undo(Step(s, op), Logged(op)) == s
  {
    hide KeyFree, Room, Distinct, Roomy;
    var t := Undo(Step(s, op), Logged(op));
    match op {
      case Insert(p, d) => assert s.mem[p := d] - {p} == s.mem && s.live + {p} - {p} == s.live;
      case Update(p, b, d) => assert s.mem[b := s.mem[p]][p := d][p := s.mem[p]] - {b} == s.mem;
      case Delete(p) => assert s.live - {p} + {p} == s.live;
    }
  }

  /** The same rows, `p` being known by the address `q`. */
  function Rename(s: Store, p: Ptr, q: Ptr): Store
    requires p in s.mem
  {
    Store(s.mem[q := s.mem[p]] - {p}, if p in s.live then s.live - {p} + {q} else s.live)
  }

  /** Undoing a replacement brings the old row back under the address of the new one. */
  lemma {:induction false} UndoReplace(lay: Layout, s: Store, op: Op)
    requires Good(lay, s) && Applicable(lay, s, op) && op.Replace?
    ensures Enabled(Step(s, op), Logged(op)) && Undo(Step(s, op), Logged(op)) == Rename(s, op.replaced, op.row)
  {
    var t, u := Undo(Step(s, op), Logged(op)), Rename(s, op.replaced, op.row);
    assert t.mem == u.mem;
  }

  lemma {:induction false} StepOwns(lay: Layout, s: Store, op: Op, log: seq<Change>, others: set<Ptr>)
    requires Good(lay, s) && Applicable(lay, s, op) && Owns(s, log, others)
    ensures Owns(Step(s, op), [Logged(op)] + log, others)
  {
    hide KeyFree, Distinct, Befores;
    PushOwns(s, Step(s, op), log, Logged(op), others);
  }

  // ----- rows that the log does not mention only matter by their content

  lemma {:induction false} RenameUndo(lay: Layout, s: Store, c: Change, p: Ptr, q: Ptr)
    requires Good(lay, s) && Good(lay, Undo(s, c)) && Enabled(s, c)
    requires p in s.live && q != 0 && q !in s.mem && p !in Touched(c) && q !in Touched(c)
    ensures p in Undo(s, c).live && q !in Undo(s, c).mem
    ensures Good(lay, Rename(s, p, q)) && Enabled(Rename(s, p, q), c)
    ensures Undo(Rename(s, p, q), c) == Rename(Undo(s, c), p, q)
  {
    hide Good;
    GoodLive(lay, s);
    var t, u := Undo(Rename(s, p, q), c), Rename(Undo(s, c), p, q);
    assert t.mem == u.mem;
    assert t.live == u.live;
    RenameGood(lay, s, p, q);
  }

  lemma {:induction false} RenameGood(lay: Layout, s: Store, p: Ptr, q: Ptr)
    requires Good(lay, s) && p in s.live && q != 0 && q !in s.mem
    ensures Good(lay, Rename(s, p, q))
  {
    var t := Rename(s, p, q);
    assert Sane(lay, t);
    if lay.Indexed? {
      forall x, y | x in t.live && y in t.live && KeyOf(lay, t.mem[x]) == KeyOf(lay, t.mem[y]) ensures x == y {
        var x', y' := if x == q then p else x, if y == q then p else y;
        assert KeyOf(lay, s.mem[x']) == KeyOf(lay, s.mem[y']);
      }
    }
  }

  lemma {:induction false} RenameRecoverable(lay: Layout, s: Store, log: seq<Change>, p: Ptr, q: Ptr)
    requires Recoverable(lay, s, log) && p in s.live && q != 0 && q !in s.mem
    requires p !in Mentions(log) && q !in Mentions(log)
    ensures Recoverable(lay, Rename(s, p, q), log)
    ensures p in UndoAll(s, log).live && q !in UndoAll(s, log).mem
    ensures UndoAll(s, log).live <= UndoAll(s, log).mem.Keys
    ensures UndoAll(Rename(s, p, q), log) == Rename(UndoAll(s, log), p, q)
    decreases |log|
  {
    hide Good, Enabled, Undo, Rename;
    if log == [] {
      RenameGood(lay, s, p, q);
      GoodLive(lay, s);
    } else {
      RenameUndo(lay, s, log[0], p, q);
      RenameRecoverable(lay, Undo(s, log[0]), log[1..], p, q);
    }
  }

  lemma {:induction false} GoodLive(lay: Layout, s: Store)
    requires Good(lay, s)
    ensures s.live <= s.mem.Keys
  {
  }
}
