// The update of all selected rows, at once and one after the other
// (src/murphy-db/mdb/table.c).

module UpdateSweep {
  import opened Common
  import opened LinkedLists
  import opened Keys
  import opened SortedSequence
  import opened TableStore
  import opened RowTable

  // ----- what the loops are to achieve, in one step

  /** New bytes for some positions of a row: what writing columns amounts to. */
  type Patch = seq<Option<byte>>

  function Overlay(patch: Patch, d: Bytes): (r: Bytes)
    requires |patch| == |d|
    ensures |r| == |d| && forall k | 0 <= k < |d| :: r[k] == if patch[k].Some? then patch[k].value else d[k]
  {
    seq(|d|, k requires 0 <= k < |d| => if patch[k].Some? then patch[k].value else d[k])
  }

  function Target(pred: Bytes -> bool, patch: Patch, d: Bytes): (r: Bytes)
    requires |patch| == |d|
    ensures |r| == |d|
  {
    if pred(d) then Overlay(patch, d) else d
  }

  /** The linked rows that satisfy the condition. */
  ghost function Selected(s: Store, pred: Bytes -> bool): set<Ptr>
    requires s.live <= s.mem.Keys
  {
    set p | p in s.live && pred(s.mem[p])
  }

  lemma {:induction false} OverlayKeys(lay: Layout, patch: Patch, a: Bytes, b: Bytes)
    requires lay.Indexed? && lay.Valid() && lay.Fits(a) && lay.Fits(b) && |patch| == lay.dlgh
    ensures KeyOf(lay, a) == KeyOf(lay, b) ==> KeyOf(lay, Overlay(patch, a)) == KeyOf(lay, Overlay(patch, b))
    ensures Overlay(patch, Overlay(patch, a)) == Overlay(patch, a)
  {
    if KeyOf(lay, a) == KeyOf(lay, b) {
      forall k | 0 <= k < lay.length ensures KeyOf(lay, Overlay(patch, a))[k] == KeyOf(lay, Overlay(patch, b))[k] {
        assert KeyOf(lay, a)[k] == KeyOf(lay, b)[k];
      }
    }
  }

  /** The linked rows of a table. */
  ghost function RowsOf(s: Store): map<Ptr, Bytes>
    requires s.live <= s.mem.Keys
  {
    map p | p in s.live :: s.mem[p]
  }

  ghost predicate Fitting(lay: Layout, rows: map<Ptr, Bytes>, patch: Patch) {
    lay.Valid() && |patch| == lay.dlgh && forall p | p in rows :: lay.Fits(rows[p])
  }

  ghost predicate KeysApart(lay: Layout, rows: map<Ptr, Bytes>)
    requires lay.Valid() && forall p | p in rows :: lay.Fits(rows[p])
  {
    lay.Indexed? ==> forall p, q | p in rows && q in rows && KeyOf(lay, rows[p]) == KeyOf(lay, rows[q]) :: p == q
  }

  /** Another row has the key of `d`. */
  ghost predicate Clashes(lay: Layout, rows: map<Ptr, Bytes>, p: Ptr, d: Bytes)
    requires lay.Valid() && lay.Fits(d) && forall p | p in rows :: lay.Fits(rows[p])
  {
    lay.Indexed? && exists q :: q in rows && q != p && KeyOf(lay, rows[q]) == KeyOf(lay, d)
  }

  /** One row in its turn: it is changed if selected, and lost if the index refuses it. */
  ghost function Turn(lay: Layout, rows: map<Ptr, Bytes>, p: Ptr, pred: Bytes -> bool, patch: Patch,
                      indexUpdate: bool): (r: map<Ptr, Bytes>)
    requires Fitting(lay, rows, patch)
    ensures Fitting(lay, r, patch) && r.Keys <= rows.Keys && forall q | q in rows && q != p :: q in r && r[q] == rows[q]
  {
    if p !in rows || !pred(rows[p]) then rows
    else if indexUpdate && Clashes(lay, rows, p, Overlay(patch, rows[p])) then rows - {p}
    else rows[p := Overlay(patch, rows[p])]
  }

  /** One row after the other. */
  ghost function Sweep(lay: Layout, rows: map<Ptr, Bytes>, todo: seq<Ptr>, pred: Bytes -> bool, patch: Patch,
                       indexUpdate: bool): (r: map<Ptr, Bytes>)
    requires Fitting(lay, rows, patch)
    ensures Fitting(lay, r, patch) && r.Keys <= rows.Keys
    decreases |todo|
  {
    if todo == [] then rows
    else Sweep(lay, Turn(lay, rows, todo[0], pred, patch, indexUpdate), todo[1..], pred, patch, indexUpdate)
  }

  /** All rows at once. */
  ghost function AtOnce(lay: Layout, rows: map<Ptr, Bytes>, pred: Bytes -> bool, patch: Patch): (r: map<Ptr, Bytes>)
    requires Fitting(lay, rows, patch)
    ensures Fitting(lay, r, patch)
  {
    map p | p in rows :: Target(pred, patch, rows[p])
  }

  /** The index follows, and would follow to distinct keys; or it does not follow. */
  ghost predicate Orderly(lay: Layout, rows: map<Ptr, Bytes>, pred: Bytes -> bool, patch: Patch, indexUpdate: bool)
    requires Fitting(lay, rows, patch)
  {
    indexUpdate ==> KeysApart(lay, AtOnce(lay, rows, pred, patch))
  }

  /** The rows of `todo` are as at the start, the others are done. */
  ghost predicate Partly(lay: Layout, rows0: map<Ptr, Bytes>, rows: map<Ptr, Bytes>, todo: seq<Ptr>,
                         pred: Bytes -> bool, patch: Patch)
  {
    && Fitting(lay, rows0, patch) && Fitting(lay, rows, patch) && rows.Keys == rows0.Keys
    && (forall p | p in todo :: p in rows)
    && forall p | p in rows :: rows[p] == if p in todo then rows0[p] else Target(pred, patch, rows0[p])
  }

  /** If the final keys are distinct, no intermediate key collides. */
  lemma {:induction false} NoClash(lay: Layout, rows0: map<Ptr, Bytes>, rows: map<Ptr, Bytes>, todo: seq<Ptr>,
                                   pred: Bytes -> bool, patch: Patch)
    requires Partly(lay, rows0, rows, todo, pred, patch) && todo != [] && pred(rows[todo[0]])
    requires KeysApart(lay, AtOnce(lay, rows0, pred, patch))
    ensures !Clashes(lay, rows, todo[0], Overlay(patch, rows[todo[0]]))
  {
    hide Overlay, KeyOf;
    var p := todo[0];
    var d, final := Overlay(patch, rows[p]), AtOnce(lay, rows0, pred, patch);
    if lay.Indexed? {
      forall q | q in rows && q != p ensures KeyOf(lay, rows[q]) != KeyOf(lay, d) {
        assert final[p] == d && final[q] == Target(pred, patch, rows0[q]);
        assert KeyOf(lay, final[q]) != KeyOf(lay, final[p]);
        if KeyOf(lay, rows[q]) == KeyOf(lay, d) {
          OverlayKeys(lay, patch, rows[q], d);
          OverlayKeys(lay, patch, rows[p], d);
        }
      }
    }
  }

  lemma {:induction false} PartlyTurn(lay: Layout, rows0: map<Ptr, Bytes>, rows: map<Ptr, Bytes>, todo: seq<Ptr>,
                                      pred: Bytes -> bool, patch: Patch, indexUpdate: bool)
    requires Partly(lay, rows0, rows, todo, pred, patch) && todo != [] && todo[0] !in todo[1..]
    requires Orderly(lay, rows0, pred, patch, indexUpdate)
    ensures Partly(lay, rows0, Turn(lay, rows, todo[0], pred, patch, indexUpdate), todo[1..], pred, patch)
  {
    hide Clashes, KeysApart, AtOnce, Overlay;
    assert todo == [todo[0]] + todo[1..];
    if pred(rows[todo[0]]) && indexUpdate {
      NoClash(lay, rows0, rows, todo, pred, patch);
    }
  }

  lemma {:induction false} SweepPartly(lay: Layout, rows0: map<Ptr, Bytes>, rows: map<Ptr, Bytes>, todo: seq<Ptr>,
                                       pred: Bytes -> bool, patch: Patch, indexUpdate: bool)
    requires Partly(lay, rows0, rows, todo, pred, patch) && NoDuplicates(todo)
    requires Orderly(lay, rows0, pred, patch, indexUpdate)
    ensures Sweep(lay, rows, todo, pred, patch, indexUpdate) == AtOnce(lay, rows0, pred, patch)
    decreases |todo|
  {
    hide Turn, KeysApart, Orderly;
    if todo != [] {
      assert forall i | 0 <= i < |todo[1..]| :: todo[1..][i] == todo[i + 1];
      PartlyTurn(lay, rows0, rows, todo, pred, patch, indexUpdate);
      SweepPartly(lay, rows0, Turn(lay, rows, todo[0], pred, patch, indexUpdate), todo[1..], pred, patch, indexUpdate);
    }
  }

  lemma {:induction false} TurnApart(lay: Layout, rows: map<Ptr, Bytes>, p: Ptr, pred: Bytes -> bool, patch: Patch)
    requires Fitting(lay, rows, patch) && KeysApart(lay, rows)
    ensures KeysApart(lay, Turn(lay, rows, p, pred, patch, true))
  {
    hide Overlay, KeyOf;
  }

  lemma {:induction false} SweepApart(lay: Layout, rows: map<Ptr, Bytes>, todo: seq<Ptr>, pred: Bytes -> bool,
                                      patch: Patch)
    requires Fitting(lay, rows, patch) && KeysApart(lay, rows)
    ensures KeysApart(lay, Sweep(lay, rows, todo, pred, patch, true))
    decreases |todo|
  {
    hide Turn, KeysApart;
    if todo != [] {
      TurnApart(lay, rows, todo[0], pred, patch);
      SweepApart(lay, Turn(lay, rows, todo[0], pred, patch, true), todo[1..], pred, patch);
    }
  }

  /** The sweep over all rows, in whatever order, is the change of all of them at once
      exactly if the index is not to follow or the final keys are distinct. */
  lemma {:induction false} SweepAtOnceIff(lay: Layout, rows: map<Ptr, Bytes>, todo: seq<Ptr>, pred: Bytes -> bool,
                                          patch: Patch, indexUpdate: bool)
    requires Fitting(lay, rows, patch) && KeysApart(lay, rows) && NoDuplicates(todo) && Linked(todo) == rows.Keys
    ensures Sweep(lay, rows, todo, pred, patch, indexUpdate) == AtOnce(lay, rows, pred, patch)
            <==> Orderly(lay, rows, pred, patch, indexUpdate)
  {
    hide KeysApart, Sweep, AtOnce;
    if Orderly(lay, rows, pred, patch, indexUpdate) {
      assert forall p :: p in todo <==> p in Linked(todo);
      SweepPartly(lay, rows, rows, todo, pred, patch, indexUpdate);
    } else {
      SweepApart(lay, rows, todo, pred, patch);
    }
  }

  /** A sweep that loses no row changes all rows. */
  lemma {:induction false} SweepKeepsAll(lay: Layout, rows0: map<Ptr, Bytes>, rows: map<Ptr, Bytes>, todo: seq<Ptr>,
                                         pred: Bytes -> bool, patch: Patch, indexUpdate: bool)
    requires Partly(lay, rows0, rows, todo, pred, patch) && NoDuplicates(todo)
    requires Sweep(lay, rows, todo, pred, patch, indexUpdate).Keys == rows0.Keys
    ensures Sweep(lay, rows, todo, pred, patch, indexUpdate) == AtOnce(lay, rows0, pred, patch)
    decreases |todo|
  {
    hide Turn, AtOnce, Fitting;
    if todo != [] {
      assert forall i | 0 <= i < |todo[1..]| :: todo[1..][i] == todo[i + 1];
      TurnKeepsAll(lay, rows0, rows, todo, pred, patch, indexUpdate);
      SweepKeepsAll(lay, rows0, Turn(lay, rows, todo[0], pred, patch, indexUpdate), todo[1..], pred, patch,
        indexUpdate);
    } else {
      PartlyDone(lay, rows0, rows, pred, patch);
    }
  }

  lemma {:induction false} TurnKeepsAll(lay: Layout, rows0: map<Ptr, Bytes>, rows: map<Ptr, Bytes>, todo: seq<Ptr>,
                                        pred: Bytes -> bool, patch: Patch, indexUpdate: bool)
    requires Partly(lay, rows0, rows, todo, pred, patch) && todo != [] && todo[0] !in todo[1..]
    requires rows.Keys <= Turn(lay, rows, todo[0], pred, patch, indexUpdate).Keys
    ensures Partly(lay, rows0, Turn(lay, rows, todo[0], pred, patch, indexUpdate), todo[1..], pred, patch)
  {
    hide Clashes, Overlay;
    assert todo == [todo[0]] + todo[1..];
    assert todo[0] in rows;
  }

  lemma {:induction false} PartlyDone(lay: Layout, rows0: map<Ptr, Bytes>, rows: map<Ptr, Bytes>,
                                      pred: Bytes -> bool, patch: Patch)
    requires Partly(lay, rows0, rows, [], pred, patch)
    ensures rows == AtOnce(lay, rows0, pred, patch)
  {
    hide Target;
  }

  /** A sweep to keys that are not distinct loses a row. */
  lemma {:induction false} SweepLoses(lay: Layout, rows: map<Ptr, Bytes>, todo: seq<Ptr>, pred: Bytes -> bool,
                                      patch: Patch, indexUpdate: bool)
    requires Fitting(lay, rows, patch) && KeysApart(lay, rows) && NoDuplicates(todo) && Linked(todo) == rows.Keys
    requires !Orderly(lay, rows, pred, patch, indexUpdate)
    ensures Sweep(lay, rows, todo, pred, patch, indexUpdate).Keys < rows.Keys
  {
    hide KeysApart, Sweep, AtOnce, Orderly;
    SweepAtOnceIff(lay, rows, todo, pred, patch, indexUpdate);
    if Sweep(lay, rows, todo, pred, patch, indexUpdate).Keys == rows.Keys {
      assert forall p :: p in todo <==> p in Linked(todo);
      SweepKeepsAll(lay, rows, rows, todo, pred, patch, indexUpdate);
    }
  }
}
