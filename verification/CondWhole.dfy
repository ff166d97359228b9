// Groups behind an operator (src/murphy-db/mdb/cond.c): the whole stack array.

/** What the evaluator does when it leaves the live part of its stack. */
module CondWhole {
  import opened Common
  import opened CondSyntax
  import opened CondMachine
  import opened CondCorrectness
  import opened CondArray

  /** Hence all that is proved of evaluations within the live stack holds of the code. */
  lemma {:induction false} ExactlyIs(c: seq<Entry>, pos: nat)
    requires Evaluation(c, pos).Some?
    ensures Exactly(c, pos) == Evaluation(c, pos)
  {
    MachineIs(c, pos, Blank(), [Pending(Begin)], 0);
  }

  // ----- a group behind an operator

  /** The array after `l op`: the value, the operator, and behind them what is stale. */
  predicate Waiting(a: seq<Cell>, x: Value, op: Operator, stale: Cell) {
    Covers(a, [Pending(Begin), Data(x), Pending(op)]) && a[3] == stale
  }

  lemma {:induction false} StaleSame(l: Expr, a: seq<Cell>)
    requires Leveled(l) && |a| == STACK_SIZE && forall k | 1 + Height(l) <= k < STACK_SIZE :: a[k] == Blank()[k]
    ensures StaleOf(l, a[3]) == StaleOf(l, Zero)
  {
  }

  lemma {:induction false} ReachOperator(c: seq<Entry>, l: Expr, op: Operator) returns (a: seq<Cell>)
    requires Leveled(l) && IsBinary(op) && Level(l) > Precedence(op) && 1 + Height(l) <= STACK_SIZE
    requires At(c, 0, l) && |Flatten(l)| < |c| && c[|Flatten(l)|] == Operation(op)
    ensures |a| == STACK_SIZE && Waiting(a, Eval(l), op, StaleOf(l, Zero))
    ensures Exactly(c, 0) == Machine(c, |Flatten(l)| + 1, a, 3, 2)
  {
    hide Machine, Eval, Leveled, Residue, Top, Flatten, Level, Height, StaleOf, Blank, At;
    var st := [Pending(Begin)];
    BlankCovers();
    LowLevel(l);
    var a1 := MachineShift(c, 0, l, Blank(), st, 0);
    a := ReadOperator(c, |Flatten(l)|, a1, st, 0, l, op);
    StaleSame(l, a1);
    assert st + [Data(Eval(l)), Pending(op)] == [Pending(Begin), Data(Eval(l)), Pending(op)];
  }

  lemma {:induction false} LowLevel(l: Expr)
    requires Leveled(l)
    ensures Level(l) >= 2
  {
  }

  lemma {:induction false} BlankCovers()
    ensures Covers(Blank(), [Pending(Begin)]) && Topmost([Pending(Begin)], 0)
  {
  }

  /** The array behind a group: what came before it is joined with what was stale, and the
      slot that the evaluator takes for the last operator holds the answer of the group. */
  predicate Grouped(a: seq<Cell>, x: Value, stale: Cell) {
    && |a| == STACK_SIZE && a[0] == Set(Pending(Begin)) && a[1] == Set(Data(x))
    && a[2].Set? && a[2].slot.Data? && a[2].slot.value.Integer? && a[3] == stale
  }

  lemma {:induction false} SettleBeforeGroup(a: seq<Cell>, x: Value, op: Operator, stale: Cell)
    requires IsBinary(op) && |a| == STACK_SIZE && Waiting(a, x, op, stale)
    ensures Settle(a, 3, 2, Precedence(Begin)) == Some((Put(a, 1, Joined(op, Set(Data(x)), stale)), 2))
  {
    hide Joined;
    var st := [Pending(Begin), Data(x), Pending(op)];
    Covered(a, st, 0);
    Covered(a, st, 1);
    Covered(a, st, 2);
    BelowTop(a, st, 0, 2);
    var a1 := Put(a, 1, Joined(op, Set(Data(x)), stale));
    assert a1[0] == Set(Pending(Begin));
  }

  lemma {:induction false} ReadGroup(c: seq<Entry>, pos: nat, g: Expr, a: seq<Cell>, x: Value, op: Operator,
                                     stale: Cell)
    returns (a1: seq<Cell>)
    requires IsBinary(op) && |a| == STACK_SIZE && Waiting(a, x, op, stale)
    requires pos < |c| && c[pos] == Operation(Begin) && Leveled(g) && At(c, pos + 1, g) && 1 + Height(g) <= STACK_SIZE
    requires pos + 1 + |Flatten(g)| < |c| && c[pos + 1 + |Flatten(g)|] == Operation(End)
    ensures Grouped(a1, Joined(op, Set(Data(x)), stale), stale)
    ensures Machine(c, pos, a, 3, 2) == Machine(c, pos + |Flatten(g)| + 3, a1, 3, 2)
  {
    hide Settle, Joined, Leveled, At, Eval, Flatten, Height, Evaluation;
    SettleBeforeGroup(a, x, op, stale);
    EvaluatesReading(c, pos + 1, g);
    ExactlyIs(c, pos + 1);
    Covered(a, [Pending(Begin), Data(x), Pending(op)], 0);
    var a0 := Put(a, 1, Joined(op, Set(Data(x)), stale));
    a1 := Put(a0, 2, Integer(Bool(Truth(Eval(g)))));
  }

  /** The type code of an integer is that of `and`: whatever is read next joins the two
      slots around the answer of the group. */
  lemma {:induction false} Punned(a: seq<Cell>, sp: nat, x: Value, y: Cell, pr: nat)
    requires Grouped(a, x, y) && pr < DATA_PRECEDENCE
    ensures Settle(a, sp, 2, pr) == Settle(Put(a, 1, Joined(And, Set(Data(x)), y)), 2, 0, pr)
    ensures Covers(Put(a, 1, Joined(And, Set(Data(x)), y)), [Pending(Begin), Data(Joined(And, Set(Data(x)), y))])
  {
    hide Joined;
    assert Below(a, 2) == Below(a, 1) == Some(0);
  }

  /** An entry other than the begin marker is read alike in both states. */
  lemma {:induction false} ReadAlike(c: seq<Entry>, pos: nat, a: seq<Cell>, sp: nat, x: Value, y: Cell)
    requires Grouped(a, x, y) && pos < |c| && c[pos].Operation? && !c[pos].op.Begin?
    ensures Machine(c, pos, a, sp, 2) == Machine(c, pos, Put(a, 1, Joined(And, Set(Data(x)), y)), 2, 0)
  {
    Punned(a, sp, x, y, Precedence(c[pos].op));
    hide Settle, Joined;
  }

  /** The datum that an expression starts with, unless it starts with `not`. */
  function FirstDatum(e: Expr): Option<Value> {
    match e
    case Leaf(v) => Some(v)
    case Negation(_) => None
    case Binary(_, l, _) => FirstDatum(l)
  }

  function ReplaceFirst(e: Expr, w: Value): Expr {
    match e
    case Leaf(_) => Leaf(w)
    case Negation(_) => e
    case Binary(op, l, r) => Binary(op, ReplaceFirst(l, w), r)
  }

  lemma {:induction false} Replaced(e: Expr, w: Value)
    requires Leveled(e)
    ensures Leveled(ReplaceFirst(e, w)) && Level(ReplaceFirst(e, w)) == Level(e)
            && Height(ReplaceFirst(e, w)) == Height(e)
    ensures FirstDatum(e).Some? ==>
              && Flatten(e)[0] == Datum(FirstDatum(e).value) && Flatten(ReplaceFirst(e, w)) == Flatten(e)[0 := Datum(w)]
              && (|Flatten(e)| > 1 ==> Flatten(e)[1].Operation? && IsBinary(Flatten(e)[1].op))
    ensures FirstDatum(e).None? ==> Flatten(e)[0] == Operation(Not)
  {
    if e.Binary? {
      Replaced(e.left, w);
    }
  }

  /** An evaluation depends on what is still to be read only. */
  lemma {:induction false} RunSuffix(c: seq<Entry>, d: seq<Entry>, pos: nat, st: seq<Slot>, lastop: nat)
    requires |c| == |d| && forall k | pos <= k < |c| :: c[k] == d[k]
    ensures Run(c, pos, st, lastop) == Run(d, pos, st, lastop)
    decreases |c| - pos
  {
    hide Reduce;
    if pos < |c| {
      match c[pos] {
        case Datum(v) =>
          RunSuffix(c, d, pos + 1, st + [Data(v)], lastop);
        case Operation(op) =>
          var reduced := Reduce(st, lastop, Precedence(op));
          if reduced.Some? && op.Begin? {
            RunSuffix(c, d, pos + 1, [Pending(Begin)], 0);
            var inner := Evaluation(c, pos + 1);
            if inner.Some? {
              RunSuffix(c, d, inner.value.next + 1, reduced.value + [Data(Integer(inner.value.selected))], lastop);
            }
          } else if reduced.Some? {
            RunSuffix(c, d, pos + 1, reduced.value + [Pending(op)], |reduced.value|);
          }
      }
    }
  }

  /** What an expression behind the group comes to, `x` being what was joined before it. */
  function Behind(x: Value, stale: Cell, e: Expr): Value
    requires Leveled(e)
  {
    match FirstDatum(e)
    case None => Joined(And, Set(Data(x)), stale)
    case Some(d) => Replaced(e, Apply(And, x, d)); Eval(ReplaceFirst(e, Apply(And, x, d)))
  }

  lemma {:induction false} ReadBehind(c: seq<Entry>, pos: nat, e: Expr, a: seq<Cell>, x: Value, stale: Cell)
    requires Grouped(a, x, stale) && Leveled(e) && At(c, pos, e) && 2 + Height(e) <= STACK_SIZE
    requires pos + |Flatten(e)| < |c| && c[pos + |Flatten(e)|] == Operation(End)
    ensures Machine(c, pos, a, 3, 2) == Some(Verdict(Bool(Truth(Behind(x, stale, e))), pos + |Flatten(e)| + 1))
  {
    if FirstDatum(e).None? {
      ReadBehindNot(c, pos, e, a, x, stale);
    } else {
      ReadBehindDatum(c, pos, e, a, x, stale);
    }
  }

  lemma {:induction false} ReadBehindNot(c: seq<Entry>, pos: nat, e: Expr, a: seq<Cell>, x: Value, stale: Cell)
    requires Grouped(a, x, stale) && Leveled(e) && At(c, pos, e) && 2 + Height(e) <= STACK_SIZE
    requires pos + |Flatten(e)| < |c| && c[pos + |Flatten(e)|] == Operation(End) && FirstDatum(e).None?
    ensures Machine(c, pos, a, 3, 2) == Some(Verdict(Bool(Truth(Behind(x, stale, e))), pos + |Flatten(e)| + 1))
  {
    hide Machine, Run, Eval, Flatten, Height, Leveled, Joined, Truth;
    var w := Joined(And, Set(Data(x)), stale);
    Replaced(e, w);
    assert c[pos] == c[pos..pos + |Flatten(e)|][0];
    Punned(a, 3, x, stale, 0);
    ReadAlike(c, pos, a, 3, x, stale);
    var st := [Pending(Begin), Data(w)];
    RunToEnd(c, pos, e, st);
    MachineIs(c, pos, Put(a, 1, w), st, 0);
  }

  lemma {:induction false} ReadBehindDatum(c: seq<Entry>, pos: nat, e: Expr, a: seq<Cell>, x: Value, stale: Cell)
    requires Grouped(a, x, stale) && Leveled(e) && At(c, pos, e) && 2 + Height(e) <= STACK_SIZE
    requires pos + |Flatten(e)| < |c| && c[pos + |Flatten(e)|] == Operation(End) && FirstDatum(e).Some?
    ensures Machine(c, pos, a, 3, 2) == Some(Verdict(Bool(Truth(Behind(x, stale, e))), pos + |Flatten(e)| + 1))
  {
    hide Eval, Height, Leveled, Truth, Settle, Reduce;
    var d := FirstDatum(e).value;
    var w := Apply(And, x, d);
    Replaced(e, w);
    var n := |Flatten(e)|;
    assert c[pos] == c[pos..pos + n][0] && (n > 1 ==> c[pos + 1] == c[pos..pos + n][1]);
    var a1, st := Put(a, 3, d), [Pending(Begin), Data(w)];
    Punned(a1, 4, x, Set(Data(d)), 0);
    ReadAlike(c, pos + 1, a1, 4, x, Set(Data(d)));
    var c' := c[pos := Datum(w)];
    assert c'[pos..pos + n] == c[pos..pos + n][0 := Datum(w)];
    EvaluatesReading(c', pos, ReplaceFirst(e, w));
    assert Run(c', pos, [Pending(Begin)], 0) == Run(c', pos + 1, st, 0) by {
      assert [Pending(Begin)] + [Data(w)] == st;
    }
    RunSuffix(c, c', pos + 1, st, 0);
    MachineIs(c, pos + 1, Put(a1, 1, w), st, 0);
  }

  lemma {:induction false} OperatorGroupSlices(a: seq<Entry>, op: Operator, b: seq<Entry>, skipped: Entry,
                                               d: seq<Entry>)
    ensures var c := a + [Operation(op), Operation(Begin)] + b + [Operation(End), skipped] + d + [Operation(End)];
            var p := |a| + 1; var q := |a| + |b| + 4;
            && |c| == q + |d| + 1 && c[..|a|] == a && c[|a|] == Operation(op) && c[p] == Operation(Begin)
            && c[p + 1..p + 1 + |b|] == b && c[p + 1 + |b|] == Operation(End)
            && c[q..q + |d|] == d && c[q + |d|] == Operation(End)
  {
  }

  /** `l op ( g )`, an entry that is skipped, and an expression behind it: the operator is
      applied to `l` and to what is left of `l` on the stack; that is joined by `and` with
      the first datum behind the group. The group has no influence. */
  lemma {:induction false} OperatorThenGroup(l: Expr, op: Operator, g: Expr, skipped: Entry, e: Expr)
    requires Leveled(l) && IsBinary(op) && Level(l) > Precedence(op) && 1 + Height(l) <= STACK_SIZE
    requires Leveled(g) && 1 + Height(g) <= STACK_SIZE && Leveled(e) && 2 + Height(e) <= STACK_SIZE
    ensures var c := Flatten(l) + [Operation(op), Operation(Begin)] + Flatten(g) + [Operation(End), skipped]
                     + Flatten(e) + [Operation(End)];
            var stale := StaleOf(l, Zero);
            Exactly(c, 0) == Some(Verdict(Bool(Truth(Behind(Joined(op, Set(Data(Eval(l))), stale), stale, e))), |c|))
  {
    hide Machine, Exactly, Eval, Flatten, Height, Leveled, Level, Joined, Behind, StaleOf, Truth;
    OperatorGroupSlices(Flatten(l), op, Flatten(g), skipped, Flatten(e));
    var c := Flatten(l) + [Operation(op), Operation(Begin)] + Flatten(g) + [Operation(End), skipped] + Flatten(e)
             + [Operation(End)];
    var stale := StaleOf(l, Zero);
    assert c[0..|Flatten(l)|] == Flatten(l);
    var a := ReachOperator(c, l, op);
    var a1 := ReadGroup(c, |Flatten(l)| + 1, g, a, Eval(l), op, stale);
    ReadBehind(c, |Flatten(l)| + |Flatten(g)| + 4, e, a1, Joined(op, Set(Data(Eval(l))), stale), stale);
  }

  /** With nothing behind the group, its end marker is taken for that of the condition, and
      the evaluation runs on behind the condition. */
  lemma {:induction false} GroupLast(l: Expr, op: Operator, g: Expr)
    requires Leveled(l) && IsBinary(op) && Level(l) > Precedence(op) && 1 + Height(l) <= STACK_SIZE
    requires Leveled(g) && 1 + Height(g) <= STACK_SIZE
    ensures var c := Flatten(l) + [Operation(op), Operation(Begin)] + Flatten(g) + [Operation(End), Operation(End)];
            Exactly(c, 0) == None
  {
    hide Exactly, Machine, Eval, Flatten, Height, Leveled, Level, Joined, StaleOf;
    var c := Flatten(l) + [Operation(op), Operation(Begin)] + Flatten(g) + [Operation(End), Operation(End)];
    LastGroupSlices(Flatten(l), op, Flatten(g));
    assert c[0..|Flatten(l)|] == Flatten(l);
    var a := ReachOperator(c, l, op);
    var a1 := ReadGroup(c, |Flatten(l)| + 1, g, a, Eval(l), op, StaleOf(l, Zero));
    ReadNothing(c, a1, 3, 2);
  }

  lemma {:induction false} LastGroupSlices(a: seq<Entry>, op: Operator, b: seq<Entry>)
    ensures var c := a + [Operation(op), Operation(Begin)] + b + [Operation(End), Operation(End)];
            var p := |a| + 1;
            && |c| == |a| + |b| + 4 && c[..|a|] == a && c[|a|] == Operation(op) && c[p] == Operation(Begin)
            && c[p + 1..p + 1 + |b|] == b && c[p + 1 + |b|] == Operation(End)
  {
  }

  lemma {:induction false} ReadNothing(c: seq<Entry>, a: seq<Cell>, sp: nat, lastop: nat)
    requires |a| == STACK_SIZE
    ensures Machine(c, |c|, a, sp, lastop) == None
  {
  }

  /** So it is with a group alone. */
  lemma {:induction false} GroupAlone(g: Expr)
    requires Leveled(g) && 1 + Height(g) <= STACK_SIZE
    ensures Exactly([Operation(Begin)] + Flatten(g) + [Operation(End), Operation(End)], 0) == None
  {
    hide Eval, Leveled, Flatten, Height, Evaluation;
    var c := [Operation(Begin)] + Flatten(g) + [Operation(End), Operation(End)];
    assert c[1..1 + |Flatten(g)|] == Flatten(g) && c[1 + |Flatten(g)|] == Operation(End);
    BlankCovers();
    SettleNothing(Blank(), 1, [Pending(Begin)], 0, Precedence(Begin));
    EvaluatesReading(c, 1, g);
    ExactlyIs(c, 1);
  }

  /** So `1 and ( 1 )` with `or 1` behind it selects nothing. */
  lemma {:induction false} OperatorGroupCounterexample()
    ensures Exactly([Datum(Integer(1)), Operation(And), Operation(Begin), Datum(Integer(1)), Operation(End),
                     Operation(Or), Datum(Integer(1)), Operation(End)], 0) == Some(Verdict(0, 8))
  {
    var one := Leaf(Integer(1));
    OperatorThenGroup(one, And, one, Operation(Or), one);
    assert Flatten(one) + [Operation(And), Operation(Begin)] + Flatten(one) + [Operation(End), Operation(Or)]
      + Flatten(one)
           + [Operation(End)]
        == [Datum(Integer(1)), Operation(And), Operation(Begin), Datum(Integer(1)), Operation(End),
            Operation(Or), Datum(Integer(1)), Operation(End)];
  }
}
