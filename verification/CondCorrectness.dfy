// What the condition evaluator computes (src/murphy-db/mdb/cond.c).

/** The machine computes the recursive reading. */
module CondCorrectness {
  import opened Common
  import opened CondSyntax
  import opened CondMachine

  /** What is left on the stack once all entries of an expression are shifted. */
  function Residue(e: Expr): (r: seq<Slot>)
    requires Proper(e)
    ensures r != []
  {
    match e
    case Leaf(v) => [Data(v)]
    case Negation(a) => [Pending(Not)] + Residue(a)
    case Binary(op, l, r) => [Data(Eval(l)), Pending(op)] + Residue(r)
  }

  /** The position of the last operator after that, `base` being the stack height
      and `lastop` the last operator before. */
  function Top(e: Expr, base: nat, lastop: nat): nat {
    match e
    case Leaf(_) => lastop
    case Negation(a) => Top(a, base + 1, base)
    case Binary(_, _, r) => Top(r, base + 2, base + 1)
  }

  /** The most slots an expression ever needs. */
  function Height(e: Expr): (h: nat)
    ensures 0 < h <= |Flatten(e)|
  {
    match e
    case Leaf(_) => 1
    case Negation(a) => 1 + Height(a)
    case Binary(_, l, r) => if Height(l) > 2 + Height(r) then Height(l) else 2 + Height(r)
  }

  /** `lastop` is the topmost operator of the stack. */
  predicate Topmost(st: seq<Slot>, lastop: nat) {
    lastop < |st| && st[lastop].Pending? && forall k :: lastop < k < |st| ==> st[k].Data?
  }

  lemma {:induction false} OperatorBelowIs(st: seq<Slot>, i: nat, lastop: nat)
    requires lastop < i <= |st| && st[lastop].Pending?
    requires forall k :: lastop < k < i ==> st[k].Data?
    ensures OperatorBelow(st, i) == Some(lastop)
  {
    if i - 1 > lastop {
      OperatorBelowIs(st, i - 1, lastop);
    }
  }

  lemma {:induction false} ReduceNot(st: seq<Slot>, lastop: nat, v: Value, pr: nat)
    requires Topmost(st, lastop) && pr < Precedence(Not)
    ensures Reduce(st + [Pending(Not)] + [Data(v)], |st|, pr)
         == Reduce(st + [Data(Integer(UnaryLogicop(v)))], lastop, pr)
  {
    var st2 := st + [Pending(Not)] + [Data(v)];
    OperatorBelowIs(st2, |st|, lastop);
    assert st2[..|st|] == st;
  }

  lemma {:induction false} ReduceBinary(st: seq<Slot>, lastop: nat, a: Value, op: Operator, b: Value, pr: nat)
    requires Topmost(st, lastop) && IsBinary(op) && pr < Precedence(op)
    ensures Reduce(st + [Data(a), Pending(op)] + [Data(b)], |st| + 1, pr)
         == Reduce(st + [Data(Apply(op, a, b))], lastop, pr)
  {
    var st2 := st + [Data(a), Pending(op)] + [Data(b)];
    OperatorBelowIs(st2, |st| + 1, lastop);
    assert st2[..|st|] == st;
  }

  lemma {:induction false} ReduceNothing(st: seq<Slot>, lastop: nat, pr: nat)
    requires lastop < |st| && st[lastop].Pending? && Precedence(st[lastop].op) <= pr
    ensures Reduce(st, lastop, pr) == Some(st)
  {
  }

  /** An operator looser than everything in `e` collapses the residue of `e` to
      its value. */
  lemma {:induction false} ReduceResidue(st: seq<Slot>, lastop: nat, e: Expr, pr: nat)
    requires Topmost(st, lastop) && Leveled(e) && pr < Level(e)
    ensures Reduce(st + Residue(e), Top(e, |st|, lastop), pr)
         == Reduce(st + [Data(Eval(e))], lastop, pr)
    decreases e
  {
    hide Reduce, Apply;
    match e {
      case Leaf(_) =>
      case Negation(a) =>
        var st1 := st + [Pending(Not)];
        ReduceResidue(st1, |st|, a, pr);
        assert st + Residue(e) == st1 + Residue(a);
        ReduceNot(st, lastop, Eval(a), pr);
      case Binary(op, l, r) =>
        var st1 := st + [Data(Eval(l)), Pending(op)];
        ReduceResidue(st1, |st| + 1, r, pr);
        assert st + Residue(e) == st1 + Residue(r);
        ReduceBinary(st, lastop, Eval(l), op, Eval(r), pr);
    }
  }

  /** The entries of `e` are at position `pos` of the condition. */
  predicate At(c: seq<Entry>, pos: nat, e: Expr) {
    pos + |Flatten(e)| <= |c| && c[pos..pos + |Flatten(e)|] == Flatten(e)
  }

  lemma {:induction false} AtBinary(c: seq<Entry>, pos: nat, e: Expr)
    requires e.Binary? && At(c, pos, e)
    ensures At(c, pos, e.left) && c[pos + |Flatten(e.left)|] == Operation(e.op)
    ensures At(c, pos + |Flatten(e.left)| + 1, e.right)
  {
    var n, m := |Flatten(e.left)|, |Flatten(e)|;
    assert Flatten(e)[..n] == Flatten(e.left) && Flatten(e)[n + 1..] == Flatten(e.right);
    assert c[pos..pos + n] == c[pos..pos + m][..n];
    assert c[pos + n + 1..pos + m] == c[pos..pos + m][n + 1..];
    assert c[pos + n] == c[pos..pos + m][n];
  }

  lemma {:induction false} AtNegation(c: seq<Entry>, pos: nat, e: Expr)
    requires e.Negation? && At(c, pos, e)
    ensures c[pos] == Operation(Not) && At(c, pos + 1, e.arg)
  {
    var m := |Flatten(e)|;
    assert Flatten(e)[1..] == Flatten(e.arg);
    assert c[pos + 1..pos + m] == c[pos..pos + m][1..];
    assert c[pos] == c[pos..pos + m][0];
  }

  /** Reading an operator other than the markers. */
  lemma {:induction false} RunOperator(c: seq<Entry>, pos: nat, st: seq<Slot>, lastop: nat, op: Operator,
                                       st1: seq<Slot>)
    requires pos < |c| && c[pos] == Operation(op) && !op.Begin? && !op.End?
    requires Reduce(st, lastop, Precedence(op)) == Some(st1)
    ensures Run(c, pos, st, lastop)
         == if |st1| < STACK_SIZE then Run(c, pos + 1, st1 + [Pending(op)], |st1|) else None
  {
  }

  /** Where the machine is once `e` is shifted. */
  function Shifted(c: seq<Entry>, pos: nat, e: Expr, st: seq<Slot>, lastop: nat): Option<Verdict>
    requires Leveled(e)
  {
    if |st| + Height(e) <= STACK_SIZE
    then Run(c, pos + |Flatten(e)|, st + Residue(e), Top(e, |st|, lastop))
    else None
  }

  /** Shifting an expression leaves its residue, if the stack is high enough. */
  lemma {:induction false} Shift(c: seq<Entry>, pos: nat, e: Expr, st: seq<Slot>, lastop: nat)
    requires Leveled(e) && At(c, pos, e)
    requires Topmost(st, lastop) && Precedence(st[lastop].op) <= Level(e) && |st| <= STACK_SIZE
    ensures Run(c, pos, st, lastop) == Shifted(c, pos, e, st, lastop)
    decreases e, 1
  {
    hide Reduce, Eval, Apply;
    match e {
      case Leaf(v) =>
        assert c[pos] == c[pos..pos + 1][0];
      case Negation(a) =>
        AtNegation(c, pos, e);
        ReduceNothing(st, lastop, Precedence(Not));
        RunOperator(c, pos, st, lastop, Not, st);
        if |st| < STACK_SIZE {
          var st1 := st + [Pending(Not)];
          Shift(c, pos + 1, a, st1, |st|);
          assert st + Residue(e) == st1 + Residue(a);
        }
      case Binary(_, _, _) =>
        ShiftBinary(c, pos, e, st, lastop);
    }
  }

  /** Reading a binary operator behind its left operand. */
  lemma {:induction false} RunBinaryOperator(c: seq<Entry>, pos: nat, l: Expr, op: Operator, st: seq<Slot>, lastop: nat)
    requires pos < |c| && c[pos] == Operation(op) && IsBinary(op) && Leveled(l) && Level(l) > Precedence(op)
    requires Topmost(st, lastop) && Precedence(st[lastop].op) <= Precedence(op)
    ensures Run(c, pos, st + Residue(l), Top(l, |st|, lastop))
         == if |st| + 1 < STACK_SIZE
            then Run(c, pos + 1, st + [Data(Eval(l)), Pending(op)], |st| + 1)
            else None
  {
    hide Run, Reduce, Eval, Leveled, Residue, Top;
    var st1 := st + [Data(Eval(l))];
    ReduceResidue(st, lastop, l, Precedence(op));
    ReduceNothing(st1, lastop, Precedence(op));
    RunOperator(c, pos, st + Residue(l), Top(l, |st|, lastop), op, st1);
    assert st1 + [Pending(op)] == st + [Data(Eval(l)), Pending(op)];
  }

  lemma {:induction false} BinaryParts(e: Expr, base: nat, lastop: nat)
    requires e.Binary? && Leveled(e)
    ensures IsBinary(e.op) && Leveled(e.left) && Leveled(e.right)
    ensures Level(e) == Precedence(e.op) && Level(e.left) > Precedence(e.op) && Level(e.right) >= Precedence(e.op)
    ensures |Flatten(e)| == |Flatten(e.left)| + 1 + |Flatten(e.right)|
    ensures Height(e) == if Height(e.left) > 2 + Height(e.right) then Height(e.left) else 2 + Height(e.right)
    ensures Residue(e) == [Data(Eval(e.left)), Pending(e.op)] + Residue(e.right)
    ensures Top(e, base, lastop) == Top(e.right, base + 2, base + 1)
  {
  }

  lemma {:induction false} ShiftBinary(c: seq<Entry>, pos: nat, e: Expr, st: seq<Slot>, lastop: nat)
    requires e.Binary? && Leveled(e) && At(c, pos, e)
    requires Topmost(st, lastop) && Precedence(st[lastop].op) <= Level(e) && |st| <= STACK_SIZE
    ensures Run(c, pos, st, lastop) == Shifted(c, pos, e, st, lastop)
    decreases e, 0
  {
    hide Run, At, Eval, Leveled, Flatten, Residue, Top, Height, Level;
    var l, op, r := e.left, e.op, e.right;
    BinaryParts(e, |st|, lastop);
    var st1 := st + [Data(Eval(l)), Pending(op)];
    AtBinary(c, pos, e);
    Shift(c, pos, l, st, lastop);
    RunBinaryOperator(c, pos + |Flatten(l)|, l, op, st, lastop);
    if |st1| <= STACK_SIZE {
      Shift(c, pos + |Flatten(l)| + 1, r, st1, |st| + 1);
      assert st + Residue(e) == st1 + Residue(r);
    }
  }

  lemma {:induction false} ReduceToBegin(st: seq<Slot>)
    requires |st| >= 2 && Topmost(st, 0) && st[0] == Pending(Begin)
    ensures Reduce(st, 0, Precedence(End)) == Some([Data(Integer(Word(st[1].value)))])
  {
    assert st[..0] + [Data(Integer(Word(st[1].value)))] == [Data(Integer(Word(st[1].value)))];
  }

  /** Reading the end marker. */
  lemma {:induction false} RunEnd(c: seq<Entry>, pos: nat, st: seq<Slot>, lastop: nat, word: int)
    requires pos < |c| && c[pos] == Operation(End)
    requires Reduce(st, lastop, Precedence(End)) == Some([Data(Integer(word))])
    ensures Run(c, pos, st, lastop) == Some(Verdict(Bool(word != 0), pos + 1))
  {
  }

  /** An expression and the end marker on a stack of data over the begin marker. */
  lemma {:induction false} RunToEnd(c: seq<Entry>, pos: nat, e: Expr, st: seq<Slot>)
    requires Leveled(e) && At(c, pos, e) && |st| + Height(e) <= STACK_SIZE
    requires pos + |Flatten(e)| < |c| && c[pos + |Flatten(e)|] == Operation(End)
    requires Topmost(st, 0) && st[0] == Pending(Begin)
    ensures var v := if |st| == 1 then Eval(e) else st[1].value;
            Run(c, pos, st, 0) == Some(Verdict(Bool(Truth(v)), pos + |Flatten(e)| + 1))
  {
    hide Eval, Residue, Top, Reduce, Leveled, Flatten, Height;
    var v := Eval(e);
    Shift(c, pos, e, st, 0);
    ReduceResidue(st, 0, e, Precedence(End));
    ReduceToBegin(st + [Data(v)]);
    RunEnd(c, pos + |Flatten(e)|, st + Residue(e), Top(e, |st|, 0), Word((st + [Data(v)])[1].value));
  }

  /** For every parenthesis-free condition, with anything behind it, the machine
      answers whether the value of its reading selects the row, exactly when the
      fixed-size stack suffices; and it stops behind the end marker. */
  lemma {:induction false} EvaluatesReading(c: seq<Entry>, pos: nat, e: Expr)
    requires Leveled(e) && At(c, pos, e)
    requires pos + |Flatten(e)| < |c| && c[pos + |Flatten(e)|] == Operation(End)
    ensures Evaluation(c, pos)
         == if 1 + Height(e) <= STACK_SIZE
            then Some(Verdict(Bool(Truth(Eval(e))), pos + |Flatten(e)| + 1))
            else None
  {
    var st := [Pending(Begin)];
    if 1 + Height(e) <= STACK_SIZE {
      RunToEnd(c, pos, e, st);
    } else {
      Shift(c, pos, e, st, 0);
    }
  }

  /** Two operators in a row: the left one is applied first if it is a relation and the right
      one is not, or if it is `or` and the right one `and`. */
  lemma {:induction false} TwoOperators(a: Value, op: Operator, b: Value, next: Operator, c: Value)
    requires IsBinary(op) && IsBinary(next)
    ensures Evaluation([Datum(a), Operation(op), Datum(b), Operation(next), Datum(c), Operation(End)], 0)
         == Some(Verdict(Bool(Truth(
              if (IsRelational(op) && !IsRelational(next)) || (op.Or? && next.And?) then Apply(next, Apply(op, a, b), c)
              else Apply(op, a, Apply(next, b, c)))), 6))
  {
    hide Apply, Truth, Evaluation;
    var entries := [Datum(a), Operation(op), Datum(b), Operation(next), Datum(c), Operation(End)];
    var left := Binary(next, Binary(op, Leaf(a), Leaf(b)), Leaf(c));
    var right := Binary(op, Leaf(a), Binary(next, Leaf(b), Leaf(c)));
    GroupingRule(left);
    GroupingRule(right);
    WrittenAlike(a, op, b, next, c);
    var first := (IsRelational(op) && !IsRelational(next)) || (op.Or? && next.And?);
    var e := if first then left else right;
    assert Eval(Binary(op, Leaf(a), Leaf(b))) == Apply(op, a, b);
    assert Eval(Binary(next, Leaf(b), Leaf(c))) == Apply(next, b, c);
    assert entries[0..5] == Flatten(e);
    EvaluatesReading(entries, 0, e);
  }

  lemma {:induction false} WrittenAlike(a: Value, op: Operator, b: Value, next: Operator, c: Value)
    requires IsBinary(op) && IsBinary(next)
    ensures var left := Binary(next, Binary(op, Leaf(a), Leaf(b)), Leaf(c));
            var right := Binary(op, Leaf(a), Binary(next, Leaf(b), Leaf(c)));
            && Flatten(left) == Flatten(right) == [Datum(a), Operation(op), Datum(b), Operation(next), Datum(c)]
            && Height(left) <= 5 && Height(right) <= 5
  {
    assert Flatten(Binary(op, Leaf(a), Leaf(b))) == [Datum(a), Operation(op), Datum(b)];
    assert Flatten(Binary(next, Leaf(b), Leaf(c))) == [Datum(b), Operation(next), Datum(c)];
  }

  /** `not` is applied before any operator to its right. */
  lemma {:induction false} NotFirst(a: Value, op: Operator, b: Value)
    requires IsBinary(op)
    ensures Evaluation([Operation(Not), Datum(a), Operation(op), Datum(b), Operation(End)], 0)
         == Some(Verdict(Bool(Truth(Apply(op, Integer(UnaryLogicop(a)), b))), 5))
  {
    hide Apply, Truth, Evaluation;
    var entries := [Operation(Not), Datum(a), Operation(op), Datum(b), Operation(End)];
    var e := Binary(op, Negation(Leaf(a)), Leaf(b));
    GroupingRule(e);
    assert Flatten(Negation(Leaf(a))) == [Operation(Not), Datum(a)];
    assert Flatten(e) == [Operation(Not), Datum(a), Operation(op), Datum(b)];
    assert entries[0..4] == Flatten(e);
    assert Eval(Negation(Leaf(a))) == Integer(UnaryLogicop(a));
    assert Height(Negation(Leaf(a))) == 2 && Height(e) <= 3;
    EvaluatesReading(entries, 0, e);
  }

  lemma {:induction false} WhereClause(c: seq<Entry>, where: seq<Entry>)
    requires WellFormed(where) && |where| < STACK_SIZE && c == where + [Operation(End)]
    ensures Evaluation(c, 0) == Some(Verdict(Bool(Truth(Eval(Parse(where)))), |c|))
  {
    hide Eval, Parse, WellFormed, Evaluation, Truth, Flatten, Height;
    var e := Parse(where);
    FlattenOfParse(where);
    assert c[..|where|] == where;
    EvaluatesReading(c, 0, e);
  }

  // ----- parenthesised groups

  /** Reading a whole group. */
  lemma {:induction false} RunGroup(c: seq<Entry>, pos: nat, g: Expr, st: seq<Slot>, lastop: nat)
    requires pos < |c| && c[pos] == Operation(Begin) && Leveled(g) && At(c, pos + 1, g)
    requires pos + 1 + |Flatten(g)| < |c| && c[pos + 1 + |Flatten(g)|] == Operation(End)
    requires lastop < |st| < STACK_SIZE && st[lastop] == Pending(Begin) && 1 + Height(g) <= STACK_SIZE
    ensures Run(c, pos, st, lastop)
         == Run(c, pos + |Flatten(g)| + 3, st + [Data(Integer(Bool(Truth(Eval(g)))))], lastop)
  {
    EvaluatesReading(c, pos + 1, g);
  }

  lemma {:induction false} GroupSlices(a: seq<Entry>, skipped: Entry, b: seq<Entry>)
    ensures var c := [Operation(Begin)] + a + [Operation(End), skipped] + b + [Operation(End)];
            && |c| == |a| + |b| + 4 && c[0] == Operation(Begin) && c[1..1 + |a|] == a && c[1 + |a|] == Operation(End)
            && c[|a| + 3..|a| + 3 + |b|] == b && c[|a| + 3 + |b|] == Operation(End)
  {
  }

  /** A leading group decides the whole condition: the entry behind its end marker
      is skipped and everything after that has no influence. */
  lemma {:induction false} LeadingGroupDecides(g: Expr, skipped: Entry, e: Expr)
    requires Leveled(g) && 1 + Height(g) <= STACK_SIZE && Leveled(e) && 2 + Height(e) <= STACK_SIZE
    ensures var c := [Operation(Begin)] + Flatten(g) + [Operation(End), skipped] + Flatten(e) + [Operation(End)];
            Evaluation(c, 0) == Some(Verdict(Bool(Truth(Eval(g))), |c|))
  {
    hide Eval, Leveled, Flatten, Height, Run;
    var head := [Operation(Begin)] + Flatten(g) + [Operation(End), skipped];
    var c := head + Flatten(e) + [Operation(End)];
    GroupSlices(Flatten(g), skipped, Flatten(e));
    var st := [Pending(Begin)];
    RunGroup(c, 0, g, st, 0);
    RunToEnd(c, |head|, e, st + [Data(Integer(Bool(Truth(Eval(g)))))]);
  }

  /** A group alone is no condition: its outer end marker is the entry that is skipped,
      and the evaluation runs on behind the condition. */
  lemma {:induction false} WholeGroup(g: Expr)
    requires Leveled(g)
    ensures Evaluation([Operation(Begin)] + Flatten(g) + [Operation(End), Operation(End)], 0) == None
  {
    hide Eval, Leveled, Flatten, Height;
    var c := [Operation(Begin)] + Flatten(g) + [Operation(End), Operation(End)];
    assert c[1..1 + |Flatten(g)|] == Flatten(g) && c[1 + |Flatten(g)|] == Operation(End);
    if 1 + Height(g) <= STACK_SIZE {
      RunGroup(c, 0, g, [Pending(Begin)], 0);
    } else {
      EvaluatesReading(c, 1, g);
    }
  }

  /** The reading of `( g ) op e`: the group is an operand that is 1 or 0. */
  function GroupReading(g: Expr, op: Operator, e: Expr): (r: Expr)
    requires Leveled(g) && IsBinary(op) && Leveled(e)
    ensures Leveled(r)
  {
    Attach(Leaf(Integer(Bool(Truth(Eval(g))))), op, e)
  }

  predicate NonZero(v: Value) { v.Integer? && v.i != 0 }

  /** A group with the truth value `t` has this truth value still when `op` compares or
      joins it with `v`. */
  predicate Keeps(t: bool, op: Operator, v: Value)
    requires IsBinary(op)
  {
    if !v.Integer? then !t
    else match op
      case And => t ==> v.i != 0
      case Or => v.i != 0 ==> t
      case Less => if t then v.i >= 2 else v.i <= 0
      case Leq => if t then v.i >= 1 else v.i < 0
      case Eq => if t then v.i == 1 else v.i != 0
      case Geq => if t then v.i <= 1 else v.i > 0
      case Gt => if t then v.i <= 0 else v.i >= 0
  }

  /** What follows a group does not change its truth value. The operators of `e` that
      bind looser than `op` come last. */
  predicate Harmless(t: bool, op: Operator, e: Expr)
    requires IsBinary(op) && Proper(e)
  {
    if !e.Binary? || Precedence(op) <= Precedence(e.op) then Keeps(t, op, Eval(e))
    else if e.op.And? then
      if t then Harmless(t, op, e.left) && NonZero(Eval(e.right))
      else Harmless(t, op, e.left) || !NonZero(Eval(e.right))
    else
      if !Eval(e.right).Integer? then !t
      else if t then Harmless(t, op, e.left) || NonZero(Eval(e.right))
      else Harmless(t, op, e.left) && !NonZero(Eval(e.right))
  }

  lemma {:induction false} KeepsIff(t: bool, op: Operator, v: Value)
    requires IsBinary(op)
    ensures Truth(Apply(op, Integer(Bool(t)), v)) == t <==> Keeps(t, op, v)
  {
  }

  lemma {:induction false} HarmlessIff(t: bool, op: Operator, e: Expr)
    requires IsBinary(op) && Leveled(e)
    ensures var r := Attach(Leaf(Integer(Bool(t))), op, e);
            && Eval(r) == Integer(Bool(Truth(Eval(r))))
            && (Truth(Eval(r)) == t <==> Harmless(t, op, e))
  {
    if !e.Binary? || Precedence(op) <= Precedence(e.op) {
      KeepsIff(t, op, Eval(e));
      ApplyIsBool(op, Integer(Bool(t)), Eval(e));
    } else {
      HarmlessIff(t, op, e.left);
      var l := Eval(Attach(Leaf(Integer(Bool(t))), op, e.left));
      ApplyIsBool(e.op, l, Eval(e.right));
    }
  }

  lemma {:induction false} ApplyIsBool(op: Operator, a: Value, b: Value)
    requires IsBinary(op)
    ensures Apply(op, a, b) == Integer(Bool(Truth(Apply(op, a, b))))
  {
  }

  /** Hence `( g ) op e` is evaluated as it reads exactly if what follows the group does
      not change its truth value: for `and`, say, if the group is false or the operand
      behind it is an integer other than 0. */
  lemma {:induction false} LeadingGroupCorrectIff(g: Expr, op: Operator, e: Expr)
    requires Leveled(g) && 1 + Height(g) <= STACK_SIZE && Leveled(e) && 2 + Height(e) <= STACK_SIZE
    requires IsBinary(op)
    ensures var c := [Operation(Begin)] + Flatten(g) + [Operation(End), Operation(op)] + Flatten(e) + [Operation(End)];
            Evaluation(c, 0) == Some(Verdict(Bool(Truth(Eval(GroupReading(g, op, e)))), |c|))
            <==> Harmless(Truth(Eval(g)), op, e)
  {
    hide Eval, Harmless, Flatten, Height, Evaluation, Attach;
    LeadingGroupDecides(g, Operation(op), e);
    HarmlessIff(Truth(Eval(g)), op, e);
  }

  /** A concrete failure: `( 1 ) and 0` selects the row. */
  lemma {:induction false} GroupCounterexample()
    ensures Evaluation([Operation(Begin), Datum(Integer(1)), Operation(End), Operation(And), Datum(Integer(0)),
                        Operation(End)], 0) == Some(Verdict(1, 6))
    ensures !Truth(Apply(And, Integer(1), Integer(0)))
  {
    var one, zero := Leaf(Integer(1)), Leaf(Integer(0));
    LeadingGroupDecides(one, Operation(And), zero);
    assert [Operation(Begin)] + Flatten(one) + [Operation(End), Operation(And)] + Flatten(zero) + [Operation(End)]
        == [Operation(Begin), Datum(Integer(1)), Operation(End), Operation(And), Datum(Integer(0)), Operation(End)];
  }

  // ----- groups in groups, and groups in a row

  /** A condition that starts with any number of groups. */
  datatype Grouping = Flat(e: Expr) | Grouped(inner: Grouping, op: Operator, rest: Grouping)

  predicate Leveling(g: Grouping) {
    match g
    case Flat(e) => Leveled(e)
    case Grouped(inner, _, rest) => Leveling(inner) && Leveling(rest)
  }

  function FlattenGroups(g: Grouping): (c: seq<Entry>)
    ensures c != []
  {
    match g
    case Flat(e) => Flatten(e)
    case Grouped(inner, op, rest) =>
      [Operation(Begin)] + FlattenGroups(inner) + [Operation(End), Operation(op)] + FlattenGroups(rest)
  }

  /** The first expression that is not in parentheses of its own. */
  function Innermost(g: Grouping): (e: Expr)
    ensures Leveling(g) ==> Leveled(e)
  {
    match g
    case Flat(e) => e
    case Grouped(inner, _, _) => Innermost(inner)
  }

  /** The stack suffices, `base` slots being in use. */
  predicate Room(g: Grouping, base: nat) {
    match g
    case Flat(e) => base + Height(e) <= STACK_SIZE
    case Grouped(inner, _, rest) => Room(inner, 1) && base < STACK_SIZE && Room(rest, base + 1)
  }

  lemma {:induction false} SliceOfSlice(c: seq<Entry>, pos: nat, n: nat, i: nat, j: nat)
    requires i <= j <= n && pos + n <= |c|
    ensures c[pos..pos + n][i..j] == c[pos + i..pos + j]
  {
    var a, b := c[pos..pos + n][i..j], c[pos + i..pos + j];
    forall k | 0 <= k < j - i ensures a[k] == b[k] {
    }
    assert a == b;
  }

  lemma {:induction false} GroupedSlices(c: seq<Entry>, pos: nat, g: Grouping)
    requires g.Grouped? && pos + |FlattenGroups(g)| <= |c| && c[pos..pos + |FlattenGroups(g)|] == FlattenGroups(g)
    ensures var n, m := |FlattenGroups(g.inner)|, |FlattenGroups(g.rest)|;
            && |FlattenGroups(g)| == n + m + 3 && c[pos] == Operation(Begin)
            && c[pos + 1..pos + 1 + n] == FlattenGroups(g.inner) && c[pos + 1 + n] == Operation(End)
            && c[pos + n + 3..pos + n + 3 + m] == FlattenGroups(g.rest)
  {
    var a, b, all := FlattenGroups(g.inner), FlattenGroups(g.rest), FlattenGroups(g);
    var n, m := |a|, |b|;
    var here := c[pos..pos + |all|];
    assert here == all;
    assert all[0] == Operation(Begin) && all[1..1 + n] == a && all[1 + n] == Operation(End)
      && all[n + 3..n + 3 + m] == b;
    SliceOfSlice(c, pos, |all|, 1, 1 + n);
    SliceOfSlice(c, pos, |all|, n + 3, n + 3 + m);
    assert c[pos] == here[0] && c[pos + 1 + n] == here[1 + n];
  }

  lemma {:induction false} RunBegin(c: seq<Entry>, pos: nat, st: seq<Slot>, selected: int, next: nat)
    requires pos < |c| && c[pos] == Operation(Begin) && st != [] && st[0] == Pending(Begin) && |st| < STACK_SIZE
    requires Run(c, pos + 1, [Pending(Begin)], 0) == Some(Verdict(selected, next))
    ensures Run(c, pos, st, 0) == Run(c, next + 1, st + [Data(Integer(selected))], 0)
  {
    ReduceNothing(st, 0, Precedence(Begin));
  }

  lemma {:induction false} RunGroups(c: seq<Entry>, pos: nat, g: Grouping, st: seq<Slot>)
    requires Leveling(g) && Room(g, |st|)
    requires pos + |FlattenGroups(g)| < |c| && c[pos..pos + |FlattenGroups(g)|] == FlattenGroups(g)
    requires c[pos + |FlattenGroups(g)|] == Operation(End)
    requires Topmost(st, 0) && st[0] == Pending(Begin)
    ensures var selected := if |st| == 1 then Truth(Eval(Innermost(g))) else Truth(st[1].value);
            Run(c, pos, st, 0) == Some(Verdict(Bool(selected), pos + |FlattenGroups(g)| + 1))
    decreases g
  {
    hide Eval, Leveled, Flatten, Height, Reduce, Run;
    match g {
      case Flat(e) =>
        RunToEnd(c, pos, e, st);
      case Grouped(inner, op, rest) =>
        GroupedSlices(c, pos, g);
        var n, inside := |FlattenGroups(inner)|, Truth(Eval(Innermost(g)));
        RunGroups(c, pos + 1, inner, [Pending(Begin)]);
        RunBegin(c, pos, st, Bool(inside), pos + n + 2);
        RunGroups(c, pos + n + 3, rest, st + [Data(Integer(Bool(inside)))]);
    }
  }

  /** A condition that starts with a group, however deep, is decided by the innermost
      expression of that group: what joins the groups, and every other group, has no
      influence. */
  lemma {:induction false} GroupsDecide(g: Grouping)
    requires Leveling(g) && Room(g, 1)
    ensures var c := FlattenGroups(g) + [Operation(End)];
            Evaluation(c, 0) == Some(Verdict(Bool(Truth(Eval(Innermost(g)))), |c|))
  {
    hide Eval, FlattenGroups;
    var c := FlattenGroups(g) + [Operation(End)];
    assert c[0..|FlattenGroups(g)|] == FlattenGroups(g);
    RunGroups(c, 0, g, [Pending(Begin)]);
  }
}

/** The array behaves as the live stack while that is all that is looked at, and beyond
    that in a known way: what is left in the cells behind it. */
module CondArray {
  import opened Common
  import opened CondSyntax
  import opened CondMachine
  import opened CondCorrectness

  /** The live stack is the lower part of the array. */
  predicate Covers(a: seq<Cell>, st: seq<Slot>) {
    |a| == STACK_SIZE && |st| <= STACK_SIZE && forall i | 0 <= i < |st| :: a[i] == Set(st[i])
  }

  lemma {:induction false} BelowIs(a: seq<Cell>, st: seq<Slot>, i: nat)
    requires Covers(a, st) && i <= |st| && OperatorBelow(st, i).Some?
    ensures Below(a, i) == OperatorBelow(st, i)
  {
    if !st[i - 1].Pending? {
      BelowIs(a, st, i - 1);
    }
  }

  lemma {:induction false} Covered(a: seq<Cell>, st: seq<Slot>, i: nat)
    requires Covers(a, st) && i < |st|
    ensures i < |a| && a[i] == Set(st[i])
  {
  }

  lemma {:induction false} CoversLength(a: seq<Cell>, st: seq<Slot>)
    requires Covers(a, st)
    ensures |a| == STACK_SIZE && |st| <= STACK_SIZE
  {
  }

  lemma {:induction false} CoverPut(a: seq<Cell>, st: seq<Slot>, i: nat, v: Value)
    requires Covers(a, st) && i < STACK_SIZE && i <= |st|
    ensures Covers(Put(a, i, v), st[..i] + [Data(v)])
  {
  }

  lemma {:induction false} SettleIs(a: seq<Cell>, st: seq<Slot>, lastop: nat, pr: nat)
    requires Covers(a, st) && |a| == STACK_SIZE && Reduce(st, lastop, pr).Some?
    ensures var st1 := Reduce(st, lastop, pr).value;
            && Settle(a, |st|, lastop, pr).Some?
            && Settle(a, |st|, lastop, pr).value.1 == |st1| && Covers(Settle(a, |st|, lastop, pr).value.0, st1)
    decreases lastop
  {
    hide Covers, Apply, UnaryLogicop, Put;
    var op := st[lastop].op;
    Covered(a, st, lastop);
    if pr < Precedence(op) {
      var right := st[lastop + 1].value;
      Covered(a, st, lastop + 1);
      if op.Begin? {
        CoverPut(a, st, lastop, Integer(Word(right)));
      } else {
        BelowIs(a, st, lastop);
        var below := Below(a, lastop).value;
        if op.Not? {
          var value := Integer(UnaryLogicop(right));
          CoverPut(a, st, lastop, value);
          SettleIs(Put(a, lastop, value), st[..lastop] + [Data(value)], below, pr);
        } else {
          var value := Apply(op, st[lastop - 1].value, right);
          Covered(a, st, lastop - 1);
          CoverPut(a, st, lastop - 1, value);
          SettleIs(Put(a, lastop - 1, value), st[..lastop - 1] + [Data(value)], below, pr);
        }
      }
    }
  }

  /** As long as the evaluation stays within the live stack, the array makes no difference. */
  lemma {:induction false} MachineIs(c: seq<Entry>, pos: nat, a: seq<Cell>, st: seq<Slot>, lastop: nat)
    requires Covers(a, st) && Run(c, pos, st, lastop).Some?
    ensures Machine(c, pos, a, |st|, lastop) == Run(c, pos, st, lastop)
    decreases |c| - pos
  {
    hide Settle, Reduce;
    match c[pos] {
      case Datum(v) =>
        MachineIs(c, pos + 1, Put(a, |st|, v), st + [Data(v)], lastop);
      case Operation(op) =>
        SettleIs(a, st, lastop, Precedence(op));
        var st1, a1 := Reduce(st, lastop, Precedence(op)).value, Settle(a, |st|, lastop, Precedence(op)).value.0;
        if op.Begin? {
          MachineIs(c, pos + 1, Blank(), [Pending(Begin)], 0);
          var inner := Evaluation(c, pos + 1).value;
          var v := Integer(inner.selected);
          MachineIs(c, inner.next + 1, Put(a1, |st1|, v), st1 + [Data(v)], lastop);
        } else if !op.End? {
          MachineIs(c, pos + 1, a1[|st1| := Set(Pending(op))], st1 + [Pending(op)], |st1|);
        }
    }
  }

  // ----- the array behind the live stack

  lemma {:induction false} BelowTop(a: seq<Cell>, st: seq<Slot>, lastop: nat, i: nat)
    requires Covers(a, st) && lastop < i <= |st| && st[lastop].Pending?
    requires forall k :: lastop < k < i ==> st[k].Data?
    ensures Below(a, i) == Some(lastop)
  {
    OperatorBelowIs(st, i, lastop);
    BelowIs(a, st, i);
  }

  lemma {:induction false} SettleNot(a: seq<Cell>, st: seq<Slot>, lastop: nat, v: Value, pr: nat)
    requires Topmost(st, lastop) && pr < Precedence(Not) && Covers(a, st + [Pending(Not), Data(v)])
    ensures |st| < STACK_SIZE
    ensures Settle(a, |st| + 2, |st|, pr) == Settle(Put(a, |st|, Integer(UnaryLogicop(v))), |st| + 1, lastop, pr)
  {
    var st2 := st + [Pending(Not), Data(v)];
    BelowTop(a, st2, lastop, |st|);
    Covered(a, st2, |st|);
    Covered(a, st2, |st| + 1);
  }

  lemma {:induction false} SettleBinary(a: seq<Cell>, st: seq<Slot>, lastop: nat, x: Value, op: Operator, y: Value,
                                        pr: nat)
    requires Topmost(st, lastop) && IsBinary(op) && pr < Precedence(op)
    requires Covers(a, st + [Data(x), Pending(op), Data(y)])
    ensures |st| < STACK_SIZE
    ensures Settle(a, |st| + 3, |st| + 1, pr) == Settle(Put(a, |st|, Apply(op, x, y)), |st| + 1, lastop, pr)
  {
    hide Apply;
    var st2 := st + [Data(x), Pending(op), Data(y)];
    BelowTop(a, st2, lastop, |st| + 1);
    Covered(a, st2, |st|);
    Covered(a, st2, |st| + 1);
    Covered(a, st2, |st| + 2);
  }

  /** What is in the second cell behind the value of an expression once it is reduced:
      the right operand of its operator, or what was there before. */
  function StaleOf(e: Expr, other: Cell): Cell
    requires Proper(e)
  {
    match e
    case Binary(_, _, r) => Set(Data(Eval(r)))
    case Negation(a) => assert Proper(a); if a.Negation? then Set(Data(Eval(a.arg))) else other
    case Leaf(_) => other
  }

  /** The residue of an expression reduced to its value, on the array. */
  lemma {:induction false} SettleResidue(a: seq<Cell>, st: seq<Slot>, lastop: nat, e: Expr, pr: nat)
    returns (a2: seq<Cell>)
    requires Topmost(st, lastop) && Leveled(e) && pr < Level(e) && Covers(a, st + Residue(e))
    ensures Covers(a2, st + [Data(Eval(e))]) && |a| == STACK_SIZE
    ensures Settle(a, |st| + |Residue(e)|, Top(e, |st|, lastop), pr) == Settle(a2, |st| + 1, lastop, pr)
    ensures e.Leaf? ==> a2 == a
    ensures e.Negation? ==> |st| + 1 < STACK_SIZE && a2[|st| + 1] == Set(Data(Eval(e.arg)))
    ensures |st| + 2 < STACK_SIZE ==> a2[|st| + 2] == StaleOf(e, a[|st| + 2])
    ensures forall k | |st| + |Residue(e)| <= k < STACK_SIZE :: a2[k] == a[k]
    decreases e, 1
  {
    match e {
      case Leaf(_) =>
        a2 := a;
      case Negation(_) =>
        a2 := SettleResidueNot(a, st, lastop, e, pr);
      case Binary(_, _, _) =>
        a2 := SettleResidueBinary(a, st, lastop, e, pr);
    }
  }

  lemma {:induction false} NegationParts(e: Expr, base: nat, lastop: nat, other: Cell)
    requires e.Negation? && Leveled(e)
    ensures Leveled(e.arg) && Level(e) == Precedence(Not) <= Level(e.arg) && !e.arg.Binary?
    ensures Eval(e) == Integer(UnaryLogicop(Eval(e.arg)))
    ensures Residue(e) == [Pending(Not)] + Residue(e.arg) && Top(e, base, lastop) == Top(e.arg, base + 1, base)
    ensures e.arg.Leaf? ==> StaleOf(e, other) == other
    ensures e.arg.Negation? ==> Proper(e.arg.arg) && StaleOf(e, other) == Set(Data(Eval(e.arg.arg)))
  {
  }

  lemma {:induction false} SettleResidueNot(a: seq<Cell>, st: seq<Slot>, lastop: nat, e: Expr, pr: nat)
    returns (a2: seq<Cell>)
    requires e.Negation?
    requires Topmost(st, lastop) && Leveled(e) && pr < Level(e) && Covers(a, st + Residue(e))
    ensures Covers(a2, st + [Data(Eval(e))]) && |a| == STACK_SIZE
    ensures Settle(a, |st| + |Residue(e)|, Top(e, |st|, lastop), pr) == Settle(a2, |st| + 1, lastop, pr)
    ensures |st| + 1 < STACK_SIZE && a2[|st| + 1] == Set(Data(Eval(e.arg)))
    ensures |st| + 2 < STACK_SIZE ==> a2[|st| + 2] == StaleOf(e, a[|st| + 2])
    ensures forall k | |st| + |Residue(e)| <= k < STACK_SIZE :: a2[k] == a[k]
    decreases e, 0
  {
    hide Settle, Eval, Leveled, Residue, Top, StaleOf, UnaryLogicop, Covers;
    var x, st1 := e.arg, st + [Pending(Not)];
    NegationParts(e, |st|, lastop, if |st| + 2 < |a| then a[|st| + 2] else Zero);
    assert st + Residue(e) == st1 + Residue(x);
    var a1 := SettleResidue(a, st1, |st|, x, pr);
    var st2 := st + [Pending(Not), Data(Eval(x))];
    assert st1 + [Data(Eval(x))] == st2;
    SettleNot(a1, st, lastop, Eval(x), pr);
    CoversLength(a1, st2);
    Covered(a1, st2, |st| + 1);
    CoverPut(a1, st2, |st|, Eval(e));
    assert st2[..|st|] == st;
    a2 := Put(a1, |st|, Eval(e));
  }

  lemma {:induction false} EvalBinary(e: Expr)
    requires e.Binary? && Proper(e)
    ensures IsBinary(e.op) && Eval(e) == Apply(e.op, Eval(e.left), Eval(e.right))
  {
  }

  lemma {:induction false} SettleResidueBinary(a: seq<Cell>, st: seq<Slot>, lastop: nat, e: Expr, pr: nat)
    returns (a2: seq<Cell>)
    requires e.Binary?
    requires Topmost(st, lastop) && Leveled(e) && pr < Level(e) && Covers(a, st + Residue(e))
    ensures Covers(a2, st + [Data(Eval(e))]) && |a| == STACK_SIZE
    ensures Settle(a, |st| + |Residue(e)|, Top(e, |st|, lastop), pr) == Settle(a2, |st| + 1, lastop, pr)
    ensures |st| + 2 < STACK_SIZE && a2[|st| + 2] == Set(Data(Eval(e.right)))
    ensures forall k | |st| + |Residue(e)| <= k < STACK_SIZE :: a2[k] == a[k]
    decreases e, 0
  {
    hide Settle, Eval, Leveled, Residue, Top, StaleOf, Apply, Covers;
    EvalBinary(e);
    var x, op, y := Eval(e.left), e.op, Eval(e.right);
    BinaryParts(e, |st|, lastop);
    var st1 := st + [Data(x), Pending(op)];
    assert st + Residue(e) == st1 + Residue(e.right);
    var a1 := SettleResidue(a, st1, |st| + 1, e.right, pr);
    var st2 := st + [Data(x), Pending(op), Data(y)];
    assert st1 + [Data(y)] == st2;
    SettleBinary(a1, st, lastop, x, op, y, pr);
    CoversLength(a1, st2);
    Covered(a1, st2, |st| + 2);
    CoverPut(a1, st2, |st|, Eval(e));
    assert st2[..|st|] == st;
    a2 := Put(a1, |st|, Eval(e));
  }

  // ----- shifting, on the array

  lemma {:induction false} CoverPending(a: seq<Cell>, st: seq<Slot>, op: Operator)
    requires Covers(a, st) && |st| < STACK_SIZE
    ensures Covers(a[|st| := Set(Pending(op))], st + [Pending(op)])
  {
  }

  /** Reading an operator other than the markers. */
  lemma {:induction false} MachineOperator(c: seq<Entry>, pos: nat, a: seq<Cell>, sp: nat, lastop: nat, op: Operator,
                                           a1: seq<Cell>, sp1: nat)
    requires |a| == STACK_SIZE && pos < |c| && c[pos] == Operation(op) && !op.Begin? && !op.End? && sp1 < STACK_SIZE
    requires Settle(a, sp, lastop, Precedence(op)) == Some((a1, sp1))
    ensures |a1| == STACK_SIZE
    ensures Machine(c, pos, a, sp, lastop) == Machine(c, pos + 1, a1[sp1 := Set(Pending(op))], sp1 + 1, sp1)
  {
    hide Settle;
  }

  lemma {:induction false} SettleNothing(a: seq<Cell>, sp: nat, st: seq<Slot>, lastop: nat, pr: nat)
    requires Covers(a, st) && |a| == STACK_SIZE && lastop < |st| && st[lastop].Pending?
    requires Precedence(st[lastop].op) <= pr
    ensures Settle(a, sp, lastop, pr) == Some((a, sp))
  {
    Covered(a, st, lastop);
  }

  /** Reading an operator that finds the residue of an expression that binds tighter. */
  lemma {:induction false} ReadOperator(c: seq<Entry>, pos: nat, a: seq<Cell>, st: seq<Slot>, lastop: nat, l: Expr,
                                        op: Operator)
    returns (a2: seq<Cell>)
    requires pos < |c| && c[pos] == Operation(op) && IsBinary(op) && Leveled(l) && Level(l) > Precedence(op)
    requires Topmost(st, lastop) && Precedence(st[lastop].op) <= Precedence(op)
    requires Covers(a, st + Residue(l)) && |st| + 2 <= STACK_SIZE
    ensures Covers(a2, st + [Data(Eval(l)), Pending(op)]) && |a| == STACK_SIZE
    ensures Machine(c, pos, a, |st| + |Residue(l)|, Top(l, |st|, lastop)) == Machine(c, pos + 1, a2, |st| + 2, |st| + 1)
    ensures |st| + 2 < STACK_SIZE ==> a2[|st| + 2] == StaleOf(l, a[|st| + 2])
    ensures forall k | |st| + |Residue(l)| <= k < STACK_SIZE && |st| + 2 <= k :: a2[k] == a[k]
  {
    hide Machine, Settle, StaleOf, Eval, Leveled, Level, Residue, Top, Covers;
    var st1 := st + [Data(Eval(l))];
    var a1 := SettleResidue(a, st, lastop, l, Precedence(op));
    CoversLength(a1, st1);
    SettleNothing(a1, |st1|, st1, lastop, Precedence(op));
    MachineOperator(c, pos, a, |st| + |Residue(l)|, Top(l, |st|, lastop), op, a1, |st1|);
    CoverPending(a1, st1, op);
    a2 := a1[|st| + 1 := Set(Pending(op))];
    assert st1 + [Pending(op)] == st + [Data(Eval(l)), Pending(op)];
  }

  /** Shifting an expression leaves its residue; cells that it does not reach stay as they are. */
  lemma {:induction false} MachineShift(c: seq<Entry>, pos: nat, e: Expr, a: seq<Cell>, st: seq<Slot>, lastop: nat)
    returns (a2: seq<Cell>)
    requires Leveled(e) && At(c, pos, e)
    requires Covers(a, st) && |st| + Height(e) <= STACK_SIZE
    requires Topmost(st, lastop) && Precedence(st[lastop].op) <= Level(e)
    ensures Covers(a2, st + Residue(e)) && |a| == STACK_SIZE
    ensures Machine(c, pos, a, |st|, lastop)
         == Machine(c, pos + |Flatten(e)|, a2, |st| + |Residue(e)|, Top(e, |st|, lastop))
    ensures forall k | |st| + Height(e) <= k < STACK_SIZE :: a2[k] == a[k]
    decreases e, 1
  {
    hide Settle, Apply;
    match e {
      case Leaf(v) =>
        assert c[pos] == c[pos..pos + 1][0];
        CoverPut(a, st, |st|, v);
        assert st[..|st|] == st;
        a2 := Put(a, |st|, v);
      case Negation(_) =>
        a2 := MachineShiftNot(c, pos, e, a, st, lastop);
      case Binary(_, _, _) =>
        a2 := MachineShiftBinary(c, pos, e, a, st, lastop);
    }
  }

  lemma {:induction false} MachineShiftNot(c: seq<Entry>, pos: nat, e: Expr, a: seq<Cell>, st: seq<Slot>, lastop: nat)
    returns (a2: seq<Cell>)
    requires e.Negation? && Leveled(e) && At(c, pos, e)
    requires Covers(a, st) && |st| + Height(e) <= STACK_SIZE
    requires Topmost(st, lastop) && Precedence(st[lastop].op) <= Level(e)
    ensures Covers(a2, st + Residue(e)) && |a| == STACK_SIZE
    ensures Machine(c, pos, a, |st|, lastop)
         == Machine(c, pos + |Flatten(e)|, a2, |st| + |Residue(e)|, Top(e, |st|, lastop))
    ensures forall k | |st| + Height(e) <= k < STACK_SIZE :: a2[k] == a[k]
    decreases e, 0
  {
    hide Apply, Eval, Flatten, At;
    var x, st1 := e.arg, st + [Pending(Not)];
    AtNegation(c, pos, e);
    FlattenNegation(e);
    Covered(a, st, lastop);
    CoverPending(a, st, Not);
    a2 := MachineShift(c, pos + 1, x, a[|st| := Set(Pending(Not))], st1, |st|);
    assert st + Residue(e) == st1 + Residue(x);
  }

  lemma {:induction false} ResidueHeight(e: Expr)
    requires Proper(e)
    ensures |Residue(e)| <= Height(e)
  {
    match e {
      case Leaf(_) =>
      case Negation(a) => ResidueHeight(a);
      case Binary(_, _, r) => ResidueHeight(r);
    }
  }

  lemma {:induction false} FlattenNegation(e: Expr)
    requires e.Negation?
    ensures |Flatten(e)| == 1 + |Flatten(e.arg)|
  {
  }

  lemma {:induction false} MachineShiftBinary(c: seq<Entry>, pos: nat, e: Expr, a: seq<Cell>, st: seq<Slot>,
                                              lastop: nat)
    returns (a2: seq<Cell>)
    requires e.Binary? && Leveled(e) && At(c, pos, e)
    requires Covers(a, st) && |st| + Height(e) <= STACK_SIZE
    requires Topmost(st, lastop) && Precedence(st[lastop].op) <= Level(e)
    ensures Covers(a2, st + Residue(e)) && |a| == STACK_SIZE
    ensures Machine(c, pos, a, |st|, lastop)
         == Machine(c, pos + |Flatten(e)|, a2, |st| + |Residue(e)|, Top(e, |st|, lastop))
    ensures forall k | |st| + Height(e) <= k < STACK_SIZE :: a2[k] == a[k]
    decreases e, 0
  {
    hide Machine, At, Eval, Leveled, Flatten, Residue, Top, Height, Level, StaleOf;
    var l, op, r := e.left, e.op, e.right;
    BinaryParts(e, |st|, lastop);
    var st1 := st + [Data(Eval(l)), Pending(op)];
    AtBinary(c, pos, e);
    var a1 := MachineShift(c, pos, l, a, st, lastop);
    ResidueHeight(l);
    var a3 := ReadOperator(c, pos + |Flatten(l)|, a1, st, lastop, l, op);
    a2 := MachineShift(c, pos + |Flatten(l)| + 1, r, a3, st1, |st| + 1);
    assert st + Residue(e) == st1 + Residue(r);
  }
}
