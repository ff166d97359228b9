// The shift/reduce machine of the condition evaluator (src/murphy-db/mdb/cond.c).

module CondMachine {
  import opened Common
  import opened CondSyntax

  // What one call of the evaluator computes, as a function of the live part of its
  // stack. None stands for a run that leaves the live stack: a missing operand, a
  // stale operator pointer, more than STACK_SIZE slots, or entries read past the end
  // of the condition.

  const STACK_SIZE := 256

  const DATA_PRECEDENCE := 256

  datatype Slot = Pending(op: Operator) | Data(value: Value)

  function SlotPrecedence(s: Slot): nat {
    if s.Data? then DATA_PRECEDENCE else Precedence(s.op)
  }

  /** The topmost operator below `i`. */
  function OperatorBelow(st: seq<Slot>, i: nat): (r: Option<nat>)
    requires i <= |st|
    ensures r.Some? ==> r.value < i && st[r.value].Pending?
    ensures r.Some? ==> forall k :: r.value < k < i ==> st[k].Data?
  {
    if i == 0 then None
    else if st[i - 1].Pending? then Some(i - 1)
    else OperatorBelow(st, i - 1)
  }

  /** cond_eval: apply the operators that bind tighter than `pr`. */
  function Reduce(st: seq<Slot>, lastop: nat, pr: nat): (r: Option<seq<Slot>>)
    ensures r.Some? ==> r.value != [] && |r.value| <= |st|
    decreases lastop
  {
    if lastop >= |st| || !st[lastop].Pending? then None
    else if pr >= Precedence(st[lastop].op) then Some(st)
    else if lastop + 1 >= |st| || !st[lastop + 1].Data? then None
    else
      var op := st[lastop].op;
      var right := st[lastop + 1].value;
      if op.Begin? then
        Some(st[..lastop] + [Data(Integer(Word(right)))])
      else
        var below := OperatorBelow(st, lastop);
        if below.None? then None
        else if op.Not? then
          Reduce(st[..lastop] + [Data(Integer(UnaryLogicop(right)))], below.value, pr)
        else if !IsBinary(op) || !st[lastop - 1].Data? then None
        else
          Reduce(st[..lastop - 1] + [Data(Apply(op, st[lastop - 1].value, right))], below.value, pr)
  }

  datatype Verdict = Verdict(selected: int, next: nat)

  /** mdb_cond_evaluate from entry `pos` on. */
  function Run(c: seq<Entry>, pos: nat, st: seq<Slot>, lastop: nat): (r: Option<Verdict>)
    ensures r.Some? ==> pos < r.value.next <= |c| && 0 <= r.value.selected <= 1
    decreases |c| - pos, 0
  {
    if pos >= |c| then None
    else match c[pos]
      case Datum(v) =>
        if |st| >= STACK_SIZE then None else Run(c, pos + 1, st + [Data(v)], lastop)
      case Operation(op) =>
        match Reduce(st, lastop, Precedence(op))
        case None => None
        case Some(st1) =>
          if op.End? then
            match st1[|st1| - 1]
            case Data(Integer(i)) => Some(Verdict(Bool(i != 0), pos + 1))
            case _ => None
          else if |st1| >= STACK_SIZE then None
          else if op.Begin? then
            match Evaluation(c, pos + 1)
            case None => None
            case Some(inner) => Run(c, inner.next + 1, st1 + [Data(Integer(inner.selected))], lastop)
          else
            Run(c, pos + 1, st1 + [Pending(op)], |st1|)
  }

  /** A whole call: the stack starts with the begin marker. */
  function Evaluation(c: seq<Entry>, pos: nat): (r: Option<Verdict>)
    ensures r.Some? ==> pos < r.value.next <= |c| && 0 <= r.value.selected <= 1
    decreases |c| - pos, 1
  {
    Run(c, pos, [Pending(Begin)], 0)
  }

  // ----- the whole stack

  /** A slot of the array; those never written to are zero. */
  datatype Cell = Zero | Set(slot: Slot)

  function CellPrecedence(x: Cell): nat {
    match x
    case Zero => 0
    case Set(s) => SlotPrecedence(s)
  }

  predicate IsDatum(x: Cell) { x.Set? && x.slot.Data? }

  /** The type code of a datum is stored where the operator of a pending slot is. */
  function CellOperator(x: Cell): Operator {
    match x
    case Zero => End
    case Set(Pending(op)) => op
    case Set(Data(Varchar(_, _))) => Begin
    case Set(Data(Integer(_))) => And
    case Set(Data(Unsignd(_))) => Or
    case Set(Data(Floating(_))) => Less
    case Set(Data(Blob(_))) => Leq
  }

  /** mqi_operator_e */
  function OperatorCode(op: Operator): nat {
    match op
    case End => 0
    case Begin => 1
    case And => 2
    case Or => 3
    case Less => 4
    case Leq => 5
    case Eq => 6
    case Geq => 7
    case Gt => 8
    case Not => 9
  }

  /** mqi_data_type_e */
  function TypeCode(v: Value): nat {
    match v
    case Varchar(_, _) => 1
    case Integer(_) => 2
    case Unsignd(_) => 3
    case Floating(_) => 4
    case Blob(_) => 5
  }

  lemma {:induction false} CodesAgree(x: Cell)
    ensures OperatorCode(CellOperator(x))
         == match x case Zero => 0 case Set(Pending(op)) => OperatorCode(op) case Set(Data(v)) => TypeCode(v)
  {
  }

  /** cond_relop, cond_binary_logicop and cond_unary_logicop: 0 unless the operands are data. */
  function Joined(op: Operator, x: Cell, y: Cell): Value
    requires IsBinary(op)
  {
    if IsDatum(x) && IsDatum(y) then Apply(op, x.slot.value, y.slot.value) else Integer(0)
  }

  function Negated(x: Cell): Value {
    Integer(if IsDatum(x) then UnaryLogicop(x.slot.value) else 0)
  }

  /** The topmost slot below `i` that is not a datum. */
  function Below(a: seq<Cell>, i: nat): (r: Option<nat>)
    requires i <= |a|
    ensures r.Some? ==> r.value < i && !IsDatum(a[r.value])
    ensures r.Some? ==> forall k :: r.value < k < i ==> IsDatum(a[k])
  {
    if i == 0 then None
    else if !IsDatum(a[i - 1]) then Some(i - 1)
    else Below(a, i - 1)
  }

  function Put(a: seq<Cell>, i: nat, v: Value): (r: seq<Cell>)
    requires i < |a|
    ensures |r| == |a|
  {
    a[i := Set(Data(v))]
  }

  /** cond_eval on the array: the array and the stack pointer afterwards. None stands for
      an access outside the array and for a word read from a pending slot. */
  function Settle(a: seq<Cell>, sp: nat, lastop: nat, pr: nat): (r: Option<(seq<Cell>, nat)>)
    requires |a| == STACK_SIZE
    ensures r.Some? ==> |r.value.0| == STACK_SIZE
    decreases lastop
  {
    if lastop >= STACK_SIZE then None
    else if pr >= CellPrecedence(a[lastop]) then Some((a, sp))
    else if lastop + 1 >= STACK_SIZE then None
    else
      var op, right := CellOperator(a[lastop]), a[lastop + 1];
      if op.Begin? then
        match right
        case Set(Pending(_)) => None
        case Set(Data(v)) => Some((Put(a, lastop, Integer(Word(v))), lastop + 1))
        case Zero => Some((Put(a, lastop, Integer(0)), lastop + 1))
      else
        match Below(a, lastop)
        case None => None
        case Some(below) =>
          if op.Not? then Settle(Put(a, lastop, Negated(right)), lastop + 1, below, pr)
          else if !IsBinary(op) then None
          else Settle(Put(a, lastop - 1, Joined(op, a[lastop - 1], right)), lastop, below, pr)
  }

  /** mdb_cond_evaluate on the array. A datum that is left but is no integer makes the
      verdict -1. */
  function Machine(c: seq<Entry>, pos: nat, a: seq<Cell>, sp: nat, lastop: nat): (r: Option<Verdict>)
    requires |a| == STACK_SIZE
    ensures r.Some? ==> pos < r.value.next <= |c|
    decreases |c| - pos, 0
  {
    if pos >= |c| then None
    else match c[pos]
      case Datum(v) =>
        if sp >= STACK_SIZE then None else Machine(c, pos + 1, Put(a, sp, v), sp + 1, lastop)
      case Operation(op) =>
        match Settle(a, sp, lastop, Precedence(op))
        case None => None
        case Some((a1, sp1)) =>
          if op.End? then
            if !(0 < sp1 <= STACK_SIZE) then None
            else Some(Verdict(if IsDatum(a1[sp1 - 1]) && a1[sp1 - 1].slot.value.Integer?
                              then Bool(a1[sp1 - 1].slot.value.i != 0) else -1, pos + 1))
          else if sp1 >= STACK_SIZE then None
          else if op.Begin? then
            match Exactly(c, pos + 1)
            case None => None
            case Some(inner) =>
              var result := if inner.selected >= 0 then inner.selected else 0;
              Machine(c, inner.next + 1, Put(a1, sp1, Integer(result)), sp1 + 1, lastop)
          else
            Machine(c, pos + 1, a1[sp1 := Set(Pending(op))], sp1 + 1, sp1)
  }

  /** A whole call: a zeroed array with the begin marker in its first slot. */
  function Exactly(c: seq<Entry>, pos: nat): (r: Option<Verdict>)
    ensures r.Some? ==> pos < r.value.next <= |c|
    decreases |c| - pos, 1
  {
    Machine(c, pos, Blank(), 1, 0)
  }

  function Blank(): (a: seq<Cell>)
    ensures |a| == STACK_SIZE && a[0] == Set(Pending(Begin)) && forall i | 0 < i < STACK_SIZE :: a[i] == Zero
  {
    [Set(Pending(Begin))] + seq(STACK_SIZE - 1, _ => Zero)
  }

  // ----- the implementation: a stack array and two moving indices

  const INT_MAX := 2147483647

  /** The scan for the operator below the one just applied. */
  method PreviousOperator(stack: array<Cell>, start: nat) returns (lastop: nat)
    requires start <= stack.Length && Below(stack[..], start).Some?
    ensures Below(stack[..], start) == Some(lastop)
  {
    lastop := start - 1;
    while CellPrecedence(stack[lastop]) >= DATA_PRECEDENCE
      invariant lastop < start && Below(stack[..], lastop + 1) == Below(stack[..], start)
      decreases lastop
    {
      lastop := lastop - 1;
    }
  }

  /** One turn of the cond_eval loop for an operator other than the begin marker:
      the operator and its operands make place for the result. */
  method ApplyOperator(stack: array<Cell>, lastop: nat, ghost sp: nat, ghost pr: nat) returns (newsp: nat, below: nat)
    requires stack.Length == STACK_SIZE && lastop < STACK_SIZE && !CellOperator(stack[lastop]).Begin?
    requires pr < CellPrecedence(stack[lastop]) && Settle(stack[..], sp, lastop, pr).Some?
    modifies stack
    ensures below < lastop && Settle(stack[..], newsp, below, pr) == Settle(old(stack[..]), sp, lastop, pr)
  {
    ghost var a := stack[..];
    var op, right := CellOperator(stack[lastop]), stack[lastop + 1];
    below := PreviousOperator(stack, lastop);
    if op.Not? {
      stack[lastop] := Set(Data(Negated(right)));
      newsp := lastop + 1;
      assert stack[..] == Put(a, lastop, Negated(right));
    } else {
      var value := Joined(op, stack[lastop - 1], right);
      stack[lastop - 1] := Set(Data(value));
      newsp := lastop;
      assert stack[..] == Put(a, lastop - 1, value);
    }
  }

  /** Returns by how much the stack pointer moves. */
  method CondEval(stack: array<Cell>, sp: nat, lastop0: nat, newPrecedence0: nat) returns (advance: int)
    requires stack.Length == STACK_SIZE && newPrecedence0 < DATA_PRECEDENCE
    requires Settle(stack[..], sp, lastop0, newPrecedence0).Some?
    modifies stack
    ensures Settle(old(stack[..]), sp, lastop0, newPrecedence0) == Some((stack[..], sp + advance))
  {
    hide CellOperator, Below;
    var lastop: nat, newPrecedence: nat, newsp: nat := lastop0, newPrecedence0, sp;
    ghost var target := Settle(stack[..], sp, lastop0, newPrecedence0).value;
    while newPrecedence < CellPrecedence(stack[lastop])
      invariant lastop < STACK_SIZE && (newPrecedence == INT_MAX || newPrecedence == newPrecedence0)
      invariant if newPrecedence == INT_MAX then (stack[..], newsp) == target
                else Settle(stack[..], newsp, lastop, newPrecedence) == Some(target)
      decreases newPrecedence != INT_MAX, lastop
    {
      if CellOperator(stack[lastop]).Begin? {
        var right := stack[lastop + 1];
        ghost var a := stack[..];
        var value := Integer(if right.Zero? then 0 else Word(right.slot.value));
        stack[lastop] := Set(Data(value));
        newsp := lastop + 1;
        newPrecedence := INT_MAX;
        assert stack[..] == Put(a, lastop, value);
      } else {
        newsp, lastop := ApplyOperator(stack, lastop, newsp, newPrecedence0);
      }
    }
    advance := newsp - sp;
  }

  method Evaluate(cond: seq<Entry>, start: nat) returns (result: int, next: nat)
    requires Exactly(cond, start).Some?
    ensures Exactly(cond, start) == Some(Verdict(result, next))
    decreases |cond| - start
  {
    hide Settle;
    var stack := new Cell[STACK_SIZE](_ => Zero);
    stack[0] := Set(Pending(Begin));
    var sp, lastop, pos := 1, 0, start;
    ghost var target := Exactly(cond, start);
    assert stack[..] == Blank();
    while true
      invariant start <= pos && Machine(cond, pos, stack[..], sp, lastop) == target
      decreases |cond| - pos
    {
      ghost var a := stack[..];
      match cond[pos] {
        case Datum(v) =>
          stack[sp] := Set(Data(v));
          assert stack[..] == Put(a, sp, v);
          sp := sp + 1;
          pos := pos + 1;
        case Operation(op) =>
          var advance := CondEval(stack, sp, lastop, Precedence(op));
          sp := sp + advance;
          a := stack[..];
          if op.End? {
            if !IsDatum(stack[sp - 1]) || !stack[sp - 1].slot.value.Integer? {
              return -1, pos + 1;
            }
            return if stack[sp - 1].slot.value.i != 0 then 1 else 0, pos + 1;
          } else if op.Begin? {
            var inner, after := Evaluate(cond, pos + 1);
            var value := Integer(if inner >= 0 then inner else 0);
            stack[sp] := Set(Data(value));
            assert stack[..] == Put(a, sp, value);
            sp := sp + 1;
            pos := after + 1;
          } else {
            stack[sp] := Set(Pending(op));
            assert stack[..] == a[sp := Set(Pending(op))];
            lastop := sp;
            sp := sp + 1;
            pos := pos + 1;
          }
      }
    }
  }
}
