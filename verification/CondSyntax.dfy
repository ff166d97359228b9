// The condition evaluator of murphy-db (src/murphy-db/mdb/cond.c).

/** Conditions as the evaluator sees them, and their recursive reading. */
module CondSyntax {
  import opened Common

  datatype Operator = End | Begin | And | Or | Less | Leq | Eq | Geq | Gt | Not

  /** A datum on the evaluation stack. Besides the typed value a datum has the
      word that the C union shows when it is read as an integer: for a string
      or a blob that is part of the address, for a double part of its bits. */
  datatype Value =
    | Integer(i: int)
    | Unsignd(u: nat)
    | Varchar(address: int, text: string)   // address 0 is the NULL pointer
    | Blob(address: int)
    | Floating(bits: int)

  datatype Entry = Operation(op: Operator) | Datum(value: Value)

  const TOP_PRECEDENCE := 6

  function Precedence(op: Operator): nat {
    match op
    case End => 0
    case Begin => 1
    case And => 2
    case Or => 3
    case Less | Leq | Eq | Geq | Gt => 4
    case Not => 5
  }

  predicate IsRelational(op: Operator) {
    op.Less? || op.Leq? || op.Eq? || op.Geq? || op.Gt?
  }

  predicate IsBinary(op: Operator) {
    op.And? || op.Or? || IsRelational(op)
  }

  /** strcmp: the sign of the byte-wise comparison. */
  function StringOrder(a: string, b: string): int {
    if a == [] && b == [] then 0
    else if a == [] then -1
    else if b == [] then 1
    else if a[0] < b[0] then -1
    else if a[0] > b[0] then 1
    else StringOrder(a[1..], b[1..])
  }

  function IntOrder(a: int, b: int): int {
    if a > b then 1 else if a == b then 0 else -1
  }

  /** The relation between two data; None when the types differ or have no order. */
  function Order(a: Value, b: Value): (cmp: Option<int>) {
    match (a, b)
    case (Integer(x), Integer(y)) => Some(IntOrder(x, y))
    case (Unsignd(x), Unsignd(y)) => Some(IntOrder(x, y))
    case (Varchar(p, s), Varchar(q, t)) =>
      Some(if p == 0 && q == 0 then 0
           else if p == 0 then -1
           else if q == 0 then 1
           else StringOrder(s, t))
    case _ => None
  }

  function Bool(b: bool): int { if b then 1 else 0 }

  function Relop(op: Operator, a: Value, b: Value): int
    requires IsRelational(op)
  {
    match Order(a, b)
    case None => 0
    case Some(cmp) =>
      match op
      case Less => Bool(cmp < 0)
      case Leq => Bool(cmp <= 0)
      case Eq => Bool(cmp == 0)
      case Geq => Bool(cmp >= 0)
      case Gt => Bool(cmp > 0)
  }

  lemma {:induction false} StringOrderLaws(a: string, b: string, c: string)
    ensures StringOrder(a, b) == 0 <==> a == b
    ensures StringOrder(a, b) == -StringOrder(b, a)
    ensures StringOrder(a, b) <= 0 && StringOrder(b, c) <= 0 ==> StringOrder(a, c) <= 0
    ensures StringOrder(a, b) < 0 && StringOrder(b, c) < 0 ==> StringOrder(a, c) < 0
  {
    if a != [] && b != [] {
      assert a == [a[0]] + a[1..] && b == [b[0]] + b[1..];
      StringOrderLaws(a[1..], b[1..], if c == [] then c else c[1..]);
    }
  }

  /** The relational operators agree with one another: on data that can be compared
      they are the relations of one total order, on any others all of them are 0. */
  lemma {:induction false} RelationLaws(a: Value, b: Value, c: Value)
    ensures Order(a, b).None? ==> forall op | IsRelational(op) :: Relop(op, a, b) == 0
    ensures Order(a, b).None? <==> Order(b, a).None?
    ensures Order(a, b).Some? ==>
              && Relop(Less, a, b) + Relop(Eq, a, b) + Relop(Gt, a, b) == 1
              && Relop(Leq, a, b) == 1 - Relop(Gt, a, b) && Relop(Geq, a, b) == 1 - Relop(Less, a, b)
              && Relop(Less, a, b) == Relop(Gt, b, a) && Relop(Eq, a, b) == Relop(Eq, b, a)
    ensures Relop(Less, a, b) == 1 && Relop(Less, b, c) == 1 ==> Relop(Less, a, c) == 1
    ensures Relop(Leq, a, b) == 1 && Relop(Leq, b, c) == 1 ==> Relop(Leq, a, c) == 1
  {
    if a.Varchar? && b.Varchar? {
      StringOrderLaws(a.text, b.text, if c.Varchar? then c.text else []);
    }
  }

  /** The order of a dictionary, character by character. */
  predicate Before(s: string, t: string) {
    exists n: nat :: n <= |s| && n <= |t| && s[..n] == t[..n] && (if n < |s| then n < |t| && s[n] < t[n] else n < |t|)
  }

  lemma {:induction false} StringOrderMeans(s: string, t: string)
    ensures StringOrder(s, t) < 0 <==> Before(s, t)
    ensures StringOrder(s, t) == 0 <==> s == t
  {
    StringOrderLaws(s, t, t);
    if s != [] && t != [] {
      assert s == [s[0]] + s[1..] && t == [t[0]] + t[1..];
      if s[0] == t[0] {
        StringOrderMeans(s[1..], t[1..]);
        BeforeTails(s, t);
      } else if s[0] < t[0] {
        assert s[..0] == t[..0];
      }
    } else if s == [] && t != [] {
      assert s[..0] == t[..0];
    }
  }

  lemma {:induction false} BeforeTails(s: string, t: string)
    requires s != [] && t != [] && s[0] == t[0]
    ensures Before(s, t) <==> Before(s[1..], t[1..])
  {
    if Before(s, t) {
      var n: nat :| n <= |s| && n <= |t| && s[..n] == t[..n]
        && (if n < |s| then n < |t| && s[n] < t[n] else n < |t|);
      assert s[1..][..n - 1] == s[..n][1..] && t[1..][..n - 1] == t[..n][1..];
    }
    if Before(s[1..], t[1..]) {
      var n: nat :| n <= |s[1..]| && n <= |t[1..]| && s[1..][..n] == t[1..][..n]
        && (if n < |s[1..]| then n < |t[1..]| && s[1..][n] < t[1..][n] else n < |t[1..]|);
      assert s[..n + 1] == [s[0]] + s[1..][..n] && t[..n + 1] == [t[0]] + t[1..][..n];
    }
  }

  /** What the order is: numbers by value, strings as in a dictionary with NULL in front;
      data of different types, blobs and doubles have none. */
  lemma {:induction false} RelationMeans(a: Value, b: Value)
    ensures a.Integer? && b.Integer? ==> (Relop(Less, a, b) == 1 <==> a.i < b.i) && (Relop(Eq, a, b) == 1 <==> a == b)
    ensures a.Unsignd? && b.Unsignd? ==> (Relop(Less, a, b) == 1 <==> a.u < b.u) && (Relop(Eq, a, b) == 1 <==> a == b)
    ensures a.Varchar? && b.Varchar? && a.address != 0 && b.address != 0 ==>
              (Relop(Less, a, b) == 1 <==> Before(a.text, b.text)) && (Relop(Eq, a, b) == 1 <==> a.text == b.text)
    ensures a.Varchar? && b.Varchar? && (a.address == 0 || b.address == 0) ==>
              && (Relop(Less, a, b) == 1 <==> a.address == 0 && b.address != 0)
              && (Relop(Eq, a, b) == 1 <==> a.address == 0 && b.address == 0)
    ensures Order(a, b).Some? <==>
              (a.Integer? && b.Integer?) || (a.Unsignd? && b.Unsignd?) || (a.Varchar? && b.Varchar?)
  {
    if a.Varchar? && b.Varchar? {
      StringOrderMeans(a.text, b.text);
    }
  }

  function BinaryLogicop(op: Operator, a: Value, b: Value): int
    requires op.And? || op.Or?
  {
    match (a, b)
    case (Integer(x), Integer(y)) =>
      if op.And? then Bool(x != 0 && y != 0) else Bool(x != 0 || y != 0)
    case (Unsignd(x), Unsignd(y)) =>
      if op.And? then Bool(x != 0 && y != 0) else Bool(x != 0 || y != 0)
    case _ => 0
  }

  function UnaryLogicop(a: Value): int {
    match a
    case Varchar(p, s) => Bool(p == 0 || s == [])
    case Integer(x) => Bool(x == 0)
    case Unsignd(x) => Bool(x == 0)
    case _ => 0
  }

  /** `and`, `or` and `not` on numbers of one type are those of logic, 0 being false; `not`
      holds of a string without characters, `and` and `or` are 0 on anything else. */
  lemma {:induction false} LogicMeans(a: Value, b: Value)
    ensures (a.Integer? && b.Integer?) || (a.Unsignd? && b.Unsignd?) ==>
              && BinaryLogicop(And, a, b) == Bool(Word(a) != 0 && Word(b) != 0)
              && BinaryLogicop(Or, a, b) == 1 - BinaryLogicop(And, Integer(UnaryLogicop(a)), Integer(UnaryLogicop(b)))
              && UnaryLogicop(a) == 1 - BinaryLogicop(Or, a, a)
    ensures !(a.Integer? && b.Integer?) && !(a.Unsignd? && b.Unsignd?) ==>
              BinaryLogicop(And, a, b) == 0 && BinaryLogicop(Or, a, b) == 0
    ensures a.Varchar? ==> UnaryLogicop(a) == Bool(a.address == 0 || |a.text| == 0)
    ensures a.Blob? || a.Floating? ==> UnaryLogicop(a) == 0
  {
  }

  function Apply(op: Operator, a: Value, b: Value): Value
    requires IsBinary(op)
  {
    Integer(if IsRelational(op) then Relop(op, a, b) else BinaryLogicop(op, a, b))
  }

  /** The word of a datum read through the union's integer member. */
  function Word(v: Value): int {
    match v
    case Integer(i) => i
    case Unsignd(u) => u
    case Varchar(p, _) => p
    case Blob(p) => p
    case Floating(bits) => bits
  }

  /** Whether a condition whose value is v selects the row. */
  predicate Truth(v: Value) { Word(v) != 0 }

  // ----- expressions

  datatype Expr =
    | Leaf(value: Value)
    | Negation(arg: Expr)
    | Binary(op: Operator, left: Expr, right: Expr)

  /** The recursive meaning of an expression. */
  function Eval(e: Expr): Value
    requires Proper(e)
  {
    match e
    case Leaf(v) => v
    case Negation(a) => Integer(UnaryLogicop(Eval(a)))
    case Binary(op, l, r) => Apply(op, Eval(l), Eval(r))
  }

  predicate Proper(e: Expr) {
    match e
    case Leaf(_) => true
    case Negation(a) => Proper(a)
    case Binary(op, l, r) => IsBinary(op) && Proper(l) && Proper(r)
  }

  /** The precedence of the loosest operator of an expression. */
  function Level(e: Expr): nat {
    match e
    case Leaf(_) => TOP_PRECEDENCE
    case Negation(_) => Precedence(Not)
    case Binary(op, _, _) => Precedence(op)
  }

  /** The grouping rule: `not` binds tightest, then relations, `or`, `and`;
      operators of equal precedence group to the right. */
  predicate Leveled(e: Expr)
    ensures Leveled(e) ==> Proper(e)
  {
    match e
    case Leaf(_) => true
    case Negation(a) => Level(a) >= Precedence(Not) && Leveled(a)
    case Binary(op, l, r) =>
      IsBinary(op) && Level(l) > Precedence(op) && Level(r) >= Precedence(op) && Leveled(l) && Leveled(r)
  }

  /** What stands in its place, without parentheses, to the left of an operator... */
  predicate StandsLeft(e: Expr, op: Operator) {
    e.Binary? ==> (IsRelational(e.op) && !IsRelational(op)) || (e.op.Or? && op.And?)
  }

  /** ...and to the right of one. */
  predicate StandsRight(op: Operator, e: Expr) {
    e.Binary? ==> IsRelational(e.op) || (e.op.Or? && !IsRelational(op)) || (e.op.And? && op.And?)
  }

  predicate Nested(e: Expr) {
    match e
    case Leaf(_) => true
    case Negation(a) => !a.Binary? && Nested(a)
    case Binary(op, l, r) => IsBinary(op) && StandsLeft(l, op) && StandsRight(op, r) && Nested(l) && Nested(r)
  }

  /** The grouping in full: `not` takes a datum or another `not`; relations come before
      `or`, and `or` before `and`; of two operators of one kind the right one comes first. */
  lemma {:induction false} GroupingRule(e: Expr)
    ensures Leveled(e) <==> Nested(e)
  {
    match e
    case Leaf(_) =>
    case Negation(a) => GroupingRule(a);
    case Binary(_, l, r) =>
      GroupingRule(l);
      GroupingRule(r);
  }

  /** The entries of an expression, in the order they are written. */
  function Flatten(e: Expr): (c: seq<Entry>)
    ensures c != []
  {
    match e
    case Leaf(v) => [Datum(v)]
    case Negation(a) => [Operation(Not)] + Flatten(a)
    case Binary(op, l, r) => Flatten(l) + [Operation(op)] + Flatten(r)
  }

  // ----- every parenthesis-free condition has exactly one reading

  /** not* datum (binary-operator not* datum)* */
  predicate WellFormed(c: seq<Entry>) {
    c != [] &&
    match c[0]
    case Operation(Not) => WellFormed(c[1..])
    case Operation(_) => false
    case Datum(_) => |c| == 1 || (c[1].Operation? && IsBinary(c[1].op) && WellFormed(c[2..]))
  }

  /** The length of the leading operand: not* datum. */
  function OperandLength(c: seq<Entry>): (n: nat)
    requires WellFormed(c)
    ensures 0 < n <= |c|
    ensures n < |c| ==> c[n].Operation? && IsBinary(c[n].op) && WellFormed(c[n + 1..])
  {
    if c[0].Datum? then 1 else
      var n := 1 + OperandLength(c[1..]);
      assert n < |c| ==> c[1..][n - 1] == c[n] && c[1..][n..] == c[n + 1..];
      n
  }

  function Operand(c: seq<Entry>): (e: Expr)
    requires WellFormed(c)
    ensures Leveled(e) && Level(e) >= Precedence(Not)
  {
    match c[0]
    case Datum(v) => Leaf(v)
    case Operation(_) => Negation(Operand(c[1..]))
  }

  lemma {:induction false} FlattenOfOperand(c: seq<Entry>)
    requires WellFormed(c)
    ensures Flatten(Operand(c)) == c[..OperandLength(c)]
  {
    if c[0].Operation? {
      FlattenOfOperand(c[1..]);
      assert c[..OperandLength(c)] == [c[0]] + c[1..][..OperandLength(c[1..])];
    }
  }

  /** `u op e`, regrouped so that precedences are respected. */
  function Attach(u: Expr, op: Operator, e: Expr): (r: Expr)
    requires Leveled(u) && Level(u) > Precedence(op) && IsBinary(op) && Leveled(e)
    ensures Leveled(r)
    ensures Level(r) == if Precedence(op) < Level(e) then Precedence(op) else Level(e)
  {
    if e.Binary? && Precedence(op) > Precedence(e.op) then
      Binary(e.op, Attach(u, op, e.left), e.right)
    else
      Binary(op, u, e)
  }

  lemma {:induction false} FlattenBinary(e: Expr)
    requires e.Binary?
    ensures Flatten(e) == Flatten(e.left) + [Operation(e.op)] + Flatten(e.right)
  {
  }

  lemma {:induction false} FlattenOfAttach(u: Expr, op: Operator, e: Expr)
    requires Leveled(u) && Level(u) > Precedence(op) && IsBinary(op) && Leveled(e)
    ensures Flatten(Attach(u, op, e)) == Flatten(u) + [Operation(op)] + Flatten(e)
  {
    hide Flatten;
    FlattenBinary(Attach(u, op, e));
    if e.Binary? && Precedence(op) > Precedence(e.op) {
      FlattenOfAttach(u, op, e.left);
      FlattenBinary(e);
    }
  }

  /** The reading of a well-formed condition. */
  function Parse(c: seq<Entry>): (e: Expr)
    requires WellFormed(c)
    ensures Leveled(e)
    decreases |c|
  {
    var n := OperandLength(c);
    if n == |c| then Operand(c) else Attach(Operand(c), c[n].op, Parse(c[n + 1..]))
  }

  lemma {:induction false} FlattenOfParse(c: seq<Entry>)
    requires WellFormed(c)
    ensures Flatten(Parse(c)) == c
    decreases |c|
  {
    hide Flatten, WellFormed, Attach, Operand;
    var n := OperandLength(c);
    FlattenOfOperand(c);
    if n == |c| {
      assert c[..n] == c;
    } else {
      FlattenOfParse(c[n + 1..]);
      FlattenOfAttach(Operand(c), c[n].op, Parse(c[n + 1..]));
      assert c == c[..n] + [c[n]] + c[n + 1..];
    }
  }

  // ----- and only one

  lemma {:induction false} AttachIsAssociative(a: Expr, op1: Operator, b: Expr, op2: Operator, x: Expr)
    requires IsBinary(op1) && IsBinary(op2) && Precedence(op1) > Precedence(op2)
    requires Leveled(Binary(op1, a, b)) && Leveled(x)
    ensures Attach(a, op1, Attach(b, op2, x)) == Attach(Binary(op1, a, b), op2, x)
  {
    if x.Binary? && Precedence(op2) > Precedence(x.op) {
      AttachIsAssociative(a, op1, b, op2, x.left);
    }
  }

  lemma {:induction false} OperandOfFlatten(u: Expr, rest: seq<Entry>)
    requires Leveled(u) && Level(u) >= Precedence(Not)
    requires rest == [] || (rest[0].Operation? && IsBinary(rest[0].op) && WellFormed(rest[1..]))
    ensures WellFormed(Flatten(u) + rest)
    ensures OperandLength(Flatten(u) + rest) == |Flatten(u)| && Operand(Flatten(u) + rest) == u
  {
    if u.Leaf? {
      if rest != [] {
        assert (Flatten(u) + rest)[2..] == rest[1..];
      }
    } else {
      OperandOfFlatten(u.arg, rest);
      assert (Flatten(u) + rest)[1..] == Flatten(u.arg) + rest;
    }
  }

  lemma {:induction false} ParseOfOperandJoin(u: Expr, op: Operator, c: seq<Entry>)
    requires Leveled(u) && Level(u) >= Precedence(Not) && IsBinary(op) && WellFormed(c)
    ensures WellFormed(Flatten(u) + [Operation(op)] + c)
    ensures Parse(Flatten(u) + [Operation(op)] + c) == Attach(u, op, Parse(c))
  {
    var rest := [Operation(op)] + c;
    assert rest[1..] == c;
    assert Flatten(u) + [Operation(op)] + c == Flatten(u) + rest;
    OperandOfFlatten(u, rest);
    assert (Flatten(u) + rest)[|Flatten(u)| + 1..] == c;
  }

  lemma {:induction false} ParseOfJoin(l: Expr, op: Operator, c: seq<Entry>, joined: seq<Entry>)
    requires Leveled(l) && IsBinary(op) && Level(l) > Precedence(op) && WellFormed(c)
    requires joined == Flatten(l) + [Operation(op)] + c
    ensures WellFormed(joined) && Parse(joined) == Attach(l, op, Parse(c))
    decreases l
  {
    hide Parse, Flatten, WellFormed, Attach, Operand, OperandLength;
    if l.Binary? {
      var tail := Flatten(l.right) + [Operation(op)] + c;
      ParseOfJoin(l.right, op, c, tail);
      FlattenBinary(l);
      assert joined == Flatten(l.left) + [Operation(l.op)] + tail;
      ParseOfJoin(l.left, l.op, tail, joined);
      AttachIsAssociative(l.left, l.op, l.right, op, Parse(c));
    } else {
      ParseOfOperandJoin(l, op, c);
    }
  }

  /** A well-formed condition is the written form of exactly one properly grouped
      expression, and every properly grouped expression is well formed when written. */
  lemma {:induction false} ReadingIsUnique(e: Expr)
    requires Leveled(e)
    ensures WellFormed(Flatten(e)) && Parse(Flatten(e)) == e
  {
    if e.Binary? {
      ReadingIsUnique(e.right);
      ParseOfJoin(e.left, e.op, Flatten(e.right), Flatten(e));
    } else {
      OperandOfFlatten(e, []);
      assert Flatten(e) + [] == Flatten(e);
    }
  }
}
