// The bytes of messages (src/common/msg.c).

module MessageFormat {
  import opened Common
  import opened Octets

  const TAG_DEFAULT := 0
  const MAX_ITEM := 0x8000_0000

  // The type codes of src/common/msg.h.
  const STRING := 0x01
  const BOOL := 0x02
  const UINT8 := 0x03
  const DOUBLE := 0x0b
  const BLOB := 0x0c
  const ARRAY := 0x80

  /** What may stand alone or in an array. Integers are 1, 2, 4 or 8 octets wide. */
  datatype Scalar =
    | Text(chars: Octets)
    | Truth(on: bool)
    | Unsigned(width: nat, number: nat)
    | Signed(width: nat, value: int)
    | Double(raw: Octets)

  datatype Value = One(scalar: Scalar) | Blob(data: Octets) | Many(base: nat, items: seq<Scalar>)

  datatype Field = Field(tag: nat, value: Value)

  predicate IsWidth(w: nat) { w == 1 || w == 2 || w == 4 || w == 8 }

  /** Codes of the unsigned types; the signed type of the same width is one up. */
  function UnsignedType(w: nat): (t: nat)
    requires IsWidth(w)
    ensures UINT8 <= t < DOUBLE && t % 2 == 1 && WidthOf(t) == w && WidthOf(t + 1) == w
  {
    if w == 1 then 0x03 else if w == 2 then 0x05 else if w == 4 then 0x07 else 0x09
  }

  function WidthOf(t: nat): (w: nat)
    requires UINT8 <= t < DOUBLE
    ensures IsWidth(w)
  {
    if t <= 0x04 then 1 else if t <= 0x06 then 2 else if t <= 0x08 then 4 else 8
  }

  predicate IsBase(t: nat) { STRING <= t <= DOUBLE }

  function ScalarType(s: Scalar): (t: nat)
    requires ScalarOk(s)
    ensures IsBase(t)
  {
    match s
    case Text(_) => STRING
    case Truth(_) => BOOL
    case Unsigned(w, _) => UnsignedType(w)
    case Signed(w, _) => UnsignedType(w) + 1
    case Double(_) => DOUBLE
  }

  /** What the C types of a field can hold; strings and blobs stay below 2 GiB. */
  predicate ScalarOk(s: Scalar) {
    match s
    case Text(c) => |c| + 1 < MAX_ITEM && forall i | 0 <= i < |c| :: c[i] != 0
    case Truth(_) => true
    case Unsigned(w, n) => IsWidth(w) && n < Pow256(w)
    case Signed(w, v) => IsWidth(w) && -(Pow256(w) as int) <= 2 * v < Pow256(w)
    case Double(raw) => |raw| == 8
  }

  function ValueType(v: Value): (t: nat)
    requires ValueOk(v)
    ensures t < 0x1_0000
  {
    match v
    case One(s) => ScalarType(s)
    case Blob(_) => BLOB
    case Many(base, _) => ARRAY + base
  }

  predicate ItemsOk(base: nat, items: seq<Scalar>) {
    forall i | 0 <= i < |items| :: ScalarOk(items[i]) && ScalarType(items[i]) == base
  }

  predicate ValueOk(v: Value) {
    match v
    case One(s) => ScalarOk(s)
    case Blob(d) => |d| < MAX_ITEM
    case Many(base, items) => IsBase(base) && |items| < 0x1_0000_0000 && ItemsOk(base, items)
  }

  predicate FieldOk(f: Field) { f.tag < 0x1_0000 && ValueOk(f.value) }

  predicate MessageOk(fields: seq<Field>) { forall i | 0 <= i < |fields| :: FieldOk(fields[i]) }

  // ----- the encoding

  function Complement(w: nat, v: int): (n: nat)
    requires IsWidth(w) && -(Pow256(w) as int) <= 2 * v < Pow256(w)
    ensures n < Pow256(w)
  {
    if v < 0 then v + Pow256(w) else v
  }

  function ScalarWire(s: Scalar): Octets
    requires ScalarOk(s)
  {
    match s
    case Text(c) => BigEndian(4, |c| + 1) + (c + [0])
    case Truth(on) => BigEndian(4, if on then 1 else 0)
    case Unsigned(w, n) => BigEndian(w, n)
    case Signed(w, v) => BigEndian(w, Complement(w, v))
    case Double(raw) => raw
  }

  function ItemsWire(base: nat, items: seq<Scalar>): Octets
    requires ItemsOk(base, items)
  {
    if items == [] then [] else ScalarWire(items[0]) + ItemsWire(base, items[1..])
  }

  function ValueWire(v: Value): Octets
    requires ValueOk(v)
  {
    match v
    case One(s) => ScalarWire(s)
    case Blob(d) => BigEndian(4, |d|) + d
    case Many(base, items) => BigEndian(4, |items|) + ItemsWire(base, items)
  }

  function FieldWire(f: Field): Octets
    requires FieldOk(f)
  {
    BigEndian(2, f.tag) + (BigEndian(2, ValueType(f.value)) + ValueWire(f.value))
  }

  function FieldsWire(fields: seq<Field>): Octets
    requires MessageOk(fields)
  {
    if fields == [] then [] else FieldWire(fields[0]) + FieldsWire(fields[1..])
  }

  /** A message without the transport tag in front; the count is cut to 16 bits. */
  function Body(fields: seq<Field>): Octets
    requires MessageOk(fields)
  {
    BigEndian(2, |fields| % 0x1_0000) + FieldsWire(fields)
  }

  function Encoded(fields: seq<Field>): Octets
    requires MessageOk(fields)
  {
    BigEndian(2, TAG_DEFAULT) + Body(fields)
  }

  // ----- which octets hold what

  lemma {:induction false} TypeCodes(v: Value)
    requires ValueOk(v)
    ensures ValueType(v)
         == match v
            case One(Text(_)) => 0x01
            case One(Truth(_)) => 0x02
            case One(Unsigned(w, _)) => if w == 1 then 0x03 else if w == 2 then 0x05 else if w == 4 then 0x07 else 0x09
            case One(Signed(w, _)) => if w == 1 then 0x04 else if w == 2 then 0x06 else if w == 4 then 0x08 else 0x0a
            case One(Double(_)) => 0x0b
            case Blob(_) => 0x0c
            case Many(base, _) => 0x80 + base
  {
  }

  /** Strings go with their length, the NUL included, booleans as 32-bit numbers, negative
      numbers as what they are modulo their width. */
  lemma {:induction false} ScalarOctets(s: Scalar)
    requires ScalarOk(s)
    ensures var b := ScalarWire(s);
            match s
            case Text(c) =>
              && |b| == 4 + |c| + 1 && b[4..4 + |c|] == c && b[4 + |c|] == 0
              && |c| + 1 == 0x100_0000 * (b[0] as int) + 0x1_0000 * (b[1] as int) + 0x100 * (b[2] as int) + b[3]
            case Truth(on) => b == [0, 0, 0, if on then 1 else 0]
            case Unsigned(w, n) => |b| == w && forall i | 0 <= i < w :: b[i] == n / Pow256(w - 1 - i) % 256
            case Signed(w, v) =>
              |b| == w && forall i | 0 <= i < w ::
                b[i] == (if v < 0 then v + Pow256(w) else v) / Pow256(w - 1 - i) % 256
            case Double(raw) => b == raw
  {
    match s {
      case Text(c) => FourOctets(|c| + 1);
      case Truth(on) => FourOctets(if on then 1 else 0);
      case Unsigned(w, n) => forall i | 0 <= i < w { DigitAt(w, n, i); }
      case Signed(w, v) => forall i | 0 <= i < w { DigitAt(w, Complement(w, v), i); }
      case Double(_) =>
    }
  }

  /** A blob and an array start with the number of their octets and items. */
  lemma {:induction false} CountOctets(v: Value)
    requires ValueOk(v) && !v.One?
    ensures var b, n := ValueWire(v), if v.Blob? then |v.data| else |v.items|;
            && |b| >= 4 && n == 0x100_0000 * (b[0] as int) + 0x1_0000 * (b[1] as int) + 0x100 * (b[2] as int) + b[3]
            && b[4..] == if v.Blob? then v.data else ItemsWire(v.base, v.items)
  {
    FourOctets(if v.Blob? then |v.data| else |v.items|);
  }

  /** A field: two octets for its tag, two for its type, then its value. */
  lemma {:induction false} FieldOctets(f: Field)
    requires FieldOk(f)
    ensures var b := FieldWire(f);
            && |b| >= 4 && f.tag == 0x100 * (b[0] as int) + b[1] && ValueType(f.value) == 0x100 * (b[2] as int) + b[3]
            && b[4..] == ValueWire(f.value)
  {
    hide ValueOk, ValueType, ValueWire, BigEndian;
    TwoOctets(f.tag);
    TwoOctets(ValueType(f.value));
    var rest := BigEndian(2, ValueType(f.value)) + ValueWire(f.value);
    assert FieldWire(f) == BigEndian(2, f.tag) + rest;
    assert FieldWire(f)[4..] == rest[2..] == ValueWire(f.value);
  }

  /** A message: the transport tag, which is 0, the number of fields, and the fields one
      after the other. */
  lemma {:induction false} MessageOctets(fields: seq<Field>)
    requires MessageOk(fields)
    ensures var b := Encoded(fields);
            && |b| >= 4 && b[0] == 0 && b[1] == 0 && |fields| % 0x1_0000 == 0x100 * (b[2] as int) + b[3]
            && b[4..] == FieldsWire(fields)
  {
    hide MessageOk, FieldsWire, BigEndian;
    TwoOctets(TAG_DEFAULT);
    TwoOctets(|fields| % 0x1_0000);
    assert Encoded(fields)[4..] == Body(fields)[2..] == FieldsWire(fields);
  }

  lemma {:induction false} FieldPlace(fields: seq<Field>, i: nat)
    requires MessageOk(fields) && i < |fields|
    ensures FieldsWire(fields) == FieldsWire(fields[..i]) + FieldWire(fields[i]) + FieldsWire(fields[i + 1..])
  {
    hide FieldOk, FieldWire;
    if i == 0 {
      assert fields[..0] == [];
    } else {
      FieldPlace(fields[1..], i - 1);
      assert fields[1..][..i - 1] == fields[..i][1..] && fields[1..][i..] == fields[i + 1..];
      var first, before, rest := FieldWire(fields[0]), FieldsWire(fields[1..][..i - 1]), FieldsWire(fields[i + 1..]);
      assert FieldsWire(fields) == first + (before + FieldWire(fields[i]) + rest);
      assert first + (before + FieldWire(fields[i]) + rest) == first + before + FieldWire(fields[i]) + rest;
    }
  }

  lemma {:induction false} ItemPlace(base: nat, items: seq<Scalar>, i: nat)
    requires ItemsOk(base, items) && i < |items|
    ensures ScalarOk(items[i])
    ensures ItemsWire(base, items)
         == ItemsWire(base, items[..i]) + ScalarWire(items[i]) + ItemsWire(base, items[i + 1..])
  {
    hide ScalarOk, ScalarType, ScalarWire;
    if i == 0 {
      assert items[..0] == [];
    } else {
      ItemPlace(base, items[1..], i - 1);
      assert items[1..][..i - 1] == items[..i][1..] && items[1..][i..] == items[i + 1..];
      var first, before := ScalarWire(items[0]), ItemsWire(base, items[1..][..i - 1]);
      var rest := ItemsWire(base, items[i + 1..]);
      assert ItemsWire(base, items) == first + (before + ScalarWire(items[i]) + rest);
      assert first + (before + ScalarWire(items[i]) + rest) == first + before + ScalarWire(items[i]) + rest;
    }
  }

  // ----- the decoding

  /** What decoding the front of a buffer gives: a value and the rest of the buffer,
      a refusal, or a read behind the end of the buffer. */
  datatype Outcome<T> = Got(value: T, rest: Octets) | Refused | Overrun

  function PullNumber(w: nat, b: Octets): (r: Outcome<nat>)
    ensures r.Got? ==> |r.rest| == |b| - w
  {
    if |b| >= w then Got(Number(b[..w]), b[w..]) else Refused
  }

  function PullOctets(n: nat, b: Octets): (r: Outcome<Octets>)
    ensures r.Got? ==> |r.rest| == |b| - n
  {
    if |b| >= n then Got(b[..n], b[n..]) else Refused
  }

  /** strdup: the characters up to the first NUL, wherever in the buffer that is. */
  function Duplicate(b: Octets): (r: Option<Octets>)
  {
    if b == [] then None
    else if b[0] == 0 then Some([])
    else match Duplicate(b[1..]) case None => None case Some(c) => Some([b[0]] + c)
  }

  function PullText(b: Octets): (r: Outcome<Scalar>)
    ensures r.Got? ==> |r.rest| <= |b|
  {
    match PullNumber(4, b)
    case Refused => Refused
    case Overrun => Overrun
    case Got(len, rest) =>
      if len == 0 then Got(Text([]), rest)
      else if |rest| < len then Refused
      else match Duplicate(rest)
        case None => Overrun
        case Some(c) => Got(Text(c), rest[len..])
  }

  function FromComplement(w: nat, n: nat): int { if 2 * n >= Pow256(w) then n - Pow256(w) else n }

  function PullScalar(t: nat, b: Octets): (r: Outcome<Scalar>)
    ensures r.Got? ==> |r.rest| <= |b|
  {
    if t == STRING then PullText(b)
    else if t == BOOL then
      (match PullNumber(4, b) case Got(n, rest) => Got(Truth(n != 0), rest) case Refused => Refused
        case Overrun => Overrun)
    else if UINT8 <= t < DOUBLE then
      (match PullNumber(WidthOf(t), b)
       case Got(n, rest) =>
         Got(if t % 2 == 1 then Unsigned(WidthOf(t), n) else Signed(WidthOf(t), FromComplement(WidthOf(t), n)), rest)
       case Refused => Refused
       case Overrun => Overrun)
    else if t == DOUBLE then
      (match PullOctets(8, b) case Got(d, rest) => Got(Double(d), rest) case Refused => Refused case Overrun => Overrun)
    else Refused
  }

  function PullItems(base: nat, n: nat, b: Octets): (r: Outcome<seq<Scalar>>)
    ensures r.Got? ==> |r.rest| <= |b| && |r.value| == n
  {
    if n == 0 then Got([], b)
    else match PullScalar(base, b)
      case Refused => Refused
      case Overrun => Overrun
      case Got(s, rest) => Join([s], PullItems(base, n - 1, rest))
  }

  function Join<T>(front: seq<T>, o: Outcome<seq<T>>): Outcome<seq<T>> {
    match o
    case Got(v, rest) => Got(front + v, rest)
    case Refused => Refused
    case Overrun => Overrun
  }

  predicate IsArray(t: nat) { t / ARRAY % 2 == 1 }

  function PullMany(base: nat, b: Octets): (r: Outcome<Value>)
    ensures r.Got? ==> |r.rest| <= |b|
  {
    if !IsBase(base) then Refused
    else match PullNumber(4, b)
      case Refused => Refused
      case Overrun => Overrun
      case Got(n, rest) =>
        match PullItems(base, n, rest)
        case Refused => Refused
        case Overrun => Overrun
        case Got(items, rest') => Got(Many(base, items), rest')
  }

  function PullBlob(b: Octets): (r: Outcome<Value>)
    ensures r.Got? ==> |r.rest| <= |b|
  {
    match PullNumber(4, b)
    case Refused => Refused
    case Overrun => Overrun
    case Got(n, rest) =>
      match PullOctets(n, rest)
      case Refused => Refused
      case Overrun => Overrun
      case Got(d, rest') => Got(Blob(d), rest')
  }

  function PullValue(t: nat, b: Octets): (r: Outcome<Value>)
    ensures r.Got? ==> |r.rest| <= |b|
  {
    if IsBase(t) then
      (match PullScalar(t, b) case Got(s, rest) => Got(One(s), rest) case Refused => Refused case Overrun => Overrun)
    else if t == BLOB then PullBlob(b)
    else if IsArray(t) then PullMany(t - ARRAY, b)
    else Refused
  }

  function PullField(b: Octets): (r: Outcome<Field>)
    ensures r.Got? ==> |r.rest| + 4 <= |b|
  {
    match PullNumber(2, b)
    case Refused => Refused
    case Overrun => Overrun
    case Got(tag, b1) =>
      match PullNumber(2, b1)
      case Refused => Refused
      case Overrun => Overrun
      case Got(t, b2) =>
        match PullValue(t, b2)
        case Refused => Refused
        case Overrun => Overrun
        case Got(v, rest) => Got(Field(tag, v), rest)
  }

  /** The loop counter behind a field: reading an array uses the same counter. */
  function Count(i: nat, v: Value): nat {
    ((if v.Many? then |v.items| else i) + 1) % 0x1_0000_0000
  }

  /** The decoding loop with `nfield` announced fields and the counter at `i`. */
  function PullFields(nfield: nat, i: nat, b: Octets): (r: Outcome<seq<Field>>)
    decreases |b|
  {
    if i >= nfield then Got([], b)
    else match PullField(b)
      case Refused => Refused
      case Overrun => Overrun
      case Got(f, rest) => Join([f], PullFields(nfield, Count(i, f.value), rest))
  }

  /** mrp_msg_default_decode, on the octets behind the transport tag. */
  function Decoded(b: Octets): Outcome<seq<Field>> {
    match PullNumber(2, b)
    case Refused => Refused
    case Overrun => Overrun
    case Got(nfield, rest) => PullFields(nfield, 0, rest)
  }

  // ----- pulling what was pushed

  lemma {:induction false} TextBack(c: Octets, rest: Octets)
    requires forall i | 0 <= i < |c| :: c[i] != 0
    ensures Duplicate(c + [0] + rest) == Some(c)
  {
    var b := c + [0] + rest;
    if c != [] {
      assert b[1..] == c[1..] + [0] + rest;
      TextBack(c[1..], rest);
      assert [c[0]] + c[1..] == c;
    }
  }

  lemma {:induction false} ScalarTextBack(c: Octets, rest: Octets)
    requires ScalarOk(Text(c))
    ensures PullText(ScalarWire(Text(c)) + rest) == Got(Text(c), rest)
  {
    hide BigEndian, Number, Duplicate;
    Powers();
    var body := c + [0] + rest;
    assert ScalarWire(Text(c)) + rest == BigEndian(4, |c| + 1) + body;
    LeadingNumber(4, |c| + 1, body);
    TextBack(c, rest);
    assert body[|c| + 1..] == rest;
  }

  lemma {:induction false} ScalarBack(s: Scalar, rest: Octets)
    requires ScalarOk(s)
    ensures PullScalar(ScalarType(s), ScalarWire(s) + rest) == Got(s, rest)
  {
    hide BigEndian, Number, PullText, Duplicate;
    Powers();
    match s {
      case Text(c) =>
        ScalarTextBack(c, rest);
      case Truth(on) =>
        LeadingNumber(4, if on then 1 else 0, rest);
      case Unsigned(w, n) =>
        LeadingNumber(w, n, rest);
      case Signed(w, v) =>
        LeadingNumber(w, Complement(w, v), rest);
      case Double(raw) =>
        assert (raw + rest)[..8] == raw && (raw + rest)[8..] == rest;
    }
  }

  lemma {:induction false} ItemsBack(base: nat, items: seq<Scalar>, rest: Octets)
    requires ItemsOk(base, items)
    ensures PullItems(base, |items|, ItemsWire(base, items) + rest) == Got(items, rest)
  {
    hide ScalarOk, ScalarType, ScalarWire, PullScalar;
    if items != [] {
      var tail := ItemsWire(base, items[1..]) + rest;
      assert ItemsWire(base, items) + rest == ScalarWire(items[0]) + tail;
      ScalarBack(items[0], tail);
      ItemsBack(base, items[1..], rest);
      assert [items[0]] + items[1..] == items;
    } else {
      assert ItemsWire(base, items) + rest == rest;
    }
  }

  lemma {:induction false} ValueBack(v: Value, rest: Octets)
    requires ValueOk(v)
    ensures PullValue(ValueType(v), ValueWire(v) + rest) == Got(v, rest)
  {
    hide ScalarOk, ScalarType, ScalarWire, PullScalar, ItemsOk, ItemsWire, PullItems, Number, BigEndian;
    Powers();
    match v {
      case One(s) =>
        ScalarBack(s, rest);
      case Blob(d) =>
        assert ValueWire(v) + rest == BigEndian(4, |d|) + (d + rest);
        LeadingNumber(4, |d|, d + rest);
        assert (d + rest)[..|d|] == d && (d + rest)[|d|..] == rest;
      case Many(base, items) =>
        var tail := ItemsWire(base, items) + rest;
        assert ValueWire(v) + rest == BigEndian(4, |items|) + tail;
        LeadingNumber(4, |items|, tail);
        ItemsBack(base, items, rest);
    }
  }

  lemma {:induction false} FieldBack(f: Field, rest: Octets)
    requires FieldOk(f)
    ensures PullField(FieldWire(f) + rest) == Got(f, rest)
  {
    hide ValueOk, ValueType, ValueWire, PullValue, Number, BigEndian;
    Powers();
    var b2 := ValueWire(f.value) + rest;
    var b1 := BigEndian(2, ValueType(f.value)) + b2;
    assert FieldWire(f) + rest == BigEndian(2, f.tag) + b1;
    LeadingNumber(2, f.tag, b1);
    LeadingNumber(2, ValueType(f.value), b2);
    ValueBack(f.value, rest);
  }

  // ----- what follows makes no difference

  /** The outcome with more octets behind the buffer. */
  function Extended<T>(o: Outcome<T>, more: Octets): Outcome<T>
    requires o.Got?
  {
    Got(o.value, o.rest + more)
  }

  lemma {:induction false} NumberExtends(w: nat, b: Octets, more: Octets)
    requires PullNumber(w, b).Got?
    ensures PullNumber(w, b + more) == Extended(PullNumber(w, b), more)
  {
    assert (b + more)[..w] == b[..w] && (b + more)[w..] == b[w..] + more;
  }

  lemma {:induction false} OctetsExtend(n: nat, b: Octets, more: Octets)
    requires PullOctets(n, b).Got?
    ensures PullOctets(n, b + more) == Extended(PullOctets(n, b), more)
  {
    assert (b + more)[..n] == b[..n] && (b + more)[n..] == b[n..] + more;
  }

  lemma {:induction false} DuplicateExtends(b: Octets, more: Octets)
    requires Duplicate(b).Some?
    ensures Duplicate(b + more) == Duplicate(b)
  {
    if b[0] != 0 {
      assert (b + more)[1..] == b[1..] + more;
      DuplicateExtends(b[1..], more);
    }
  }

  lemma {:induction false} ScalarExtends(t: nat, b: Octets, more: Octets)
    requires PullScalar(t, b).Got?
    ensures PullScalar(t, b + more) == Extended(PullScalar(t, b), more)
  {
    hide Number, PullNumber, PullOctets, Duplicate;
    if t == STRING {
      NumberExtends(4, b, more);
      var len, rest := PullNumber(4, b).value, PullNumber(4, b).rest;
      if len != 0 {
        DuplicateExtends(rest, more);
        assert (rest + more)[len..] == rest[len..] + more;
      }
    } else if t == BOOL {
      NumberExtends(4, b, more);
    } else if t == DOUBLE {
      OctetsExtend(8, b, more);
    } else {
      NumberExtends(WidthOf(t), b, more);
    }
  }

  lemma {:induction false} ItemsExtend(base: nat, n: nat, b: Octets, more: Octets)
    requires PullItems(base, n, b).Got?
    ensures PullItems(base, n, b + more) == Extended(PullItems(base, n, b), more)
  {
    hide PullScalar;
    if n > 0 {
      ScalarExtends(base, b, more);
      ItemsExtend(base, n - 1, PullScalar(base, b).rest, more);
    }
  }

  lemma {:induction false} ValueExtends(t: nat, b: Octets, more: Octets)
    requires PullValue(t, b).Got?
    ensures PullValue(t, b + more) == Extended(PullValue(t, b), more)
  {
    hide PullScalar, PullNumber, PullOctets, PullItems;
    if IsBase(t) {
      ScalarExtends(t, b, more);
    } else {
      NumberExtends(4, b, more);
      var n, rest := PullNumber(4, b).value, PullNumber(4, b).rest;
      if t == BLOB {
        OctetsExtend(n, rest, more);
      } else {
        ItemsExtend(t - ARRAY, n, rest, more);
      }
    }
  }

  lemma {:induction false} FieldExtends(b: Octets, more: Octets)
    requires PullField(b).Got?
    ensures PullField(b + more) == Extended(PullField(b), more)
  {
    hide PullNumber, PullValue;
    NumberExtends(2, b, more);
    var b1 := PullNumber(2, b).rest;
    NumberExtends(2, b1, more);
    ValueExtends(PullNumber(2, b1).value, PullNumber(2, b1).rest, more);
  }

  lemma {:induction false} FieldsExtend(nfield: nat, i: nat, b: Octets, more: Octets)
    requires PullFields(nfield, i, b).Got?
    ensures PullFields(nfield, i, b + more) == Extended(PullFields(nfield, i, b), more)
    decreases |b|
  {
    hide PullField, Count;
    if i < nfield {
      FieldExtends(b, more);
      FieldsExtend(nfield, Count(i, PullField(b).value.value), PullField(b).rest, more);
    }
  }

  lemma {:induction false} DecodedExtends(b: Octets, more: Octets)
    requires Decoded(b).Got?
    ensures Decoded(b + more) == Extended(Decoded(b), more)
  {
    hide PullNumber, PullFields;
    NumberExtends(2, b, more);
    FieldsExtend(PullNumber(2, b).value, 0, PullNumber(2, b).rest, more);
  }

  /** Nothing that lacks some of its last octets is decoded, if all of it is used up. */
  lemma {:induction false} TruncatedRefused(b: Octets, n: nat)
    requires n < |b| && Decoded(b).Got? && Decoded(b).rest == []
    ensures !Decoded(b[..n]).Got?
  {
    hide Decoded;
    assert b[..n] + b[n..] == b && |b[n..]| > 0;
    if Decoded(b[..n]).Got? {
      DecodedExtends(b[..n], b[n..]);
    }
  }

  // ----- which messages survive

  /** The number of fields the decoding loop takes before its counter reaches
      `nfield`; none if it runs out of fields first. */
  function Taken(fields: seq<Field>, nfield: nat, i: nat): (k: Option<nat>)
    ensures k.Some? ==> k.value <= |fields|
  {
    if i >= nfield then Some(0)
    else if fields == [] then None
    else match Taken(fields[1..], nfield, Count(i, fields[0].value)) case None => None case Some(k) => Some(k + 1)
  }

  /** The loop yields exactly the fields that its counter lets it take. */
  lemma {:induction false} FieldsBack(fields: seq<Field>, nfield: nat, i: nat)
    requires MessageOk(fields)
    ensures PullFields(nfield, i, FieldsWire(fields))
         == match Taken(fields, nfield, i)
            case None => Refused
            case Some(k) => Got(fields[..k], FieldsWire(fields[k..]))
  {
    hide MessageOk, FieldsWire, PullFields, Count;
    if i >= nfield || fields == [] {
      NoFieldTaken(fields, nfield, i);
    } else {
      FieldTaken(fields, nfield, i);
      FieldsBack(fields[1..], nfield, Count(i, fields[0].value));
      var t := Taken(fields, nfield, i);
      if t.Some? {
        assert fields[..t.value] == [fields[0]] + fields[1..][..t.value - 1];
        assert fields[t.value..] == fields[1..][t.value - 1..];
      }
    }
  }

  lemma {:induction false} NoFieldTaken(fields: seq<Field>, nfield: nat, i: nat)
    requires MessageOk(fields) && (i >= nfield || fields == [])
    ensures PullFields(nfield, i, FieldsWire(fields)) == if i >= nfield then Got([], FieldsWire(fields)) else Refused
    ensures fields[..0] == [] && fields[0..] == fields
  {
    hide FieldOk, FieldWire, PullField;
    if fields == [] {
      NoField();
    }
  }

  lemma {:induction false} FieldTaken(fields: seq<Field>, nfield: nat, i: nat)
    requires MessageOk(fields) && fields != [] && i < nfield
    ensures MessageOk(fields[1..])
    ensures PullFields(nfield, i, FieldsWire(fields))
         == Join([fields[0]], PullFields(nfield, Count(i, fields[0].value), FieldsWire(fields[1..])))
  {
    hide FieldOk, FieldWire, PullField, Count;
    FieldBack(fields[0], FieldsWire(fields[1..]));
  }

  lemma {:induction false} NoField()
    ensures PullField([]) == Refused
  {
  }

  /** What decoding an encoded message yields, for every message. */
  lemma {:induction false} DecodedOfEncoded(fields: seq<Field>)
    requires MessageOk(fields)
    ensures Encoded(fields)[..2] == BigEndian(2, TAG_DEFAULT)
    ensures Decoded(Encoded(fields)[2..])
         == match Taken(fields, |fields| % 0x1_0000, 0)
            case None => Refused
            case Some(k) => Got(fields[..k], FieldsWire(fields[k..]))
  {
    hide MessageOk, FieldsWire, PullFields, Number, BigEndian, Taken;
    Powers();
    assert Encoded(fields)[2..] == Body(fields);
    LeadingNumber(2, |fields| % 0x1_0000, FieldsWire(fields));
    FieldsBack(fields, |fields| % 0x1_0000, 0);
  }

  /** The loop counter in front of field `k`. */
  function Counter(fields: seq<Field>, k: nat): nat
    requires k <= |fields|
  {
    if k == 0 then 0 else Count(Counter(fields, k - 1), fields[k - 1].value)
  }

  /** The counter stays below the announced count until the last field is read. */
  ghost predicate CounterFits(fields: seq<Field>) {
    var n := |fields| % 0x1_0000;
    (forall k: nat | k < |fields| :: Counter(fields, k) < n) && Counter(fields, |fields|) >= n
  }

  lemma {:induction false} TakenByCounter(fields: seq<Field>, nfield: nat, j: nat)
    requires j <= |fields|
    ensures Taken(fields[j..], nfield, Counter(fields, j)) == Some(|fields| - j) <==>
              (forall k: nat | j <= k < |fields| :: Counter(fields, k) < nfield) && Counter(fields, |fields|) >= nfield
    decreases |fields| - j
  {
    if j < |fields| {
      assert fields[j..][0] == fields[j] && fields[j..][1..] == fields[j + 1..];
      TakenByCounter(fields, nfield, j + 1);
      assert Counter(fields, j + 1) == Count(Counter(fields, j), fields[j].value);
    }
  }

  lemma {:induction false} TakenAllIff(fields: seq<Field>)
    ensures Taken(fields, |fields| % 0x1_0000, 0) == Some(|fields|) <==> CounterFits(fields)
  {
    hide Taken;
    var n := |fields| % 0x1_0000;
    assert fields[0..] == fields;
    TakenByCounter(fields, n, 0);
    if Taken(fields, n, 0) == Some(|fields|) {
      assert forall k: nat | k < |fields| :: Counter(fields, k) < n;
    } else if Counter(fields, |fields|) >= n {
      var k: nat :| k < |fields| && Counter(fields, k) >= n;
    }
  }

  /** A message is decoded to itself exactly when the shared counter fits. */
  lemma {:induction false} RoundTripIff(fields: seq<Field>)
    requires MessageOk(fields)
    ensures Decoded(Encoded(fields)[2..]) == Got(fields, []) <==> CounterFits(fields)
    ensures !CounterFits(fields) ==>
              Decoded(Encoded(fields)[2..]).Got? ==> |Decoded(Encoded(fields)[2..]).value| < |fields|
  {
    hide MessageOk, FieldsWire, PullFields, Encoded, Decoded;
    DecodedOfEncoded(fields);
    assert fields[0..] == fields;
    TakenAllIff(fields);
    var t := Taken(fields, |fields| % 0x1_0000, 0);
    if t == Some(|fields|) {
      assert fields[..|fields|] == fields && fields[|fields|..] == [];
      EmptyWire();
    } else if t.Some? {
      assert |fields[..t.value]| < |fields|;
    }
  }

  lemma {:induction false} EmptyWire()
    ensures FieldsWire([]) == []
  {
  }

  lemma {:induction false} PlainCounter(fields: seq<Field>, k: nat)
    requires k <= |fields| && k < 0x1_0000_0000 && forall i | 0 <= i < k :: !fields[i].value.Many?
    ensures Counter(fields, k) == k
  {
    if k > 0 {
      PlainCounter(fields, k - 1);
    }
  }

  /** A message without arrays is decoded to itself exactly when its fields can be
      counted in 16 bits. */
  lemma {:induction false} PlainRoundTripIff(fields: seq<Field>)
    requires MessageOk(fields) && forall i | 0 <= i < |fields| :: !fields[i].value.Many?
    ensures Decoded(Encoded(fields)[2..]) == Got(fields, []) <==> |fields| < 0x1_0000
  {
    hide MessageOk, Encoded, Decoded, Counter;
    RoundTripIff(fields);
    var n := |fields| % 0x1_0000;
    PlainCounter(fields, n);
    if |fields| < 0x1_0000 {
      forall k: nat | k < |fields| ensures Counter(fields, k) < n {
        PlainCounter(fields, k);
      }
    }
  }

  /** With one array at the end, the array must have almost as many items as the
      message has fields. */
  lemma {:induction false} LastArrayRoundTripIff(fields: seq<Field>)
    requires MessageOk(fields) && 0 < |fields| < 0x1_0000 && fields[|fields| - 1].value.Many?
    requires |fields[|fields| - 1].value.items| < 0xffff_ffff
    requires forall i | 0 <= i < |fields| - 1 :: !fields[i].value.Many?
    ensures Decoded(Encoded(fields)[2..]) == Got(fields, []) <==>
              |fields[|fields| - 1].value.items| >= |fields| - 1
  {
    hide MessageOk, Encoded, Decoded;
    RoundTripIff(fields);
    forall k: nat | k < |fields| ensures Counter(fields, k) < |fields| {
      PlainCounter(fields, k);
    }
    assert Counter(fields, |fields|) == |fields[|fields| - 1].value.items| + 1;
  }

  /** A boolean followed by an empty array cannot be decoded. */
  lemma {:induction false} ArrayCounterexample()
    ensures var fields := [Field(1, One(Truth(true))), Field(2, Many(UINT8, []))];
            MessageOk(fields) && Decoded(Encoded(fields)[2..]) == Refused
  {
    hide PullFields, PullField, Number, BigEndian, FieldsWire;
    var fields := [Field(1, One(Truth(true))), Field(2, Many(UINT8, []))];
    DecodedOfEncoded(fields);
    assert Count(0, fields[0].value) == 1 && Count(1, fields[1].value) == 1;
    assert fields[1..][1..] == [] && fields[1..][0] == fields[1];
    assert Taken([], 2, 1) == None;
    assert Taken(fields[1..], 2, 1) == None;
  }
}
