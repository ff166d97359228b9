// The default message codec (src/common/msg.c).

module MessageCodec {
  import opened Common
  import opened Octets
  import opened MessageFormat
  import opened MessageBuffer

  // ----- mrp_msg_default_encode

  lemma {:induction false} ItemsWireStep(base: nat, items: seq<Scalar>, k: nat)
    requires ItemsOk(base, items) && k < |items|
    ensures ItemsWire(base, items[..k + 1]) == ItemsWire(base, items[..k]) + ScalarWire(items[k])
  {
    hide ScalarOk, ScalarType, ScalarWire;
    assert items[..k + 1][0] == items[0] && items[..k + 1][1..] == items[1..][..k];
    if k > 0 {
      ItemsWireStep(base, items[1..], k - 1);
      assert items[..k][0] == items[0] && items[..k][1..] == items[1..][..k - 1];
    }
  }

  lemma {:induction false} FieldsWireStep(fields: seq<Field>, k: nat)
    requires MessageOk(fields) && k < |fields|
    ensures FieldsWire(fields[..k + 1]) == FieldsWire(fields[..k]) + FieldWire(fields[k])
  {
    hide FieldOk, FieldWire;
    assert fields[..k + 1][0] == fields[0] && fields[..k + 1][1..] == fields[1..][..k];
    if k > 0 {
      FieldsWireStep(fields[1..], k - 1);
      assert fields[..k][0] == fields[0] && fields[..k][1..] == fields[1..][..k - 1];
    }
  }

  /** MRP_MSGBUF_PUSH without alignment. */
  method Add(mb: MsgBuf, data: Octets)
    requires mb.Valid() && |data| < MAX_ITEM
    modifies mb, mb.buf
    ensures mb.Valid() && (mb.buf == old(mb.buf) || fresh(mb.buf))
    ensures mb.Written() == old(mb.Written()) + data
  {
    mb.Push(data, 1);
    assert Padding(old(mb.p), 1) == 0 && Zeros(0) == [];
  }

  method AddScalar(mb: MsgBuf, s: Scalar)
    requires mb.Valid() && ScalarOk(s)
    modifies mb, mb.buf
    ensures mb.Valid() && (mb.buf == old(mb.buf) || fresh(mb.buf))
    ensures mb.Written() == old(mb.Written()) + ScalarWire(s)
  {
    ghost var before := mb.Written();
    match s {
      case Text(c) =>
        Add(mb, BigEndian(4, |c| + 1));
        Add(mb, c + [0]);
        assert before + BigEndian(4, |c| + 1) + (c + [0]) == before + ScalarWire(s);
      case Truth(on) => Add(mb, BigEndian(4, if on then 1 else 0));
      case Unsigned(w, n) => Add(mb, BigEndian(w, n));
      case Signed(w, v) => Add(mb, BigEndian(w, Complement(w, v)));
      case Double(raw) => Add(mb, raw);
    }
  }

  lemma {:induction false} NoItems(base: nat)
    ensures ItemsWire(base, []) == []
  {
  }

  method AddItems(mb: MsgBuf, base: nat, items: seq<Scalar>)
    requires mb.Valid() && ItemsOk(base, items)
    modifies mb, mb.buf
    ensures mb.Valid() && (mb.buf == old(mb.buf) || fresh(mb.buf))
    ensures mb.Written() == old(mb.Written()) + ItemsWire(base, items)
  {
    hide ScalarOk, ScalarType, ScalarWire, ItemsWire;
    ghost var before := mb.Written();
    NoItems(base);
    var i := 0;
    while i < |items|
      invariant i <= |items| && mb.Valid() && (mb.buf == old(mb.buf) || fresh(mb.buf))
      invariant mb.Written() == before + ItemsWire(base, items[..i])
    {
      AddScalar(mb, items[i]);
      ItemsWireStep(base, items, i);
      assert before + ItemsWire(base, items[..i]) + ScalarWire(items[i]) == before + ItemsWire(base, items[..i + 1]);
      i := i + 1;
    }
    assert items[..i] == items;
  }

  method AddField(mb: MsgBuf, f: Field)
    requires mb.Valid() && FieldOk(f)
    modifies mb, mb.buf
    ensures mb.Valid() && (mb.buf == old(mb.buf) || fresh(mb.buf))
    ensures mb.Written() == old(mb.Written()) + FieldWire(f)
  {
    hide ValueOk, ValueType, ValueWire, BigEndian;
    ghost var before := mb.Written();
    Add(mb, BigEndian(2, f.tag));
    Add(mb, BigEndian(2, ValueType(f.value)));
    AddValue(mb, f.value);
    assert before + BigEndian(2, f.tag) + BigEndian(2, ValueType(f.value)) + ValueWire(f.value)
      == before + FieldWire(f);
  }

  method AddValue(mb: MsgBuf, v: Value)
    requires mb.Valid() && ValueOk(v)
    modifies mb, mb.buf
    ensures mb.Valid() && (mb.buf == old(mb.buf) || fresh(mb.buf))
    ensures mb.Written() == old(mb.Written()) + ValueWire(v)
  {
    hide ScalarOk, ScalarType, ScalarWire, ItemsOk, ItemsWire, BigEndian;
    ghost var head := mb.Written();
    match v {
      case One(s) =>
        AddScalar(mb, s);
      case Blob(d) =>
        Add(mb, BigEndian(4, |d|));
        Add(mb, d);
        assert head + BigEndian(4, |d|) + d == head + ValueWire(v);
      case Many(base, items) =>
        Add(mb, BigEndian(4, |items|));
        AddItems(mb, base, items);
        assert head + BigEndian(4, |items|) + ItemsWire(base, items) == head + ValueWire(v);
    }
  }

  method Encode(fields: seq<Field>) returns (data: Octets)
    requires MessageOk(fields)
    ensures data == Encoded(fields)
    ensures |data| >= 4 && data[0] == 0 && data[1] == 0 && |fields| % 0x1_0000 == 0x100 * (data[2] as int) + data[3]
  {
    hide FieldOk, FieldWire;
    var mb := new MsgBuf.Write(|fields| * (2 * 2 + 8));
    Add(mb, BigEndian(2, TAG_DEFAULT));
    Add(mb, BigEndian(2, |fields| % 0x1_0000));
    ghost var head := mb.Written();
    var k := 0;
    while k < |fields|
      invariant k <= |fields| && mb.Valid() && fresh(mb) && fresh(mb.buf)
      invariant mb.Written() == head + FieldsWire(fields[..k])
    {
      AddField(mb, fields[k]);
      FieldsWireStep(fields, k);
      assert head + FieldsWire(fields[..k]) + FieldWire(fields[k]) == head + FieldsWire(fields[..k + 1]);
      k := k + 1;
    }
    assert fields[..k] == fields && head + FieldsWire(fields) == Encoded(fields);
    data := mb.buf[..mb.p];
    MessageOctets(fields);
  }

  // ----- mrp_msg_default_decode

  datatype Result<T> = Ok(value: T) | NoData | Beyond

  ghost predicate Agrees<T>(o: Outcome<T>, r: Result<T>, rest: Octets) {
    match o
    case Got(v, left) => r == Ok(v) && rest == left
    case Refused => r.NoData?
    case Overrun => r.Beyond?
  }

  /** MRP_MSGBUF_PULL_DATA without alignment. */
  method Take(mb: MsgBuf, n: nat) returns (r: Result<Octets>)
    requires mb.Valid()
    modifies mb
    ensures mb.Valid() && mb.buf == old(mb.buf) && Agrees(PullOctets(n, old(mb.Rest())), r, mb.Rest())
  {
    ghost var rest := mb.Rest();
    var at := mb.Pull(n, 1);
    assert Padding(old(mb.p), 1) == 0;
    match at {
      case None => r := NoData;
      case Some(a) =>
        r := Ok(mb.buf[a..a + n]);
        assert mb.buf[a..a + n] == rest[..n] && mb.Rest() == rest[n..];
    }
  }

  /** be16toh, be32toh or be64toh of what MRP_MSGBUF_PULL yields. */
  method TakeNumber(mb: MsgBuf, w: nat) returns (r: Result<nat>)
    requires mb.Valid()
    modifies mb
    ensures mb.Valid() && mb.buf == old(mb.buf) && Agrees(PullNumber(w, old(mb.Rest())), r, mb.Rest())
  {
    var d := Take(mb, w);
    r := match d case Ok(b) => Ok(Number(b)) case NoData => NoData case Beyond => Beyond;
  }

  /** A string: the copy runs up to the first NUL. */
  method TakeText(mb: MsgBuf) returns (r: Result<Scalar>)
    requires mb.Valid()
    modifies mb
    ensures mb.Valid() && mb.buf == old(mb.buf) && Agrees(PullText(old(mb.Rest())), r, mb.Rest())
  {
    var len := TakeNumber(mb, 4);
    if !len.Ok? {
      return if len.NoData? then NoData else Beyond;
    }
    if len.value == 0 {
      return Ok(Text([]));
    }
    ghost var rest := mb.Rest();
    var start := mb.p;
    var d := Take(mb, len.value);
    if !d.Ok? {
      return NoData;
    }
    assert mb.buf[start..] == rest;
    var copy := Duplicate(mb.buf[start..]);
    r := match copy case None => Beyond case Some(c) => Ok(Text(c));
  }

  method TakeScalar(mb: MsgBuf, t: nat) returns (r: Result<Scalar>)
    requires mb.Valid()
    modifies mb
    ensures mb.Valid() && mb.buf == old(mb.buf) && Agrees(PullScalar(t, old(mb.Rest())), r, mb.Rest())
  {
    hide PullText, Number;
    if t == STRING {
      r := TakeText(mb);
    } else if t == BOOL {
      var n := TakeNumber(mb, 4);
      r := match n case Ok(v) => Ok(Truth(v != 0)) case NoData => NoData case Beyond => Beyond;
    } else if UINT8 <= t < DOUBLE {
      var w := WidthOf(t);
      var n := TakeNumber(mb, w);
      r := match n
           case Ok(v) => Ok(if t % 2 == 1 then Unsigned(w, v) else Signed(w, FromComplement(w, v)))
           case NoData => NoData
           case Beyond => Beyond;
    } else if t == DOUBLE {
      var d := Take(mb, 8);
      r := match d case Ok(raw) => Ok(Double(raw)) case NoData => NoData case Beyond => Beyond;
    } else {
      r := NoData;
    }
  }

  lemma {:induction false} JoinJoin<T>(a: seq<T>, b: seq<T>, o: Outcome<seq<T>>)
    ensures Join(a, Join(b, o)) == Join(a + b, o) && Join([], o) == o
  {
    if o.Got? {
      assert a + (b + o.value) == a + b + o.value && [] + o.value == o.value;
    }
  }

  /** The loop over the items of an array; `i` is the counter of the caller's loop. */
  method TakeItems(mb: MsgBuf, base: nat, n: nat) returns (r: Result<seq<Scalar>>, i: nat)
    requires mb.Valid()
    modifies mb
    ensures mb.Valid() && mb.buf == old(mb.buf) && Agrees(PullItems(base, n, old(mb.Rest())), r, mb.Rest())
    ensures r.Ok? ==> i == n
  {
    hide PullScalar;
    var items: seq<Scalar> := [];
    i := 0;
    JoinJoin([], [], PullItems(base, n, mb.Rest()));
    while i < n
      invariant i <= n && mb.Valid() && mb.buf == old(mb.buf)
      invariant PullItems(base, n, old(mb.Rest())) == Join(items, PullItems(base, n - i, mb.Rest()))
    {
      ghost var rest := mb.Rest();
      var s := TakeScalar(mb, base);
      if !s.Ok? {
        return if s.NoData? then NoData else Beyond, i;
      }
      JoinJoin(items, [s.value], PullItems(base, n - i - 1, mb.Rest()));
      items := items + [s.value];
      i := i + 1;
    }
    assert items + [] == items;
    r := Ok(items);
  }

  /** One turn of the decoding loop up to the increment; `i` is its counter. */
  method TakeField(mb: MsgBuf, i: nat) returns (r: Result<Field>, i': nat)
    requires mb.Valid()
    modifies mb
    ensures mb.Valid() && mb.buf == old(mb.buf) && Agrees(PullField(old(mb.Rest())), r, mb.Rest())
    ensures r.Ok? ==> (i' + 1) % 0x1_0000_0000 == Count(i, r.value.value)
  {
    hide PullValue, Number;
    i' := i;
    var tag := TakeNumber(mb, 2);
    if !tag.Ok? {
      return NoData, i;
    }
    var t := TakeNumber(mb, 2);
    if !t.Ok? {
      return NoData, i;
    }
    var v;
    v, i' := TakeValue(mb, t.value, i);
    r := match v case Ok(value) => Ok(Field(tag.value, value)) case NoData => NoData case Beyond => Beyond;
  }

  method TakeValue(mb: MsgBuf, t: nat, i: nat) returns (r: Result<Value>, i': nat)
    requires mb.Valid()
    modifies mb
    ensures mb.Valid() && mb.buf == old(mb.buf) && Agrees(PullValue(t, old(mb.Rest())), r, mb.Rest())
    ensures r.Ok? ==> i' == if r.value.Many? then |r.value.items| else i
  {
    hide PullScalar, PullItems, Number;
    i' := i;
    if IsBase(t) {
      var s := TakeScalar(mb, t);
      r := match s case Ok(v) => Ok(One(v)) case NoData => NoData case Beyond => Beyond;
    } else if t == BLOB {
      var n := TakeNumber(mb, 4);
      if !n.Ok? {
        return NoData, i;
      }
      var d := Take(mb, n.value);
      r := match d case Ok(data) => Ok(Blob(data)) case NoData => NoData case Beyond => Beyond;
    } else if IsArray(t) {
      var n := TakeNumber(mb, 4);
      if !n.Ok? || !IsBase(t - ARRAY) {
        return NoData, i;
      }
      var items;
      items, i' := TakeItems(mb, t - ARRAY, n.value);
      r := match items case Ok(s) => Ok(Many(t - ARRAY, s)) case NoData => NoData case Beyond => Beyond;
    } else {
      r := NoData;
    }
  }

  lemma {:induction false} PullFieldsStep(nfield: nat, i: nat, b: Octets)
    ensures PullFields(nfield, i, b)
         == if i >= nfield then Got([], b)
            else match PullField(b)
              case Refused => Refused
              case Overrun => Overrun
              case Got(f, rest) => Join([f], PullFields(nfield, Count(i, f.value), rest))
  {
  }

  lemma {:induction false} JoinStops<T>(front: seq<T>)
    ensures Join(front, Refused) == Refused && Join(front, Overrun) == Overrun
  {
  }

  lemma {:induction false} JoinEnds<T>(front: seq<T>, rest: Octets)
    ensures Join(front, Got([], rest)) == Got(front, rest)
  {
    assert front + [] == front;
  }

  method Decode(data: array<byte>) returns (r: Result<seq<Field>>)
    ensures match Decoded(data[..])
            case Got(fields, _) => r == Ok(fields)
            case Refused => r.NoData?
            case Overrun => r.Beyond?
  {
    hide PullFields, PullField, Number, Count, Join;
    var mb := new MsgBuf.Read(data);
    var nfield := TakeNumber(mb, 2);
    if !nfield.Ok? {
      return NoData;
    }
    ghost var start := mb.Rest();
    var fields, i: nat := [], 0;
    JoinJoin([], [], PullFields(nfield.value, 0, start));
    while i < nfield.value
      invariant mb.Valid() && fresh(mb) && mb.buf == data
      invariant PullFields(nfield.value, 0, start) == Join(fields, PullFields(nfield.value, i, mb.Rest()))
      decreases |mb.Rest()|
    {
      PullFieldsStep(nfield.value, i, mb.Rest());
      var f, i' := TakeField(mb, i);
      if !f.Ok? {
        JoinStops<Field>(fields);
        return if f.NoData? then NoData else Beyond;
      }
      i := (i' + 1) % 0x1_0000_0000;
      JoinJoin(fields, [f.value], PullFields(nfield.value, i, mb.Rest()));
      fields := fields + [f.value];
    }
    PullFieldsStep(nfield.value, i, mb.Rest());
    JoinEnds(fields, mb.Rest());
    r := Ok(fields);
  }
}
