// Custom data types: descriptors, their registration and their codec
// (src/common/msg.c).

module CustomData {
  import opened Common
  import opened Octets
  import opened MessageFormat
  import opened MessageBuffer
  import opened MessageCodec

  const MAX_ITEMS := 32 * 1024

  /** mrp_data_member_t; `link` is the offset of the count member of an array, and its
      index once the type is registered. */
  datatype Member = Member(offs: nat, kind: nat, guard: bool, link: nat, sentinel: Scalar)

  predicate IsCount(kind: nat) { 0x03 <= kind <= 0x08 }

  predicate Counted(m: Member) { IsArray(m.kind) && !m.guard }

  // ----- mrp_msg_register_type

  /** The first member at an offset, or the number of members. */
  function MemberAt(ms: seq<Member>, offs: nat, i: nat := 0): (j: nat)
    requires i <= |ms|
    ensures i <= j <= |ms| && (j < |ms| ==> ms[j].offs == offs)
    ensures forall k: nat | i <= k < j :: ms[k].offs != offs
    decreases |ms| - i
  {
    if i == |ms| || ms[i].offs == offs then i else MemberAt(ms, offs, i + 1)
  }

  /** A counted array can be registered if its count is an earlier member of a count type. */
  predicate Linkable(ms: seq<Member>, i: nat)
    requires i < |ms|
  {
    Counted(ms[i]) ==> var j := MemberAt(ms, ms[i].link); j < i && IsCount(ms[j].kind)
  }

  predicate AllLinkable(ms: seq<Member>) { forall i: nat | i < |ms| :: Linkable(ms, i) }

  function Resolved(ms: seq<Member>, i: nat): Member
    requires i < |ms|
  {
    if Counted(ms[i]) then ms[i].(link := MemberAt(ms, ms[i].link)) else ms[i]
  }

  /** A descriptor after its registration. */
  ghost predicate Ready(ms: seq<Member>) {
    |ms| < 0x1_0000 && forall i: nat | i < |ms| && Counted(ms[i]) :: ms[i].link < i && IsCount(ms[ms[i].link].kind)
  }

  /** Registration enumerates the members and links arrays to their counts. */
  method Register(ms: seq<Member>) returns (r: Option<seq<Member>>)
    requires |ms| < 0x1_0000
    ensures r.Some? <==> AllLinkable(ms)
    ensures r.Some? ==>
              |r.value| == |ms| && (forall i: nat | i < |ms| :: r.value[i] == Resolved(ms, i)) && Ready(r.value)
  {
    var done: seq<Member> := [];
    while |done| < |ms|
      invariant |done| <= |ms|
      invariant forall i: nat | i < |done| :: Linkable(ms, i) && done[i] == Resolved(ms, i)
    {
      var i := |done|;
      if Counted(ms[i]) {
        var j := FindMember(ms, ms[i].link);
        if j >= i || !IsCount(ms[j].kind) {
          assert !Linkable(ms, i);
          return None;
        }
      }
      done := done + [Resolved(ms, i)];
    }
    r := Some(done);
  }

  method FindMember(ms: seq<Member>, offs: nat) returns (i: nat)
    ensures i == MemberAt(ms, offs)
  {
    i := 0;
    while i < |ms| && ms[i].offs != offs
      invariant i <= |ms| && MemberAt(ms, offs) == MemberAt(ms, offs, i)
    {
      i := i + 1;
    }
  }

  /** The registered types: those with small tags by tag, the others in a list. */
  class Types {
    const direct: array<Option<seq<Member>>>
    var other: seq<(nat, seq<Member>)>

    ghost predicate Valid()
      reads this, direct
    {
      direct.Length == NDIRECT_TYPE && forall i | 0 <= i < |other| :: NDIRECT_TYPE < other[i].0 < 0x1_0000
    }

    /** What mrp_msg_find_type finds for a tag: of several types the one registered first. */
    ghost function Known(tag: nat): (r: Option<seq<Member>>)
      reads this, direct
      requires Valid()
    {
      if tag == 0 then None
      else if tag <= NDIRECT_TYPE then direct[tag - 1]
      else FirstWith(other, tag)
    }

    constructor ()
      ensures Valid() && fresh(direct) && forall tag :: Known(tag) == None
    {
      direct := new Option<seq<Member>>[NDIRECT_TYPE](_ => None);
      other := [];
    }

    /** mrp_msg_find_type */
    method FindType(tag: nat) returns (r: Option<seq<Member>>)
      requires Valid() && tag < 0x1_0000
      ensures r == Known(tag)
    {
      if tag == 0 {
        return None;
      }
      if tag <= NDIRECT_TYPE {
        return direct[tag - 1];
      }
      var i := 0;
      while i < |other|
        invariant i <= |other| && FirstWith(other, tag) == FirstWith(other[i..], tag)
      {
        if other[i].0 == tag {
          return Some(other[i].1);
        }
        i := i + 1;
      }
      r := None;
    }

    /** mrp_msg_register_type. A type with a large tag that is taken is accepted, but
        never found. */
    method RegisterType(tag: nat, ms: seq<Member>) returns (ok: bool)
      requires Valid() && tag < 0x1_0000 && |ms| < 0x1_0000
      modifies this, direct
      ensures Valid()
      ensures ok <==> tag != 0 && AllLinkable(ms) && (tag <= NDIRECT_TYPE ==> old(Known(tag)) == None)
      ensures forall t | t != tag || !ok :: Known(t) == old(Known(t))
      ensures ok && old(Known(tag)) != None ==> Known(tag) == old(Known(tag))
      ensures ok && old(Known(tag)) == None ==>
                && Known(tag).Some? && |Known(tag).value| == |ms| && Ready(Known(tag).value)
                && forall i: nat | i < |ms| :: Known(tag).value[i] == Resolved(ms, i)
    {
      if tag == 0 {
        return false;
      }
      var linked := Register(ms);
      if linked == None {
        return false;
      }
      if tag <= NDIRECT_TYPE {
        if direct[tag - 1] != None {
          return false;
        }
        direct[tag - 1] := linked;
      } else {
        forall t ensures FirstWith(other + [(tag, linked.value)], t)
                      == if FirstWith(other, t) == None && t == tag then linked else FirstWith(other, t) {
          FirstOfLonger(other, (tag, linked.value), t);
        }
        other := other + [(tag, linked.value)];
      }
      ok := true;
    }
  }

  const NDIRECT_TYPE := 256

  function FirstWith(list: seq<(nat, seq<Member>)>, tag: nat): Option<seq<Member>> {
    if list == [] then None else if list[0].0 == tag then Some(list[0].1) else FirstWith(list[1..], tag)
  }

  lemma {:induction false} FirstOfLonger(list: seq<(nat, seq<Member>)>, e: (nat, seq<Member>), tag: nat)
    ensures FirstWith(list + [e], tag)
         == if FirstWith(list, tag) == None && e.0 == tag then Some(e.1) else FirstWith(list, tag)
  {
    if list == [] {
      assert (list + [e])[1..] == [];
    } else {
      assert (list + [e])[1..] == list[1..] + [e];
      FirstOfLonger(list[1..], e, tag);
    }
  }

  // ----- array sizes

  /** counted_array_size */
  function CountedSize(kind: nat, v: Value): int {
    if !IsCount(kind) || !v.One? then -1
    else match v.scalar
      case Unsigned(_, n) => AsInt(n)
      case Signed(_, k) => k
      case _ => -1
  }

  /** guarded_array_size: up to and including the sentinel. */
  function GuardedSize(items: seq<Scalar>, sentinel: Scalar, cnt: nat := 0): (n: int)
    requires cnt <= |items|
    ensures n == -1 || (cnt < n <= |items| && n <= MAX_ITEMS && items[n - 1] == sentinel)
    decreases |items| - cnt
  {
    if cnt >= MAX_ITEMS || cnt >= |items| then -1
    else if items[cnt] == sentinel then cnt + 1
    else GuardedSize(items, sentinel, cnt + 1)
  }

  /** get_array_size */
  function ArraySize(ms: seq<Member>, data: seq<Value>, i: nat): int
    requires |data| == |ms|
  {
    if !(0 < i < |ms|) || !IsArray(ms[i].kind) then -1
    else if ms[i].guard then (if data[i].Many? then GuardedSize(data[i].items, ms[i].sentinel) else -1)
    else if ms[i].link < |ms| then CountedSize(ms[ms[i].link].kind, data[ms[i].link])
    else -1
  }

  /** A member of the kind its descriptor says; the count or the sentinel of an array is
      where its items end. */
  ghost predicate MemberOk(ms: seq<Member>, data: seq<Value>, i: nat)
    requires |data| == |ms| && i < |ms|
  {
    match data[i]
    case One(s) => ScalarOk(s) && ScalarType(s) == ms[i].kind
    case Blob(_) => false
    case Many(base, items) =>
      && IsBase(base) && ms[i].kind == ARRAY + base && ItemsOk(base, items) && |items| < 0x8000_0000
      && (if ms[i].guard
          then base != STRING && 0 < |items| <= MAX_ITEMS && items[|items| - 1] == ms[i].sentinel
               && forall k | 0 <= k < |items| - 1 :: items[k] != ms[i].sentinel
          else ms[i].link < |ms| && CountedSize(ms[ms[i].link].kind, data[ms[i].link]) == |items|)
  }

  ghost predicate DataOk(ms: seq<Member>, data: seq<Value>) {
    |data| == |ms| && forall i: nat | i < |ms| :: MemberOk(ms, data, i)
  }

  lemma {:induction false} SentinelFound(items: seq<Scalar>, sentinel: Scalar, cnt: nat)
    requires cnt < |items| <= MAX_ITEMS && items[|items| - 1] == sentinel
    requires forall k | 0 <= k < |items| - 1 :: items[k] != sentinel
    ensures GuardedSize(items, sentinel, cnt) == |items|
    decreases |items| - cnt
  {
    if cnt < |items| - 1 {
      SentinelFound(items, sentinel, cnt + 1);
    }
  }

  /** The size of an array is the number of its items, except that the first member has
      no size. */
  lemma {:induction false} SizeOfArray(ms: seq<Member>, data: seq<Value>, i: nat)
    requires |data| == |ms| && i < |ms| && MemberOk(ms, data, i) && data[i].Many?
    ensures IsArray(ms[i].kind) && ArraySize(ms, data, i) == if i == 0 then -1 else |data[i].items|
  {
    if ms[i].guard {
      SentinelFound(data[i].items, ms[i].sentinel, 0);
    }
  }

  // ----- mrp_data_encode

  ghost predicate ValuesOk(data: seq<Value>) { forall i: nat | i < |data| :: ValueOk(data[i]) }

  lemma {:induction false} DataValuesOk(ms: seq<Member>, data: seq<Value>)
    requires DataOk(ms, data)
    ensures ValuesOk(data)
  {
    forall i: nat | i < |data| ensures ValueOk(data[i]) {
      assert MemberOk(ms, data, i);
    }
  }

  function TaggedWire(tag: nat, v: Value): Octets
    requires ValueOk(v)
  {
    BigEndian(2, tag % 0x1_0000) + ValueWire(v)
  }

  /** Tag and value of the members from `i` on. */
  ghost function WireFrom(data: seq<Value>, i: nat): Octets
    requires i <= |data| && ValuesOk(data)
    decreases |data| - i
  {
    if i == |data| then [] else assert ValueOk(data[i]); TaggedWire(i + 1, data[i]) + WireFrom(data, i + 1)
  }

  ghost function WireUpTo(data: seq<Value>, i: nat): Octets
    requires i <= |data| && ValuesOk(data)
  {
    if i == 0 then [] else assert ValueOk(data[i - 1]); WireUpTo(data, i - 1) + TaggedWire(i, data[i - 1])
  }

  lemma {:induction false} WireJoins(data: seq<Value>, i: nat)
    requires i <= |data| && ValuesOk(data)
    ensures WireUpTo(data, i) + WireFrom(data, i) == WireFrom(data, 0)
  {
    hide ValueOk, ValueWire, TaggedWire;
    if i == 0 {
      assert [] + WireFrom(data, 0) == WireFrom(data, 0);
    } else {
      WireJoins(data, i - 1);
      assert WireUpTo(data, i) + WireFrom(data, i)
          == WireUpTo(data, i - 1) + (TaggedWire(i, data[i - 1]) + WireFrom(data, i));
    }
  }

  /** No size can be told for an array that is the first member. */
  predicate Encodable(ms: seq<Member>) { ms == [] || !IsArray(ms[0].kind) }

  /** Encoding succeeds exactly if the first member is not an array. */
  method Encode(ms: seq<Member>, data: seq<Value>) returns (r: Option<Octets>)
    requires DataOk(ms, data) && ValuesOk(data)
    ensures r.Some? <==> Encodable(ms)
    ensures r.Some? ==> r.value == WireFrom(data, 0)
  {
    hide ValueOk, ValueWire, MemberOk;
    var mb := new MsgBuf.Write(|ms| * (2 * 2 + 8));
    var i := 0;
    while i < |ms|
      invariant i <= |ms| && mb.Valid() && fresh(mb) && fresh(mb.buf)
      invariant mb.Written() == WireUpTo(data, i) && (i > 0 ==> Encodable(ms))
    {
      var ok := AddMember(mb, ms, data, i);
      if !ok {
        return None;
      }
      i := i + 1;
    }
    WireJoins(data, i);
    assert WireUpTo(data, i) + [] == WireUpTo(data, i);
    r := Some(mb.buf[..mb.p]);
  }

  /** One turn of the encoding loop. */
  method AddMember(mb: MsgBuf, ms: seq<Member>, data: seq<Value>, i: nat) returns (ok: bool)
    requires mb.Valid() && |data| == |ms| && i < |ms| && MemberOk(ms, data, i) && ValueOk(data[i])
    modifies mb, mb.buf
    ensures mb.Valid() && (mb.buf == old(mb.buf) || fresh(mb.buf))
    ensures ok <==> !(i == 0 && IsArray(ms[i].kind))
    ensures ok ==> mb.Written() == old(mb.Written()) + TaggedWire(i + 1, data[i])
  {
    hide ScalarOk, ScalarType, ScalarWire, ItemsOk, ItemsWire, ArraySize, GuardedSize, CountedSize, BigEndian;
    ghost var before := mb.Written();
    Add(mb, BigEndian(2, (i + 1) % 0x1_0000));
    ghost var head := mb.Written();
    ok := true;
    match data[i] {
      case One(s) =>
        ScalarKind(s);
        AddScalar(mb, s);
        assert head + ScalarWire(s) == before + TaggedWire(i + 1, data[i]);
      case Many(base, items) =>
        SizeOfArray(ms, data, i);
        var cnt := ArraySize(ms, data, i);
        if cnt < 0 {
          return false;
        }
        Add(mb, BigEndian(4, cnt));
        assert items[..cnt] == items;
        AddItems(mb, base, items[..cnt]);
        assert head + BigEndian(4, cnt) + ItemsWire(base, items) == before + TaggedWire(i + 1, data[i]);
    }
  }

  lemma {:induction false} ScalarKind(s: Scalar)
    requires ScalarOk(s)
    ensures !IsArray(ScalarType(s))
  {
  }

  // ----- mrp_data_decode

  /** member_type: tags are the numbers of the members, from 1. */
  function Lookup(ms: seq<Member>, tag: nat): (f: Option<nat>)
    ensures f.Some? ==> f.value < |ms|
  {
    if 1 <= tag <= |ms| then Some(tag - 1) else None
  }

  /** Reading the value of member `f` as number `i` of the message. */
  function PullMember(ms: seq<Member>, i: nat, f: nat, data: seq<Value>, b: Octets): Outcome<Value>
    requires |data| == |ms| && f < |ms|
  {
    var m := ms[f];
    if IsBase(m.kind) then
      (match PullScalar(m.kind, b) case Got(s, rest) => Got(One(s), rest) case Refused => Refused
        case Overrun => Overrun)
    else if m.kind == BLOB then PullBlob(b)
    else if !IsArray(m.kind) then Refused
    else match PullNumber(4, b)
      case Refused => Refused
      case Overrun => Overrun
      case Got(n, rest) =>
        if !m.guard && ArraySize(ms, data, i) != AsInt(n) then Refused
        else if !IsBase(m.kind - ARRAY) then Refused
        else match PullItems(m.kind - ARRAY, n, rest)
          case Refused => Refused
          case Overrun => Overrun
          case Got(items, left) => Got(Many(m.kind - ARRAY, items), left)
  }

  /** One turn of the decoding loop: the structure with one more member filled in. */
  function PullStep(ms: seq<Member>, i: nat, data: seq<Value>, b: Octets): (r: Outcome<seq<Value>>)
    requires |data| == |ms|
    ensures r.Got? ==> |r.value| == |ms|
  {
    match PullNumber(2, b)
    case Refused => Refused
    case Overrun => Overrun
    case Got(tag, rest) =>
      match Lookup(ms, tag)
      case None => Refused
      case Some(f) =>
        match PullMember(ms, i, f, data, rest)
        case Refused => Refused
        case Overrun => Overrun
        case Got(v, left) => Got(data[f := v], left)
  }

  /** The decoding loop from member number `i` on. */
  function PullMembers(ms: seq<Member>, i: nat, data: seq<Value>, b: Octets): Outcome<seq<Value>>
    requires |data| == |ms| && i <= |ms|
    decreases |ms| - i
  {
    if i == |ms| then Got(data, b)
    else match PullStep(ms, i, data, b)
      case Refused => Refused
      case Overrun => Overrun
      case Got(next, rest) => PullMembers(ms, i + 1, next, rest)
  }

  /** The structure before decoding: all octets are 0. */
  function Blank(ms: seq<Member>): (data: seq<Value>)
    ensures |data| == |ms|
  {
    seq(|ms|, i requires 0 <= i < |ms| =>
      if IsArray(ms[i].kind) then Many(ms[i].kind - ARRAY, []) else One(Unsigned(1, 0)))
  }

  /** The count of an array was decoded before the array, so the check of the announced
      size succeeds. */
  lemma {:induction false} CountIsThere(ms: seq<Member>, data: seq<Value>, part: seq<Value>, i: nat)
    requires Ready(ms) && DataOk(ms, data) && i < |ms| && data[i].Many? && Counted(ms[i])
    requires |part| == |ms| && part[..i] == data[..i]
    ensures i > 0 && ArraySize(ms, part, i) == |data[i].items| == AsInt(|data[i].items|)
  {
    assert MemberOk(ms, data, i);
    var j := ms[i].link;
    assert part[j] == part[..i][j] == data[..i][j] == data[j];
  }

  /** An array that announces another number of items than its count says is refused, and so
      are tags of no member. */
  lemma {:induction false} WrongCountRefused(ms: seq<Member>, part: seq<Value>, i: nat, w: nat, cnt: nat, n: nat,
                                             rest: Octets)
    requires |part| == |ms| && 0 < i < |ms| && IsArray(ms[i].kind) && !IsBase(ms[i].kind) && ms[i].kind != BLOB
    requires !ms[i].guard && ms[i].link < |ms| && IsCount(ms[ms[i].link].kind)
    requires part[ms[i].link] == One(Unsigned(w, cnt)) && cnt < 0x8000_0000 && n < 0x8000_0000
    ensures n != cnt ==> PullMember(ms, i, i, part, BigEndian(4, n) + rest) == Refused
  {
    hide Number, BigEndian, PullItems, PullScalar;
    Powers();
    LeadingNumber(4, n, rest);
  }

  lemma {:induction false} WrongTagRefused(ms: seq<Member>, i: nat, part: seq<Value>, tag: nat, rest: Octets)
    requires |part| == |ms| && tag < 0x1_0000
    ensures tag == 0 || tag > |ms| ==> PullStep(ms, i, part, BigEndian(2, tag) + rest) == Refused
  {
    hide Number, BigEndian, PullMember;
    Powers();
    LeadingNumber(2, tag, rest);
  }

  lemma {:induction false} MemberOfData(ms: seq<Member>, data: seq<Value>, i: nat)
    requires DataOk(ms, data) && i < |ms|
    ensures |data| == |ms| && MemberOk(ms, data, i)
  {
  }

  lemma {:induction false} MemberBack(ms: seq<Member>, data: seq<Value>, part: seq<Value>, i: nat, rest: Octets)
    requires Ready(ms) && DataOk(ms, data) && i < |ms| && ValueOk(data[i])
    requires |part| == |ms| && part[..i] == data[..i]
    ensures PullMember(ms, i, i, part, ValueWire(data[i]) + rest) == Got(data[i], rest)
  {
    hide ScalarOk, ScalarWire, PullScalar, ItemsWire, PullItems, PullNumber, BigEndian, ArraySize, DataOk, Ready,
      ItemsOk, GuardedSize, CountedSize, ScalarType;
    MemberOfData(ms, data, i);
    match data[i] {
      case One(s) =>
        ScalarBack(s, rest);
      case Many(base, items) =>
        ArrayKind(base);
        CountBack(base, items, rest);
        if Counted(ms[i]) {
          CountIsThere(ms, data, part, i);
        }
        ItemsBack(base, items, rest);
    }
  }

  /** What mrp_data_encode writes for a blob: in the place of the length it writes the low
      word of the address. */
  function BlobWire(address: nat, d: Octets): Octets { BigEndian(4, address % 0x1_0000_0000) + d }

  /** So a blob survives exactly if that word happens to be its length. */
  lemma {:induction false} BlobBackIff(ms: seq<Member>, part: seq<Value>, i: nat, f: nat, address: nat, d: Octets,
                                       rest: Octets)
    requires |part| == |ms| && f < |ms| && ms[f].kind == BLOB && |d| < 0x1_0000_0000
    ensures PullMember(ms, i, f, part, BlobWire(address, d) + rest) == Got(Blob(d), rest)
            <==> address % 0x1_0000_0000 == |d|
  {
    Powers();
    var n := address % 0x1_0000_0000;
    assert BlobWire(address, d) + rest == BigEndian(4, n) + (d + rest);
    LeadingNumber(4, n, d + rest);
    hide PullNumber, BigEndian;
    if n == |d| {
      assert (d + rest)[..n] == d && (d + rest)[n..] == rest;
    }
  }

  lemma {:induction false} ArrayKind(base: nat)
    requires IsBase(base)
    ensures IsArray(ARRAY + base) && !IsBase(ARRAY + base)
  {
  }

  lemma {:induction false} CountBack(base: nat, items: seq<Scalar>, rest: Octets)
    requires ItemsOk(base, items) && IsBase(base) && |items| < 0x1_0000_0000
    ensures ValueOk(Many(base, items))
    ensures PullNumber(4, ValueWire(Many(base, items)) + rest) == Got(|items|, ItemsWire(base, items) + rest)
  {
    hide ItemsOk, ItemsWire;
    Powers();
    var tail := ItemsWire(base, items) + rest;
    assert ValueWire(Many(base, items)) + rest == BigEndian(4, |items|) + tail;
    LeadingNumber(4, |items|, tail);
  }

  lemma {:induction false} MembersBack(ms: seq<Member>, data: seq<Value>, part: seq<Value>, i: nat, rest: Octets)
    requires Ready(ms) && DataOk(ms, data) && ValuesOk(data) && i <= |ms| == |data|
    requires |part| == |ms| && part[..i] == data[..i]
    ensures PullMembers(ms, i, part, WireFrom(data, i) + rest) == Got(data, rest)
    decreases |ms| - i
  {
    hide DataOk, ValueOk, ValueWire, PullMember, Number, BigEndian, Ready;
    if i == |ms| {
      assert part == part[..i] && data == data[..i];
      assert WireFrom(data, i) + rest == rest;
    } else {
      assert ValueOk(data[i]);
      Powers();
      var tail := WireFrom(data, i + 1) + rest;
      var body := ValueWire(data[i]) + tail;
      assert WireFrom(data, i) + rest == BigEndian(2, (i + 1) % 0x1_0000) + body;
      assert i + 1 < 0x1_0000 by { SizeOfReady(ms); }
      LeadingNumber(2, i + 1, body);
      MemberBack(ms, data, part, i, tail);
      var next := part[i := data[i]];
      assert next[..i + 1] == part[..i] + [data[i]] == data[..i + 1];
      MembersBack(ms, data, next, i + 1, rest);
    }
  }

  lemma {:induction false} SizeOfReady(ms: seq<Member>)
    requires Ready(ms)
    ensures |ms| < 0x1_0000
  {
  }

  /** Decoding what was encoded yields the same data and consumes exactly its octets. */
  lemma {:induction false} DataRoundTrip(ms: seq<Member>, data: seq<Value>, rest: Octets)
    requires Ready(ms) && DataOk(ms, data)
    ensures ValuesOk(data) && PullMembers(ms, 0, Blank(ms), WireFrom(data, 0) + rest) == Got(data, rest)
  {
    DataValuesOk(ms, data);
    MembersBack(ms, data, Blank(ms), 0, rest);
  }

  lemma {:induction false} PullMembersStep(ms: seq<Member>, i: nat, data: seq<Value>, b: Octets)
    requires |data| == |ms| && i <= |ms|
    ensures PullMembers(ms, i, data, b)
         == if i == |ms| then Got(data, b)
            else match PullStep(ms, i, data, b)
              case Refused => Refused
              case Overrun => Overrun
              case Got(next, rest) => PullMembers(ms, i + 1, next, rest)
  {
  }

  method Decode(ms: seq<Member>, bytes: array<byte>) returns (r: Result<seq<Value>>, left: nat)
    requires |ms| < 0x1_0000
    ensures match PullMembers(ms, 0, Blank(ms), bytes[..])
            case Got(data, rest) => r == Ok(data) && left == |rest|
            case Refused => r.NoData?
            case Overrun => r.Beyond?
  {
    hide PullMembers, PullStep, Blank;
    var data, i := Blank(ms), 0;
    var mb := new MsgBuf.Read(bytes);
    left := bytes.Length;
    while i < |ms|
      invariant i <= |ms| == |data| && mb.Valid() && fresh(mb) && mb.buf == bytes
      invariant PullMembers(ms, 0, Blank(ms), bytes[..]) == PullMembers(ms, i, data, mb.Rest())
    {
      PullMembersStep(ms, i, data, mb.Rest());
      var next := TakeStep(mb, ms, i, data);
      if !next.Ok? {
        return next, left;
      }
      data, i := next.value, i + 1;
    }
    PullMembersStep(ms, i, data, mb.Rest());
    r, left := Ok(data), bytes.Length - mb.p;
  }

  method TakeStep(mb: MsgBuf, ms: seq<Member>, i: nat, data: seq<Value>) returns (r: Result<seq<Value>>)
    requires mb.Valid() && |data| == |ms|
    modifies mb
    ensures mb.Valid() && mb.buf == old(mb.buf) && Agrees(PullStep(ms, i, data, old(mb.Rest())), r, mb.Rest())
    ensures r.Ok? ==> |r.value| == |ms|
  {
    hide PullMember, Number;
    var tag := TakeNumber(mb, 2);
    if !tag.Ok? {
      return NoData;
    }
    var f := Lookup(ms, tag.value);
    if f.None? {
      return NoData;
    }
    var v := TakeMember(mb, ms, i, f.value, data);
    r := match v case Ok(value) => Ok(data[f.value := value]) case NoData => NoData case Beyond => Beyond;
  }

  method TakeMember(mb: MsgBuf, ms: seq<Member>, i: nat, f: nat, data: seq<Value>) returns (r: Result<Value>)
    requires mb.Valid() && |data| == |ms| && f < |ms|
    modifies mb
    ensures mb.Valid() && mb.buf == old(mb.buf) && Agrees(PullMember(ms, i, f, data, old(mb.Rest())), r, mb.Rest())
  {
    hide PullScalar, PullItems, Number, ArraySize;
    var m := ms[f];
    if IsBase(m.kind) {
      var s := TakeScalar(mb, m.kind);
      return match s case Ok(v) => Ok(One(v)) case NoData => NoData case Beyond => Beyond;
    }
    if m.kind == BLOB {
      var len := TakeNumber(mb, 4);
      if !len.Ok? {
        return NoData;
      }
      var d := Take(mb, len.value);
      return match d case Ok(bytes) => Ok(Blob(bytes)) case NoData => NoData case Beyond => Beyond;
    }
    if !IsArray(m.kind) {
      return NoData;
    }
    var n := TakeNumber(mb, 4);
    if !n.Ok? || (!m.guard && ArraySize(ms, data, i) != AsInt(n.value)) || !IsBase(m.kind - ARRAY) {
      return NoData;
    }
    var items, j := TakeItems(mb, m.kind - ARRAY, n.value);
    r := match items case Ok(s) => Ok(Many(m.kind - ARRAY, s)) case NoData => NoData case Beyond => Beyond;
  }
}
