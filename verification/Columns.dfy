// Column layout, the creation of an index over columns and the lookup by key
// (src/murphy-db/mdb/table.c, index.c, column.c).

module Columns {
  import opened Common
  import opened LinkedLists
  import opened Keys
  import opened SortedSequence
  import opened ChainedHash
  import opened TableStore
  import opened RowTable

  const MAX_INDEX := 8192

  datatype Kind = Varchar | Integer | Unsignd | Floating

  /** A definition with a name; the length counts for strings only. */
  datatype Definition = Definition(kind: Kind, length: nat)

  datatype Column = Column(kind: Kind, offset: nat, length: nat)

  function Width(d: Definition): (w: nat)
    ensures w > 0
  {
    match d.kind
    case Varchar => d.length + 1
    case Integer => 4
    case Unsignd => 4
    case Floating => 8
  }

  function Alignment(d: Definition): (a: nat)
    ensures a == 1 || a == 4
  {
    if d.kind.Varchar? then 1 else 4
  }

  function Aligned(at: nat, align: nat): (r: nat)
    requires align == 1 || align == 4
    ensures at <= r < at + align && r % align == 0
  {
    (at + (align - 1)) / align * align
  }

  /** Columns follow one another without overlap inside `size` bytes. */
  ghost predicate LaidOut(columns: seq<Column>, size: nat) {
    && (forall i | 0 <= i < |columns| :: columns[i].length > 0 && columns[i].offset + columns[i].length <= size)
    && (forall i, j | 0 <= i < j < |columns| :: columns[i].offset + columns[i].length <= columns[j].offset)
  }

  /** Where the last column ends. */
  function EndOf(columns: seq<Column>): nat {
    if columns == [] then 0 else columns[|columns| - 1].offset + columns[|columns| - 1].length
  }

  /** Every column lies at the first place behind the one before it that suits its type. */
  ghost predicate Placed(defs: seq<Definition>, columns: seq<Column>) {
    && |columns| <= |defs|
    && forall i | 0 <= i < |columns| ::
         columns[i] == Column(defs[i].kind, Aligned(EndOf(columns[..i]), Alignment(defs[i])), Width(defs[i]))
  }

  lemma {:induction false} PlaceNext(defs: seq<Definition>, columns: seq<Column>)
    requires Placed(defs, columns) && LaidOut(columns, EndOf(columns)) && |columns| < |defs|
    ensures var d := defs[|columns|];
            var longer := columns + [Column(d.kind, Aligned(EndOf(columns), Alignment(d)), Width(d))];
            Placed(defs, longer) && LaidOut(longer, EndOf(longer))
  {
    hide Aligned, Width, Alignment, EndOf, LaidOut;
    var n := |columns|;
    var d := defs[n];
    var c := Column(d.kind, Aligned(EndOf(columns), Alignment(d)), Width(d));
    var longer := columns + [c];
    assert forall i | 0 <= i <= n :: longer[..i] == columns[..i];
    assert columns[..n] == columns;
    OneMoreColumn(columns, c);
  }

  lemma {:induction false} OneMoreColumn(columns: seq<Column>, c: Column)
    requires LaidOut(columns, EndOf(columns)) && EndOf(columns) <= c.offset && c.length > 0
    ensures LaidOut(columns + [c], EndOf(columns + [c]))
  {
    var longer := columns + [c];
    assert EndOf(longer) == c.offset + c.length;
    forall i | 0 <= i < |longer| ensures longer[i].length > 0 && longer[i].offset + longer[i].length <= EndOf(longer) {
      assert i < |columns| ==> longer[i] == columns[i];
    }
  }

  /** A string takes a byte more than its length and starts where the column before it ends;
      a number takes 4 bytes, or 8 with a point, and starts at the next multiple of 4. */
  lemma {:induction false} PlacedMeans(defs: seq<Definition>, columns: seq<Column>, i: nat)
    requires Placed(defs, columns) && i < |columns|
    ensures columns[i].kind == defs[i].kind
    ensures var end := if i == 0 then 0 else columns[i - 1].offset + columns[i - 1].length;
            var c := columns[i];
            if c.kind.Varchar? then c.offset == end && c.length == defs[i].length + 1
            else end <= c.offset < end + 4 && c.offset % 4 == 0 && c.length == if c.kind.Floating? then 8 else 4
  {
    assert columns[i] == Column(defs[i].kind, Aligned(EndOf(columns[..i]), Alignment(defs[i])), Width(defs[i]));
    assert i > 0 ==> columns[..i][i - 1] == columns[i - 1];
  }

  /** The layout loop of mdb_table_create. */
  method LayOut(defs: seq<Definition>) returns (columns: seq<Column>, dlgh: nat)
    ensures |columns| == |defs| && Placed(defs, columns) && LaidOut(columns, dlgh)
    ensures dlgh == Aligned(EndOf(columns), 4) && dlgh % 4 == 0
  {
    hide Placed, LaidOut, Aligned;
    columns, dlgh := [], 0;
    NothingPlaced(defs);
    while |columns| < |defs|
      invariant |columns| <= |defs| && Placed(defs, columns) && LaidOut(columns, dlgh) && dlgh == EndOf(columns)
    {
      var d := defs[|columns|];
      PlaceNext(defs, columns);
      var c := Column(d.kind, Aligned(dlgh, Alignment(d)), Width(d));
      columns := columns + [c];
      dlgh := c.offset + c.length;
    }
    dlgh := Aligned(dlgh, 4);
    MoreRoom(columns, EndOf(columns), dlgh);
  }

  lemma {:induction false} NothingPlaced(defs: seq<Definition>)
    ensures Placed(defs, []) && LaidOut([], 0)
  {
  }

  lemma {:induction false} MoreRoom(columns: seq<Column>, size: nat, more: nat)
    requires LaidOut(columns, size) && size <= more
    ensures LaidOut(columns, more)
  {
  }

  // ----- values in columns

  /** What a caller hands over for a column: a C string or a number. */
  datatype Var = Chars(chars: Bytes) | Number(n: int) | Double(octets: Bytes)

  predicate VarFits(c: Column, v: Var) {
    match c.kind
    case Varchar => v.Chars? && c.length > 0 && forall i | 0 <= i < |v.chars| :: v.chars[i] != 0
    case Integer => v.Number? && c.length == 4 && -0x8000_0000 <= v.n < 0x8000_0000
    case Unsignd => v.Number? && c.length == 4 && 0 <= v.n < 0x1_0000_0000
    case Floating => v.Double?
  }

  /** The four bytes of a number in memory, lowest first, negative ones in two's complement. */
  function Stored(n: int): (b: Bytes)
    ensures |b| == 4
  {
    var u := n % 0x1_0000_0000;
    var v := u / 0x100;
    var w := v / 0x100;
    [u % 0x100, v % 0x100, w % 0x100, w / 0x100]
  }

  /** The bytes a column holds for a value: strings are cut and padded with zeroes. */
  function Canonical(c: Column, v: Var): (b: Bytes)
    requires VarFits(c, v) && !c.kind.Floating?
    ensures |b| == c.length
  {
    if v.Number? then Stored(v.n)
    else seq(c.length, i requires 0 <= i < c.length => if i < c.length - 1 && i < |v.chars| then v.chars[i] else 0)
  }

  /** Two strings look alike in a column exactly if they agree as far as the column reaches. */
  lemma {:induction false} SameCanonicalIff(c: Column, v: Var, w: Var)
    requires c.kind.Varchar? && VarFits(c, v) && VarFits(c, w)
    ensures Canonical(c, v) == Canonical(c, w) <==> Cut(v.chars, c.length - 1) == Cut(w.chars, c.length - 1)
  {
    var a, b := Cut(v.chars, c.length - 1), Cut(w.chars, c.length - 1);
    if |a| < |b| {
      ShorterDiffers(c, v, w);
    } else if |b| < |a| {
      ShorterDiffers(c, w, v);
    } else if Canonical(c, v) == Canonical(c, w) {
      forall i | 0 <= i < |a| ensures a[i] == b[i] {
        assert Canonical(c, v)[i] == Canonical(c, w)[i];
      }
    } else if a == b {
      forall i | 0 <= i < c.length ensures Canonical(c, v)[i] == Canonical(c, w)[i] {
        assert i < |a| ==> a[i] == b[i];
      }
    }
  }

  lemma {:induction false} ShorterDiffers(c: Column, v: Var, w: Var)
    requires c.kind.Varchar? && VarFits(c, v) && VarFits(c, w)
    requires |Cut(v.chars, c.length - 1)| < |Cut(w.chars, c.length - 1)|
    ensures Canonical(c, v) != Canonical(c, w)
  {
    var n := |Cut(v.chars, c.length - 1)|;
    assert Canonical(c, v)[n] == 0 && Canonical(c, w)[n] == w.chars[n];
  }

  function Cut(s: Bytes, n: int): Bytes { if |s| <= n || n < 0 then s else s[..n] }

  /** A buffer that starts at offset `shift` of a row holds a value in a column. */
  ghost predicate Holds(b: Bytes, shift: nat, c: Column, v: Var) {
    && VarFits(c, v) && !c.kind.Floating? && shift <= c.offset && c.offset - shift + c.length <= |b|
    && b[c.offset - shift..c.offset - shift + c.length] == Canonical(c, v)
  }

  /** Two buffers agree but for the bytes of a column. */
  ghost predicate SameBut(b: Bytes, b': Bytes, shift: nat, c: Column)
    requires shift <= c.offset
  {
    && |b'| == |b|
    && forall k | 0 <= k < |b| && !(c.offset - shift <= k < c.offset - shift + c.length) :: b'[k] == b[k]
  }

  lemma {:induction false} HoldsStill(b: Bytes, b': Bytes, shift: nat, c: Column, v: Var, d: Column)
    requires Holds(b, shift, c, v) && c.offset + c.length <= d.offset && SameBut(b, b', shift, d)
    ensures Holds(b', shift, c, v)
  {
    var lo, hi := c.offset - shift, c.offset - shift + c.length;
    assert b'[lo..hi] == b[lo..hi];
  }

  /** mdb_column_write into a buffer that starts at offset `shift` of the row. */
  method WriteColumn(dst: array<byte>, shift: nat, c: Column, v: Var)
    requires VarFits(c, v) && shift <= c.offset && c.offset - shift + c.length <= dst.Length
    modifies dst
    ensures SameBut(old(dst[..]), dst[..], shift, c)
    ensures if c.kind.Floating? then dst[..] == old(dst[..]) else Holds(dst[..], shift, c, v)
  {
    var at := c.offset - shift;
    match c.kind {
      case Varchar =>
        forall k | at <= k < at + c.length {
          dst[k] := 0;
        }
        var i := 0;
        while i < c.length - 1 && i < |v.chars|
          invariant i <= |v.chars| && i <= c.length - 1
          invariant forall k | 0 <= k < dst.Length ::
                      dst[k] == if at <= k < at + i then v.chars[k - at]
                                else if at <= k < at + c.length then 0 else old(dst[k])
        {
          dst[at + i] := v.chars[i];
          i := i + 1;
        }
        forall k | 0 <= k < c.length ensures dst[at..at + c.length][k] == Canonical(c, v)[k] {
          assert dst[at + k] == if k < i then v.chars[k] else 0;
        }
        assert dst[at..at + c.length] == Canonical(c, v);
      case Floating =>
      case _ =>
        forall k | at <= k < at + c.length {
          dst[k] := Stored(v.n)[k - at];
        }
        assert dst[at..at + c.length] == Canonical(c, v);
    }
  }

  // ----- reading columns

  /** What is read from a column: a string, which is NULL if it has no end, or a number;
      nothing is read from floating-point columns. */
  datatype Reading = Text(chars: Option<Bytes>) | Figure(n: int) | Unread

  /** The characters up to the first NUL. */
  function UpToNul(b: Bytes): (r: Option<Bytes>)
    ensures r.Some? ==> |r.value| < |b| && b[..|r.value|] == r.value && b[|r.value|] == 0 && 0 !in r.value
    ensures r.None? <==> 0 !in b
  {
    if b == [] then None
    else if b[0] == 0 then Some([])
    else match UpToNul(b[1..]) case None => None case Some(rest) => Some([b[0]] + rest)
  }

  function NumberIn(kind: Kind, b: Bytes): int
    requires |b| == 4
  {
    if kind.Integer? then Wrap(Keys.Word(b)) else Keys.Word(b)
  }

  function ReadAt(row: Bytes, c: Column): Reading
    requires c.offset + c.length <= |row| && (c.kind.Integer? || c.kind.Unsignd? ==> c.length == 4)
  {
    match c.kind
    case Varchar => Text(UpToNul(row[c.offset..]))
    case Floating => Unread
    case _ => Figure(NumberIn(c.kind, row[c.offset..c.offset + c.length]))
  }

  /** mdb_column_read, and for a string what the caller finds at the pointer it is given. */
  method ReadColumn(row: array<byte>, c: Column) returns (r: Reading)
    requires c.offset + c.length <= row.Length && (c.kind.Integer? || c.kind.Unsignd? ==> c.length == 4)
    ensures r == ReadAt(row[..], c)
  {
    match c.kind {
      case Varchar =>
        var end := c.offset;
        while end < row.Length && row[end] != 0
          invariant c.offset <= end <= row.Length && 0 !in row[c.offset..end]
        {
          assert row[c.offset..end + 1] == row[c.offset..end] + [row[end]];
          end := end + 1;
        }
        NulAt(row[..][c.offset..], end - c.offset);
        assert row[..][c.offset..][..end - c.offset] == row[c.offset..end];
        r := Text(if end < row.Length then Some(row[c.offset..end]) else None);
      case Floating =>
        r := Unread;
      case _ =>
        assert row[..][c.offset..c.offset + c.length] == row[c.offset..c.offset + c.length];
        r := Figure(NumberIn(c.kind, row[c.offset..c.offset + c.length]));
    }
  }

  lemma {:induction false} NulAt(b: Bytes, n: nat)
    requires n <= |b| && 0 !in b[..n] && (n < |b| ==> b[n] == 0)
    ensures UpToNul(b) == if n < |b| then Some(b[..n]) else None
  {
    if n > 0 {
      assert b[..n][0] == b[0] && b[1..][..n - 1] == b[..n][1..];
      assert forall x | x in b[1..][..n - 1] :: x in b[..n];
      NulAt(b[1..], n - 1);
      assert b[..n] == [b[0]] + b[1..][..n - 1];
    }
  }

  lemma {:induction false} StoredBack(n: int)
    ensures Keys.Word(Stored(n)) == n % 0x1_0000_0000
  {
    var u := n % 0x1_0000_0000;
    var v := u / 0x100;
    var w := v / 0x100;
    assert u == u % 0x100 + 0x100 * v && v == v % 0x100 + 0x100 * w && w == w % 0x100 + 0x100 * (w / 0x100);
  }

  lemma {:induction false} NumberBack(n: int)
    ensures -0x8000_0000 <= n < 0x8000_0000 ==> Wrap(Keys.Word(Stored(n))) == n
    ensures 0 <= n < 0x1_0000_0000 ==> Keys.Word(Stored(n)) == n
  {
    hide Stored, Keys.Word;
    StoredBack(n);
  }

  /** What was written is read back: the number itself, or as much of the string as the
      column has room for beside the NUL. */
  lemma {:induction false} ReadBack(row: Bytes, c: Column, v: Var)
    requires Holds(row, 0, c, v)
    ensures c.kind.Varchar? ==>
              var n := if |v.chars| < c.length then |v.chars| else c.length - 1;
              ReadAt(row, c) == Text(Some(v.chars[..n]))
    ensures c.kind.Integer? || c.kind.Unsignd? ==> ReadAt(row, c) == Figure(v.n)
  {
    hide Stored;
    var b := row[c.offset..c.offset + c.length];
    if c.kind.Varchar? {
      var n := if |v.chars| < c.length then |v.chars| else c.length - 1;
      var rest := row[c.offset..];
      forall k | 0 <= k < n ensures rest[k] == v.chars[k] && rest[k] != 0 {
        assert rest[k] == b[k];
      }
      assert rest[n] == b[n] == 0;
      assert rest[..n] == v.chars[..n];
      NulAt(rest, n);
    } else {
      NumberBack(v.n);
    }
  }

  /** Two numbers are stored alike only if they are the same. */
  lemma {:induction false} NumbersApart(c: Column, v: Var, w: Var)
    requires (c.kind.Integer? || c.kind.Unsignd?) && VarFits(c, v) && VarFits(c, w)
    ensures Canonical(c, v) == Canonical(c, w) <==> v.n == w.n
  {
    hide Stored;
    NumberBack(v.n);
    NumberBack(w.n);
  }

  // ----- mdb_index_create

  datatype Index = Index(kind: KeyType, offset: nat, length: nat, columns: seq<nat>)

  /** The bytes that the columns named so far cover, if each is next to the ones before. */
  function Span(columns: seq<Column>, chosen: seq<nat>): Option<(nat, nat)>
    requires forall i | 0 <= i < |chosen| :: chosen[i] < |columns|
  {
    if chosen == [] then None
    else
      var c := columns[chosen[|chosen| - 1]];
      if |chosen| == 1 then Some((c.offset, c.offset + c.length))
      else match Span(columns, chosen[..|chosen| - 1])
        case None => None
        case Some(s) =>
          if c.offset == s.1 then Some((s.0, s.1 + c.length))
          else if c.offset + c.length == s.0 then Some((c.offset, s.1))
          else None
  }

  /** The first byte of the first `n` columns named, and the end of the last. */
  function LowestOf(columns: seq<Column>, chosen: seq<nat>, n: nat): nat
    requires 0 < n <= |chosen| && forall i | 0 <= i < |chosen| :: chosen[i] < |columns|
  {
    var at := columns[chosen[n - 1]].offset;
    if n == 1 then at else if at < LowestOf(columns, chosen, n - 1) then at else LowestOf(columns, chosen, n - 1)
  }

  function HighestOf(columns: seq<Column>, chosen: seq<nat>, n: nat): nat
    requires 0 < n <= |chosen| && forall i | 0 <= i < |chosen| :: chosen[i] < |columns|
  {
    var end := columns[chosen[n - 1]].offset + columns[chosen[n - 1]].length;
    if n == 1 then end else if end > HighestOf(columns, chosen, n - 1) then end else HighestOf(columns, chosen, n - 1)
  }

  /** There is a range exactly if every column named starts where those before it end or ends
      where they start; it reaches from the lowest byte to the highest. */
  lemma {:induction false} SpanIff(columns: seq<Column>, size: nat, chosen: seq<nat>)
    requires LaidOut(columns, size) && chosen != [] && forall i | 0 <= i < |chosen| :: chosen[i] < |columns|
    ensures Span(columns, chosen).Some? <==> forall n | 0 < n < |chosen| ::
              var c := columns[chosen[n]];
              c.offset == HighestOf(columns, chosen, n) || c.offset + c.length == LowestOf(columns, chosen, n)
    ensures Span(columns, chosen).Some? ==>
              Span(columns, chosen).value == (LowestOf(columns, chosen, |chosen|), HighestOf(columns, chosen, |chosen|))
    decreases |chosen|
  {
    hide LaidOut, LowestOf, HighestOf, Span;
    var last := |chosen| - 1;
    if last > 0 {
      var front := chosen[..last];
      SpanIff(columns, size, front);
      forall n | 0 < n <= last
        ensures LowestOf(columns, front, n) == LowestOf(columns, chosen, n)
        ensures HighestOf(columns, front, n) == HighestOf(columns, chosen, n)
      {
        ExtentOfFront(columns, chosen, last, n);
      }
      forall n | 0 < n < last ensures columns[front[n]] == columns[chosen[n]] {
      }
    }
    SpanLast(columns, size, chosen);
  }

  lemma {:induction false} SpanLast(columns: seq<Column>, size: nat, chosen: seq<nat>)
    requires LaidOut(columns, size) && chosen != [] && forall i | 0 <= i < |chosen| :: chosen[i] < |columns|
    requires var k := |chosen| - 1;
             k > 0 && Span(columns, chosen[..k]).Some? ==>
               Span(columns, chosen[..k]).value == (LowestOf(columns, chosen, k), HighestOf(columns, chosen, k))
    ensures var k := |chosen| - 1;
            var c := columns[chosen[k]];
            Span(columns, chosen).Some? <==>
              || k == 0
              || (&& Span(columns, chosen[..k]).Some?
                  && (c.offset == HighestOf(columns, chosen, k) || c.offset + c.length == LowestOf(columns, chosen, k)))
    ensures Span(columns, chosen).Some? ==>
              Span(columns, chosen).value == (LowestOf(columns, chosen, |chosen|), HighestOf(columns, chosen, |chosen|))
  {
    var k := |chosen| - 1;
    assert columns[chosen[k]].length > 0;
    if k > 0 {
      ExtentNotEmpty(columns, size, chosen, k);
    }
    hide LaidOut;
  }

  lemma {:induction false} ExtentOfFront(columns: seq<Column>, chosen: seq<nat>, k: nat, n: nat)
    requires 0 < n <= k <= |chosen| && forall i | 0 <= i < |chosen| :: chosen[i] < |columns|
    ensures LowestOf(columns, chosen[..k], n) == LowestOf(columns, chosen, n)
    ensures HighestOf(columns, chosen[..k], n) == HighestOf(columns, chosen, n)
    decreases n
  {
    if n > 1 {
      ExtentOfFront(columns, chosen, k, n - 1);
    }
  }

  lemma {:induction false} ExtentNotEmpty(columns: seq<Column>, size: nat, chosen: seq<nat>, n: nat)
    requires LaidOut(columns, size) && 0 < n <= |chosen| && forall i | 0 <= i < |chosen| :: chosen[i] < |columns|
    ensures LowestOf(columns, chosen, n) < HighestOf(columns, chosen, n)
    decreases n
  {
    if n > 1 {
      ExtentNotEmpty(columns, size, chosen, n - 1);
    }
  }

  /** Columns in ascending order that tile a range of bytes. */
  ghost predicate Tiles(columns: seq<Column>, chain: seq<nat>, beg: nat, end: nat) {
    && chain != [] && (forall i | 0 <= i < |chain| :: chain[i] < |columns|)
    && (forall i, j | 0 <= i < j < |chain| :: chain[i] < chain[j])
    && columns[chain[0]].offset == beg && columns[chain[|chain| - 1]].offset + columns[chain[|chain| - 1]].length == end
    && (forall i | 0 <= i < |chain| - 1 ::
          columns[chain[i]].offset + columns[chain[i]].length == columns[chain[i + 1]].offset)
  }

  lemma {:induction false} TilesAfter(columns: seq<Column>, size: nat, chain: seq<nat>, beg: nat, end: nat, idx: nat)
    requires LaidOut(columns, size) && Tiles(columns, chain, beg, end) && idx < |columns| && columns[idx].offset == end
    ensures forall i | 0 <= i < |chain| :: chain[i] < idx
    ensures Tiles(columns, chain + [idx], beg, end + columns[idx].length)
  {
    var last := chain[|chain| - 1];
    assert last < idx;
  }

  lemma {:induction false} TilesBefore(columns: seq<Column>, size: nat, chain: seq<nat>, beg: nat, end: nat, idx: nat)
    requires LaidOut(columns, size) && Tiles(columns, chain, beg, end) && idx < |columns|
    requires columns[idx].offset + columns[idx].length == beg
    ensures forall i | 0 <= i < |chain| :: idx < chain[i]
    ensures Tiles(columns, [idx] + chain, columns[idx].offset, end)
  {
    hide LaidOut;
    BeforeAll(columns, size, chain[0], idx);
    var longer := [idx] + chain;
    forall i | 0 <= i < |longer| - 1
      ensures columns[longer[i]].offset + columns[longer[i]].length == columns[longer[i + 1]].offset
    {
      assert longer[i + 1] == chain[i];
      assert i > 0 ==> longer[i] == chain[i - 1];
    }
    assert longer[|longer| - 1] == chain[|chain| - 1];
    assert forall i | 0 < i < |longer| :: longer[i] == chain[i - 1];
  }

  lemma {:induction false} BeforeAll(columns: seq<Column>, size: nat, first: nat, idx: nat)
    requires LaidOut(columns, size) && first < |columns| && idx < |columns|
    requires columns[idx].offset + columns[idx].length <= columns[first].offset
    ensures idx < first
  {
  }

  function KeyKind(k: Kind): Option<KeyType> {
    match k
    case Varchar => Some(VarcharKey)
    case Integer => Some(IntegerKey)
    case Unsignd => Some(UnsigndKey)
    case Floating => None
  }

  /** The insertion of a column number into the ascending list of key columns. */
  method InsertColumn(chain: seq<nat>, idx: nat) returns (r: seq<nat>)
    ensures (forall i | 0 <= i < |chain| :: chain[i] < idx) ==> r == chain + [idx]
    ensures chain != [] && (forall i | 0 <= i < |chain| :: idx < chain[i]) ==> r == [idx] + chain
  {
    var j := 0;
    while j < |chain|
      invariant j <= |chain|
      invariant (forall i | 0 <= i < j :: chain[i] < idx) && (chain != [] && idx < chain[0] ==> j == 0)
    {
      if idx == chain[j] {
        return chain;
      }
      if idx < chain[j] {
        return chain[..j] + [idx] + chain[j..];
      }
      j := j + 1;
    }
    r := chain + [idx];
  }

  /** mdb_index_create: succeeds exactly if the columns, taken in the order given, keep
      extending one range of bytes that is not too long. For one floating-point column it
      reports success, too, but there is no index. */
  method CreateIndex(columns: seq<Column>, ghost size: nat, chosen: seq<nat>) returns (status: int, r: Option<Index>)
    requires LaidOut(columns, size) && chosen != [] && forall i | 0 <= i < |chosen| :: chosen[i] < |columns|
    ensures status == 0 || status == -1
    ensures status == 0 <==>
              Span(columns, chosen).Some? && Span(columns, chosen).value.1 - Span(columns, chosen).value.0 <= MAX_INDEX
    ensures r.Some? <==> status == 0 && (|chosen| > 1 || !columns[chosen[0]].kind.Floating?)
    ensures r.Some? ==>
              && Tiles(columns, r.value.columns, r.value.offset, r.value.offset + r.value.length)
              && Linked(r.value.columns) == Linked(chosen)
              && Span(columns, chosen) == Some((r.value.offset, r.value.offset + r.value.length))
              && Some(r.value.kind) == if |chosen| > 1 then Some(BlobKey) else KeyKind(columns[chosen[0]].kind)
    ensures r.Some? && |chosen| == 1 ==>
              match columns[chosen[0]].kind
              case Varchar => r.value.kind == VarcharKey
              case Integer => r.value.kind == IntegerKey
              case _ => r.value.kind == UnsigndKey
  {
    hide Tiles, LaidOut, Linked, Span;
    SpanFirst(columns, chosen);
    var first := columns[chosen[0]];
    var beg, end, chain: seq<nat> := first.offset, first.offset + first.length, [chosen[0]];
    OneTile(columns, chosen[0]);
    assert chosen[..1] == [chosen[0]];
    var i := 1;
    while i < |chosen|
      invariant 1 <= i <= |chosen| && beg <= end && Span(columns, chosen[..i]) == Some((beg, end))
      invariant Tiles(columns, chain, beg, end) && Linked(chain) == Linked(chosen[..i])
    {
      var idx := chosen[i];
      var col := columns[idx];
      assert chosen[..i + 1] == chosen[..i] + [idx];
      SpanNext(columns, chosen, i, beg, end);
      ChainNotEmpty(columns, chain, beg, end);
      LinkedPlus(chain, idx);
      LinkedPlus(chosen[..i], idx);
      if col.offset == end {
        TilesAfter(columns, size, chain, beg, end, idx);
        end := end + col.length;
      } else if col.offset + col.length == beg {
        TilesBefore(columns, size, chain, beg, end, idx);
        beg := col.offset;
      } else {
        NoSpan(columns, chosen, i + 1);
        return -1, None;
      }
      chain := InsertColumn(chain, idx);
      i := i + 1;
    }
    assert chosen[..i] == chosen;
    if end - beg > MAX_INDEX {
      return -1, None;
    }
    var kind := if |chosen| > 1 then Some(BlobKey) else KeyKind(first.kind);
    status, r := 0, if kind.None? then None else Some(Index(kind.value, beg, end - beg, chain));
  }

  lemma {:induction false} SpanFirst(columns: seq<Column>, chosen: seq<nat>)
    requires chosen != [] && forall i | 0 <= i < |chosen| :: chosen[i] < |columns|
    ensures var c := columns[chosen[0]]; Span(columns, chosen[..1]) == Some((c.offset, c.offset + c.length))
  {
  }

  lemma {:induction false} SpanNext(columns: seq<Column>, chosen: seq<nat>, i: nat, beg: nat, end: nat)
    requires 0 < i < |chosen| && forall i | 0 <= i < |chosen| :: chosen[i] < |columns|
    requires Span(columns, chosen[..i]) == Some((beg, end))
    ensures var c := columns[chosen[i]];
            Span(columns, chosen[..i + 1])
            == if c.offset == end then Some((beg, end + c.length))
               else if c.offset + c.length == beg then Some((c.offset, end)) else None
  {
    assert chosen[..i + 1][..i] == chosen[..i];
  }

  lemma {:induction false} LinkedPlus(s: seq<nat>, x: nat)
    ensures Linked(s + [x]) == Linked(s) + {x} == Linked([x] + s)
  {
  }

  lemma {:induction false} OneTile(columns: seq<Column>, idx: nat)
    requires idx < |columns|
    ensures Tiles(columns, [idx], columns[idx].offset, columns[idx].offset + columns[idx].length)
  {
  }

  lemma {:induction false} ChainNotEmpty(columns: seq<Column>, chain: seq<nat>, beg: nat, end: nat)
    requires Tiles(columns, chain, beg, end)
    ensures chain != []
  {
  }

  /** A gap cannot be closed by later columns. */
  lemma {:induction false} NoSpan(columns: seq<Column>, chosen: seq<nat>, k: nat)
    requires forall i | 0 <= i < |chosen| :: chosen[i] < |columns|
    requires 0 < k <= |chosen| && Span(columns, chosen[..k]).None?
    ensures Span(columns, chosen).None?
    decreases |chosen| - k
  {
    if k == |chosen| {
      assert chosen[..k] == chosen;
    } else {
      assert chosen[..k + 1][..k] == chosen[..k];
      NoSpan(columns, chosen, k + 1);
    }
  }

  // ----- the lookup

  ghost predicate VarsFit(columns: seq<Column>, chain: seq<nat>, vars: seq<Var>) {
    && |vars| == |chain|
    && forall i | 0 <= i < |chain| ::
         chain[i] < |columns| && !columns[chain[i]].kind.Floating? && VarFits(columns[chain[i]], vars[i])
  }

  /** The key columns of a row, from number `i` on, hold the values. */
  ghost predicate MatchesAfter(columns: seq<Column>, chain: seq<nat>, vars: seq<Var>, row: Bytes, i: nat)
    requires VarsFit(columns, chain, vars) && i <= |chain|
  {
    forall k | i <= k < |chain| ::
      var c := columns[chain[k]];
      c.offset + c.length <= |row| && row[c.offset..c.offset + c.length] == Canonical(c, vars[k])
  }

  ghost predicate Matches(columns: seq<Column>, chain: seq<nat>, vars: seq<Var>, row: Bytes)
    requires VarsFit(columns, chain, vars)
  {
    MatchesAfter(columns, chain, vars, row, 0)
  }

  ghost function KeyFrom(columns: seq<Column>, chain: seq<nat>, vars: seq<Var>, i: nat): Bytes
    requires VarsFit(columns, chain, vars) && i <= |chain|
    decreases |chain| - i
  {
    if i == |chain| then [] else Canonical(columns[chain[i]], vars[i]) + KeyFrom(columns, chain, vars, i + 1)
  }

  /** The key bytes that insertion leaves in a row are those that a lookup builds from
      the values exactly if every key column holds its value. */
  lemma {:induction false} MatchesIffKey(columns: seq<Column>, chain: seq<nat>, vars: seq<Var>, beg: nat, end: nat,
                                         row: Bytes)
    requires Tiles(columns, chain, beg, end) && VarsFit(columns, chain, vars) && end <= |row|
    ensures beg <= end
    ensures Matches(columns, chain, vars, row) <==> row[beg..end] == KeyFrom(columns, chain, vars, 0)
  {
    MatchesFrom(columns, chain, vars, beg, end, row, 0);
  }

  lemma {:induction false} MatchesFrom(columns: seq<Column>, chain: seq<nat>, vars: seq<Var>, beg: nat, end: nat,
                                       row: Bytes, i: nat)
    requires Tiles(columns, chain, beg, end) && VarsFit(columns, chain, vars) && end <= |row| && i < |chain|
    ensures columns[chain[i]].offset + columns[chain[i]].length <= end
    ensures MatchesAfter(columns, chain, vars, row, i) <==>
              row[columns[chain[i]].offset..end] == KeyFrom(columns, chain, vars, i)
    decreases |chain| - i
  {
    var c := columns[chain[i]];
    var rest, mine := KeyFrom(columns, chain, vars, i + 1), Canonical(c, vars[i]);
    if i + 1 < |chain| {
      MatchesFrom(columns, chain, vars, beg, end, row, i + 1);
      assert c.offset + c.length == columns[chain[i + 1]].offset;
    } else {
      assert c.offset + c.length == end && rest == [];
    }
    hide VarFits, Canonical, KeyFrom, Tiles, VarsFit;
    SplitEqual(row, c.offset, c.offset + c.length, end, mine, rest);
    MatchesHere(columns, chain, vars, row, i);
  }

  lemma {:induction false} SplitEqual(row: Bytes, at: nat, to: nat, end: nat, mine: Bytes, rest: Bytes)
    requires at <= to <= end <= |row| && |mine| == to - at
    ensures row[at..end] == mine + rest <==> row[at..to] == mine && row[to..end] == rest
  {
    assert row[at..end] == row[at..to] + row[to..end];
    if row[at..end] == mine + rest {
      assert row[at..to] == row[at..end][..to - at] == mine;
      assert row[to..end] == row[at..end][to - at..] == rest;
    }
  }

  lemma {:induction false} MatchesHere(columns: seq<Column>, chain: seq<nat>, vars: seq<Var>, row: Bytes, i: nat)
    requires VarsFit(columns, chain, vars) && i < |chain|
    requires columns[chain[i]].offset + columns[chain[i]].length <= |row|
    ensures var c := columns[chain[i]];
            MatchesAfter(columns, chain, vars, row, i) <==>
              row[c.offset..c.offset + c.length] == Canonical(c, vars[i])
                && MatchesAfter(columns, chain, vars, row, i + 1)
  {
    hide VarFits, Canonical;
  }

  /** mqi_variable_t */
  datatype Variable = Variable(kind: Kind, value: Var)

  function Values(vars: seq<Variable>): (r: seq<Var>)
    ensures |r| == |vars| && forall i | 0 <= i < |vars| :: r[i] == vars[i].value
  {
    seq(|vars|, i requires 0 <= i < |vars| => vars[i].value)
  }

  predicate KindsMatch(columns: seq<Column>, chain: seq<nat>, vars: seq<Variable>)
    requires |vars| == |chain| && forall i | 0 <= i < |chain| :: chain[i] < |columns|
  {
    forall i | 0 <= i < |chain| :: columns[chain[i]].kind == vars[i].kind
  }

  /** One value for each key column, none of them a floating-point column; a value of
      the column's own type fits the column. */
  ghost predicate Typed(columns: seq<Column>, chain: seq<nat>, vars: seq<Variable>) {
    && |vars| == |chain|
    && forall i | 0 <= i < |chain| ::
         && chain[i] < |columns| && !columns[chain[i]].kind.Floating?
         && (columns[chain[i]].kind == vars[i].kind ==> VarFits(columns[chain[i]], vars[i].value))
  }

  lemma {:induction false} TypedFits(columns: seq<Column>, chain: seq<nat>, vars: seq<Variable>)
    requires Typed(columns, chain, vars) && KindsMatch(columns, chain, vars)
    ensures VarsFit(columns, chain, Values(vars))
  {
  }

  /** The first part of mdb_table_select_by_index: the values are written as the columns
      hold them into a buffer with the extent of the index. */
  method BuildKey(columns: seq<Column>, ghost size: nat, ix: Index, vars: seq<Variable>, idxval: array<byte>)
    returns (ok: bool)
    requires LaidOut(columns, size) && Tiles(columns, ix.columns, ix.offset, ix.offset + ix.length)
    requires Typed(columns, ix.columns, vars) && idxval.Length == ix.length
    modifies idxval
    ensures ok <==> KindsMatch(columns, ix.columns, vars)
    ensures ok ==> VarsFit(columns, ix.columns, Values(vars))
                   && idxval[..] == KeyFrom(columns, ix.columns, Values(vars), 0)
  {
    hide VarFits, Canonical, Holds, SameBut, Tiles, LaidOut;
    var i := 0;
    while i < |vars|
      invariant i <= |vars| && forall k | 0 <= k < i :: columns[ix.columns[k]].kind == vars[k].kind
      invariant forall k | 0 <= k < i :: Holds(idxval[..], ix.offset, columns[ix.columns[k]], vars[k].value)
    {
      var c := columns[ix.columns[i]];
      if c.kind != vars[i].kind {
        return false;
      }
      InsideSpan(columns, ix.columns, ix.offset, ix.offset + ix.length, i);
      ghost var before := idxval[..];
      WriteColumn(idxval, ix.offset, c, vars[i].value);
      forall k | 0 <= k < i ensures Holds(idxval[..], ix.offset, columns[ix.columns[k]], vars[k].value) {
        InOrder(columns, size, ix.columns, ix.offset, ix.offset + ix.length, k, i);
        HoldsStill(before, idxval[..], ix.offset, columns[ix.columns[k]], vars[k].value, c);
      }
      i := i + 1;
    }
    TypedFits(columns, ix.columns, vars);
    KeyComplete(columns, ix, Values(vars), idxval[..]);
    ok := true;
  }

  lemma {:induction false} InOrder(columns: seq<Column>, size: nat, chain: seq<nat>, beg: nat, end: nat, k: nat, i: nat)
    requires LaidOut(columns, size) && Tiles(columns, chain, beg, end) && k < i < |chain|
    ensures columns[chain[k]].offset + columns[chain[k]].length <= columns[chain[i]].offset
  {
    assert chain[k] < chain[i];
  }

  lemma {:induction false} HeldInRow(b: Bytes, shift: nat, c: Column, v: Var, row: Bytes)
    requires Holds(b, shift, c, v) && |row| == shift + |b| && row[shift..] == b
    ensures c.offset + c.length <= |row| && row[c.offset..c.offset + c.length] == Canonical(c, v)
  {
    hide Canonical;
    var at := c.offset - shift;
    var x, y := row[c.offset..c.offset + c.length], b[at..at + c.length];
    forall k | 0 <= k < c.length ensures x[k] == y[k] {
      assert row[shift..][at + k] == row[shift + (at + k)];
    }
  }

  lemma {:induction false} KeyComplete(columns: seq<Column>, ix: Index, vars: seq<Var>, b: Bytes)
    requires Tiles(columns, ix.columns, ix.offset, ix.offset + ix.length) && VarsFit(columns, ix.columns, vars)
    requires |b| == ix.length && forall k | 0 <= k < |vars| :: Holds(b, ix.offset, columns[ix.columns[k]], vars[k])
    ensures b == KeyFrom(columns, ix.columns, vars, 0)
  {
    hide VarFits, Canonical, Tiles, Holds, KeyFrom;
    var row: Bytes := seq(ix.offset, _ => 0) + b;
    MatchesIffKey(columns, ix.columns, vars, ix.offset, ix.offset + ix.length, row);
    assert row[ix.offset..ix.offset + ix.length] == b;
    forall k | 0 <= k < |ix.columns|
      ensures var c := columns[ix.columns[k]];
              c.offset + c.length <= |row| && row[c.offset..c.offset + c.length] == Canonical(c, vars[k])
    {
      HeldInRow(b, ix.offset, columns[ix.columns[k]], vars[k], row);
    }
  }

  /** mdb_table_select_by_index: the row found through the hash is the one that a scan for
      rows with these values in the key columns would find, and there is no other. */
  method SelectByIndex(t: Table, columns: seq<Column>, ix: Index, vars: seq<Variable>) returns (status: int, row: Ptr)
    requires t.Valid() && t.lay.Indexed? && t.lay.offset == ix.offset && t.lay.length == ix.length
    requires LaidOut(columns, t.lay.dlgh) && Tiles(columns, ix.columns, ix.offset, ix.offset + ix.length)
    requires Typed(columns, ix.columns, vars)
    requires KindsMatch(columns, ix.columns, vars) ==>
               VarsFit(columns, ix.columns, Values(vars)) && KeyFrom(columns, ix.columns, Values(vars), 0) in t.universe
    ensures status == -1 <==> !KindsMatch(columns, ix.columns, vars)
    ensures status != -1 ==>
              && status == (if row == 0 then 0 else 1) && VarsFit(columns, ix.columns, Values(vars))
              && (row == 0 <==>
                    forall p | p in t.rows :: p in t.mem ==> !Matches(columns, ix.columns, Values(vars), t.mem[p]))
              && (row != 0 ==>
                    && row in t.rows && row in t.mem && Matches(columns, ix.columns, Values(vars), t.mem[row])
                    && forall p | p in t.rows ::
                         p in t.mem && Matches(columns, ix.columns, Values(vars), t.mem[p]) ==> p == row)
  {
    hide Tiles, LaidOut, Typed, VarsFit, Matches, KeyFrom, KindsMatch, Lists, TotalOn, IndexOf;
    var idxval := new byte[ix.length];
    var ok := BuildKey(columns, t.lay.dlgh, ix, vars, idxval);
    if !ok {
      return -1, 0;
    }
    var key := idxval[..];
    row := t.hash.Get(key);
    ScanFinds(t, columns, ix, Values(vars), key);
    status := if row == 0 then 0 else 1;
  }

  /** What a scan over the rows finds, by the contents of the index. */
  lemma {:induction false} ScanFinds(t: Table, columns: seq<Column>, ix: Index, vars: seq<Var>, key: Bytes)
    requires t.Valid() && t.lay.Indexed? && t.lay.offset == ix.offset && t.lay.length == ix.length
    requires Tiles(columns, ix.columns, ix.offset, ix.offset + ix.length) && VarsFit(columns, ix.columns, vars)
    requires key == KeyFrom(columns, ix.columns, vars, 0)
    ensures forall p | p in t.rows :: p in t.mem &&
              (Matches(columns, ix.columns, vars, t.mem[p]) <==> key in t.hash.contents && t.hash.contents[key] == p)
    ensures key in t.hash.contents ==> t.hash.contents[key] in t.rows && t.hash.contents[key] != 0
  {
    hide Tiles, VarsFit, Matches, KeyFrom, Lists, Hash.Valid, Sequence.Valid;
    forall p | p in t.rows ensures p in t.mem &&
      (Matches(columns, ix.columns, vars, t.mem[p]) <==> key in t.hash.contents && t.hash.contents[key] == p)
    {
      MatchesIffKey(columns, ix.columns, vars, ix.offset, ix.offset + ix.length, t.mem[p]);
      assert KeyOf(t.lay, t.mem[p]) == t.mem[p][ix.offset..ix.offset + ix.length];
    }
    if key in t.hash.contents {
      IndexOfAt(t.lay, t.mem, LinkedLists.Linked(t.rows), t.hash.contents, key);
    }
  }

  lemma {:induction false} InsideSpan(columns: seq<Column>, chain: seq<nat>, beg: nat, end: nat, i: nat)
    requires Tiles(columns, chain, beg, end) && i < |chain|
    ensures beg <= columns[chain[i]].offset && columns[chain[i]].offset + columns[chain[i]].length <= end
    decreases i
  {
    if i > 0 {
      InsideSpan(columns, chain, beg, end, i - 1);
    }
    EndsInside(columns, chain, beg, end, i);
  }

  lemma {:induction false} EndsInside(columns: seq<Column>, chain: seq<nat>, beg: nat, end: nat, i: nat)
    requires Tiles(columns, chain, beg, end) && i < |chain|
    ensures columns[chain[i]].offset + columns[chain[i]].length <= end
    decreases |chain| - i
  {
    if i + 1 < |chain| {
      EndsInside(columns, chain, beg, end, i + 1);
    }
  }

  // ----- the test for key columns in mdb_table_update

  /** The loop looks at the columns from the first on, not at those to be updated. */
  method UpdatesKey(isKey: seq<bool>, updated: seq<nat>) returns (flag: bool)
    requires |updated| <= |isKey|
    ensures flag <==> exists i | 0 <= i < |updated| :: isKey[i]
  {
    var i := 0;
    while i < |updated|
      invariant i <= |updated| && forall k | 0 <= k < i :: !isKey[k]
    {
      if isKey[i] {
        return true;
      }
      i := i + 1;
    }
    flag := false;
  }

  function FirstKey(isKey: seq<bool>): (k: nat)
    ensures k <= |isKey| && (k < |isKey| ==> isKey[k]) && forall i | 0 <= i < k :: !isKey[i]
  {
    if isKey == [] || isKey[0] then 0 else 1 + FirstKey(isKey[1..])
  }

  /** So the answer depends on the number of updated columns only: a key update goes
      unnoticed exactly if it updates no more columns than precede the first key column. */
  lemma {:induction false} KeyTestIff(isKey: seq<bool>, updated: seq<nat>)
    requires |updated| <= |isKey|
    ensures (exists i | 0 <= i < |updated| :: isKey[i]) <==> FirstKey(isKey) < |updated|
  {
    var k := FirstKey(isKey);
    if k < |updated| {
      assert isKey[k];
    }
  }
}
