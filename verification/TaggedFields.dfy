/** libs/go/p4lib/p4_impl.go, setTaggedField and findField: filling a record from the tagged
    output of a command, whose keys arrive in no particular order.

    A record is a sequence of fields, and every field is a sequence of rows: a plain field has
    one row of one column, a slice of plain values has rows of one column, and a slice of
    records has one column for each of their fields. */
module TaggedFields {
  import Numbers
  import Text
  import Words

  datatype Kind = Bool | Int | Int64 | Str | Unsupported

  datatype Value = BoolValue(b: bool) | IntValue(n: int) | StrValue(s: string) | NoValue

  datatype Column = Column(tag: string, kind: Kind)

  datatype Field =
    | Single(tag: string, kind: Kind)
    | Slice(tag: string, plain: bool, columns: seq<Column>)

  /** parse64 is how text becomes a 64-bit integer, base prefixes included. */
  datatype Schema = Schema(fields: seq<Field>, parse64: string -> Numbers.Parsed)

  /** Every field has a tag, and a slice of plain values one column. */
  predicate WellFormed(schema: Schema) {
    forall f | f in schema.fields :: f.tag != "" && (f.Slice? && f.plain ==> |f.columns| == 1)
  }

  type Record = seq<seq<seq<Value>>>

  predicate Fits(schema: Schema, r: Record) {
    && |r| == |schema.fields|
    && forall f :: 0 <= f < |r| ==>
      && (schema.fields[f].Single? ==> |r[f]| == 1)
      && forall i :: 0 <= i < |r[f]| ==> |r[f][i]| == Width(schema.fields[f])
  }

  function Width(field: Field): nat {
    if field.Single? then 1 else |field.columns|
  }

  function KindOf(field: Field, c: nat): Kind
    requires c < Width(field)
  {
    if field.Single? then field.kind else field.columns[c].kind
  }

  function Zero(kind: Kind): Value {
    match kind
    case Bool => BoolValue(false)
    case Int => IntValue(0)
    case Int64 => IntValue(0)
    case Str => StrValue("")
    case Unsupported => NoValue
  }

  function ZeroRow(field: Field): (row: seq<Value>)
    ensures |row| == Width(field)
    ensures forall c :: 0 <= c < |row| ==> row[c] == Zero(KindOf(field, c))
  {
    seq(Width(field), c requires 0 <= c < Width(field) => Zero(KindOf(field, c)))
  }

  /** A record nothing has been set in. */
  function Blank(schema: Schema): (r: Record)
    ensures Fits(schema, r)
  {
    seq(|schema.fields|, f requires 0 <= f < |schema.fields| =>
      if schema.fields[f].Single? then [ZeroRow(schema.fields[f])] else [])
  }

  // ----- Keys -----

  datatype KeyIndex = Unindexed | Indexed(name: string, index: nat)

  /** Where the run of digits that ends the key starts. */
  function DigitsFrom(key: string): (n: nat)
    ensures n <= |key| && forall i :: n <= i < |key| ==> Numbers.IsDigit(key[i])
  {
    if key == "" || !Numbers.IsDigit(key[|key| - 1]) then |key| else DigitsFrom(key[..|key| - 1])
  }

  /** A name without digits followed by a number that fits an int. */
  function IndexOf(key: string): KeyIndex {
    var n := DigitsFrom(key);
    if n == 0 || n == |key| || (exists i :: 0 <= i < n && Numbers.IsDigit(key[i])) then Unindexed
    else match Numbers.Atoi(key[n..])
      case Number(v) => if v >= 0 then Indexed(key[..n], v) else Unindexed
      case NotANumber => Unindexed
  }

  function Names(tag: string): seq<string> {
    Text.Split(Words.Trim(tag, "[]"), ',')
  }

  // ----- Finding the place a key names -----

  /** Missing: the slice was found and given the row, but its records have no such field. */
  datatype Place = Nowhere | Whole(field: nat) | Cell(field: nat, row: nat, column: nat) | Missing(field: nat, row: nat)

  predicate InSlice(field: Field, at: KeyIndex) {
    field.Slice? && at.Indexed? && field.tag != "" && field.tag[0] == '[' && at.name in Names(field.tag)
  }

  function ColumnOf(columns: seq<Column>, name: string): (c: nat)
    ensures c <= |columns| && (c < |columns| ==> columns[c].tag == name)
  {
    if columns == [] || columns[0].tag == name then 0 else 1 + ColumnOf(columns[1..], name)
  }

  function InRow(field: Field, f: nat, at: KeyIndex): Place
    requires InSlice(field, at)
  {
    if field.plain then Cell(f, at.index, 0)
    else if ColumnOf(field.columns, at.name) < |field.columns| then Cell(f, at.index, ColumnOf(field.columns, at.name))
    else Missing(f, at.index)
  }

  function FindFrom(schema: Schema, key: string, f: nat): Place
    requires f <= |schema.fields|
    decreases |schema.fields| - f
  {
    if f == |schema.fields| then Nowhere
    else if schema.fields[f].tag == key then if schema.fields[f].Single? then Cell(f, 0, 0) else Whole(f)
    else if InSlice(schema.fields[f], IndexOf(key)) then InRow(schema.fields[f], f, IndexOf(key))
    else FindFrom(schema, key, f + 1)
  }

  function Find(schema: Schema, key: string): Place {
    FindFrom(schema, key, 0)
  }

  /** A cell found lies in a field, within its width; a plain field is found by its own tag
      and a slice by the name and number in the key. */
  lemma {:induction false} CellFound(schema: Schema, key: string, f: nat)
    requires WellFormed(schema) && f <= |schema.fields|
    ensures var p := FindFrom(schema, key, f); p.Cell? ==>
      && p.field < |schema.fields| && p.column < Width(schema.fields[p.field])
      && (schema.fields[p.field].Single? ==> key == schema.fields[p.field].tag && p.row == 0 && p.column == 0)
      && (schema.fields[p.field].Slice? ==>
        && InSlice(schema.fields[p.field], IndexOf(key)) && IndexOf(key).index == p.row
        && (schema.fields[p.field].plain || schema.fields[p.field].columns[p.column].tag == IndexOf(key).name))
    ensures var p := FindFrom(schema, key, f); p.Missing? ==> p.field < |schema.fields| && schema.fields[p.field].Slice?
    ensures var p := FindFrom(schema, key, f); p.Whole? ==> p.field < |schema.fields| && schema.fields[p.field].Slice?
    decreases |schema.fields| - f
  {
    hide IndexOf, Names;
    if f < |schema.fields| {
      assert schema.fields[f] in schema.fields;
      CellFound(schema, key, f + 1);
    }
  }

  // ----- Setting it -----

  datatype Converted = Refused | Becomes(value: Value)

  function Convert(schema: Schema, kind: Kind, text: string): Converted {
    match kind
    case Bool => Becomes(BoolValue(true))
    case Int =>
      if text == "" then Becomes(IntValue(0))
      else (match Numbers.Atoi(text) case Number(v) => Becomes(IntValue(v)) case NotANumber => Refused)
    case Int64 =>
      if text == "" then Becomes(IntValue(0))
      else (match schema.parse64(text) case Number(v) => Becomes(IntValue(v)) case NotANumber => Refused)
    case Str => Becomes(StrValue(text))
    case Unsupported => Refused
  }

  /** What setting the key would put in its cell, if it has one. */
  function Sets(schema: Schema, key: string, text: string): Converted
    requires WellFormed(schema)
  {
    var p := Find(schema, key);
    CellFound(schema, key, 0);
    if p.Cell? then Convert(schema, KindOf(schema.fields[p.field], p.column), text) else Refused
  }

  /** How many rows the place needs its field to have. */
  function Needs(p: Place, f: nat): nat {
    if (p.Cell? || p.Missing?) && p.field == f then p.row + 1 else 0
  }

  function Max(a: nat, b: nat): nat {
    if a < b then b else a
  }

  function Grown(field: Field, rows: seq<seq<Value>>, n: nat): (more: seq<seq<Value>>)
    ensures |more| == Max(|rows|, n) && rows <= more
    ensures forall i :: |rows| <= i < |more| ==> more[i] == ZeroRow(field)
    decreases n - |rows|
  {
    if |rows| < n then Grown(field, rows + [ZeroRow(field)], n) else rows
  }

  /** The record with room for the place. */
  function WithRoom(schema: Schema, r: Record, p: Place): Record
    requires |r| == |schema.fields|
  {
    if (p.Cell? || p.Missing?) && p.field < |r| then
      r[p.field := Grown(schema.fields[p.field], r[p.field], p.row + 1)]
    else r
  }

  /** The record after setTaggedField. */
  function SetField(schema: Schema, r: Record, key: string, text: string): Record
    requires WellFormed(schema) && Fits(schema, r)
  {
    var p := Find(schema, key);
    CellFound(schema, key, 0);
    var room := WithRoom(schema, r, p);
    match Sets(schema, key, text)
    case Refused => room
    case Becomes(v) => room[p.field := room[p.field][p.row := room[p.field][p.row][p.column := v]]]
  }

  /** A cell of the record, zero where there is no row yet. */
  function At(schema: Schema, r: Record, f: nat, i: nat, c: nat): Value
    requires Fits(schema, r) && f < |schema.fields| && c < Width(schema.fields[f])
  {
    if i < |r[f]| then r[f][i][c] else Zero(KindOf(schema.fields[f], c))
  }

  lemma SetFieldFits(schema: Schema, r: Record, key: string, text: string)
    requires WellFormed(schema) && Fits(schema, r)
    ensures Fits(schema, SetField(schema, r, key, text))
    ensures forall f :: 0 <= f < |r| ==> |SetField(schema, r, key, text)[f]| == Max(|r[f]|, Needs(Find(schema, key), f))
  {
    CellFound(schema, key, 0);
    hide Find, InSlice;
  }

  lemma SetFieldCells(schema: Schema, r: Record, key: string, text: string, f: nat, i: nat, c: nat)
    requires WellFormed(schema) && Fits(schema, r) && f < |schema.fields| && c < Width(schema.fields[f])
    ensures Fits(schema, SetField(schema, r, key, text))
    ensures At(schema, SetField(schema, r, key, text), f, i, c) ==
      if Find(schema, key) == Cell(f, i, c) && Sets(schema, key, text).Becomes? then Sets(schema, key, text).value
      else At(schema, r, f, i, c)
  {
    SetFieldFits(schema, r, key, text);
    CellFound(schema, key, 0);
    hide Find, InSlice, Convert;
  }

  // ----- A whole set of keys, in any order -----

  datatype Stat = Stat(key: string, text: string)

  /** The record after every key has been set, in this order. */
  function SetAll(schema: Schema, r: Record, stats: seq<Stat>): (result: Record)
    requires WellFormed(schema) && Fits(schema, r)
    ensures Fits(schema, result)
  {
    if stats == [] then r
    else
      var before := SetAll(schema, r, stats[..|stats| - 1]);
      var last := stats[|stats| - 1];
      SetFieldFits(schema, before, last.key, last.text);
      SetField(schema, before, last.key, last.text)
  }

  /** The stat puts v in this cell. */
  predicate Fills(schema: Schema, x: Stat, f: nat, i: nat, c: nat, v: Value)
    requires WellFormed(schema)
  {
    Find(schema, x.key) == Cell(f, i, c) && Sets(schema, x.key, x.text) == Becomes(v)
  }

  /** n is the least length that leaves room for every stat and for what was there. */
  ghost predicate LeastLength(schema: Schema, r: Record, stats: seq<Stat>, f: nat, n: nat)
    requires f < |r|
  {
    && |r[f]| <= n && (forall x | x in stats :: Needs(Find(schema, x.key), f) <= n)
    && (n == |r[f]| || exists x | x in stats :: Needs(Find(schema, x.key), f) == n)
  }

  /** v is what some stat puts in the cell, or what was there if no stat fills it. */
  ghost predicate CellValue(schema: Schema, r: Record, stats: seq<Stat>, f: nat, i: nat, c: nat, v: Value)
    requires WellFormed(schema) && Fits(schema, r) && f < |schema.fields| && c < Width(schema.fields[f])
  {
    || (exists x | x in stats :: Fills(schema, x, f, i, c, v))
    || ((forall x, w | x in stats :: !Fills(schema, x, f, i, c, w)) && v == At(schema, r, f, i, c))
  }

  lemma LastIn(stats: seq<Stat>)
    requires stats != []
    ensures forall x :: x in stats <==> x in stats[..|stats| - 1] || x == stats[|stats| - 1]
  {
    assert stats == stats[..|stats| - 1] + [stats[|stats| - 1]];
  }

  /** Every field ends with exactly the rows that the keys ask for. */
  lemma {:induction false} Lengths(schema: Schema, r: Record, stats: seq<Stat>, f: nat)
    requires WellFormed(schema) && Fits(schema, r) && f < |r|
    ensures LeastLength(schema, r, stats, f, |SetAll(schema, r, stats)[f]|)
  {
    if stats != [] {
      var before, last := stats[..|stats| - 1], stats[|stats| - 1];
      Lengths(schema, r, before, f);
      SetFieldFits(schema, SetAll(schema, r, before), last.key, last.text);
      LastIn(stats);
      hide Find, Needs, SetField, Fits, WellFormed;
    }
  }

  lemma CellStep(schema: Schema, r: Record, before: seq<Stat>, stats: seq<Stat>, x: Stat, f: nat, i: nat, c: nat,
    v: Value, w: Value)
    requires WellFormed(schema) && Fits(schema, r) && f < |schema.fields| && c < Width(schema.fields[f])
    requires CellValue(schema, r, before, f, i, c, v) && forall y :: y in stats <==> y in before || y == x
    requires w ==
      if Find(schema, x.key) == Cell(f, i, c) && Sets(schema, x.key, x.text).Becomes?
      then Sets(schema, x.key, x.text).value
      else v
    ensures CellValue(schema, r, stats, f, i, c, w)
  {
    hide Find, Fits, WellFormed, Sets, At, Width;
    if Find(schema, x.key) == Cell(f, i, c) && Sets(schema, x.key, x.text).Becomes? {
      assert Fills(schema, x, f, i, c, w);
    } else {
      assert forall u :: !Fills(schema, x, f, i, c, u);
      hide Fills;
    }
  }

  /** Every cell ends with what a key put there, or as it was: zero where the row is new. */
  lemma {:induction false} Cells(schema: Schema, r: Record, stats: seq<Stat>, f: nat, i: nat, c: nat)
    requires WellFormed(schema) && Fits(schema, r) && f < |schema.fields| && c < Width(schema.fields[f])
    ensures CellValue(schema, r, stats, f, i, c, At(schema, SetAll(schema, r, stats), f, i, c))
  {
    if stats != [] {
      var before, last := stats[..|stats| - 1], stats[|stats| - 1];
      Cells(schema, r, before, f, i, c);
      SetFieldCells(schema, SetAll(schema, r, before), last.key, last.text, f, i, c);
      LastIn(stats);
      var v := At(schema, SetAll(schema, r, before), f, i, c);
      var w := At(schema, SetAll(schema, r, stats), f, i, c);
      hide CellValue, Find, SetField, Fits, WellFormed, Sets, At, SetAll, Width;
      CellStep(schema, r, before, stats, last, f, i, c, v, w);
    }
  }

  /** Two stats that put different values in one cell. */
  predicate Clash(schema: Schema, x: Stat, y: Stat)
    requires WellFormed(schema)
  {
    && Find(schema, x.key).Cell? && Find(schema, x.key) == Find(schema, y.key)
    && Sets(schema, x.key, x.text).Becomes? && Sets(schema, y.key, y.text).Becomes?
    && Sets(schema, x.key, x.text) != Sets(schema, y.key, y.text)
  }

  ghost predicate NoClash(schema: Schema, stats: seq<Stat>)
    requires WellFormed(schema)
  {
    forall x, y | x in stats && y in stats :: !Clash(schema, x, y)
  }

  /** Records with the same rows and the same cells are the same. */
  lemma SameRecord(schema: Schema, a: Record, b: Record)
    requires Fits(schema, a) && Fits(schema, b)
    requires forall f :: 0 <= f < |a| ==> |a[f]| == |b[f]|
    requires forall f: nat, i: nat, c: nat :: f < |a| && i < |a[f]| && c < Width(schema.fields[f]) ==>
      At(schema, a, f, i, c) == At(schema, b, f, i, c)
    ensures a == b
  {
    forall f | 0 <= f < |a| ensures a[f] == b[f] {
      forall i | 0 <= i < |a[f]| ensures a[f][i] == b[f][i] {
        forall c: nat | c < Width(schema.fields[f]) ensures a[f][i][c] == b[f][i][c] {
          assert At(schema, a, f, i, c) == At(schema, b, f, i, c);
        }
      }
    }
  }

  lemma OneLength(schema: Schema, r: Record, xs: seq<Stat>, ys: seq<Stat>, f: nat, m: nat, n: nat)
    requires f < |r| && (forall x :: x in xs <==> x in ys)
    requires LeastLength(schema, r, xs, f, m) && LeastLength(schema, r, ys, f, n)
    ensures m == n
  {
    hide Find, Needs;
  }

  lemma OneValue(schema: Schema, r: Record, xs: seq<Stat>, ys: seq<Stat>, f: nat, i: nat, c: nat, v: Value, w: Value)
    requires WellFormed(schema) && Fits(schema, r) && f < |schema.fields| && c < Width(schema.fields[f])
    requires NoClash(schema, xs) && (forall x :: x in xs <==> x in ys)
    requires CellValue(schema, r, xs, f, i, c, v) && CellValue(schema, r, ys, f, i, c, w)
    ensures v == w
  {
    hide Find, Fits, WellFormed, Sets, At;
    if x, y :| x in xs && y in xs && Fills(schema, x, f, i, c, v) && Fills(schema, y, f, i, c, w) {
      assert !Clash(schema, x, y);
    }
  }

  /** Without a clash only the set of stats matters. */
  lemma SameStatsSameRecord(schema: Schema, r: Record, xs: seq<Stat>, ys: seq<Stat>)
    requires WellFormed(schema) && Fits(schema, r) && NoClash(schema, xs) && (forall x :: x in xs <==> x in ys)
    ensures SetAll(schema, r, xs) == SetAll(schema, r, ys)
  {
    var a, b := SetAll(schema, r, xs), SetAll(schema, r, ys);
    hide SetAll, NoClash, Width, At;
    forall f | 0 <= f < |a| ensures |a[f]| == |b[f]| {
      Lengths(schema, r, xs, f);
      Lengths(schema, r, ys, f);
      OneLength(schema, r, xs, ys, f, |a[f]|, |b[f]|);
    }
    forall f: nat, i: nat, c: nat | f < |a| && i < |a[f]| && c < Width(schema.fields[f])
      ensures At(schema, a, f, i, c) == At(schema, b, f, i, c)
    {
      Cells(schema, r, xs, f, i, c);
      Cells(schema, r, ys, f, i, c);
      OneValue(schema, r, xs, ys, f, i, c, At(schema, a, f, i, c), At(schema, b, f, i, c));
    }
    SameRecord(schema, a, b);
  }

  /** Of two clashing stats the one set last wins. */
  lemma LastWins(schema: Schema, r: Record, rest: seq<Stat>, x: Stat, y: Stat)
    requires WellFormed(schema) && Fits(schema, r) && Clash(schema, x, y)
    ensures SetAll(schema, r, rest + [x, y]) != SetAll(schema, r, rest + [y, x])
  {
    hide SetAll, Find, Sets, Fits, WellFormed, At, Width;
    Finally(schema, r, rest + [x], y);
    Finally(schema, r, rest + [y], x);
    hide Clash;
    assert rest + [x] + [y] == rest + [x, y] && rest + [y] + [x] == rest + [y, x];
  }

  lemma Finally(schema: Schema, r: Record, rest: seq<Stat>, x: Stat)
    requires WellFormed(schema) && Fits(schema, r) && Find(schema, x.key).Cell? && Sets(schema, x.key, x.text).Becomes?
    ensures var p := Find(schema, x.key);
      && p.field < |schema.fields| && p.column < Width(schema.fields[p.field])
      && At(schema, SetAll(schema, r, rest + [x]), p.field, p.row, p.column) == Sets(schema, x.key, x.text).value
  {
    var p := Find(schema, x.key);
    CellFound(schema, x.key, 0);
    assert (rest + [x])[..|rest|] == rest;
    SetFieldCells(schema, SetAll(schema, r, rest), x.key, x.text, p.field, p.row, p.column);
  }

  /** Bringing two stats to the end. */
  lemma TwoLast(stats: seq<Stat>, x: Stat, y: Stat) returns (rest: seq<Stat>)
    requires x in stats && y in stats && x != y
    ensures multiset(rest + [x, y]) == multiset(stats) && multiset(rest + [y, x]) == multiset(stats)
  {
    var without := OneLast(stats, x);
    assert y in multiset(without + [x]);
    rest := OneLast(without, y);
    assert rest + [x, y] == rest + [x] + [y] && rest + [y, x] == rest + [y] + [x];
  }

  lemma OneLast(stats: seq<Stat>, x: Stat) returns (rest: seq<Stat>)
    requires x in stats
    ensures multiset(rest + [x]) == multiset(stats)
  {
    var i :| 0 <= i < |stats| && stats[i] == x;
    rest := stats[..i] + stats[i + 1..];
    assert stats == stats[..i] + [x] + stats[i + 1..];
  }

  lemma ClashDiffers(schema: Schema, x: Stat, y: Stat)
    requires WellFormed(schema) && Clash(schema, x, y)
    ensures x != y
  {
  }

  /** The order of the keys does not matter exactly if no two of them put different values in
      one cell. */
  lemma OrderFreeIff(schema: Schema, r: Record, stats: seq<Stat>)
    requires WellFormed(schema) && Fits(schema, r)
    ensures NoClash(schema, stats) <==>
      forall other | multiset(other) == multiset(stats) :: SetAll(schema, r, other) == SetAll(schema, r, stats)
  {
    hide SetAll, Fits, WellFormed, Clash;
    if NoClash(schema, stats) {
      forall other | multiset(other) == multiset(stats) ensures SetAll(schema, r, other) == SetAll(schema, r, stats) {
        assert forall x :: x in stats <==> x in multiset(stats);
        assert forall x :: x in other <==> x in multiset(other);
        SameStatsSameRecord(schema, r, stats, other);
      }
    } else {
      var x, y :| x in stats && y in stats && Clash(schema, x, y);
      ClashDiffers(schema, x, y);
      var rest := TwoLast(stats, x, y);
      LastWins(schema, r, rest, x, y);
    }
  }

  // ----- Keys written the usual way never clash -----

  /** The number at the end of the key, if it counts as one, has no needless zeros. */
  predicate Canonical(key: string) {
    var at := IndexOf(key);
    at.Indexed? ==> key == at.name + Numbers.Digits(at.index)
  }

  /** A slice of plain values answers to one name only. */
  predicate OneName(schema: Schema) {
    forall f | f in schema.fields :: f.Slice? && f.plain ==> |Names(f.tag)| == 1
  }

  /** A cell is reached by one canonical key only. */
  lemma OneKeyPerCell(schema: Schema, a: string, b: string)
    requires WellFormed(schema) && OneName(schema) && Canonical(a) && Canonical(b)
    requires Find(schema, a).Cell? && Find(schema, a) == Find(schema, b)
    ensures a == b
  {
    hide FindFrom, IndexOf, Names, WellFormed, ColumnOf;
    var p := Find(schema, a);
    CellFound(schema, a, 0);
    CellFound(schema, b, 0);
    var field := schema.fields[p.field];
    assert field in schema.fields;
    if field.Slice? {
      assert IndexOf(a).index == IndexOf(b).index == p.row;
      if field.plain {
        assert |Names(field.tag)| == 1;
        assert IndexOf(a).name == Names(field.tag)[0] == IndexOf(b).name;
      }
    }
  }

  lemma CanonicalKeysApart(schema: Schema, x: Stat, y: Stat)
    requires WellFormed(schema) && OneName(schema) && Canonical(x.key) && Canonical(y.key) && x.key != y.key
    ensures !Clash(schema, x, y)
  {
    hide Find, Sets, OneName, Canonical, WellFormed;
    if Clash(schema, x, y) { OneKeyPerCell(schema, x.key, y.key); }
  }

  /** A map from canonical keys gives one record, however it is walked. */
  lemma StatsMapOrderFree(schema: Schema, r: Record, stats: seq<Stat>, other: seq<Stat>)
    requires WellFormed(schema) && Fits(schema, r) && OneName(schema) && multiset(other) == multiset(stats)
    requires forall x | x in stats :: Canonical(x.key)
    requires forall x, y | x in stats && y in stats :: x.key == y.key ==> x == y
    ensures SetAll(schema, r, other) == SetAll(schema, r, stats)
  {
    forall x, y | x in stats && y in stats ensures !Clash(schema, x, y) {
      if x.key != y.key { CanonicalKeysApart(schema, x, y); }
    }
    OrderFreeIff(schema, r, stats);
  }

  const FILE_NAMES := ["depotFile", "action", "type", "rev", "digest", "fromFile", "fromRev"]

  /** The record that p4 describe fills; the names of a file's fields are the tag of the files. */
  const DESCRIPTION := [
    Single("change", Int), Single("user", Str), Single("client", Str), Single("date", Str), Single("time", Int64),
    Single("desc", Str), Single("status", Str), Single("shelved", Bool),
    Slice("[" + Text.Join(FILE_NAMES, ',') + "]", false, [
      Column("depotFile", Str), Column("rev", Int), Column("action", Str), Column("type", Str), Column("fromFile", Str),
      Column("fromRev", Int), Column("digest", Str), Column("fileSize", Int)])]

  lemma DescribeOrderFree(parse64: string -> Numbers.Parsed, stats: seq<Stat>, other: seq<Stat>)
    requires multiset(other) == multiset(stats) && forall x | x in stats :: Canonical(x.key)
    requires forall x, y | x in stats && y in stats :: x.key == y.key ==> x == y
    ensures WellFormed(Schema(DESCRIPTION, parse64))
    ensures var schema := Schema(DESCRIPTION, parse64);
      SetAll(schema, Blank(schema), other) == SetAll(schema, Blank(schema), stats)
  {
    hide Text.Join, Names, Find, Canonical;
    StatsMapOrderFree(Schema(DESCRIPTION, parse64), Blank(Schema(DESCRIPTION, parse64)), stats, other);
  }

  // ----- The code -----

  class Decoder {
    const schema: Schema
    var fields: Record

    constructor (schema: Schema)
      ensures this.schema == schema && fields == Blank(schema)
    {
      this.schema := schema;
      fields := Blank(schema);
    }

    method FindField(key: string) returns (p: Place)
      requires WellFormed(schema) && Fits(schema, fields)
      modifies this
      ensures p == Find(schema, key) && fields == WithRoom(schema, old(fields), p)
    {
      var at := IndexOf(key);
      for i := 0 to |schema.fields|
        invariant fields == old(fields) && Find(schema, key) == FindFrom(schema, key, i)
      {
        var field := schema.fields[i];
        if field.tag == key {
          return if field.Single? then Cell(i, 0, 0) else Whole(i);
        }
        if InSlice(field, at) {
          var rows := fields[i];
          while |rows| <= at.index
            invariant Grown(field, rows, at.index + 1) == Grown(field, fields[i], at.index + 1)
          {
            rows := rows + [ZeroRow(field)];
          }
          fields := fields[i := rows];
          return InRow(field, i, at);
        }
      }
      return Nowhere;
    }

    /** mustMatch only decides whether a key that names no cell is an error. */
    method SetTaggedField(key: string, text: string, mustMatch: bool) returns (failed: bool)
      requires WellFormed(schema) && Fits(schema, fields)
      modifies this
      ensures Fits(schema, fields) && fields == SetField(schema, old(fields), key, text)
      ensures failed <==>
        if Find(schema, key).Nowhere? || Find(schema, key).Missing? then mustMatch else Sets(schema, key, text).Refused?
    {
      SetFieldFits(schema, fields, key, text);
      CellFound(schema, key, 0);
      var p := FindField(key);
      match p {
        case Nowhere => failed := mustMatch;
        case Missing(_, _) => failed := mustMatch;
        case Whole(_) => failed := true;
        case Cell(f, i, c) =>
          match Convert(schema, KindOf(schema.fields[f], c), text) {
            case Refused => failed := true;
            case Becomes(v) =>
              failed := false;
              fields := fields[f := fields[f][i := fields[f][i][c := v]]];
          }
      }
    }
  }
}
