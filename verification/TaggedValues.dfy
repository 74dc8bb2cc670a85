/** libs/go/p4lib/p4_impl.go, setTaggedField: which cell a key names and what the text becomes there. */
module TaggedValues {
  import opened TaggedFields
  import Numbers
  import Text
  import Words

  // ----- The cell a key names -----

  ghost predicate Digitless(s: string) {
    forall c | c in s :: !Numbers.IsDigit(c)
  }

  /** The key is a name without digits followed by a number that fits an int. */
  ghost predicate Numbered(key: string, name: string, digits: string) {
    && key == name + digits && name != "" && digits != "" && Digitless(name) && Numbers.AllDigits(digits)
    && Numbers.DigitsValue(digits) < Numbers.LIMIT
  }

  /** The field answers to its own tag, and a slice also to a name of its list with a number. */
  ghost predicate Answers(field: Field, key: string) {
    || field.tag == key
    || (field.Slice? && field.tag != "" && field.tag[0] == '['
        && exists name, digits :: Numbered(key, name, digits) && name in Names(field.tag))
  }

  ghost predicate FirstToAnswer(schema: Schema, key: string, f: nat) {
    f < |schema.fields| && Answers(schema.fields[f], key)
      && forall g :: 0 <= g < f ==> !Answers(schema.fields[g], key)
  }

  lemma {:induction false} DigitsEnd(name: string, digits: string)
    requires name != "" && Digitless(name) && Numbers.AllDigits(digits)
    ensures DigitsFrom(name + digits) == |name|
  {
    var key := name + digits;
    if digits == "" {
      assert key == name && !Numbers.IsDigit(name[|name| - 1]);
    } else {
      var shorter := digits[..|digits| - 1];
      DigitsEnd(name, shorter);
      assert key[..|key| - 1] == name + shorter && key[|key| - 1] == digits[|digits| - 1];
    }
  }

  lemma AtoiDigits(digits: string)
    requires digits != "" && Numbers.AllDigits(digits)
    ensures Numbers.Atoi(digits) ==
      if Numbers.DigitsValue(digits) < Numbers.LIMIT then Numbers.Number(Numbers.DigitsValue(digits))
      else Numbers.NotANumber
  {
    assert Numbers.IsDigit(digits[0]);
  }

  lemma IndexOfNumbered(key: string, name: string, digits: string)
    requires Numbered(key, name, digits)
    ensures IndexOf(key) == Indexed(name, Numbers.DigitsValue(digits))
  {
    DigitsEnd(name, digits);
    AtoiDigits(digits);
    assert key[..|name|] == name && key[|name|..] == digits;
    assert forall i :: 0 <= i < |name| ==> key[i] == name[i];
  }

  lemma NumberedOfIndex(key: string) returns (digits: string)
    requires IndexOf(key).Indexed?
    ensures Numbered(key, IndexOf(key).name, digits) && Numbers.DigitsValue(digits) == IndexOf(key).index
  {
    var n := DigitsFrom(key);
    digits := key[n..];
    assert Numbers.AllDigits(digits);
    AtoiDigits(digits);
    assert key == key[..n] + digits;
  }

  lemma AnswersIff(field: Field, key: string)
    ensures Answers(field, key) <==> field.tag == key || InSlice(field, IndexOf(key))
  {
    hide IndexOf, Names, Numbered;
    if InSlice(field, IndexOf(key)) {
      var digits := NumberedOfIndex(key);
    }
    forall name, digits | Numbered(key, name, digits)
      ensures IndexOf(key).Indexed? && IndexOf(key).name == name
    {
      IndexOfNumbered(key, name, digits);
    }
  }

  function PlaceIn(field: Field, key: string, f: nat): Place {
    if field.tag == key then if field.Single? then Cell(f, 0, 0) else Whole(f)
    else if InSlice(field, IndexOf(key)) then InRow(field, f, IndexOf(key))
    else Nowhere
  }

  lemma {:induction false} FindFirst(schema: Schema, key: string, f: nat, g: nat)
    requires FirstToAnswer(schema, key, f) && g <= f
    ensures FindFrom(schema, key, g) == PlaceIn(schema.fields[f], key, f)
    decreases f - g
  {
    hide IndexOf, InRow, InSlice;
    AnswersIff(schema.fields[f], key);
    if g < f {
      AnswersIff(schema.fields[g], key);
      FindFirst(schema, key, f, g + 1);
    }
  }

  lemma {:induction false} FindNone(schema: Schema, key: string, g: nat)
    requires g <= |schema.fields| && forall f :: 0 <= f < |schema.fields| ==> !Answers(schema.fields[f], key)
    ensures FindFrom(schema, key, g).Nowhere?
    decreases |schema.fields| - g
  {
    if g < |schema.fields| {
      AnswersIff(schema.fields[g], key);
      FindNone(schema, key, g + 1);
    }
  }

  /** A key that no field answers to changes nothing. */
  lemma UnknownKeyKept(schema: Schema, r: Record, key: string, text: string)
    requires WellFormed(schema) && Fits(schema, r)
    requires forall f :: 0 <= f < |schema.fields| ==> !Answers(schema.fields[f], key)
    ensures Find(schema, key).Nowhere? && SetField(schema, r, key, text) == r
  {
    FindNone(schema, key, 0);
  }

  // ----- What the text becomes -----

  /** A decimal number with an optional sign, within 64 bits. */
  ghost predicate Decimal(text: string, n: int) {
    Numbers.InRange(n) && exists sign, digits :: Signed(text, sign, digits) && n == SignedValue(sign, digits)
  }

  function SignedValue(sign: string, digits: string): int
    requires Numbers.AllDigits(digits)
  {
    (if sign == "-" then -1 else 1) * Numbers.DigitsValue(digits)
  }

  ghost predicate Signed(text: string, sign: string, digits: string) {
    text == sign + digits && (sign == "" || sign == "+" || sign == "-") && digits != "" && Numbers.AllDigits(digits)
  }

  lemma SignedAtoi(text: string, sign: string, digits: string)
    requires Signed(text, sign, digits)
    ensures Numbers.Atoi(text) ==
      if Numbers.InRange(SignedValue(sign, digits)) then Numbers.Number(SignedValue(sign, digits))
      else Numbers.NotANumber
  {
    assert Numbers.IsDigit(digits[0]);
    if sign == "" { assert text == digits; } else { assert text[0] == sign[0] && text[1..] == digits; }
  }

  lemma SignedOfNumber(text: string) returns (sign: string, digits: string)
    requires Numbers.Atoi(text).Number?
    ensures Signed(text, sign, digits)
  {
    sign := if text[0] == '-' || text[0] == '+' then [text[0]] else "";
    digits := text[|sign|..];
    assert text == sign + digits && (sign == "" || sign == "+" || sign == "-");
    assert digits == if text[0] == '-' || text[0] == '+' then text[1..] else text;
  }

  lemma AtoiIff(text: string, n: int)
    ensures Numbers.Atoi(text) == Numbers.Number(n) <==> Decimal(text, n)
  {
    if Numbers.Atoi(text) == Numbers.Number(n) {
      var sign, digits := SignedOfNumber(text);
      SignedAtoi(text, sign, digits);
      assert n == SignedValue(sign, digits) && Decimal(text, n);
    } else if Decimal(text, n) {
      var sign, digits :| Signed(text, sign, digits) && n == SignedValue(sign, digits);
      SignedAtoi(text, sign, digits);
    }
  }

  lemma ItoaDecimal(n: int, m: int)
    requires Numbers.InRange(n)
    ensures Decimal(Numbers.Itoa(n), m) <==> m == n
  {
    Numbers.ItoaRoundTrip(n);
    AtoiIff(Numbers.Itoa(n), m);
  }

  /** v is what the text means in a cell of this kind. */
  ghost predicate Means(schema: Schema, kind: Kind, text: string, v: Value) {
    match v
    case StrValue(s) => kind == Str && s == text
    case BoolValue(b) => kind == Bool && b
    case IntValue(n) =>
      || ((kind == Int || kind == Int64) && text == "" && n == 0)
      || (kind == Int && Decimal(text, n))
      || (kind == Int64 && text != "" && schema.parse64(text) == Numbers.Number(n))
    case NoValue => false
  }

  lemma ConvertIff(schema: Schema, kind: Kind, text: string, v: Value)
    ensures Convert(schema, kind, text) == Becomes(v) <==> Means(schema, kind, text, v)
  {
    if v.IntValue? && kind == Int {
      AtoiIff(text, v.n);
    }
  }

  /** The cell has what the text means, or, if the text means nothing, what it had. */
  ghost predicate Taken(schema: Schema, kind: Kind, text: string, was: Value, now: Value) {
    Means(schema, kind, text, now) || ((forall v :: !Means(schema, kind, text, v)) && now == was)
  }

  lemma ConvertTaken(schema: Schema, kind: Kind, text: string, was: Value)
    ensures Taken(schema, kind, text, was,
      match Convert(schema, kind, text) case Becomes(v) => v case Refused => was)
    ensures Convert(schema, kind, text).Refused? <==> forall v :: !Means(schema, kind, text, v)
  {
    hide Means, Convert;
    var c := Convert(schema, kind, text);
    if c.Becomes? { ConvertIff(schema, kind, text, c.value); }
    forall v ensures c == Becomes(v) <==> Means(schema, kind, text, v) { ConvertIff(schema, kind, text, v); }
  }

  /** A plain field takes what the text means in its kind, and no other field changes. */
  lemma TagSetsField(schema: Schema, r: Record, key: string, text: string, f: nat)
    requires WellFormed(schema) && Fits(schema, r) && FirstToAnswer(schema, key, f)
    requires schema.fields[f].Single?
    ensures var kind, after := schema.fields[f].kind, SetField(schema, r, key, text);
      && |after| == |r| && |after[f]| == |after[f][0]| == 1 && Taken(schema, kind, text, r[f][0][0], after[f][0][0])
      && (forall g :: 0 <= g < |r| && g != f ==> after[g] == r[g])
    ensures Sets(schema, key, text).Refused? <==> forall v :: !Means(schema, schema.fields[f].kind, text, v)
  {
    FindFirst(schema, key, f, 0);
    AnswersIff(schema.fields[f], key);
    CellFound(schema, key, 0);
    ConvertTaken(schema, schema.fields[f].kind, text, r[f][0][0]);
    hide FindFrom, Convert, Taken, Means, Answers, IndexOf;
  }

  // ----- The row of a slice -----

  /** The tag that lists these names. */
  function TagOf(names: seq<string>): string {
    "[" + Text.Join(names, ',') + "]"
  }

  ghost predicate Nameable(names: seq<string>) {
    names != [] && forall i :: 0 <= i < |names| ==> ',' !in names[i] && '[' !in names[i] && ']' !in names[i]
  }

  lemma {:induction false} JoinedPlain(names: seq<string>)
    requires Nameable(names)
    ensures '[' !in Text.Join(names, ',') && ']' !in Text.Join(names, ',')
  {
    if |names| > 1 {
      JoinedPlain(names[1..]);
    }
  }

  lemma BracketsCut(inner: string)
    requires '[' !in inner && ']' !in inner
    ensures Words.Trim("[" + inner + "]", "[]") == inner
  {
    var s := "[" + inner + "]";
    assert s[0] in "[]" && s[1..] == inner + "]";
    var t := inner + "]";
    assert Words.TrimLeft(s, "[]") == Words.TrimLeft(t, "[]");
    if inner == "" {
      assert t[0] in "[]" && t[1..] == "" && Words.TrimLeft(t, "[]") == Words.TrimLeft("", "[]") == "";
    } else {
      var last := inner[|inner| - 1];
      assert t[0] == inner[0] && t[0] in inner && last in inner;
      assert t[0] !in "[]" && last !in "[]";
      assert Words.TrimLeft(t, "[]") == t && Words.TrimRight(inner, "[]") == inner;
      assert t[|t| - 1] in "[]" && t[..|t| - 1] == inner;
    }
  }

  lemma NamesOfTag(names: seq<string>)
    requires Nameable(names)
    ensures Names(TagOf(names)) == names
  {
    JoinedPlain(names);
    BracketsCut(Text.Join(names, ','));
    Text.SplitJoin(names, ',');
  }

  /** A name of the list with the number i. */
  lemma NumberedKey(name: string, i: nat)
    requires name != "" && Digitless(name) && i < Numbers.LIMIT
    ensures IndexOf(name + Numbers.Digits(i)) == Indexed(name, i)
  {
    Numbers.DigitsRoundTrip(i);
    IndexOfNumbered(name + Numbers.Digits(i), name, Numbers.Digits(i));
  }

  /** The column has the name as its tag, and no column before it has. */
  ghost predicate FirstNamed(columns: seq<Column>, name: string, c: nat) {
    c < |columns| && columns[c].tag == name && forall d :: 0 <= d < c ==> columns[d].tag != name
  }

  lemma {:induction false} ColumnFound(columns: seq<Column>, name: string, c: nat)
    requires FirstNamed(columns, name, c)
    ensures ColumnOf(columns, name) == c
  {
    if c > 0 {
      assert columns[0].tag != name && FirstNamed(columns[1..], name, c - 1);
      ColumnFound(columns[1..], name, c - 1);
    }
  }

  /** The slice lists these names in its tag, and the name, in one of its columns. */
  ghost predicate Lists(field: Field, names: seq<string>, name: string, c: nat) {
    && field.Slice? && Nameable(names) && field.tag == TagOf(names) && name in names
    && name != "" && Digitless(name)
    && if field.plain then c == 0 else FirstNamed(field.columns, name, c)
  }

  lemma RowFound(schema: Schema, f: nat, names: seq<string>, name: string, i: nat, c: nat)
    requires WellFormed(schema) && f < |schema.fields| && Lists(schema.fields[f], names, name, c) && i < Numbers.LIMIT
    requires forall g :: 0 <= g < f ==> !Answers(schema.fields[g], name + Numbers.Digits(i))
    ensures Find(schema, name + Numbers.Digits(i)) == Cell(f, i, c)
  {
    var field, key := schema.fields[f], name + Numbers.Digits(i);
    NamesOfTag(names);
    NumberedKey(name, i);
    NumberEnds(name, i, TagOf(names));
    if !field.plain { ColumnFound(field.columns, name, c); }
    hide IndexOf, Names, TagOf, Numbers.Digits, Answers, Lists;
    assert field.tag[0] == '[' by { assert Lists(field, names, name, c); SliceTag(names); }
    assert InSlice(field, IndexOf(key)) by { assert Lists(field, names, name, c); }
    AnswersIff(field, key);
    FindFirst(schema, key, f, 0);
    assert Lists(field, names, name, c);
  }

  lemma SliceTag(names: seq<string>)
    ensures TagOf(names) != "" && TagOf(names)[0] == '['
  {
  }

  /** A listed name with the number i gives the slice at least i + 1 rows, the new ones zero, and row i
      takes what the text means in the column of that name; nothing else changes. */
  lemma NumberedKeySetsRow(schema: Schema, r: Record, f: nat, names: seq<string>, name: string, i: nat, c: nat,
    text: string)
    requires WellFormed(schema) && Fits(schema, r) && f < |schema.fields|
    requires Lists(schema.fields[f], names, name, c) && i < Numbers.LIMIT
    requires forall g :: 0 <= g < f ==> !Answers(schema.fields[g], name + Numbers.Digits(i))
    ensures c < Width(schema.fields[f])
    ensures var after := SetField(schema, r, name + Numbers.Digits(i), text);
      && |after| == |r| && (forall g :: 0 <= g < |r| && g != f ==> after[g] == r[g])
      && |after[f]| == Max(|r[f]|, i + 1) && |after[f][i]| == Width(schema.fields[f])
      && (forall j :: 0 <= j < |after[f]| && j != i ==>
            after[f][j] == if j < |r[f]| then r[f][j] else ZeroRow(schema.fields[f]))
      && (forall d :: 0 <= d < |after[f][i]| && d != c ==>
            after[f][i][d] == if i < |r[f]| then r[f][i][d] else Zero(KindOf(schema.fields[f], d)))
      && Taken(schema, KindOf(schema.fields[f], c), text, At(schema, r, f, i, c), after[f][i][c])
  {
    var key := name + Numbers.Digits(i);
    RowFound(schema, f, names, name, i, c);
    CellFound(schema, key, 0);
    hide Find, InSlice, IndexOf, Lists, Answers, Means, Taken, Numbers.Digits;
    ConvertTaken(schema, KindOf(schema.fields[f], c), text, At(schema, r, f, i, c));
    hide Convert;
  }

  // ----- The record of p4 describe -----

  lemma PlainName(name: string)
    requires name in FILE_NAMES
    ensures Digitless(name) && name != "" && ',' !in name && '[' !in name && ']' !in name
  {
    if name == "depotFile" {
    } else if name == "action" {
    } else if name == "type" {
    } else if name == "rev" {
    } else if name == "digest" {
    } else if name == "fromFile" {
    } else {
      assert name == "fromRev";
    }
  }

  /** The columns that the names of the list stand for. */
  function FileColumn(name: string): (c: nat)
    requires name in FILE_NAMES
    ensures c < |DESCRIPTION[8].columns| && DESCRIPTION[8].columns[c].tag == name
  {
    if name == "depotFile" then 0
    else if name == "rev" then 1
    else if name == "action" then 2
    else if name == "type" then 3
    else if name == "fromFile" then 4
    else if name == "fromRev" then 5
    else 6
  }

  lemma FileColumnFirst(name: string)
    requires name in FILE_NAMES
    ensures FirstNamed(DESCRIPTION[8].columns, name, FileColumn(name))
  {
    var columns, c := DESCRIPTION[8].columns, FileColumn(name);
    hide FILE_NAMES, FileColumn;
    forall d | 0 <= d < c ensures columns[d].tag != name {
      assert |columns[d].tag| != |columns[c].tag| || columns[d].tag[0] != columns[c].tag[0];
    }
  }

  lemma FileNamesPlain()
    ensures Nameable(FILE_NAMES)
  {
    forall i | 0 <= i < |FILE_NAMES|
      ensures ',' !in FILE_NAMES[i] && '[' !in FILE_NAMES[i] && ']' !in FILE_NAMES[i]
    {
      var name := FILE_NAMES[i];
      assert name in FILE_NAMES;
      hide FILE_NAMES, Digitless;
      PlainName(name);
    }
  }

  /** Every name of the list is a column of the files. */
  lemma FileLists(name: string)
    requires name in FILE_NAMES
    ensures Lists(DESCRIPTION[8], FILE_NAMES, name, FileColumn(name))
  {
    hide FILE_NAMES, FileColumn, FirstNamed, Nameable, Digitless, Text.Join;
    FileNamesPlain();
    PlainName(name);
    FileColumnFirst(name);
  }

  lemma NumberEnds(name: string, i: nat, tag: string)
    requires tag == "" || !Numbers.IsDigit(tag[|tag| - 1])
    ensures name + Numbers.Digits(i) != tag
  {
    var key, d := name + Numbers.Digits(i), Numbers.Digits(i);
    assert key[|key| - 1] == d[|d| - 1] && Numbers.IsDigit(d[|d| - 1]);
  }

  /** The fields before the files do not answer to a numbered name. */
  lemma OnlyFilesNumbered(name: string, i: nat, g: nat)
    requires g < 8
    ensures !Answers(DESCRIPTION[g], name + Numbers.Digits(i))
  {
    hide Text.Join, Numbered, Numbers.Digits;
    NumberEnds(name, i, DESCRIPTION[g].tag);
  }

  /** A name of the list with the number i is the key of that field of file i. */
  lemma FileKeyFound(parse64: string -> Numbers.Parsed, name: string, i: nat)
    requires name in FILE_NAMES && i < Numbers.LIMIT
    ensures Find(Schema(DESCRIPTION, parse64), name + Numbers.Digits(i)) == Cell(8, i, FileColumn(name))
  {
    hide Answers, Lists, FILE_NAMES, Numbers.Digits, FileColumn;
    PlainName(name);
    forall g | 0 <= g < 8 ensures !Answers(DESCRIPTION[g], name + Numbers.Digits(i)) {
      OnlyFilesNumbered(name, i, g);
    }
    FileLists(name);
    RowFound(Schema(DESCRIPTION, parse64), 8, FILE_NAMES, name, i, FileColumn(name));
  }

  // ----- Cells nothing was put in -----

  /** A cell that no key fills has what empty text means, and false in place of true. */
  lemma UnsetCell(schema: Schema, stats: seq<Stat>, f: nat, i: nat, c: nat)
    requires WellFormed(schema) && f < |schema.fields| && c < Width(schema.fields[f])
    requires forall x, v | x in stats :: !Fills(schema, x, f, i, c, v)
    ensures var kind, v := KindOf(schema.fields[f], c), At(schema, SetAll(schema, Blank(schema), stats), f, i, c);
      && (kind == Bool ==> v == BoolValue(false)) && (kind == Unsupported ==> v == NoValue)
      && (kind != Bool && kind != Unsupported ==> Means(schema, kind, "", v))
  {
    Cells(schema, Blank(schema), stats, f, i, c);
    hide SetAll, WellFormed, Fills;
    assert Blank(schema)[f] == if schema.fields[f].Single? then [ZeroRow(schema.fields[f])] else [];
  }
}
