/** tools/incredible/src/main.rs: what file_process finds in text made of preprocessor
    directives, and when it loses some. */
module IncludePieces {
  import opened IncludePaths
  import opened IncludeScanner

  /** A piece of source text: an include of one kind or another, a definition with a value or
      without, another directive with a blank behind its name or without, or other text. */
  datatype Piece =
    | Quoted(name: string)
    | Bracketed(name: string)
    | Expanded(key: string)
    | Defined(key: string, value: string)
    | Guard(key: string)
    | Other(word: string, rest: string)
    | Bare(word: string)
    | Plain(text: string)

  ghost predicate NoWhite(s: string) {
    forall i :: 0 <= i < |s| ==> !White(s[i])
  }

  predicate Unknown(word: string) {
    word != "include" && word != "define"
  }

  /** A directive that is none of the two, its rest without another. */
  ghost predicate OtherDirective(word: string, rest: string) {
    NoWhite(word) && Unknown(word) && '#' !in rest
  }

  ghost predicate WellFormed(piece: Piece) {
    match piece
    case Quoted(name) => '"' !in name
    case Bracketed(name) => '>' !in name
    case Expanded(key) => Word(key) && key[0] != '"' && key[0] != '<'
    case Defined(key, value) => Word(key) && Word(value)
    case Guard(key) => Word(key)
    case Other(word, rest) => OtherDirective(word, rest)
    case Bare(word) => NoWhite(word)
    case Plain(text) => '#' !in text
  }

  /** An include or a definition. */
  predicate Wanted(piece: Piece) {
    piece.Quoted? || piece.Bracketed? || piece.Expanded? || piece.Defined? || piece.Guard?
  }

  /** A directive up to the white space behind its name. */
  function KeywordOf(piece: Piece): string {
    match piece
    case Defined(_, _) => "#define"
    case Guard(_) => "#define"
    case Other(word, _) => "#" + word
    case Bare(word) => "#" + word
    case Plain(_) => ""
    case _ => "#include"
  }

  /** What stands behind that, one blank left out. */
  function RestOf(piece: Piece): string {
    match piece
    case Quoted(name) => "\"" + name + "\"\n"
    case Bracketed(name) => "<" + name + ">\n"
    case Expanded(key) => key + "\n"
    case Defined(key, value) => key + " " + value + "\n"
    case Guard(key) => key + "\n"
    case Other(_, rest) => rest
    case Bare(_) => ""
    case Plain(text) => text
  }

  function Render(piece: Piece): string {
    if piece.Plain? then piece.text
    else if piece.Bare? then KeywordOf(piece) + "\n"
    else KeywordOf(piece) + " " + RestOf(piece)
  }

  function RenderAll(pieces: seq<Piece>): string {
    if pieces == [] then "" else RenderAll(pieces[..|pieces| - 1]) + Render(pieces[|pieces| - 1])
  }

  /** The definitions in force after the pieces; only those with a value count. */
  function Definitions(pieces: seq<Piece>, defines: map<string, string>): map<string, string> {
    if pieces == [] then defines
    else
      var before, last := Definitions(pieces[..|pieces| - 1], defines), pieces[|pieces| - 1];
      if last.Defined? then before[last.key := last.value] else before
  }

  /** The includes one piece asks for; a macro stands for its definition so far. */
  function RefsOf(piece: Piece, defines: map<string, string>): seq<Ref> {
    match piece
    case Quoted(name) => [Ref(name, Local)]
    case Bracketed(name) => [Ref(name, System)]
    case Expanded(key) => MacroRefs(defines, key)
    case _ => []
  }

  /** The includes the pieces ask for. */
  function Meaning(pieces: seq<Piece>, defines: map<string, string>): seq<Ref> {
    if pieces == [] then []
    else
      var before := pieces[..|pieces| - 1];
      Meaning(before, defines) + RefsOf(pieces[|pieces| - 1], Definitions(before, defines))
  }

  // ----- What the scanner makes of the pieces -----

  /** What the scanner is doing between two pieces: looking for a '#'; taking in everything
      up to the next blank as the name of a directive; looking for the value of a definition;
      or inside that value. */
  datatype Reading = Ready | Swallowing | NeedsValue(key: string) | InValue(key: string, start: string)

  datatype Outcome = Outcome(reading: Reading, defines: map<string, string>, refs: seq<Ref>)

  predicate HasBlank(text: string) {
    exists i :: 0 <= i < |text| && Blank(text[i])
  }

  function SkipBlanks(text: string): (t: string)
    ensures t != "" ==> !Blank(t[0])
  {
    if text != "" && Blank(text[0]) then SkipBlanks(text[1..]) else text
  }

  /** How much of the text comes before its first white space. */
  function WordLength(text: string): (n: nat)
    ensures n <= |text| && (forall i :: 0 <= i < n ==> !White(text[i])) && (n < |text| ==> White(text[n]))
  {
    if text == "" || White(text[0]) then 0 else 1 + WordLength(text[1..])
  }

  /** Text met inside the value of a definition: it is part of it up to white space. */
  function ReadInValue(o: Outcome, key: string, start: string, text: string): Outcome {
    var n := WordLength(text);
    if n == |text| then o.(reading := InValue(key, start + text))
    else o.(reading := Ready, defines := o.defines[key := start + text[..n]])
  }

  /** Text met while looking for the value: blanks are skipped, and a line end gives up. */
  function ReadForValue(o: Outcome, key: string, text: string): Outcome {
    var t := SkipBlanks(text);
    if t == "" then o
    else if White(t[0]) then o.(reading := Ready)
    else ReadInValue(o, key, "", t)
  }

  /** A piece met while looking for a '#' is read as what it is. */
  function ReadReady(o: Outcome, piece: Piece): Outcome {
    match piece
    case Defined(key, value) => o.(defines := o.defines[key := value])
    case Guard(key) => o.(reading := NeedsValue(key))
    case Bare(_) => o.(reading := Swallowing)
    case _ => o.(refs := o.refs + RefsOf(piece, o.defines))
  }

  function Read(o: Outcome, piece: Piece): Outcome {
    match o.reading
    case Ready => ReadReady(o, piece)
    case Swallowing => if HasBlank(Render(piece)) then o.(reading := Ready) else o
    case NeedsValue(key) => ReadForValue(o, key, Render(piece))
    case InValue(key, start) => ReadInValue(o, key, start, Render(piece))
  }

  function ReadAll(pieces: seq<Piece>, defines: map<string, string>): Outcome {
    if pieces == [] then Outcome(Ready, defines, [])
    else Read(ReadAll(pieces[..|pieces| - 1], defines), pieces[|pieces| - 1])
  }

  /** Every piece is well-formed, and what stands behind the keyword of one that is not met
      while looking for a '#' has no '#' in it. */
  ghost predicate Readable(pieces: seq<Piece>, defines: map<string, string>) {
    && (forall piece | piece in pieces :: WellFormed(piece))
    && forall k :: 0 <= k < |pieces| ==> ReadAll(pieces[..k], defines).reading.Ready? || '#' !in RestOf(pieces[k])
  }

  // ----- Steps over text -----

  /** The scanner s, about to read byte i, has come to the outcome o. */
  ghost predicate Shows(data: string, i: nat, s: Scanner, o: Outcome) {
    && s.start <= i <= |data| && s.defines == o.defines && s.refs == o.refs
    && match o.reading
       case Ready => s.mode == Hash
       case Swallowing => s.mode == Directive && '\n' in data[s.start..i]
       case NeedsValue(key) => s.mode == WhiteSpace && s.awaited == AwaitValue && s.key == key
       case InValue(key, start) => s.mode == DefineValue && s.key == key && data[s.start..i] == start
  }

  /** From i to j the data has no '#' behind white space, so that once the scanner is back to
      looking for a '#' it stays so. */
  ghost predicate Tail(data: string, i: nat, j: nat) {
    && i <= j <= |data|
    && forall p, q :: i <= p < q < j && White(data[p]) ==> data[q] != '#'
  }

  lemma HashStays(data: string, i: nat, j: nat, s: Scanner)
    requires s.mode == Hash && s.start <= i <= j <= |data| && '#' !in data[i..j]
    ensures Steps(data, i, j, s) == s
  {
    hide Steps;
    Stays(data, i, j, s);
  }

  lemma NameStays(data: string, i: nat, j: nat, s: Scanner)
    requires s.mode == Directive && s.start <= i <= j <= |data| && !HasBlank(data[i..j])
    ensures Steps(data, i, j, s) == s
  {
    hide Steps;
    forall h | i <= h < j
      ensures !Blank(data[h])
    {
      assert data[i..j][h - i] == data[h];
    }
    Stays(data, i, j, s);
  }

  lemma TailAfter(data: string, i: nat, j: nat, p: nat)
    requires Tail(data, i, j) && i <= p < j && White(data[p])
    ensures '#' !in data[p + 1..j]
  {
  }

  /** White space at p takes the scanner back to looking for a '#', and there is none. */
  lemma BackToHash(data: string, i: nat, p: nat, j: nat, s: Scanner, s1: Scanner)
    requires Tail(data, i, j) && i <= p < j <= |data| && White(data[p]) && s.start <= i
    requires Steps(data, i, p, s) == s1 && s1.start <= p && Step(data, p, s1).mode == Hash
    ensures Steps(data, i, j, s) == Step(data, p, s1)
  {
    hide Steps, Step, Tail, White;
    TailAfter(data, i, j, p);
    OneMore(data, i, p, s, s1);
    StepsJoin(data, i, p + 1, j, s);
    HashStays(data, p + 1, j, Step(data, p, s1));
  }

  lemma SwallowsOn(data: string, i: nat, j: nat, s: Scanner, o: Outcome)
    requires Shows(data, i, s, o) && o.reading.Swallowing? && i <= j <= |data| && !HasBlank(data[i..j])
    ensures Shows(data, j, Steps(data, i, j, s), o)
  {
    hide Steps;
    NameStays(data, i, j, s);
    assert data[s.start..j] == data[s.start..i] + data[i..j];
  }

  /** The directive swallowed so far is no keyword, since it contains a line end. */
  lemma SwallowEnds(data: string, b: nat, s: Scanner)
    requires s.start <= b < |data| && s.mode == Directive && '\n' in data[s.start..b] && Blank(data[b])
    ensures Step(data, b, s) == s.(mode := Hash)
  {
    assert '\n' !in "#include" && '\n' !in "#define";
  }

  lemma Swallowed(data: string, i: nat, j: nat, s: Scanner, o: Outcome)
    requires Shows(data, i, s, o) && o.reading.Swallowing? && i <= j <= |data| && Tail(data, i, j)
      && HasBlank(data[i..j])
    ensures Shows(data, j, Steps(data, i, j, s), o.(reading := Ready))
  {
    hide Steps, Step, Tail, HasBlank;
    var b := FirstBlank(data, i, j);
    SwallowsOn(data, i, b, s, o);
    var s1 := Steps(data, i, b, s);
    SwallowEnds(data, b, s1);
    BackToHash(data, i, b, j, s, s1);
  }

  lemma {:induction false} FirstBlank(data: string, i: nat, j: nat) returns (b: nat)
    requires i <= j <= |data| && HasBlank(data[i..j])
    ensures i <= b < j && Blank(data[b]) && !HasBlank(data[i..b])
    decreases j - i
  {
    var h :| 0 <= h < |data[i..j]| && Blank(data[i..j][h]);
    if Blank(data[i]) {
      b := i;
    } else {
      assert data[i..j][h] == data[i + h] == data[i + 1..j][h - 1];
      b := FirstBlank(data, i + 1, j);
      assert data[i..b] == [data[i]] + data[i + 1..b];
    }
  }

  lemma WordOn(data: string, i: nat, j: nat, s: Scanner)
    requires s.mode == DefineValue && s.start <= i <= j <= |data|
    ensures Steps(data, i, i + WordLength(data[i..j]), s) == s
  {
    hide Steps, WordLength, White;
    var n := WordLength(data[i..j]);
    forall h | i <= h < i + n
      ensures !White(data[h])
    {
      assert data[i..j][h - i] == data[h];
    }
    Stays(data, i, i + n, s);
  }

  lemma SliceOn(data: string, a: nat, i: nat, j: nat, n: nat)
    requires a <= i <= j <= |data| && n <= j - i
    ensures data[a..i + n] == data[a..i] + data[i..j][..n]
  {
    assert data[i..j][..n] == data[i..i + n];
  }

  /** White space in a value ends it. */
  lemma ValueEnds(data: string, i: nat, j: nat, s: Scanner)
    requires s.mode == DefineValue && s.start <= i <= j <= |data| && WordLength(data[i..j]) < j - i && Tail(data, i, j)
    ensures var n := WordLength(data[i..j]);
      Steps(data, i, j, s) == s.(defines := s.defines[s.key := data[s.start..i] + data[i..j][..n]], mode := Hash)
  {
    hide Steps, WordLength, Tail;
    var e := i + WordLength(data[i..j]);
    assert data[i..j][e - i] == data[e];
    WordOn(data, i, j, s);
    SliceOn(data, s.start, i, j, e - i);
    assert Step(data, e, s) == s.(defines := s.defines[s.key := data[s.start..e]], mode := Hash);
    hide Step, White;
    BackToHash(data, i, e, j, s, s);
  }

  /** The scanner inside a value. */
  lemma ValueRead(data: string, i: nat, j: nat, s: Scanner, o: Outcome)
    requires Shows(data, i, s, o) && o.reading.InValue? && Tail(data, i, j)
    ensures Shows(data, j, Steps(data, i, j, s), ReadInValue(o, o.reading.key, o.reading.start, data[i..j]))
  {
    var n := WordLength(data[i..j]);
    assert i <= j <= |data| && n <= j - i;
    hide Steps, WordLength, Tail;
    if n < j - i {
      ValueEnds(data, i, j, s);
    } else {
      WordOn(data, i, j, s);
      SliceOn(data, s.start, i, j, n);
      ValueGoesOn(data, i, j, s, o);
    }
  }

  lemma ValueGoesOn(data: string, i: nat, j: nat, s: Scanner, o: Outcome)
    requires Shows(data, i, s, o) && o.reading.InValue? && i <= j <= |data| && WordLength(data[i..j]) == j - i
    requires data[s.start..j] == data[s.start..i] + data[i..j][..j - i]
    ensures Shows(data, j, s, ReadInValue(o, o.reading.key, o.reading.start, data[i..j]))
  {
    hide WordLength;
    var text := data[i..j];
    assert text[..j - i] == text;
  }

  /** The blanks the scanner skips while looking for a value. */
  lemma {:induction false} BlanksOn(data: string, i: nat, j: nat, s: Scanner, o: Outcome)
    requires Shows(data, i, s, o) && o.reading.NeedsValue? && i <= j <= |data|
    requires forall h :: i <= h < j ==> Blank(data[h])
    ensures Shows(data, j, Steps(data, i, j, s), o)
    decreases j
  {
    hide Steps;
    if i < j {
      BlanksOn(data, i, j - 1, s, o);
      OneMore(data, i, j - 1, s, Steps(data, i, j - 1, s));
    } else {
      NothingScanned(data, i, s);
    }
  }

  lemma {:induction false} BlanksSkipped(data: string, i: nat, j: nat) returns (e: nat)
    requires i <= j <= |data|
    ensures i <= e <= j && SkipBlanks(data[i..j]) == data[e..j] && forall h :: i <= h < e ==> Blank(data[h])
    decreases j - i
  {
    if i < j && Blank(data[i]) {
      assert data[i..j][1..] == data[i + 1..j];
      e := BlanksSkipped(data, i + 1, j);
    } else {
      e := i;
    }
  }

  lemma ValueStarts(data: string, e: nat, s: Scanner, o: Outcome)
    requires Shows(data, e, s, o) && o.reading.NeedsValue? && e < |data| && !Blank(data[e])
    ensures White(data[e]) ==> Step(data, e, s) == s.(start := e, mode := Hash)
    ensures !White(data[e]) ==> Step(data, e, s) == s.(start := e, mode := DefineValue)
  {
  }

  /** The scanner looking for a value. */
  lemma ForValueRead(data: string, i: nat, j: nat, s: Scanner, o: Outcome)
    requires Shows(data, i, s, o) && o.reading.NeedsValue? && Tail(data, i, j)
    ensures Shows(data, j, Steps(data, i, j, s), ReadForValue(o, o.reading.key, data[i..j]))
  {
    hide Steps, Step;
    var e := BlanksSkipped(data, i, j);
    BlanksOn(data, i, e, s, o);
    hide Tail;
    var s1 := Steps(data, i, e, s);
    if e < j {
      ValueStarts(data, e, s1, o);
      if White(data[e]) {
        BackToHash(data, i, e, j, s, s1);
      } else {
        ValueOnward(data, i, e, j, s, o);
      }
    }
  }

  lemma ValueOnward(data: string, i: nat, e: nat, j: nat, s: Scanner, o: Outcome)
    requires i <= e < j <= |data| && s.start <= i && o.reading.NeedsValue? && Tail(data, i, j) && !White(data[e])
    requires Shows(data, e, Steps(data, i, e, s), o)
    ensures Shows(data, j, Steps(data, i, j, s), ReadInValue(o, o.reading.key, "", data[e..j]))
  {
    hide Steps, Step;
    var s1 := Steps(data, i, e, s);
    var key := o.reading.key;
    ValueStarts(data, e, s1, o);
    var o1 := o.(reading := InValue(key, [data[e]]));
    assert data[e..e + 1] == [data[e]];
    OneMore(data, i, e, s, s1);
    StepsJoin(data, i, e + 1, j, s);
    assert Tail(data, e + 1, j);
    hide Tail;
    ValueRead(data, e + 1, j, Steps(data, i, e + 1, s), o1);
    OneCharacterMore(o, key, data[e], data[e + 1..j]);
    assert data[e..j] == [data[e]] + data[e + 1..j];
  }

  lemma OneCharacterMore(o: Outcome, key: string, c: char, text: string)
    requires !White(c)
    ensures ReadInValue(o.(reading := InValue(key, [c])), key, [c], text) == ReadInValue(o, key, "", [c] + text)
  {
    assert ([c] + text)[1..] == text;
    var n := WordLength(text);
    assert WordLength([c] + text) == n + 1;
    assert ([c] + text)[..n + 1] == [c] + text[..n];
    assert "" + ([c] + text) == [c] + text && "" + ([c] + text[..n]) == [c] + text[..n];
  }

  // ----- Pieces -----

  /** In a piece without a '#' behind its keyword there is none behind its first white space. */
  lemma NoHashBehind(piece: Piece, p: nat, q: nat)
    requires WellFormed(piece) && '#' !in RestOf(piece) && p < q < |Render(piece)| && White(Render(piece)[p])
    ensures Render(piece)[q] != '#'
  {
    if !piece.Plain? {
      KeywordsNoWhite(piece);
      BehindKeyword(piece);
      hide KeywordOf, RestOf, Render;
      assert p >= |KeywordOf(piece)|;
    }
  }

  lemma BehindKeyword(piece: Piece)
    requires !piece.Plain?
    ensures var k := |KeywordOf(piece)|;
      && k < |Render(piece)| && (forall h :: 0 <= h < k ==> Render(piece)[h] == KeywordOf(piece)[h])
      && forall h :: k < h < |Render(piece)| ==>
        h - k - 1 < |RestOf(piece)| && Render(piece)[h] == RestOf(piece)[h - k - 1]
  {
    hide KeywordOf;
  }

  lemma KeywordsNoWhite(piece: Piece)
    requires WellFormed(piece) && !piece.Plain?
    ensures NoWhite(KeywordOf(piece))
  {
    if piece.Other? || piece.Bare? {
      assert NoWhite(piece.word);
      forall h | 0 <= h < |piece.word| + 1
        ensures !White(KeywordOf(piece)[h])
      {
        assert h > 0 ==> KeywordOf(piece)[h] == piece.word[h - 1];
      }
    }
  }

  lemma PieceTail(data: string, i: nat, piece: Piece)
    requires WellFormed(piece) && '#' !in RestOf(piece)
    requires i + |Render(piece)| <= |data| && data[i..i + |Render(piece)|] == Render(piece)
    ensures Tail(data, i, i + |Render(piece)|)
  {
    hide WellFormed, RestOf, Render;
    forall p, q | i <= p < q < i + |Render(piece)| && White(data[p])
      ensures data[q] != '#'
    {
      assert data[p] == data[i..i + |Render(piece)|][p - i] && data[q] == data[i..i + |Render(piece)|][q - i];
      NoHashBehind(piece, p - i, q - i);
    }
  }

  /** A piece met while the scanner is not looking for a '#'. */
  lemma PieceSwallowed(data: string, i: nat, piece: Piece, s: Scanner, o: Outcome)
    requires WellFormed(piece) && '#' !in RestOf(piece) && !o.reading.Ready? && Shows(data, i, s, o)
    requires i + |Render(piece)| <= |data| && data[i..i + |Render(piece)|] == Render(piece)
    ensures Shows(data, i + |Render(piece)|, Steps(data, i, i + |Render(piece)|, s), Read(o, piece))
  {
    hide Steps, Tail, WellFormed, Render, RestOf, ReadForValue, ReadInValue, HasBlank;
    PieceTail(data, i, piece);
    var j := i + |Render(piece)|;
    match o.reading
    case Swallowing =>
      if HasBlank(Render(piece)) { Swallowed(data, i, j, s, o); } else { SwallowsOn(data, i, j, s, o); }
    case NeedsValue(_) => ForValueRead(data, i, j, s, o);
    case InValue(_, _) => ValueRead(data, i, j, s, o);
  }

  /** What a directive or text does when it is met while looking for a '#'. */
  ghost predicate TakenIn(piece: Piece, s: Scanner, r: Scanner) {
    && r.refs == s.refs + RefsOf(piece, s.defines)
    && r.defines == (if piece.Defined? then s.defines[piece.key := piece.value] else s.defines)
    && if piece.Guard? then r.mode == WhiteSpace && r.awaited == AwaitValue && r.key == piece.key else r.mode == Hash
  }

  lemma TakenInFrom(piece: Piece, s: Scanner, s': Scanner, r: Scanner)
    requires TakenIn(piece, s', r) && s.defines == s'.defines && s.refs == s'.refs
    ensures TakenIn(piece, s, r)
  {
  }

  lemma WantedScanned(data: string, i: nat, piece: Piece, s: Scanner)
    requires Wanted(piece) && WellFormed(piece) && s.mode == Hash && s.start <= i
    requires i + |Render(piece)| <= |data| && data[i..i + |Render(piece)|] == Render(piece)
    ensures TakenIn(piece, s, Steps(data, i, i + |Render(piece)|, s))
  {
    hide Steps, TakenIn, RestOf, WellFormed;
    var word, rest := KeywordOf(piece), RestOf(piece);
    var k := i + |word| + 1;
    assert Render(piece) == (word + " ") + rest + "";
    Parts(data, i, word + " ", rest, "");
    Keyword(data, i, word, s);
    StepsJoin(data, i, k, k + |rest|, s);
    RestScanned(data, k, piece, Steps(data, i, k, s));
    TakenInFrom(piece, s, Steps(data, i, k, s), Steps(data, k, k + |rest|, Steps(data, i, k, s)));
  }

  lemma RestScanned(data: string, i: nat, piece: Piece, s: Scanner)
    requires Wanted(piece) && WellFormed(piece) && s.mode == WhiteSpace && s.start <= i
    requires s.awaited == if piece.Defined? || piece.Guard? then AwaitKey else AwaitInclude
    requires i + |RestOf(piece)| <= |data| && data[i..i + |RestOf(piece)|] == RestOf(piece)
    ensures TakenIn(piece, s, Steps(data, i, i + |RestOf(piece)|, s))
  {
    hide Steps, MacroRefs;
    match piece
    case Quoted(name) => QuotedRead(data, i, name, s);
    case Bracketed(name) => BracketedRead(data, i, name, s);
    case Expanded(key) => LineRead(data, i, key, s);
    case Defined(key, value) => DefinitionRead(data, i, key, value, s);
    case Guard(key) => LineRead(data, i, key, s);
  }

  lemma QuotedRead(data: string, i: nat, name: string, s: Scanner)
    requires s.mode == WhiteSpace && s.awaited == AwaitInclude && s.start <= i && '"' !in name
    requires i + |name| + 3 <= |data| && data[i..i + |name| + 3] == "\"" + name + "\"\n"
    ensures TakenIn(Quoted(name), s, Steps(data, i, i + |name| + 3, s))
  {
    hide Steps;
    Parts(data, i, "\"", name, "\"\n");
    assert data[i] == data[i..i + 1][0] && forall h :: 0 <= h < 2 ==> data[i + |name| + 1 + h] == "\"\n"[h];
    Delimited(data, i, name, Local, s);
  }

  lemma BracketedRead(data: string, i: nat, name: string, s: Scanner)
    requires s.mode == WhiteSpace && s.awaited == AwaitInclude && s.start <= i && '>' !in name
    requires i + |name| + 3 <= |data| && data[i..i + |name| + 3] == "<" + name + ">\n"
    ensures TakenIn(Bracketed(name), s, Steps(data, i, i + |name| + 3, s))
  {
    hide Steps;
    Parts(data, i, "<", name, ">\n");
    assert data[i] == data[i..i + 1][0] && forall h :: 0 <= h < 2 ==> data[i + |name| + 1 + h] == ">\n"[h];
    Delimited(data, i, name, System, s);
  }

  /** A word that ends its line: a macro to include, or a name to define. */
  lemma LineRead(data: string, i: nat, key: string, s: Scanner)
    requires s.mode == WhiteSpace && s.awaited != AwaitValue && s.start <= i && Word(key)
    requires s.awaited == AwaitInclude ==> key[0] != '"' && key[0] != '<'
    requires i + |key| + 1 <= |data| && data[i..i + |key| + 1] == key + "\n"
    ensures TakenIn(if s.awaited == AwaitInclude then Expanded(key) else Guard(key), s,
      Steps(data, i, i + |key| + 1, s))
  {
    hide Steps, MacroRefs;
    assert key + "\n" == key + "\n" + "";
    Parts(data, i, key, "\n", "");
    assert data[i + |key|] == "\n"[0];
    WordRead(data, i, key, s);
  }

  lemma DefinitionRead(data: string, i: nat, key: string, value: string, s: Scanner)
    requires s.mode == WhiteSpace && s.awaited == AwaitKey && s.start <= i && Word(key) && Word(value)
    requires i + |key| + |value| + 2 <= |data| && data[i..i + |key| + |value| + 2] == key + " " + value + "\n"
    ensures TakenIn(Defined(key, value), s, Steps(data, i, i + |key| + |value| + 2, s))
  {
    hide Steps;
    var j, n := i + |key| + 1, |key| + |value| + 2;
    assert key + " " + value + "\n" == key + " " + (value + "\n");
    Parts(data, i, key, " ", value + "\n");
    assert data[j..i + n] == value + "\n" + "";
    Parts(data, j, value, "\n", "");
    assert data[j - 1] == " "[0] && data[i + n - 1] == "\n"[0];
    WordRead(data, i, key, s);
    WordRead(data, j, value, Steps(data, i, j, s));
    StepsJoin(data, i, j, i + n, s);
  }

  lemma HashRead(data: string, i: nat, s: Scanner)
    requires i < |data| && s.mode == Hash && s.start <= i && data[i] == '#'
    ensures Step(data, i, s) == s.(mode := Directive, start := i)
      && Steps(data, i, i + 1, s) == s.(mode := Directive, start := i)
  {
    NothingScanned(data, i, s);
    OneMore(data, i, i, s, s);
  }

  lemma NoBlankIn(word: string)
    requires NoWhite(word)
    ensures !HasBlank(word)
  {
  }

  /** A '#' and what follows it up to e, without a blank. */
  lemma NameRead(data: string, i: nat, e: nat, s: Scanner)
    requires s.mode == Hash && s.start <= i < e <= |data| && data[i] == '#' && !HasBlank(data[i + 1..e])
    ensures Steps(data, i, e, s) == s.(mode := Directive, start := i)
  {
    var s1 := s.(mode := Directive, start := i);
    hide Steps, Step, HasBlank;
    HashRead(data, i, s);
    NameStays(data, i + 1, e, s1);
    StepsJoin(data, i, i + 1, e, s);
  }

  lemma OtherEnds(data: string, i: nat, e: nat, s: Scanner)
    requires i < e < |data| && data[e] == ' ' && Unknown(data[i + 1..e])
    ensures Step(data, e, s.(mode := Directive, start := i)) == s.(mode := Hash, start := i)
  {
    assert data[i..e][1..] == data[i + 1..e];
    assert "#include"[1..] == "include" && "#define"[1..] == "define";
  }

  lemma OtherRead(data: string, i: nat, e: nat, j: nat, s: Scanner)
    requires s.mode == Hash && s.start <= i < e < j <= |data| && data[i] == '#' && !HasBlank(data[i + 1..e])
    requires data[e] == ' ' && Unknown(data[i + 1..e]) && '#' !in data[e + 1..j]
    ensures Steps(data, i, j, s) == s.(start := i)
  {
    var s1 := s.(mode := Directive, start := i);
    hide Steps, Step, HasBlank, Unknown;
    NameRead(data, i, e, s);
    OtherEnds(data, i, e, s);
    OneMore(data, i, e, s, s1);
    StepsJoin(data, i, e + 1, j, s);
    HashStays(data, e + 1, j, s.(start := i));
  }

  lemma BareScanned(data: string, i: nat, word: string, s: Scanner, o: Outcome)
    requires Shows(data, i, s, o) && o.reading.Ready? && NoWhite(word)
    requires StandsAt(data, i, "#" + word + ['\n'] + "")
    ensures i + |word| + 2 <= |data|
      && Shows(data, i + |word| + 2, Steps(data, i, i + |word| + 2, s), o.(reading := Swallowing))
  {
    var e := i + |word| + 1;
    hide Steps, Shows, StandsAt;
    NoBlankIn(word);
    hide NoWhite, HasBlank;
    DirectiveParts(data, i, word, '\n', "");
    BareRead(data, i, e, s, o);
  }

  lemma BareRead(data: string, i: nat, e: nat, s: Scanner, o: Outcome)
    requires Shows(data, i, s, o) && o.reading.Ready?
    requires i < e < |data| && data[i] == '#' && !HasBlank(data[i + 1..e]) && data[e] == '\n'
    ensures Shows(data, e + 1, Steps(data, i, e + 1, s), o.(reading := Swallowing))
  {
    var s1 := s.(mode := Directive, start := i);
    hide Steps, HasBlank;
    NameRead(data, i, e, s);
    assert Step(data, e, s1) == s1;
    hide Step;
    OneMore(data, i, e, s, s1);
    assert data[i..e + 1][e - i] == '\n';
  }

  ghost predicate StandsAt(data: string, i: nat, text: string) {
    i + |text| <= |data| && data[i..i + |text|] == text
  }

  /** A directive stands in the data from i to j: a '#', its name up to e, one character, and
      the rest. */
  ghost predicate Parted(data: string, i: nat, e: nat, j: nat, word: string, c: char, rest: string) {
    i < e < j <= |data| && data[i] == '#' && data[i + 1..e] == word && data[e] == c && data[e + 1..j] == rest
  }

  /** Taking a directive's text apart. */
  lemma DirectiveParts(data: string, i: nat, word: string, c: char, rest: string)
    requires StandsAt(data, i, "#" + word + [c] + rest)
    ensures Parted(data, i, i + |word| + 1, i + |word| + |rest| + 2, word, c, rest)
  {
    var e := i + |word| + 1;
    Parts(data, i, "#" + word, [c], rest);
    assert data[i..e][0] == data[i] && data[e..e + 1][0] == data[e];
    SubSlice(data, i, e - i, 1, e - i);
  }

  lemma OtherParts(data: string, i: nat, e: nat, j: nat, word: string, rest: string, s: Scanner)
    requires s.mode == Hash && s.start <= i && Parted(data, i, e, j, word, ' ', rest)
    requires OtherDirective(word, rest)
    ensures Steps(data, i, j, s) == s.(start := i)
  {
    hide Steps, Unknown;
    NoBlankIn(word);
    hide NoWhite, HasBlank;
    OtherRead(data, i, e, j, s);
  }

  lemma OtherScanned(data: string, i: nat, word: string, rest: string, s: Scanner)
    requires s.mode == Hash && s.start <= i && OtherDirective(word, rest)
    requires StandsAt(data, i, "#" + word + [' '] + rest)
    ensures i + |word| + |rest| + 2 <= |data| && Steps(data, i, i + |word| + |rest| + 2, s) == s.(start := i)
  {
    hide Steps, OtherDirective, StandsAt, Parted;
    DirectiveParts(data, i, word, ' ', rest);
    OtherParts(data, i, i + |word| + 1, i + |word| + |rest| + 2, word, rest, s);
  }

  /** A piece met while looking for a '#'. */
  lemma PieceTaken(data: string, i: nat, piece: Piece, s: Scanner, o: Outcome)
    requires WellFormed(piece) && o.reading.Ready? && Shows(data, i, s, o)
    requires i + |Render(piece)| <= |data| && data[i..i + |Render(piece)|] == Render(piece)
    ensures Shows(data, i + |Render(piece)|, Steps(data, i, i + |Render(piece)|, s), ReadReady(o, piece))
  {
    hide Steps;
    if Wanted(piece) {
      WantedShown(data, i, piece, s, o);
    } else {
      match piece
      case Plain(text) => HashStays(data, i, i + |text|, s);
      case Bare(word) =>
        assert Render(piece) == "#" + word + ['\n'] + "";
        hide Shows;
        BareScanned(data, i, word, s, o);
      case Other(word, rest) =>
        assert Render(piece) == "#" + word + [' '] + rest;
        OtherScanned(data, i, word, rest, s);
    }
  }

  lemma WantedShown(data: string, i: nat, piece: Piece, s: Scanner, o: Outcome)
    requires Wanted(piece) && WellFormed(piece) && o.reading.Ready? && Shows(data, i, s, o)
    requires i + |Render(piece)| <= |data| && data[i..i + |Render(piece)|] == Render(piece)
    ensures Shows(data, i + |Render(piece)|, Steps(data, i, i + |Render(piece)|, s), ReadReady(o, piece))
  {
    hide Steps, Render, WellFormed, MacroRefs;
    WantedScanned(data, i, piece, s);
    StepsStart(data, i, i + |Render(piece)|, s);
  }

  lemma StepsStart(data: string, i: nat, j: nat, s: Scanner)
    requires i <= j <= |data| && s.start <= i
    ensures Steps(data, i, j, s).start <= j
  {
    hide Step;
  }

  lemma {:induction false} PiecesScanned(data: string, pieces: seq<Piece>, defines: map<string, string>)
    requires Readable(pieces, defines) && RenderAll(pieces) <= data
    ensures Shows(data, |RenderAll(pieces)|, Steps(data, 0, |RenderAll(pieces)|, Fresh(defines)),
      ReadAll(pieces, defines))
  {
    if pieces == [] {
      NothingScanned(data, 0, Fresh(defines));
    } else {
      hide Steps, Shows, Readable;
      var before := pieces[..|pieces| - 1];
      LastRendered(data, pieces, defines);
      ReadableInit(pieces, defines);
      hide RenderAll, ReadAll, Render, Read, WellFormed, RestOf;
      PiecesScanned(data, before, defines);
      LastScanned(data, |RenderAll(before)|, pieces[|pieces| - 1], defines, ReadAll(before, defines));
    }
  }

  lemma LastRendered(data: string, pieces: seq<Piece>, defines: map<string, string>)
    requires RenderAll(pieces) <= data && pieces != []
    ensures var before, last := pieces[..|pieces| - 1], pieces[|pieces| - 1];
      var i := |RenderAll(before)|;
      && RenderAll(before) <= data && |RenderAll(pieces)| == i + |Render(last)| <= |data|
      && data[i..i + |Render(last)|] == Render(last)
      && ReadAll(pieces, defines) == Read(ReadAll(before, defines), last)
  {
    hide Render, Read;
    var text, before := RenderAll(pieces), RenderAll(pieces[..|pieces| - 1]);
    assert data[..|text|] == text && text[..|before|] == before && text[|before|..] == Render(pieces[|pieces| - 1]);
  }

  lemma LastScanned(data: string, i: nat, piece: Piece, defines: map<string, string>, o: Outcome)
    requires WellFormed(piece) && (o.reading.Ready? || '#' !in RestOf(piece))
    requires i + |Render(piece)| <= |data| && data[i..i + |Render(piece)|] == Render(piece)
    requires Shows(data, i, Steps(data, 0, i, Fresh(defines)), o)
    ensures var j := i + |Render(piece)|; Shows(data, j, Steps(data, 0, j, Fresh(defines)), Read(o, piece))
  {
    hide Steps;
    assert Steps(data, 0, i, Fresh(defines)).start <= i;
    hide Shows, Render, Read, WellFormed, RestOf;
    OnePiece(data, i, piece, Steps(data, 0, i, Fresh(defines)), o);
    StepsJoin(data, 0, i, i + |Render(piece)|, Fresh(defines));
  }

  lemma ReadableInit(pieces: seq<Piece>, defines: map<string, string>)
    requires Readable(pieces, defines) && pieces != []
    ensures Readable(pieces[..|pieces| - 1], defines) && WellFormed(pieces[|pieces| - 1])
    ensures ReadAll(pieces[..|pieces| - 1], defines).reading.Ready? || '#' !in RestOf(pieces[|pieces| - 1])
  {
    hide WellFormed, RestOf, ReadAll;
    var n := |pieces| - 1;
    forall k | 0 <= k < n
      ensures pieces[..n][..k] == pieces[..k]
    {
    }
  }

  lemma OnePiece(data: string, i: nat, piece: Piece, s: Scanner, o: Outcome)
    requires WellFormed(piece) && (o.reading.Ready? || '#' !in RestOf(piece)) && Shows(data, i, s, o)
    requires i + |Render(piece)| <= |data| && data[i..i + |Render(piece)|] == Render(piece)
    ensures Shows(data, i + |Render(piece)|, Steps(data, i, i + |Render(piece)|, s), Read(o, piece))
  {
    assert s.start <= i;
    hide Steps, Shows, Render, RestOf, WellFormed, ReadReady;
    if o.reading.Ready? {
      PieceTaken(data, i, piece, s, o);
    } else {
      PieceSwallowed(data, i, piece, s, o);
    }
  }

  /** Scanning the text of any readable pieces comes to just what reading them comes to. */
  lemma ScanOfPieces(pieces: seq<Piece>, defines: map<string, string>)
    requires Readable(pieces, defines)
    ensures var data := RenderAll(pieces);
      var r := Steps(data, 0, |data|, Fresh(defines));
      r.refs == ReadAll(pieces, defines).refs && r.defines == ReadAll(pieces, defines).defines
  {
    PiecesScanned(RenderAll(pieces), pieces, defines);
  }

  // ----- What is lost -----

  /** Every include and definition is met while looking for a '#', and so read. */
  ghost predicate NothingLost(pieces: seq<Piece>, defines: map<string, string>) {
    forall k :: 0 <= k < |pieces| && Wanted(pieces[k]) ==> ReadAll(pieces[..k], defines).reading.Ready?
  }

  /** Behind every bare directive a blank comes before the next include or definition. */
  ghost predicate EnoughBlanks(pieces: seq<Piece>) {
    forall i, j :: 0 <= i < j < |pieces| && pieces[i].Bare? && Wanted(pieces[j]) ==> BlankBetween(pieces, i, j)
  }

  ghost predicate BlankBetween(pieces: seq<Piece>, i: nat, j: nat)
    requires j <= |pieces|
  {
    exists k :: i < k < j && HasBlank(Render(pieces[k]))
  }

  ghost predicate NoGuards(pieces: seq<Piece>) {
    forall piece | piece in pieces :: !piece.Guard?
  }

  /** A bare directive with no blank behind it. */
  ghost predicate Pending(pieces: seq<Piece>, i: nat) {
    i < |pieces| && pieces[i].Bare? && forall k :: i < k < |pieces| ==> !HasBlank(Render(pieces[k]))
  }

  ghost predicate AllWellFormed(pieces: seq<Piece>) {
    forall piece | piece in pieces :: WellFormed(piece)
  }

  /** The scanner is swallowing exactly if a bare directive has no blank behind it. */
  lemma {:induction false} SwallowingIff(pieces: seq<Piece>, defines: map<string, string>)
    requires NoGuards(pieces) && AllWellFormed(pieces)
    ensures var reading := ReadAll(pieces, defines).reading;
      (reading.Ready? || reading.Swallowing?) && (reading.Swallowing? <==> exists i: nat :: Pending(pieces, i))
  {
    hide HasBlank, Render, NoWhite;
    if pieces != [] {
      var n := |pieces| - 1;
      SwallowingIff(pieces[..n], defines);
      assert pieces[n] in pieces;
      if pieces[n].Bare? { NoBlankInBare(pieces[n]); }
      if i: nat :| Pending(pieces[..n], i) && !HasBlank(Render(pieces[n])) {
        assert Pending(pieces, i);
      }
      if i: nat :| Pending(pieces, i) && i < n {
        assert Pending(pieces[..n], i);
      }
      assert pieces[n].Bare? ==> Pending(pieces, n);
    }
  }

  lemma NoBlankInBare(piece: Piece)
    requires piece.Bare? && NoWhite(piece.word)
    ensures !HasBlank(Render(piece))
  {
    forall h | 0 <= h < |Render(piece)|
      ensures !Blank(Render(piece)[h])
    {
      assert 0 < h <= |piece.word| ==> Render(piece)[h] == piece.word[h - 1];
    }
  }

  /** No include and no definition is lost exactly if behind every bare directive a blank comes
      before the next of them. */
  lemma NothingLostIff(pieces: seq<Piece>, defines: map<string, string>)
    requires NoGuards(pieces) && AllWellFormed(pieces)
    ensures NothingLost(pieces, defines) <==> EnoughBlanks(pieces)
  {
    hide ReadAll, HasBlank, Render, WellFormed;
    forall j | 0 <= j < |pieces|
      ensures ReadAll(pieces[..j], defines).reading.Ready? <==> !exists i: nat :: Pending(pieces[..j], i)
    {
      SwallowingIff(pieces[..j], defines);
    }
    forall i, j | 0 <= i < j < |pieces| && pieces[i].Bare?
      ensures BlankBetween(pieces, i, j) <==> !Pending(pieces[..j], i)
    {
      var before := pieces[..j];
      assert forall k :: i < k < j ==> before[k] == pieces[k];
    }
    if NothingLost(pieces, defines) {
      forall i, j | 0 <= i < j < |pieces| && pieces[i].Bare? && Wanted(pieces[j])
        ensures BlankBetween(pieces, i, j)
      {
      }
    }
    if EnoughBlanks(pieces) {
      forall j | 0 <= j < |pieces| && Wanted(pieces[j])
        ensures ReadAll(pieces[..j], defines).reading.Ready?
      {
        forall i | 0 <= i < j && pieces[i].Bare?
          ensures !Pending(pieces[..j], i)
        {
          assert BlankBetween(pieces, i, j);
        }
        assert forall i: nat :: Pending(pieces[..j], i) ==> i < j && pieces[i].Bare?;
      }
    }
  }

  lemma {:induction false} ReadIsMeaning(pieces: seq<Piece>, defines: map<string, string>)
    requires NoGuards(pieces) && AllWellFormed(pieces) && NothingLost(pieces, defines)
    ensures var o := ReadAll(pieces, defines);
      o.refs == Meaning(pieces, defines) && o.defines == Definitions(pieces, defines)
  {
    if pieces != [] {
      var n := |pieces| - 1;
      var before, last := pieces[..n], pieces[n];
      assert last in pieces;
      SwallowingIff(before, defines);
      LostBefore(pieces, defines);
      hide WellFormed, HasBlank, Render, MacroRefs;
      ReadIsMeaning(before, defines);
      LastMeans(ReadAll(before, defines), last, Definitions(before, defines));
    }
  }

  lemma LostBefore(pieces: seq<Piece>, defines: map<string, string>)
    requires pieces != []
    ensures var n := |pieces| - 1;
      NothingLost(pieces, defines) <==>
        NothingLost(pieces[..n], defines) && (Wanted(pieces[n]) ==> ReadAll(pieces[..n], defines).reading.Ready?)
  {
    hide ReadAll;
    var n := |pieces| - 1;
    forall k | 0 <= k < n
      ensures pieces[..n][..k] == pieces[..k]
    {
    }
  }

  lemma LastMeans(o: Outcome, piece: Piece, defines: map<string, string>)
    requires !piece.Guard? && (o.reading.Ready? || o.reading.Swallowing?) && (Wanted(piece) ==> o.reading.Ready?)
    requires o.defines == defines
    ensures Read(o, piece).refs == o.refs + RefsOf(piece, defines)
    ensures Read(o, piece).defines == if piece.Defined? then defines[piece.key := piece.value] else defines
  {
    hide HasBlank, Render, MacroRefs;
  }

  lemma LossesReadable(pieces: seq<Piece>, defines: map<string, string>)
    requires NoGuards(pieces) && AllWellFormed(pieces) && NothingLost(pieces, defines)
    ensures Readable(pieces, defines)
  {
    hide ReadAll;
    forall k | 0 <= k < |pieces|
      ensures ReadAll(pieces[..k], defines).reading.Ready? || '#' !in RestOf(pieces[k])
    {
      assert pieces[k] in pieces;
    }
  }

  /** The scanner finds exactly the includes that the pieces ask for, if behind every bare
      directive a blank comes before the next include or definition. */
  lemma ScanOfRender(pieces: seq<Piece>, defines: map<string, string>)
    requires NoGuards(pieces) && AllWellFormed(pieces) && EnoughBlanks(pieces)
    ensures var data := RenderAll(pieces);
      var r := Steps(data, 0, |data|, Fresh(defines));
      r.refs == Meaning(pieces, defines) && r.defines == Definitions(pieces, defines)
  {
    NothingLostIff(pieces, defines);
    LossesReadable(pieces, defines);
    ReadIsMeaning(pieces, defines);
    ScanOfPieces(pieces, defines);
  }

  // ----- In terms of what is found -----

  /** Includes by name only. */
  ghost predicate ByName(pieces: seq<Piece>) {
    forall piece | piece in pieces :: !piece.Guard? && !piece.Defined? && !piece.Expanded?
  }

  lemma {:induction false} LossCounts(pieces: seq<Piece>, defines: map<string, string>)
    requires ByName(pieces) && AllWellFormed(pieces)
    ensures var o := ReadAll(pieces, defines);
      |o.refs| <= |Meaning(pieces, defines)|
        && (|o.refs| == |Meaning(pieces, defines)| <==> NothingLost(pieces, defines))
  {
    if pieces != [] {
      var n := |pieces| - 1;
      var before, last := pieces[..n], pieces[n];
      assert last in pieces;
      SwallowingIff(before, defines);
      LostBefore(pieces, defines);
      LossCounts(before, defines);
      hide WellFormed, HasBlank, Render, MacroRefs, NothingLost, Pending;
    }
  }

  /** Of includes by name, the scanner finds all exactly if behind every bare directive a blank
      comes before the next include. */
  lemma FoundAllIff(pieces: seq<Piece>, defines: map<string, string>)
    requires ByName(pieces) && Readable(pieces, defines)
    ensures var data := RenderAll(pieces);
      Steps(data, 0, |data|, Fresh(defines)).refs == Meaning(pieces, defines) <==> EnoughBlanks(pieces)
  {
    hide ReadAll, Meaning, RenderAll, WellFormed, EnoughBlanks, NothingLost, Steps;
    ScanOfPieces(pieces, defines);
    NothingLostIff(pieces, defines);
    LossCounts(pieces, defines);
    if NothingLost(pieces, defines) { ReadIsMeaning(pieces, defines); }
  }

  /** For example, an include behind a bare #endif is lost. */
  lemma BareDirectiveSwallows(word: string, name: string, defines: map<string, string>)
    requires NoWhite(word) && '#' !in name && '"' !in name
    ensures var data := RenderAll([Bare(word), Quoted(name)]);
      Steps(data, 0, |data|, Fresh(defines)).refs == []
  {
    var pieces := [Bare(word), Quoted(name)];
    assert pieces[..1] == [Bare(word)] && pieces[..1][..0] == [] && pieces[..0] == [];
    assert '#' !in RestOf(pieces[1]);
    assert ReadAll(pieces[..1], defines) == Outcome(Swallowing, defines, []);
    ScanOfPieces(pieces, defines);
  }

  // ----- Definitions without a value -----

  /** Where the value is looked for, the line ends, or a word stands that ends. */
  predicate SettlesValue(text: string) {
    exists i :: 0 <= i < |SkipBlanks(text)| && White(SkipBlanks(text)[i])
  }

  /** The scanner takes a value from the lines that follow a definition without one, as an
      include guard is. The include after it is found exactly if the text in between has a
      line end or a word to spare. */
  lemma IncludeAfterGuardIff(key: string, text: string, name: string, defines: map<string, string>)
    requires Word(key) && '#' !in text && '#' !in name && '"' !in name
    ensures var data := RenderAll([Guard(key), Plain(text), Quoted(name)]);
      var refs := Steps(data, 0, |data|, Fresh(defines)).refs;
      refs == (if SettlesValue(text) then [Ref(name, Local)] else [])
  {
    var pieces := [Guard(key), Plain(text), Quoted(name)];
    ReadAfterGuard(key, text, name, defines);
    hide ReadAll, RenderAll, Steps, SettlesValue;
    ScanOfPieces(pieces, defines);
  }

  lemma ReadAfterGuard(key: string, text: string, name: string, defines: map<string, string>)
    requires Word(key) && '#' !in text && '#' !in name && '"' !in name
    ensures var pieces := [Guard(key), Plain(text), Quoted(name)];
      && Readable(pieces, defines)
      && ReadAll(pieces, defines).refs == if SettlesValue(text) then [Ref(name, Local)] else []
  {
    var pieces := [Guard(key), Plain(text), Quoted(name)];
    var o := Outcome(NeedsValue(key), defines, []);
    FirstTwo(pieces);
    assert ReadAll(pieces[..1], defines) == o;
    assert ReadAll(pieces[..2], defines) == ReadForValue(o, key, text);
    assert ReadAll(pieces, defines) == Read(ReadForValue(o, key, text), Quoted(name));
    TextBetween(o, key, text);
    NoHashes(key, text, name);
    hide ReadAll, ReadForValue, ReadInValue, SettlesValue, Render, RestOf, HasBlank;
  }

  lemma FirstTwo(pieces: seq<Piece>)
    requires |pieces| == 3
    ensures pieces[..2][..1] == pieces[..1] && pieces[..1][..0] == [] && pieces[..0] == []
    ensures pieces[..2][1] == pieces[1] && pieces[..1][0] == pieces[0]
  {
  }

  lemma NoHashes(key: string, text: string, name: string)
    requires Word(key) && '#' !in text && '#' !in name && '"' !in name
    ensures WellFormed(Guard(key)) && WellFormed(Plain(text)) && WellFormed(Quoted(name))
    ensures '#' !in RestOf(Plain(text)) && '#' !in RestOf(Quoted(name))
  {
  }

  lemma TextBetween(o: Outcome, key: string, text: string)
    requires o.reading == NeedsValue(key)
    ensures ReadForValue(o, key, text).reading.Ready? <==> SettlesValue(text)
    ensures ReadForValue(o, key, text).refs == o.refs
  {
    var t := SkipBlanks(text);
    var n := WordLength(t);
    if n < |t| { assert White(t[n]); }
  }
}
