/** tools/incredible/src/main.rs: file_process, the byte scanner that finds the include
    directives of a file. Bytes are modelled as characters. */
module IncludeScanner {
  import opened IncludePaths

  datatype Mode = Hash | Directive | WhiteSpace | DefineKey | DefineValue | Quote | Arrow | Macro

  datatype Awaited = AwaitKey | AwaitValue | AwaitInclude

  /** The scanner's variables, and the includes it has added so far. */
  datatype Scanner = Scanner(mode: Mode, awaited: Awaited, start: nat, key: string, defines: map<string, string>,
    refs: seq<Ref>)

  predicate Blank(c: char) {
    c == ' ' || c == '\t'
  }

  predicate White(c: char) {
    Blank(c) || c == '\r' || c == '\n'
  }

  /** The include a macro stands for: its value with the outer characters removed. */
  function MacroRefs(defines: map<string, string>, key: string): seq<Ref> {
    if key !in defines || |defines[key]| <= 1 then []
    else
      var value := defines[key];
      if value[0] == '"' then [Ref(value[1..|value| - 1], Local)]
      else if value[0] == '<' then [Ref(value[1..|value| - 1], System)]
      else []
  }

  /** A macro stands for a quoted name, a bracketed one, or nothing. */
  lemma MacroMeans(defines: map<string, string>, key: string, name: string)
    ensures MacroRefs(defines[key := "\"" + name + "\""], key) == [Ref(name, Local)]
    ensures MacroRefs(defines[key := "<" + name + ">"], key) == [Ref(name, System)]
    ensures key !in defines ==> MacroRefs(defines, key) == []
    ensures key in defines && (|defines[key]| <= 1 || (defines[key][0] != '"' && defines[key][0] != '<')) ==>
      MacroRefs(defines, key) == []
  {
    var quoted, bracketed := "\"" + name + "\"", "<" + name + ">";
    assert quoted[1..|quoted| - 1] == name && bracketed[1..|bracketed| - 1] == name;
    assert quoted[0] == '"' && bracketed[0] == '<';
  }

  function Step(data: string, cursor: nat, s: Scanner): (r: Scanner)
    requires cursor < |data| && s.start <= cursor
    ensures r.start <= cursor
  {
    var c := data[cursor];
    match s.mode
    case Hash => if c == '#' then s.(mode := Directive, start := cursor) else s
    case Directive =>
      if !Blank(c) then s
      else
        var directive := data[s.start..cursor];
        if directive == "#include" then s.(awaited := AwaitInclude, mode := WhiteSpace)
        else if directive == "#define" then s.(awaited := AwaitKey, mode := WhiteSpace)
        else s.(mode := Hash)
    case WhiteSpace =>
      var s' := s.(start := cursor);
      if Blank(c) then s'
      else if White(c) then s'.(mode := Hash)
      else if s.awaited == AwaitKey then s'.(mode := DefineKey)
      else if s.awaited == AwaitValue then s'.(mode := DefineValue)
      else s'.(mode := if c == '"' then Quote else if c == '<' then Arrow else Macro)
    case DefineKey =>
      if White(c) then s.(key := data[s.start..cursor], awaited := AwaitValue, mode := WhiteSpace) else s
    case DefineValue =>
      if White(c) then s.(defines := s.defines[s.key := data[s.start..cursor]], mode := Hash) else s
    case Quote =>
      if c == '"' && s.start < cursor then
        s.(refs := s.refs + [Ref(data[s.start + 1..cursor], Local)], mode := Hash)
      else s
    case Arrow =>
      if c == '>' && s.start < cursor then
        s.(refs := s.refs + [Ref(data[s.start + 1..cursor], System)], mode := Hash)
      else s
    case Macro =>
      if White(c) then s.(refs := s.refs + MacroRefs(s.defines, data[s.start..cursor]), mode := Hash) else s
  }

  /** The scanner after the bytes from i up to j. */
  function Steps(data: string, i: nat, j: nat, s: Scanner): (r: Scanner)
    requires i <= j <= |data| && (i < j ==> s.start <= i)
    ensures i < j ==> r.start < j
    decreases j
  {
    if i == j then s else Step(data, j - 1, Steps(data, i, j - 1, s))
  }

  function Fresh(defines: map<string, string>): Scanner {
    Scanner(Hash, AwaitInclude, 0, "", defines, [])
  }

  /** One pass over the data; the command line's definitions hold at the start. */
  method FileRefs(data: string, defines0: map<string, string>) returns (refs: seq<Ref>, defines: map<string, string>)
    ensures refs == Steps(data, 0, |data|, Fresh(defines0)).refs
    ensures defines == Steps(data, 0, |data|, Fresh(defines0)).defines
  {
    var awaited, mode, start: nat, key := AwaitInclude, Hash, 0, "";
    refs, defines := [], defines0;
    NothingScanned(data, 0, Fresh(defines0));
    hide Steps, MacroRefs;
    for cursor := 0 to |data|
      invariant Steps(data, 0, cursor, Fresh(defines0)) == Scanner(mode, awaited, start, key, defines, refs)
      invariant start <= cursor && (mode == Quote || mode == Arrow ==> start < cursor)
    {
      OneMore(data, 0, cursor, Fresh(defines0), Scanner(mode, awaited, start, key, defines, refs));
      var character := data[cursor];
      match mode {
        case Hash =>
          if '#' == character {
            mode := Directive;
            start := cursor;
          }
        case Directive =>
          if character == ' ' || character == '\t' {
            var directive := data[start..cursor];
            if directive == "#include" {
              awaited := AwaitInclude;
              mode := WhiteSpace;
            } else if directive == "#define" {
              awaited := AwaitKey;
              mode := WhiteSpace;
            } else {
              mode := Hash;
            }
          }
        case WhiteSpace =>
          start := cursor;
          if character == ' ' || character == '\t' {
          } else if character == '\r' || character == '\n' {
            mode := Hash;
          } else {
            match awaited
            case AwaitInclude =>
              mode := if character == '"' then Quote else if character == '<' then Arrow else Macro;
            case AwaitKey =>
              mode := DefineKey;
            case AwaitValue =>
              mode := DefineValue;
          }
        case DefineKey =>
          if White(character) {
            key := data[start..cursor];
            awaited := AwaitValue;
            mode := WhiteSpace;
          }
        case DefineValue =>
          if White(character) {
            defines := defines[key := data[start..cursor]];
            mode := Hash;
          }
        case Quote =>
          if '"' == character {
            refs := refs + [Ref(data[start + 1..cursor], Local)];
            mode := Hash;
          }
        case Arrow =>
          if '>' == character {
            refs := refs + [Ref(data[start + 1..cursor], System)];
            mode := Hash;
          }
        case Macro =>
          if White(character) {
            refs := refs + MacroRefs(defines, data[start..cursor]);
            mode := Hash;
          }
      }
    }
  }

  // ----- Many steps at once -----

  ghost predicate Word(s: string) {
    s != "" && forall i :: 0 <= i < |s| ==> !White(s[i])
  }

  lemma NothingScanned(data: string, i: nat, s: Scanner)
    requires i <= |data|
    ensures Steps(data, i, i, s) == s
  {
  }

  lemma StartWithin(data: string, i: nat, s: Scanner)
    requires i <= |data| && s.start == 0
    ensures Steps(data, 0, i, s).start <= i
  {
  }

  lemma {:induction false} StepsJoin(data: string, i: nat, j: nat, k: nat, s: Scanner)
    requires i <= j <= k <= |data| && s.start <= i
    ensures (j < k ==> Steps(data, i, j, s).start <= j)
      && Steps(data, i, k, s) == Steps(data, j, k, Steps(data, i, j, s))
    decreases k
  {
    hide Step;
    if j < k {
      StepsJoin(data, i, j, k - 1, s);
    }
  }

  lemma OneMore(data: string, i: nat, j: nat, s: Scanner, s1: Scanner)
    requires i <= j < |data| && s.start <= i && Steps(data, i, j, s) == s1
    ensures s1.start <= j && Steps(data, i, j + 1, s) == Step(data, j, s1)
  {
    hide Step;
  }

  /** Bytes that do not end the current mode change nothing. */
  lemma {:induction false} Stays(data: string, i: nat, j: nat, s: Scanner)
    requires i <= j <= |data| && s.start <= i
    requires match s.mode
      case Hash => '#' !in data[i..j]
      case Directive => forall h :: i <= h < j ==> !Blank(data[h])
      case WhiteSpace => i == j
      case Quote => '"' !in data[i..j]
      case Arrow => '>' !in data[i..j]
      case _ => forall h :: i <= h < j ==> !White(data[h])
    ensures Steps(data, i, j, s) == s
    decreases j
  {
    if i < j {
      assert data[i..j] == data[i..j - 1] + [data[j - 1]];
      Stays(data, i, j - 1, s);
    }
  }

  /** A keyword and the blank behind it. */
  lemma Keyword(data: string, i: nat, word: string, s: Scanner)
    requires s.mode == Hash && s.start <= i
    requires word == "#include" || word == "#define"
    requires i + |word| + 1 <= |data| && data[i..i + |word| + 1] == word + " "
    ensures Steps(data, i, i + |word| + 1, s) ==
      Scanner(WhiteSpace, if word == "#include" then AwaitInclude else AwaitKey, i, s.key, s.defines, s.refs)
  {
    hide Steps;
    var end := i + |word|;
    KeywordAt(data, i, word);
    var s1 := s.(mode := Directive, start := i);
    NothingScanned(data, i, s);
    OneMore(data, i, i, s, s);
    StepsJoin(data, i, i + 1, end, s);
    Stays(data, i + 1, end, s1);
    OneMore(data, i, end, s, s1);
  }

  lemma KeywordAt(data: string, i: nat, word: string)
    requires word == "#include" || word == "#define"
    requires i + |word| + 1 <= |data| && data[i..i + |word| + 1] == word + " "
    ensures data[i] == '#' && data[i + |word|] == ' ' && data[i..i + |word|] == word
    ensures forall h :: i <= h < i + |word| ==> !Blank(data[h])
  {
    var end := i + |word|;
    assert data[i] == (word + " ")[0] && data[end] == (word + " ")[|word|];
    assert forall h :: i <= h < end ==> data[h] == (word + " ")[h - i];
  }

  /** The parts of a text that stands somewhere in the data. */
  lemma Parts(data: string, i: nat, a: string, b: string, c: string)
    requires i + |a| + |b| + |c| <= |data| && data[i..i + |a| + |b| + |c|] == a + b + c
    ensures data[i..i + |a|] == a && data[i + |a|..i + |a| + |b|] == b && data[i + |a| + |b|..i + |a| + |b| + |c|] == c
  {
    var text := a + b + c;
    assert text[..|a|] == a && text[|a|..|a| + |b|] == b && text[|a| + |b|..|text|] == c;
    SubSlice(data, i, |text|, 0, |a|);
    SubSlice(data, i, |text|, |a|, |a| + |b|);
    SubSlice(data, i, |text|, |a| + |b|, |text|);
  }

  lemma SubSlice(data: string, i: nat, n: nat, lo: nat, hi: nat)
    requires lo <= hi <= n && i + n <= |data|
    ensures data[i..i + n][lo..hi] == data[i + lo..i + hi]
  {
    var d, e := data[i..i + n][lo..hi], data[i + lo..i + hi];
    assert |d| == |e| && forall h :: 0 <= h < |d| ==> d[h] == e[h];
  }

  /** An include name between its delimiters, at a blank's place. */
  lemma Delimited(data: string, i: nat, name: string, kind: SearchKind, s: Scanner)
    requires s.mode == WhiteSpace && s.awaited == AwaitInclude && s.start <= i
    requires i + |name| + 3 <= |data| && data[i + 1..i + |name| + 1] == name && data[i + |name| + 2] == '\n'
    requires kind == Local ==> '"' !in name && data[i] == '"' && data[i + |name| + 1] == '"'
    requires kind == System ==> '>' !in name && data[i] == '<' && data[i + |name| + 1] == '>'
    ensures var r := Steps(data, i, i + |name| + 3, s);
      r.mode == Hash && r.defines == s.defines && r.refs == s.refs + [Ref(name, kind)]
  {
    var end := i + |name| + 1;
    var s1 := s.(mode := if kind == Local then Quote else Arrow, start := i);
    hide Steps;
    NothingScanned(data, i, s);
    OneMore(data, i, i, s, s);
    StepsJoin(data, i, i + 1, end, s);
    Stays(data, i + 1, end, s1);
    OneMore(data, i, end, s, s1);
    OneMore(data, i, end + 1, s, Step(data, end, s1));
  }

  /** A word behind a blank, up to the white space that ends it. */
  lemma WordRead(data: string, i: nat, word: string, s: Scanner)
    requires s.mode == WhiteSpace && s.start <= i && Word(word)
    requires s.awaited == AwaitInclude ==> word[0] != '"' && word[0] != '<'
    requires i + |word| + 1 <= |data| && data[i..i + |word|] == word && White(data[i + |word|])
    ensures Steps(data, i, i + |word| + 1, s) ==
      match s.awaited
      case AwaitKey => Scanner(WhiteSpace, AwaitValue, i, word, s.defines, s.refs)
      case AwaitValue => Scanner(Hash, AwaitValue, i, s.key, s.defines[s.key := word], s.refs)
      case AwaitInclude => Scanner(Hash, AwaitInclude, i, s.key, s.defines, s.refs + MacroRefs(s.defines, word))
  {
    var end := i + |word|;
    WordStarts(data, i, word, s);
    var s1 := Step(data, i, s);
    hide Steps, Step;
    NothingScanned(data, i, s);
    OneMore(data, i, i, s, s);
    StepsJoin(data, i, i + 1, end, s);
    Stays(data, i + 1, end, s1);
    OneMore(data, i, end, s, s1);
    WordEnds(data, i, word, s1);
  }

  function WordMode(awaited: Awaited): Mode {
    match awaited
    case AwaitKey => DefineKey
    case AwaitValue => DefineValue
    case AwaitInclude => Macro
  }

  lemma WordStarts(data: string, i: nat, word: string, s: Scanner)
    requires s.mode == WhiteSpace && s.start <= i && Word(word)
    requires s.awaited == AwaitInclude ==> word[0] != '"' && word[0] != '<'
    requires i + |word| <= |data| && data[i..i + |word|] == word
    ensures Step(data, i, s) ==
      s.(start := i, mode := WordMode(s.awaited))
    ensures forall h :: i + 1 <= h < i + |word| ==> !White(data[h])
  {
    assert data[i] == word[0] && forall h :: i <= h < i + |word| ==> data[h] == word[h - i];
  }

  lemma WordEnds(data: string, i: nat, word: string, s: Scanner)
    requires i + |word| < |data| && data[i..i + |word|] == word && White(data[i + |word|]) && s.start == i
    requires s.mode == WordMode(s.awaited)
    ensures Step(data, i + |word|, s) ==
      match s.awaited
      case AwaitKey => Scanner(WhiteSpace, AwaitValue, i, word, s.defines, s.refs)
      case AwaitValue => Scanner(Hash, AwaitValue, i, s.key, s.defines[s.key := word], s.refs)
      case AwaitInclude => Scanner(Hash, AwaitInclude, i, s.key, s.defines, s.refs + MacroRefs(s.defines, word))
  {
  }
}
