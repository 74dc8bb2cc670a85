/** libs/go/p4lib/p4_impl.go: when parseClient fails at run time. It takes the first token of
    every line outside a block that is neither empty nor a comment, and a line of white space
    that is not trimmed away has no tokens. */
module ClientCrash {
  import opened Words
  import opened ClientSpec
  import Text
  import Opts = ClientOptions

  /** Nothing but white space, and not only the kinds that the trimming of a line removes. */
  predicate Loose(line: string) {
    (forall c | c in line :: IsSpace(c)) && exists c | c in line :: c !in " \n\r"
  }

  /** Which block a line stands in. */
  datatype Within = NoBlock | InChangeView | InDescription | InView

  /** The line starts a field, which ends the block it stands in. Comments go on with the
      block, but not in a description. */
  predicate Ends(within: Within, tokens: seq<string>) {
    tokens != [] && IsFieldToken(tokens[0]) && (within.InDescription? || !SkippedInBlock(tokens))
  }

  /** The line is read as a line of its own. */
  predicate Outside(within: Within, line: string) {
    within.NoBlock? || Ends(within, Tokenize(TrimLine(line)))
  }

  predicate Ignored(line: string) {
    TrimLine(line) == "" || TrimLine(line)[0] == '#'
  }

  /** The block after the line. */
  function WithinAfter(within: Within, line: string): Within {
    var tokens := Tokenize(TrimLine(line));
    if !Outside(within, line) then within
    else if Ignored(line) || tokens == [] then NoBlock
    else if tokens[0] == "ChangeView:" then InChangeView
    else if tokens[0] == "Description:" then InDescription
    else if tokens[0] == "View:" then InView
    else NoBlock
  }

  /** The line is an error: a wrong view entry, a field with the wrong number of values, or
      an unknown option. It does not matter what was read before. */
  predicate Wrong(within: Within, line: string) {
    var tokens := Tokenize(TrimLine(line));
    if !Outside(within, line) then within.InView? && !SkippedInBlock(tokens) && |tokens| != 2
    else
      && !Ignored(line) && tokens != []
      && tokens[0] != "ChangeView:" && tokens[0] != "Description:" && tokens[0] != "View:"
      && (|tokens| < 2 || (tokens[0] in SINGLE_VALUED && |tokens| != 2)
          || (tokens[0] == "Options:" && exists o | o in tokens[1..] :: !Opts.IsOption(o)))
  }

  /** The block that line i stands in, if the first line stands in start. */
  function WithinAt(lines: seq<string>, i: nat, start: Within): Within
    requires i <= |lines|
  {
    if i == 0 then start else WithinAfter(WithinAt(lines, i - 1, start), lines[i - 1])
  }

  /** Line i is loose and read as a line of its own, and no line before it is an error. */
  ghost predicate CrashesAt(lines: seq<string>, i: nat, start: Within) {
    && i < |lines| && Loose(lines[i]) && Outside(WithinAt(lines, i, start), lines[i])
    && forall j :: 0 <= j < i ==> !Wrong(WithinAt(lines, j, start), lines[j])
  }

  // ----- Loose lines have no tokens -----

  lemma {:induction false} TrimLeftGone(s: string, cut: string)
    ensures TrimLeft(s, cut) == "" <==> forall c | c in s :: c in cut
    ensures TrimLeft(s, cut) != "" ==> TrimLeft(s, cut)[0] !in cut
  {
    if s != "" && s[0] in cut {
      TrimLeftGone(s[1..], cut);
      assert s == [s[0]] + s[1..];
    }
  }

  lemma {:induction false} TrimRightKeeps(s: string, cut: string)
    requires s != "" && s[0] !in cut
    ensures TrimRight(s, cut) != "" && TrimRight(s, cut)[0] == s[0]
    decreases |s|
  {
    if s[|s| - 1] in cut { TrimRightKeeps(s[..|s| - 1], cut); }
  }

  lemma TrimGone(s: string, cut: string)
    ensures Trim(s, cut) == "" <==> forall c | c in s :: c in cut
  {
    TrimLeftGone(s, cut);
    hide TrimLeft;
    if TrimLeft(s, cut) != "" { TrimRightKeeps(TrimLeft(s, cut), cut); }
  }

  lemma {:induction false} NoFields(s: string)
    ensures Fields(s) == [] <==> forall c | c in s :: IsSpace(c)
    decreases |s|
  {
    hide IsSpace;
    if s != "" {
      assert s == [s[0]] + s[1..];
      if IsSpace(s[0]) { NoFields(s[1..]); }
    }
  }

  /** The parser finds no token in a line it does not ignore exactly if the line is loose. */
  lemma LooseLine(line: string)
    ensures Loose(line) <==> TrimLine(line) != "" && Tokenize(TrimLine(line)) == []
    ensures Loose(line) ==> !Ignored(line)
  {
    TokensAreFields(TrimLine(line));
    CutsAreSpaces();
    FieldsTrim(line, " \n\r");
    NoFields(line);
    TrimGone(line, " \n\r");
    if Loose(line) {
      NoFields(TrimLine(line));
      assert TrimLine(line)[0] in TrimLine(line);
    }
  }

  // ----- One line at a time -----

  datatype Fate = Fine | Errs | Crashes

  /** What becomes of the lines, the first of which stands in this block. */
  function FateOf(lines: seq<string>, within: Within): Fate {
    if lines == [] then Fine
    else if Wrong(within, lines[0]) then Errs
    else if Loose(lines[0]) && Outside(within, lines[0]) then Crashes
    else FateOf(lines[1..], WithinAfter(within, lines[0]))
  }

  lemma {:induction false} ChangeViewFate(lines: seq<string>, collected: seq<string>)
    ensures FateOf(lines, InChangeView) == FateOf(ChangeViewBlock(lines, collected).rest, NoBlock)
  {
    if lines != [] {
      var line := TrimLine(lines[0]);
      hide TrimLine, Tokenize, Loose;
      if SkippedInBlock(Tokenize(line)) {
        ChangeViewFate(lines[1..], collected);
      } else if !IsFieldToken(Tokenize(line)[0]) {
        ChangeViewFate(lines[1..], collected + [line]);
      }
    }
  }

  lemma {:induction false} DescriptionFate(lines: seq<string>, collected: string)
    ensures FateOf(lines, InDescription) == FateOf(DescriptionBlock(lines, collected).rest, NoBlock)
  {
    if lines != [] {
      var line := TrimLine(lines[0]);
      hide TrimLine, Tokenize, Loose;
      if !(Tokenize(line) != [] && IsFieldToken(Tokenize(line)[0])) {
        DescriptionFate(lines[1..], collected + line + "\n");
      }
    }
  }

  lemma {:induction false} ViewFate(lines: seq<string>, collected: seq<ViewEntry>)
    ensures var b := ViewBlock(lines, collected);
      FateOf(lines, InView) == if b.Block? then FateOf(b.rest, NoBlock) else Errs
  {
    if lines != [] {
      var line := TrimLine(lines[0]);
      var tokens := Tokenize(line);
      hide TrimLine, Tokenize, Loose;
      if SkippedInBlock(tokens) {
        ViewFate(lines[1..], collected);
      } else if !IsFieldToken(tokens[0]) && |tokens| == 2 {
        ViewFate(lines[1..], collected + [ViewEntry(tokens[0], tokens[1])]);
      }
    }
  }

  lemma {:induction false} OptionsFail(options: seq<string>, more: seq<string>)
    ensures !AddOptions(options, more).Crash?
    ensures AddOptions(options, more).Err? <==> exists o | o in more :: !Opts.IsOption(o)
    decreases |more|
  {
    if more != [] {
      assert more == [more[0]] + more[1..];
      if Opts.IsOption(more[0]) { OptionsFail(Opts.Appended(options, more[0]), more[1..]); }
    }
  }

  /** A single-line field is an error whatever was read before. */
  lemma FieldFails(c: Client, line: string, tokens: seq<string>)
    requires tokens != []
    ensures !ApplyLine(c, line, tokens).Crash?
    ensures ApplyLine(c, line, tokens).Err? <==>
      || |tokens| < 2 || (tokens[0] in SINGLE_VALUED && |tokens| != 2)
      || (tokens[0] == "Options:" && exists o | o in tokens[1..] :: !Opts.IsOption(o))
  {
    hide AddOptions, Opts.IsOption;
    OptionsFail(c.options, tokens[1..]);
  }

  lemma {:induction false} FateOfParse(lines: seq<string>, c: Client)
    ensures ParseLines(lines, c) == Crash <==> FateOf(lines, NoBlock) == Crashes
    decreases |lines|
  {
    if lines != [] {
      var rest, tokens := lines[1..], Tokenize(TrimLine(lines[0]));
      LooseLine(lines[0]);
      hide TrimLine, Tokenize, Loose, ChangeViewBlock, DescriptionBlock, ViewBlock, ApplyLine;
      if Ignored(lines[0]) {
        FateOfParse(rest, c);
      } else if tokens == [] {
      } else if tokens[0] == "ChangeView:" {
        var b := ChangeViewBlock(rest, c.changeView);
        ChangeViewFate(rest, c.changeView);
        FateOfParse(b.rest, c.(changeView := b.collected));
      } else if tokens[0] == "Description:" {
        var b := DescriptionBlock(rest, c.description);
        DescriptionFate(rest, c.description);
        FateOfParse(b.rest, c.(description := b.collected));
      } else if tokens[0] == "View:" {
        var b := ViewBlock(rest, c.view);
        ViewFate(rest, c.view);
        if b.Block? { FateOfParse(b.rest, c.(view := b.collected)); }
      } else {
        FieldFate(lines, c);
        var applied := ApplyLine(c, TrimLine(lines[0]), tokens);
        if applied.Ok? { FateOfParse(rest, applied.value); }
      }
    }
  }

  /** The line is a single-line field. */
  predicate IsField(line: string) {
    var tokens := Tokenize(TrimLine(line));
    !Ignored(line) && tokens != [] && tokens[0] != "ChangeView:" && tokens[0] != "Description:" && tokens[0] != "View:"
  }

  lemma FieldFate(lines: seq<string>, c: Client)
    requires lines != [] && IsField(lines[0])
    ensures var applied := ApplyLine(c, TrimLine(lines[0]), Tokenize(TrimLine(lines[0])));
      && FateOf(lines, NoBlock) == (if applied.Ok? then FateOf(lines[1..], NoBlock) else Errs)
      && (applied.Ok? ==> ParseLines(lines, c) == ParseLines(lines[1..], applied.value))
      && (!applied.Ok? ==> ParseLines(lines, c) != Crash)
  {
    LooseLine(lines[0]);
    FieldFails(c, TrimLine(lines[0]), Tokenize(TrimLine(lines[0])));
    hide TrimLine, Tokenize, Loose, ApplyLine;
  }

  lemma {:induction false} WithinShift(lines: seq<string>, i: nat, start: Within)
    requires i < |lines|
    ensures WithinAt(lines, i + 1, start) == WithinAt(lines[1..], i, WithinAfter(start, lines[0]))
  {
    hide WithinAfter;
    if i > 0 { WithinShift(lines, i - 1, start); }
  }

  lemma {:induction false} CrashFound(lines: seq<string>, start: Within) returns (i: nat)
    requires FateOf(lines, start) == Crashes
    ensures CrashesAt(lines, i, start)
  {
    hide WithinAfter, Wrong, Loose, Outside;
    if Loose(lines[0]) && Outside(start, lines[0]) {
      i := 0;
      assert WithinAt(lines, 0, start) == start;
    } else {
      i := CrashFound(lines[1..], WithinAfter(start, lines[0]));
      LaterStart(lines, i, start);
      i := i + 1;
    }
  }

  lemma FirstCrashes(lines: seq<string>, start: Within)
    requires lines != [] && Loose(lines[0]) && Outside(start, lines[0])
    ensures FateOf(lines, start) == Crashes
  {
    LooseLine(lines[0]);
    hide Loose, TrimLine, Tokenize, WithinAfter;
  }

  lemma {:induction false} CrashMet(lines: seq<string>, i: nat, start: Within)
    requires CrashesAt(lines, i, start)
    ensures FateOf(lines, start) == Crashes
  {
    hide WithinAfter, Wrong, Loose, Outside;
    if i > 0 {
      EarlierStart(lines, i - 1, start);
      CrashMet(lines[1..], i - 1, WithinAfter(start, lines[0]));
    } else {
      assert WithinAt(lines, 0, start) == start;
      FirstCrashes(lines, start);
    }
  }

  lemma EarlierStart(lines: seq<string>, i: nat, start: Within)
    requires CrashesAt(lines, i + 1, start)
    ensures CrashesAt(lines[1..], i, WithinAfter(start, lines[0])) && !Wrong(start, lines[0])
  {
    hide WithinAfter, Wrong, Loose, Outside;
    WithinShift(lines, i, start);
    assert !Wrong(WithinAt(lines, 0, start), lines[0]);
    forall j | 0 <= j < i
      ensures !Wrong(WithinAt(lines[1..], j, WithinAfter(start, lines[0])), lines[1..][j])
    {
      WithinShift(lines, j, start);
      assert !Wrong(WithinAt(lines, j + 1, start), lines[j + 1]);
    }
  }

  lemma LaterStart(lines: seq<string>, i: nat, start: Within)
    requires lines != [] && CrashesAt(lines[1..], i, WithinAfter(start, lines[0])) && !Wrong(start, lines[0])
    ensures CrashesAt(lines, i + 1, start)
  {
    hide WithinAfter, Wrong, Loose, Outside;
    WithinShift(lines, i, start);
    forall j | 0 <= j < i + 1
      ensures !Wrong(WithinAt(lines, j, start), lines[j])
    {
      if j > 0 {
        WithinShift(lines, j - 1, start);
        assert !Wrong(WithinAt(lines[1..], j - 1, WithinAfter(start, lines[0])), lines[1..][j - 1]);
      }
    }
  }

  lemma FateIff(lines: seq<string>, start: Within)
    ensures FateOf(lines, start) == Crashes <==> exists i: nat :: CrashesAt(lines, i, start)
  {
    hide FateOf, CrashesAt;
    if FateOf(lines, start) == Crashes {
      var i := CrashFound(lines, start);
    } else if i: nat :| CrashesAt(lines, i, start) {
      CrashMet(lines, i, start);
      assert false;
    }
  }

  // ----- When the parser crashes -----

  /** It crashes exactly if it reaches a loose line outside the blocks before any error. */
  lemma CrashIff(data: string)
    ensures Parse(data) == Crash <==> exists i: nat :: CrashesAt(Text.Split(data, '\n'), i, NoBlock)
  {
    FateOfParse(Text.Split(data, '\n'), NoClient);
    FateIff(Text.Split(data, '\n'), NoBlock);
    hide FateOf, CrashesAt;
    assert Parse(data) == ParseLines(Text.Split(data, '\n'), NoClient);
  }

  /** Without loose lines it never does. */
  lemma TightLinesNeverCrash(data: string)
    requires forall line | line in Text.Split(data, '\n') :: !Loose(line)
    ensures Parse(data) != Crash
  {
    CrashIff(data);
    hide Loose;
  }

  /** A tab, or any white space but a blank, a carriage return and a line feed, is enough. */
  lemma OneCharacterCrashes(c: char)
    requires IsSpace(c) && c !in " \n\r"
    ensures Parse([c]) == Crash
  {
    Text.SplitOne([c], '\n');
    assert c in [c];
    CrashIff([c]);
    assert CrashesAt(Text.Split([c], '\n'), 0, NoBlock);
  }
}
