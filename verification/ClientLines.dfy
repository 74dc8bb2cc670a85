/** libs/go/p4lib/p4_impl.go: what parseClient makes of any text, field by field and line by
    line. */
module ClientLines {
  import opened Words
  import opened ClientSpec
  import opened ClientCrash
  import Text
  import Opts = ClientOptions

  // ----- The client a list of lines describes -----

  /** Line i stands inside a block of this kind, and does not end it. */
  predicate Inside(lines: seq<string>, i: nat, block: Within)
    requires i < |lines|
  {
    WithinAt(lines, i, NoBlock) == block && !Outside(block, lines[i])
  }

  function TokensAt(lines: seq<string>, i: nat): seq<string>
    requires i < |lines|
  {
    Tokenize(TrimLine(lines[i]))
  }

  /** Line i is read on its own and gives a value to this field. */
  predicate Gives(lines: seq<string>, i: nat, key: string)
    requires i < |lines|
  {
    && Outside(WithinAt(lines, i, NoBlock), lines[i]) && !Ignored(lines[i])
    && |TokensAt(lines, i)| >= 2 && TokensAt(lines, i)[0] == key
  }

  /** The value on the last of the first n lines that gives the field one. */
  function Value(lines: seq<string>, n: nat, key: string): string
    requires n <= |lines|
  {
    if n == 0 then "" else if Gives(lines, n - 1, key) then TokensAt(lines, n - 1)[1] else Value(lines, n - 1, key)
  }

  /** The values on the last of the first n lines that gives the field some. */
  function Values(lines: seq<string>, n: nat, key: string): seq<string>
    requires n <= |lines|
  {
    if n == 0 then [] else if Gives(lines, n - 1, key) then TokensAt(lines, n - 1)[1..] else Values(lines, n - 1, key)
  }

  /** The options of all the lines that give some, added one by one. */
  function OptionsOf(lines: seq<string>, n: nat): seq<string>
    requires n <= |lines|
  {
    if n == 0 then []
    else if Gives(lines, n - 1, "Options:") && forall o | o in TokensAt(lines, n - 1)[1..] :: Opts.IsOption(o) then
      Opts.AppendedAll(OptionsOf(lines, n - 1), TokensAt(lines, n - 1)[1..])
    else OptionsOf(lines, n - 1)
  }

  /** Every line of the description blocks, trimmed, with a line end. */
  function DescriptionOf(lines: seq<string>, n: nat): string
    requires n <= |lines|
  {
    if n == 0 then ""
    else if Inside(lines, n - 1, InDescription) then DescriptionOf(lines, n - 1) + TrimLine(lines[n - 1]) + "\n"
    else DescriptionOf(lines, n - 1)
  }

  /** The lines of the change-view blocks, trimmed, but for empty ones and comments. */
  function ChangeViewOf(lines: seq<string>, n: nat): seq<string>
    requires n <= |lines|
  {
    if n == 0 then []
    else if Inside(lines, n - 1, InChangeView) && !SkippedInBlock(TokensAt(lines, n - 1)) then
      ChangeViewOf(lines, n - 1) + [TrimLine(lines[n - 1])]
    else ChangeViewOf(lines, n - 1)
  }

  /** The pairs of words in the view blocks. */
  function ViewOf(lines: seq<string>, n: nat): seq<ViewEntry>
    requires n <= |lines|
  {
    if n == 0 then []
    else if Inside(lines, n - 1, InView) && !SkippedInBlock(TokensAt(lines, n - 1))
      && |TokensAt(lines, n - 1)| == 2 then
      ViewOf(lines, n - 1) + [ViewEntry(TokensAt(lines, n - 1)[0], TokensAt(lines, n - 1)[1])]
    else ViewOf(lines, n - 1)
  }

  function ClientOf(lines: seq<string>, n: nat): Client
    requires n <= |lines|
  {
    Client(
      Value(lines, n, "Client:"), Value(lines, n, "Owner:"), Value(lines, n, "Root:"), OptionsOf(lines, n),
      Values(lines, n, "SubmitOptions:"), Value(lines, n, "LineEnd:"), ViewOf(lines, n), Value(lines, n, "Host:"),
      DescriptionOf(lines, n), Values(lines, n, "AltRoots:"), Value(lines, n, "Stream:"),
      Value(lines, n, "StreamAtChange:"), Value(lines, n, "ServerID:"), ChangeViewOf(lines, n))
  }

  /** Every field is set that must be. */
  predicate Complete(c: Client) {
    && c.client != "" && c.owner != "" && c.root != "" && c.options != [] && c.submitOptions != []
    && c.lineEnd != "" && c.view != []
  }

  ghost predicate NoneWrong(lines: seq<string>) {
    forall i :: 0 <= i < |lines| ==> !Wrong(WithinAt(lines, i, NoBlock), lines[i])
  }

  // ----- One line after another -----

  /** What one line adds. */
  function Taken(c: Client, within: Within, line: string): Client {
    var trimmed := TrimLine(line);
    var tokens := Tokenize(trimmed);
    if !Outside(within, line) then
      match within
      case NoBlock => c
      case InDescription => c.(description := c.description + trimmed + "\n")
      case InChangeView => if SkippedInBlock(tokens) then c else c.(changeView := c.changeView + [trimmed])
      case InView =>
        if SkippedInBlock(tokens) || |tokens| != 2 then c else c.(view := c.view + [ViewEntry(tokens[0], tokens[1])])
    else if !IsField(line) then c
    else
      match ApplyLine(c, trimmed, tokens)
      case Ok(c') => c'
      case Err(_) => c
      case Crash => c
  }

  function TakenAll(c: Client, lines: seq<string>, within: Within): Client
    decreases |lines|
  {
    if lines == [] then c else TakenAll(Taken(c, within, lines[0]), lines[1..], WithinAfter(within, lines[0]))
  }

  lemma {:induction false} ChangeViewTaken(lines: seq<string>, c: Client)
    ensures var b := ChangeViewBlock(lines, c.changeView);
      TakenAll(c, lines, InChangeView) == TakenAll(c.(changeView := b.collected), b.rest, NoBlock)
    decreases |lines|
  {
    hide TrimLine, Tokenize, Ignored, ApplyLine;
    if lines == [] {
      assert c.(changeView := c.changeView) == c;
    } else {
      var line := TrimLine(lines[0]);
      if SkippedInBlock(Tokenize(line)) {
        ChangeViewTaken(lines[1..], c);
      } else if !IsFieldToken(Tokenize(line)[0]) {
        ChangeViewTaken(lines[1..], c.(changeView := c.changeView + [line]));
      } else {
        assert c.(changeView := c.changeView) == c;
      }
    }
  }

  lemma {:induction false} DescriptionTaken(lines: seq<string>, c: Client)
    ensures var b := DescriptionBlock(lines, c.description);
      TakenAll(c, lines, InDescription) == TakenAll(c.(description := b.collected), b.rest, NoBlock)
    decreases |lines|
  {
    hide TrimLine, Tokenize, Ignored, ApplyLine;
    if lines == [] {
      assert c.(description := c.description) == c;
    } else {
      var line := TrimLine(lines[0]);
      if !(Tokenize(line) != [] && IsFieldToken(Tokenize(line)[0])) {
        DescriptionTaken(lines[1..], c.(description := c.description + line + "\n"));
      } else {
        assert c.(description := c.description) == c;
      }
    }
  }

  lemma {:induction false} ViewTaken(lines: seq<string>, c: Client)
    ensures var b := ViewBlock(lines, c.view);
      b.Block? ==> TakenAll(c, lines, InView) == TakenAll(c.(view := b.collected), b.rest, NoBlock)
    decreases |lines|
  {
    hide TrimLine, Tokenize, Ignored, ApplyLine;
    if lines == [] {
      assert c.(view := c.view) == c;
    } else {
      var tokens := Tokenize(TrimLine(lines[0]));
      if SkippedInBlock(tokens) {
        ViewTaken(lines[1..], c);
      } else if IsFieldToken(tokens[0]) {
        assert c.(view := c.view) == c;
      } else if |tokens| == 2 {
        ViewTaken(lines[1..], c.(view := c.view + [ViewEntry(tokens[0], tokens[1])]));
      }
    }
  }

  /** Without an error or a crash the parser verifies what the lines add up to. */
  lemma {:induction false} ParseTaken(lines: seq<string>, c: Client)
    ensures FateOf(lines, NoBlock) == Fine ==> ParseLines(lines, c) == Verify(TakenAll(c, lines, NoBlock))
    ensures FateOf(lines, NoBlock) == Errs ==> ParseLines(lines, c).Err?
    decreases |lines|
  {
    if lines != [] {
      LooseLine(lines[0]);
      var tokens := Tokenize(TrimLine(lines[0]));
      hide TrimLine, Tokenize, Loose, ApplyLine, Verify, ChangeViewBlock, DescriptionBlock, ViewBlock;
      if Ignored(lines[0]) {
        ParseTaken(lines[1..], c);
      } else if tokens == [] {
      } else if tokens[0] == "ChangeView:" || tokens[0] == "Description:" || tokens[0] == "View:" {
        BlockTaken(lines, c);
      } else {
        FieldTaken(lines, c);
      }
    }
  }

  lemma {:induction false} BlockTaken(lines: seq<string>, c: Client)
    requires lines != [] && !Ignored(lines[0])
    requires var tokens := Tokenize(TrimLine(lines[0]));
      tokens != [] && (tokens[0] == "ChangeView:" || tokens[0] == "Description:" || tokens[0] == "View:")
    ensures FateOf(lines, NoBlock) == Fine ==> ParseLines(lines, c) == Verify(TakenAll(c, lines, NoBlock))
    ensures FateOf(lines, NoBlock) == Errs ==> ParseLines(lines, c).Err?
    decreases |lines|, 0
  {
    LooseLine(lines[0]);
    hide TrimLine, Tokenize, Loose, ApplyLine, Verify, ChangeViewBlock, DescriptionBlock, ViewBlock, Ignored;
    var rest, key := lines[1..], Tokenize(TrimLine(lines[0]))[0];
    if key == "ChangeView:" {
      var b := ChangeViewBlock(rest, c.changeView);
      ChangeViewFate(rest, c.changeView);
      ChangeViewTaken(rest, c);
      ParseTaken(b.rest, c.(changeView := b.collected));
    } else if key == "Description:" {
      var b := DescriptionBlock(rest, c.description);
      DescriptionFate(rest, c.description);
      DescriptionTaken(rest, c);
      ParseTaken(b.rest, c.(description := b.collected));
    } else {
      var b := ViewBlock(rest, c.view);
      ViewFate(rest, c.view);
      ViewTaken(rest, c);
      if b.Block? { ParseTaken(b.rest, c.(view := b.collected)); }
    }
  }

  lemma {:induction false} FieldTaken(lines: seq<string>, c: Client)
    requires lines != [] && IsField(lines[0])
    ensures FateOf(lines, NoBlock) == Fine ==> ParseLines(lines, c) == Verify(TakenAll(c, lines, NoBlock))
    ensures FateOf(lines, NoBlock) == Errs ==> ParseLines(lines, c).Err?
    decreases |lines|, 0
  {
    var line := TrimLine(lines[0]);
    var applied := ApplyLine(c, line, Tokenize(line));
    FieldFate(lines, c);
    FieldFails(c, line, Tokenize(line));
    FieldParsed(lines, c);
    hide TrimLine, Tokenize, Loose, ApplyLine, Verify, ParseLines, FateOf, Ignored, IsField;
    if applied.Ok? { ParseTaken(lines[1..], applied.value); }
  }

  lemma FieldParsed(lines: seq<string>, c: Client)
    requires lines != [] && IsField(lines[0])
    ensures var applied := ApplyLine(c, TrimLine(lines[0]), Tokenize(TrimLine(lines[0])));
      && (applied.Err? ==> ParseLines(lines, c).Err?)
      && (applied.Ok? ==> TakenAll(c, lines, NoBlock) == TakenAll(applied.value, lines[1..], NoBlock))
  {
    hide TrimLine, Tokenize, ApplyLine;
  }

  // ----- The lines taken are the client described -----

  function UpTo(lines: seq<string>, n: nat): Client
    requires n <= |lines|
  {
    if n == 0 then NoClient else Taken(UpTo(lines, n - 1), WithinAt(lines, n - 1, NoBlock), lines[n - 1])
  }

  lemma {:induction false} TakenFrom(lines: seq<string>, i: nat)
    requires i <= |lines|
    ensures TakenAll(UpTo(lines, i), lines[i..], WithinAt(lines, i, NoBlock)) == UpTo(lines, |lines|)
    decreases |lines| - i
  {
    hide Taken, WithinAfter;
    if i < |lines| {
      TakenFrom(lines, i + 1);
      assert lines[i..][0] == lines[i] && lines[i..][1..] == lines[i + 1..];
    }
  }

  lemma AssignedTo(c: Client, key: string, values: seq<string>)
    requires values != [] && key != "Options:"
    ensures Assign(c, key, values) == Ok(c.(
      client := if key == "Client:" then values[0] else c.client,
      owner := if key == "Owner:" then values[0] else c.owner,
      root := if key == "Root:" then values[0] else c.root,
      submitOptions := if key == "SubmitOptions:" then values else c.submitOptions,
      lineEnd := if key == "LineEnd:" then values[0] else c.lineEnd,
      host := if key == "Host:" then values[0] else c.host,
      altRoots := if key == "AltRoots:" then values else c.altRoots,
      stream := if key == "Stream:" then values[0] else c.stream,
      streamAtChange := if key == "StreamAtChange:" then values[0] else c.streamAtChange,
      serverId := if key == "ServerID:" then values[0] else c.serverId))
  {
  }

  /** The line before n gives no field a value. */
  ghost predicate GivesNothing(lines: seq<string>, i: nat)
    requires i < |lines|
  {
    forall key | !BlockKey(key) :: !Gives(lines, i, key)
  }

  lemma NoFieldGivesNothing(lines: seq<string>, i: nat)
    requires i < |lines| && (Outside(WithinAt(lines, i, NoBlock), lines[i]) ==> !IsField(lines[i]))
    ensures GivesNothing(lines, i)
  {
    hide TrimLine, Tokenize;
  }

  lemma ValuesKept(lines: seq<string>, n: nat)
    requires 0 < n <= |lines| && GivesNothing(lines, n - 1)
    ensures ClientOf(lines, n) == ClientOf(lines, n - 1).(
      description := DescriptionOf(lines, n), changeView := ChangeViewOf(lines, n), view := ViewOf(lines, n))
  {
    hide Value, Values, OptionsOf, DescriptionOf, ChangeViewOf, ViewOf, GivesNothing, BlockKey;
    OtherKeys();
    KeyKept(lines, n, "Client:");
    KeyKept(lines, n, "Owner:");
    KeyKept(lines, n, "Root:");
    KeyKept(lines, n, "LineEnd:");
    KeyKept(lines, n, "Host:");
    KeyKept(lines, n, "Stream:");
    KeyKept(lines, n, "StreamAtChange:");
    KeyKept(lines, n, "ServerID:");
    KeyKept(lines, n, "SubmitOptions:");
    KeyKept(lines, n, "AltRoots:");
    OptionsKept(lines, n);
  }

  lemma KeyKept(lines: seq<string>, n: nat, key: string)
    requires 0 < n <= |lines| && GivesNothing(lines, n - 1) && !BlockKey(key)
    ensures Value(lines, n, key) == Value(lines, n - 1, key) && Values(lines, n, key) == Values(lines, n - 1, key)
  {
    hide Gives, BlockKey;
  }

  lemma OptionsKept(lines: seq<string>, n: nat)
    requires 0 < n <= |lines| && GivesNothing(lines, n - 1)
    ensures OptionsOf(lines, n) == OptionsOf(lines, n - 1)
  {
    OtherKeys();
    hide Gives, BlockKey;
  }

  predicate BlockKey(key: string) {
    key == "ChangeView:" || key == "Description:" || key == "View:"
  }

  lemma OtherKeys()
    ensures !BlockKey("Client:") && !BlockKey("Owner:") && !BlockKey("Root:") && !BlockKey("LineEnd:")
    ensures !BlockKey("Host:") && !BlockKey("Stream:") && !BlockKey("StreamAtChange:") && !BlockKey("ServerID:")
    ensures !BlockKey("Options:") && !BlockKey("SubmitOptions:") && !BlockKey("AltRoots:")
  {
  }

  /** A line inside a block. */
  lemma InsideTaken(lines: seq<string>, n: nat)
    requires 0 < n <= |lines| && !Outside(WithinAt(lines, n - 1, NoBlock), lines[n - 1])
    ensures Taken(ClientOf(lines, n - 1), WithinAt(lines, n - 1, NoBlock), lines[n - 1]) == ClientOf(lines, n)
  {
    NoFieldGivesNothing(lines, n - 1);
    ValuesKept(lines, n);
    hide TrimLine, Tokenize, Value, Values, OptionsOf, Ignored, GivesNothing, ApplyLine, WithinAt;
  }

  /** A line on its own that gives no value. */
  lemma NothingTaken(lines: seq<string>, n: nat)
    requires 0 < n <= |lines| && Outside(WithinAt(lines, n - 1, NoBlock), lines[n - 1]) && !IsField(lines[n - 1])
    ensures Taken(ClientOf(lines, n - 1), WithinAt(lines, n - 1, NoBlock), lines[n - 1]) == ClientOf(lines, n)
  {
    NoFieldGivesNothing(lines, n - 1);
    ValuesKept(lines, n);
    hide TrimLine, Tokenize, Value, Values, OptionsOf, Ignored, GivesNothing, ApplyLine, WithinAt, IsField;
  }

  lemma GivenValues(lines: seq<string>, n: nat)
    requires 0 < n <= |lines| && Outside(WithinAt(lines, n - 1, NoBlock), lines[n - 1]) && IsField(lines[n - 1])
    requires var tokens := TokensAt(lines, n - 1);
      |tokens| >= 2 && (tokens[0] == "Options:" ==> forall o | o in tokens[1..] :: Opts.IsOption(o))
    ensures var tokens := TokensAt(lines, n - 1);
      && (forall key :: Value(lines, n, key) == if key == tokens[0] then tokens[1] else Value(lines, n - 1, key))
      && (forall key :: Values(lines, n, key) == if key == tokens[0] then tokens[1..] else Values(lines, n - 1, key))
      && OptionsOf(lines, n) ==
           (if tokens[0] == "Options:" then Opts.AppendedAll(OptionsOf(lines, n - 1), tokens[1..])
            else OptionsOf(lines, n - 1))
    ensures DescriptionOf(lines, n) == DescriptionOf(lines, n - 1)
    ensures ChangeViewOf(lines, n) == ChangeViewOf(lines, n - 1) && ViewOf(lines, n) == ViewOf(lines, n - 1)
  {
    var i := n - 1;
    var tokens := TokensAt(lines, i);
    assert forall key :: Gives(lines, i, key) <==> key == tokens[0];
    assert !Inside(lines, i, InDescription) && !Inside(lines, i, InChangeView) && !Inside(lines, i, InView);
    hide Gives, Inside, TrimLine, Tokenize, Outside, IsField, WithinAt, Opts.IsOption;
  }

  /** A line that gives a field its values. */
  lemma GivenTaken(lines: seq<string>, n: nat)
    requires 0 < n <= |lines| && Outside(WithinAt(lines, n - 1, NoBlock), lines[n - 1]) && IsField(lines[n - 1])
    requires !Wrong(WithinAt(lines, n - 1, NoBlock), lines[n - 1])
    ensures Taken(ClientOf(lines, n - 1), WithinAt(lines, n - 1, NoBlock), lines[n - 1]) == ClientOf(lines, n)
  {
    var c, line, tokens := ClientOf(lines, n - 1), TrimLine(lines[n - 1]), TokensAt(lines, n - 1);
    FieldFails(c, line, tokens);
    assert |tokens| >= 2 && !BlockKey(tokens[0]);
    assert tokens[0] == "Options:" ==> forall o | o in tokens[1..] :: Opts.IsOption(o);
    GivenValues(lines, n);
    hide TrimLine, Tokenize, Value, Values, OptionsOf, Ignored, WithinAt, DescriptionOf, ChangeViewOf, ViewOf, Wrong,
      Gives;
    assert ApplyLine(c, line, tokens) == Assign(c, tokens[0], tokens[1..]);
    hide ApplyLine;
    if tokens[0] == "Options:" {
      OptionsAdded(c.options, tokens[1..]);
    } else {
      AssignedTo(c, tokens[0], tokens[1..]);
    }
  }

  lemma OneTaken(lines: seq<string>, n: nat)
    requires 0 < n <= |lines| && !Wrong(WithinAt(lines, n - 1, NoBlock), lines[n - 1])
    ensures Taken(ClientOf(lines, n - 1), WithinAt(lines, n - 1, NoBlock), lines[n - 1]) == ClientOf(lines, n)
  {
    hide *;
    if !Outside(WithinAt(lines, n - 1, NoBlock), lines[n - 1]) {
      InsideTaken(lines, n);
    } else if !IsField(lines[n - 1]) {
      NothingTaken(lines, n);
    } else {
      GivenTaken(lines, n);
    }
  }

  lemma {:induction false} UpToIsClient(lines: seq<string>, n: nat)
    requires n <= |lines| && NoneWrong(lines)
    ensures UpTo(lines, n) == ClientOf(lines, n)
  {
    hide Taken, Outside, IsField, Wrong, WithinAt;
    if n > 0 {
      hide ClientOf;
      UpToIsClient(lines, n - 1);
      OneTaken(lines, n);
    }
  }

  // ----- What comes of a text -----

  ghost predicate NoCrash(lines: seq<string>) {
    forall i: nat :: !CrashesAt(lines, i, NoBlock)
  }

  ghost predicate AnyWrong(lines: seq<string>, within: Within) {
    exists i :: 0 <= i < |lines| && Wrong(WithinAt(lines, i, within), lines[i])
  }

  lemma AnyWrongNext(lines: seq<string>, within: Within)
    requires lines != []
    ensures AnyWrong(lines, within) <==>
      Wrong(within, lines[0]) || AnyWrong(lines[1..], WithinAfter(within, lines[0]))
  {
    hide Wrong, WithinAfter;
    assert WithinAt(lines, 0, within) == within;
    forall i: nat | i + 1 < |lines|
      ensures WithinAt(lines, i + 1, within) == WithinAt(lines[1..], i, WithinAfter(within, lines[0]))
    {
      WithinShift(lines, i, within);
    }
    if i :| 0 <= i < |lines| && Wrong(WithinAt(lines, i, within), lines[i]) {
      if i > 0 { assert Wrong(WithinAt(lines[1..], i - 1, WithinAfter(within, lines[0])), lines[1..][i - 1]); }
    }
    if i :| 0 <= i < |lines[1..]| && Wrong(WithinAt(lines[1..], i, WithinAfter(within, lines[0])), lines[1..][i]) {
      assert Wrong(WithinAt(lines, i + 1, within), lines[i + 1]);
    }
  }

  lemma {:induction false} FateOfWrong(lines: seq<string>, within: Within)
    ensures FateOf(lines, within) == Fine ==> !AnyWrong(lines, within)
    ensures FateOf(lines, within) == Errs ==> AnyWrong(lines, within)
  {
    if lines != [] {
      hide Wrong, Loose, Outside, AnyWrong, WithinAfter;
      AnyWrongNext(lines, within);
      FateOfWrong(lines[1..], WithinAfter(within, lines[0]));
    }
  }

  lemma VerifyIff(c: Client)
    ensures Complete(c) ==> Verify(c) == Ok(c)
    ensures !Complete(c) ==> Verify(c).Err?
  {
  }

  lemma ParsedLines(data: string)
    ensures var lines := Text.Split(data, '\n');
      && (NoCrash(lines) && NoneWrong(lines) ==> Parse(data) == Verify(ClientOf(lines, |lines|)))
      && (NoCrash(lines) && !NoneWrong(lines) ==> Parse(data).Err?)
      && (!NoCrash(lines) ==> Parse(data) == Crash)
  {
    var lines := Text.Split(data, '\n');
    assert Parse(data) == ParseLines(Text.Split(data, '\n'), NoClient);
    CrashIff(data);
    FateIff(lines, NoBlock);
    FateOfWrong(lines, NoBlock);
    ParseTaken(lines, NoClient);
    assert NoneWrong(lines) <==> !AnyWrong(lines, NoBlock) by { hide Wrong, WithinAt; }
    TakenFrom(lines, 0);
    assert lines[0..] == lines && UpTo(lines, 0) == NoClient && WithinAt(lines, 0, NoBlock) == NoBlock;
    hide Wrong, WithinAt, AnyWrong, CrashesAt, FateOf, TakenAll, ParseLines, Verify, ClientOf, Text.Split, Parse, UpTo;
    if NoneWrong(lines) { UpToIsClient(lines, |lines|); }
  }

  /** A text is parsed exactly if no line is wrong, no loose line stops the parser, and every
      mandatory field is set; and then to the client its lines describe. */
  lemma ParseOkIff(data: string, c: Client)
    ensures var lines := Text.Split(data, '\n');
      Parse(data) == Ok(c) <==>
        NoneWrong(lines) && NoCrash(lines) && Complete(ClientOf(lines, |lines|)) && c == ClientOf(lines, |lines|)
  {
    ParsedLines(data);
    VerifyIff(ClientOf(Text.Split(data, '\n'), |Text.Split(data, '\n')|));
    hide Parse, ClientOf, Verify, Complete, NoneWrong, NoCrash, Text.Split;
  }

  /** It is refused exactly if a line is wrong or a mandatory field is missing, and no loose
      line stops the parser before. */
  lemma ParseErrIff(data: string)
    ensures var lines := Text.Split(data, '\n');
      Parse(data).Err? <==> NoCrash(lines) && !(NoneWrong(lines) && Complete(ClientOf(lines, |lines|)))
  {
    ParsedLines(data);
    VerifyIff(ClientOf(Text.Split(data, '\n'), |Text.Split(data, '\n')|));
    hide Parse, ClientOf, Verify, Complete, NoneWrong, NoCrash, Text.Split;
  }
}
