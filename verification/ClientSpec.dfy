/** libs/go/p4lib/p4.go and p4_impl.go: printing a client specification, and parsing one. */
module ClientSpec {
  import opened Words
  import Text
  import Opts = ClientOptions

  datatype ViewEntry = ViewEntry(source: string, destination: string)

  datatype Client = Client(
    client: string, owner: string, root: string, options: seq<string>, submitOptions: seq<string>, lineEnd: string,
    view: seq<ViewEntry>, host: string, description: string, altRoots: seq<string>, stream: string,
    streamAtChange: string, serverId: string, changeView: seq<string>)

  datatype ParseError =
    | WrongLine(line: string)
    | WrongView(line: string)
    | BadOption(option: string)
    | Lacking(field: string)

  /** Crash stands for the run-time failure that ClientCrash is about. */
  datatype Result<T> = Ok(value: T) | Err(error: ParseError) | Crash

  const NoClient := Client("", "", "", [], [], "", [], "", "", [], "", "", "", [])

  // ----- Printing -----

  /** A field's line, unless it has no value. */
  function FieldLine(key: string, value: string): string {
    if value == "" then "" else key + "\t" + value + "\n"
  }

  function Spaced(options: seq<string>): string {
    if options == [] then "" else Spaced(options[..|options| - 1]) + " " + options[|options| - 1]
  }

  function TrimSpace(s: string): string
    decreases |s|
  {
    if s == "" then ""
    else if IsSpace(s[0]) then TrimSpace(s[1..])
    else if IsSpace(s[|s| - 1]) then TrimSpace(s[..|s| - 1])
    else s
  }

  function ListLine(key: string, values: seq<string>, text: string): string {
    if values == [] then "" else key + "\t" + text + "\n"
  }

  function ViewLines(view: seq<ViewEntry>): string {
    if view == [] then ""
    else ViewLines(view[..|view| - 1]) + ("\t" + view[|view| - 1].source + " " + view[|view| - 1].destination + "\n")
  }

  function Print(c: Client): string {
    FieldLine("Client:", c.client)
    + FieldLine("Owner:", c.owner)
    + FieldLine("Host:", c.host)
    + FieldLine("Root:", c.root)
    + ListLine("Options:", c.options, TrimSpace(Spaced(c.options)))
    + ListLine("SubmitOptions:", c.submitOptions, Text.Join(c.submitOptions, ' '))
    + FieldLine("LineEnd:", c.lineEnd)
    + ListLine("AltRoots:", c.altRoots, Text.Join(c.altRoots, ' '))
    + FieldLine("Stream:", c.stream)
    + FieldLine("StreamAtChange:", c.streamAtChange)
    + FieldLine("ServerID:", c.serverId)
    + (if c.view == [] then "" else "View:\n" + ViewLines(c.view))
  }

  method WriteField(b0: string, key: string, value: string) returns (b: string)
    ensures b == b0 + FieldLine(key, value)
  {
    b := b0;
    if value != "" {
      b := b + (key + "\t" + value + "\n");
    }
  }

  method WriteOptions(b0: string, options: seq<string>) returns (b: string)
    ensures b == b0 + ListLine("Options:", options, TrimSpace(Spaced(options)))
  {
    b := b0;
    if |options| > 0 {
      var text := "";
      for i := 0 to |options|
        invariant text == Spaced(options[..i])
      {
        assert options[..i + 1][..i] == options[..i];
        text := text + " " + options[i];
      }
      assert options[..|options|] == options;
      b := b + ("Options:" + "\t" + TrimSpace(text) + "\n");
    }
  }

  method WriteList(b0: string, key: string, values: seq<string>) returns (b: string)
    ensures b == b0 + ListLine(key, values, Text.Join(values, ' '))
  {
    b := b0;
    if |values| > 0 {
      b := b + (key + "\t" + Text.Join(values, ' ') + "\n");
    }
  }

  method WriteView(b0: string, view: seq<ViewEntry>) returns (b: string)
    ensures b == b0 + if view == [] then "" else "View:\n" + ViewLines(view)
  {
    b := b0;
    if |view| > 0 {
      b := b + "View:\n";
      for i := 0 to |view|
        invariant b == b0 + ("View:\n" + ViewLines(view[..i]))
      {
        assert view[..i + 1][..i] == view[..i];
        b := b + ("\t" + view[i].source + " " + view[i].destination + "\n");
      }
      assert view[..|view|] == view;
    }
  }

  /** Client.String, writing field after field into a builder. */
  method ClientString(c: Client) returns (b: string)
    ensures b == Print(c)
  {
    hide FieldLine, ListLine, Spaced, TrimSpace, ViewLines, Text.Join;
    b := WriteField("", "Client:", c.client);
    assert b == FieldLine("Client:", c.client);
    b := WriteField(b, "Owner:", c.owner);
    b := WriteField(b, "Host:", c.host);
    b := WriteField(b, "Root:", c.root);
    b := WriteOptions(b, c.options);
    b := WriteList(b, "SubmitOptions:", c.submitOptions);
    b := WriteField(b, "LineEnd:", c.lineEnd);
    b := WriteList(b, "AltRoots:", c.altRoots);
    b := WriteField(b, "Stream:", c.stream);
    b := WriteField(b, "StreamAtChange:", c.streamAtChange);
    b := WriteField(b, "ServerID:", c.serverId);
    b := WriteView(b, c.view);
  }

  // ----- Parsing -----

  function TrimLine(line: string): string {
    Trim(line, " \n\r")
  }

  function Tokenize(line: string): (tokens: seq<string>)
    ensures forall i :: 0 <= i < |tokens| ==> Word(tokens[i])
  {
    Fields(Trim(line, " \t\n\r"))
  }

  predicate IsFieldToken(token: string) {
    token != "" && token[|token| - 1] == ':'
  }

  predicate SkippedInBlock(tokens: seq<string>) {
    tokens == [] || (tokens[0] != "" && tokens[0][0] == '#')
  }

  /** A block of lines: what was collected, and the lines after it. */
  datatype Block<T> = Block(collected: T, rest: seq<string>) | BadLine(line: string)

  function ChangeViewBlock(lines: seq<string>, collected: seq<string>): (b: Block<seq<string>>)
    ensures b.Block? && |b.rest| <= |lines|
    decreases |lines|
  {
    if lines == [] then Block(collected, [])
    else
      var line := TrimLine(lines[0]);
      var tokens := Tokenize(line);
      if SkippedInBlock(tokens) then ChangeViewBlock(lines[1..], collected)
      else if IsFieldToken(tokens[0]) then Block(collected, lines)
      else ChangeViewBlock(lines[1..], collected + [line])
  }

  function DescriptionBlock(lines: seq<string>, collected: string): (b: Block<string>)
    ensures b.Block? && |b.rest| <= |lines|
    decreases |lines|
  {
    if lines == [] then Block(collected, [])
    else
      var line := TrimLine(lines[0]);
      var tokens := Tokenize(line);
      if tokens != [] && IsFieldToken(tokens[0]) then Block(collected, lines)
      else DescriptionBlock(lines[1..], collected + line + "\n")
  }

  function ViewBlock(lines: seq<string>, collected: seq<ViewEntry>): (b: Block<seq<ViewEntry>>)
    ensures b.Block? ==> |b.rest| <= |lines|
    decreases |lines|
  {
    if lines == [] then Block(collected, [])
    else
      var line := TrimLine(lines[0]);
      var tokens := Tokenize(line);
      if SkippedInBlock(tokens) then ViewBlock(lines[1..], collected)
      else if IsFieldToken(tokens[0]) then Block(collected, lines)
      else if |tokens| != 2 then BadLine(line)
      else ViewBlock(lines[1..], collected + [ViewEntry(tokens[0], tokens[1])])
  }

  const SINGLE_VALUED := ["Client:", "Owner:", "Root:", "LineEnd:", "Host:", "Stream:", "StreamAtChange:", "ServerID:"]

  /** Every option in turn, or the first one that does not exist. */
  function AddOptions(options: seq<string>, more: seq<string>): Result<seq<string>>
    decreases |more|
  {
    if more == [] then Ok(options)
    else if !Opts.IsOption(more[0]) then Err(BadOption(more[0]))
    else AddOptions(Opts.Appended(options, more[0]), more[1..])
  }

  function Assign(c: Client, key: string, tokens: seq<string>): Result<Client>
    requires tokens != []
  {
    var value := tokens[0];
    if key == "Client:" then Ok(c.(client := value))
    else if key == "Owner:" then Ok(c.(owner := value))
    else if key == "Root:" then Ok(c.(root := value))
    else if key == "Options:" then
      match AddOptions(c.options, tokens)
      case Ok(options) => Ok(c.(options := options))
      case Err(e) => Err(e)
      case Crash => Crash
    else if key == "SubmitOptions:" then Ok(c.(submitOptions := tokens))
    else if key == "LineEnd:" then Ok(c.(lineEnd := value))
    else if key == "Host:" then Ok(c.(host := value))
    else if key == "AltRoots:" then Ok(c.(altRoots := tokens))
    else if key == "Stream:" then Ok(c.(stream := value))
    else if key == "StreamAtChange:" then Ok(c.(streamAtChange := value))
    else if key == "ServerID:" then Ok(c.(serverId := value))
    else Ok(c)
  }

  /** A single-line field. */
  function ApplyLine(c: Client, line: string, tokens: seq<string>): Result<Client>
    requires tokens != []
  {
    if |tokens| < 2 || (tokens[0] in SINGLE_VALUED && |tokens| != 2) then Err(WrongLine(line))
    else Assign(c, tokens[0], tokens[1..])
  }

  function Verify(c: Client): Result<Client> {
    if c.client == "" then Err(Lacking("Client"))
    else if c.owner == "" then Err(Lacking("Owner"))
    else if c.root == "" then Err(Lacking("Root"))
    else if c.options == [] then Err(Lacking("Options"))
    else if c.submitOptions == [] then Err(Lacking("SubmitOptions"))
    else if c.lineEnd == "" then Err(Lacking("LineEnd"))
    else if c.view == [] then Err(Lacking("View"))
    else Ok(c)
  }

  /** Parsing the rest of the lines into a client filled so far. */
  function ParseLines(lines: seq<string>, c: Client): Result<Client>
    decreases |lines|
  {
    if lines == [] then Verify(c)
    else
      var line := TrimLine(lines[0]);
      var rest := lines[1..];
      if line == "" || line[0] == '#' then ParseLines(rest, c)
      else
        var tokens := Tokenize(line);
        if tokens == [] then Crash
        else if tokens[0] == "ChangeView:" then
          var b := ChangeViewBlock(rest, c.changeView);
          ParseLines(b.rest, c.(changeView := b.collected))
        else if tokens[0] == "Description:" then
          var b := DescriptionBlock(rest, c.description);
          ParseLines(b.rest, c.(description := b.collected))
        else if tokens[0] == "View:" then
          match ViewBlock(rest, c.view)
          case BadLine(bad) => Err(WrongView(bad))
          case Block(view, after) => ParseLines(after, c.(view := view))
        else
          match ApplyLine(c, line, tokens)
          case Ok(c') => ParseLines(rest, c')
          case Err(e) => Err(e)
          case Crash => Crash
  }

  function Parse(data: string): Result<Client> {
    ParseLines(Text.Split(data, '\n'), NoClient)
  }

  /** The loop over the lines of a ChangeView block, from line i0 on. */
  method ReadChangeView(lines: seq<string>, i0: nat, view: seq<string>) returns (i: nat, collected: seq<string>)
    requires i0 <= |lines|
    ensures i0 <= i <= |lines| && ChangeViewBlock(lines[i0..], view) == Block(collected, lines[i..])
  {
    hide TrimLine, Tokenize;
    i, collected := i0, view;
    while i < |lines|
      invariant i0 <= i <= |lines| && ChangeViewBlock(lines[i0..], view) == ChangeViewBlock(lines[i..], collected)
    {
      ghost var here := lines[i..];
      assert here[0] == lines[i] && here[1..] == lines[i + 1..];
      var newLine := TrimLine(lines[i]);
      var newTokens := Tokenize(newLine);
      if SkippedInBlock(newTokens) {
        i := i + 1;
        continue;
      }
      if IsFieldToken(newTokens[0]) {
        break;
      }
      collected := collected + [newLine];
      i := i + 1;
    }
  }

  method ReadDescription(lines: seq<string>, i0: nat, text: string) returns (i: nat, collected: string)
    requires i0 <= |lines|
    ensures i0 <= i <= |lines| && DescriptionBlock(lines[i0..], text) == Block(collected, lines[i..])
  {
    hide TrimLine, Tokenize;
    i, collected := i0, text;
    while i < |lines|
      invariant i0 <= i <= |lines| && DescriptionBlock(lines[i0..], text) == DescriptionBlock(lines[i..], collected)
    {
      ghost var here := lines[i..];
      assert here[0] == lines[i] && here[1..] == lines[i + 1..];
      var newLine := TrimLine(lines[i]);
      var newTokens := Tokenize(newLine);
      if |newTokens| > 0 && IsFieldToken(newTokens[0]) {
        break;
      }
      collected := collected + newLine + "\n";
      i := i + 1;
    }
  }

  method ReadView(lines: seq<string>, i0: nat, view: seq<ViewEntry>) returns (i: nat, b: Block<seq<ViewEntry>>)
    requires i0 <= |lines|
    ensures b == ViewBlock(lines[i0..], view) && i0 <= i <= |lines| && (b.Block? ==> b.rest == lines[i..])
  {
    hide TrimLine, Tokenize;
    var collected := view;
    i := i0;
    while i < |lines|
      invariant i0 <= i <= |lines| && ViewBlock(lines[i0..], view) == ViewBlock(lines[i..], collected)
    {
      ghost var here := lines[i..];
      assert here[0] == lines[i] && here[1..] == lines[i + 1..];
      var newLine := TrimLine(lines[i]);
      var newTokens := Tokenize(newLine);
      if SkippedInBlock(newTokens) {
        i := i + 1;
        continue;
      }
      if IsFieldToken(newTokens[0]) {
        break;
      }
      if |newTokens| != 2 {
        return i, BadLine(newLine);
      }
      collected := collected + [ViewEntry(newTokens[0], newTokens[1])];
      i := i + 1;
    }
    b := Block(collected, lines[i..]);
  }

  /** parseClient: one pass over the lines; a block advances the line by itself. */
  method ParseClient(data: string) returns (r: Result<Client>)
    ensures r == Parse(data)
  {
    hide ChangeViewBlock, DescriptionBlock, ViewBlock, ApplyLine, Verify, Text.Split, TrimLine, Tokenize;
    var client := NoClient;
    var lines := Text.Split(data, '\n');
    var i: nat := 0;
    while i < |lines|
      invariant 0 <= i <= |lines| && ParseLines(lines, NoClient) == ParseLines(lines[i..], client)
    {
      ghost var here := lines[i..];
      assert here[0] == lines[i] && here[1..] == lines[i + 1..];
      var line := TrimLine(lines[i]);
      i := i + 1;
      if line == "" || line[0] == '#' {
        continue;
      }
      var tokens := Tokenize(line);
      if tokens == [] {
        return Crash;
      }
      if tokens[0] == "ChangeView:" {
        var view;
        i, view := ReadChangeView(lines, i, client.changeView);
        client := client.(changeView := view);
      } else if tokens[0] == "Description:" {
        var text;
        i, text := ReadDescription(lines, i, client.description);
        client := client.(description := text);
      } else if tokens[0] == "View:" {
        var b;
        i, b := ReadView(lines, i, client.view);
        if b.BadLine? {
          return Err(WrongView(b.line));
        }
        client := client.(view := b.collected);
      } else {
        var applied := ApplyLine(client, line, tokens);
        if !applied.Ok? {
          return applied;
        }
        client := applied.value;
      }
    }
    assert lines[i..] == [];
    return Verify(client);
  }

  // ----- Parsing what was printed -----

  function ParseText(text: string, c: Client): Result<Client> {
    ParseLines(Text.Split(text, '\n'), c)
  }

  /** After this text the parser has filled in c and goes on with whatever follows. */
  ghost predicate Reads(prefix: string, c: Client) {
    forall rest: string {:trigger ParseText(prefix + rest, NoClient)} ::
      ParseText(prefix + rest, NoClient) == ParseText(rest, c)
  }

  /** A key of a single-line field. */
  ghost predicate FieldKey(key: string) {
    Word(key) && key[0] != '#' && key != "ChangeView:" && key != "Description:" && key != "View:"
  }

  /** A line that begins and ends with a word keeps its ends when it is trimmed. */
  lemma TrimKeeps(s: string, cut: string)
    requires s != "" && s[0] !in cut && s[|s| - 1] !in cut
    ensures Trim(s, cut) == s
  {
  }

  lemma LastOfJoin(words: seq<string>)
    requires words != [] && forall i :: 0 <= i < |words| ==> Word(words[i])
    ensures var s := Text.Join(words, ' '); s != "" && !IsSpace(s[|s| - 1])
  {
    if |words| == 1 {
    } else {
      LastOfJoin(words[1..]);
    }
  }

  /** The tokens of a field's line. */
  lemma FieldTokens(key: string, words: seq<string>)
    requires Word(key) && words != [] && forall i :: 0 <= i < |words| ==> Word(words[i])
    ensures var line := key + "\t" + Text.Join(words, ' ');
      TrimLine(line) == line && Tokenize(line) == [key] + words
  {
    var text := Text.Join(words, ' ');
    LastOfJoin(words);
    FieldsJoin(words);
    hide Text.Join, Fields;
    KeyAndText(key, text);
  }

  lemma KeyAndText(key: string, text: string)
    requires Word(key) && text != "" && !IsSpace(text[|text| - 1])
    ensures TrimLine(key + "\t" + text) == key + "\t" + text
    ensures Tokenize(key + "\t" + text) == [key] + Fields(text)
  {
    var line := key + "\t" + text;
    assert line[0] == key[0] && line[|line| - 1] == text[|text| - 1];
    LineKept(line);
    KeyThenText(key, text);
  }

  lemma LineKept(line: string)
    requires line != "" && !IsSpace(line[0]) && !IsSpace(line[|line| - 1])
    ensures TrimLine(line) == line
  {
    CutsAreSpaces();
    hide IsSpace;
    TrimKeeps(line, " \n\r");
  }

  lemma TokensAreFields(line: string)
    ensures Tokenize(line) == Fields(line)
  {
    CutsAreSpaces();
    hide IsSpace, Fields, Trim;
    FieldsTrim(line, " \t\n\r");
  }

  lemma KeyThenText(key: string, text: string)
    requires Word(key)
    ensures Tokenize(key + "\t" + text) == [key] + Fields(text)
  {
    TokensAreFields(key + "\t" + text);
    CutsAreSpaces();
    hide IsSpace, Fields, Tokenize;
    assert key + "\t" + text == key + (['\t'] + text);
    FieldsWord(key, ['\t'] + text);
    FieldsSpace('\t', text);
  }

  lemma CutsAreSpaces()
    ensures forall c: char :: c in " \n\r" || c in " \t\n\r" ==> IsSpace(c)
    ensures IsSpace('\t')
  {
  }

  lemma NoNewlineInWords(words: seq<string>)
    requires forall i :: 0 <= i < |words| ==> Word(words[i])
    ensures '\n' !in Text.Join(words, ' ')
  {
    if |words| > 1 {
      NoNewlineInWords(words[1..]);
    }
  }

  /** Parsing one printed line. */
  lemma LineRead(key: string, words: seq<string>, line: string, rest: string, c: Client, c': Client)
    requires FieldKey(key) && words != [] && forall i :: 0 <= i < |words| ==> Word(words[i])
    requires line == key + "\t" + Text.Join(words, ' ') && ApplyLine(c, line, [key] + words) == Ok(c')
    ensures ParseText(line + "\n" + rest, c) == ParseText(rest, c')
  {
    hide ApplyLine, Tokenize, TrimLine;
    FieldTokens(key, words);
    NoNewlineInWords(words);
    hide Text.Join, Word;
    assert '\n' !in key && '\n' !in line by {
      KeyNoNewline(key);
    }
    Text.SplitAfter(line, rest, '\n');
    hide Text.Split;
    assert line[0] == key[0] && ([key] + words)[0] == key;
    var lines := [line] + Text.Split(rest, '\n');
    assert lines[0] == line && lines[1..] == Text.Split(rest, '\n');
  }

  lemma KeyNoNewline(key: string)
    requires Word(key)
    ensures key != "" && '\n' !in key
  {
  }

  /** One more line after a text that has been read. */
  lemma ReadsLine(prefix: string, c: Client, key: string, words: seq<string>, c': Client)
    requires Reads(prefix, c)
    requires FieldKey(key) && words != [] && forall i :: 0 <= i < |words| ==> Word(words[i])
    requires ApplyLine(c, key + "\t" + Text.Join(words, ' '), [key] + words) == Ok(c')
    ensures Reads(prefix + (key + "\t" + Text.Join(words, ' ') + "\n"), c')
  {
    hide ParseText, ApplyLine, Text.Join, Word, FieldKey;
    var line := key + "\t" + Text.Join(words, ' ');
    forall rest: string
      ensures ParseText(line + "\n" + rest, c) == ParseText(rest, c')
    {
      LineRead(key, words, line, rest, c, c');
    }
    ReadsMore(prefix, c, line + "\n", c');
  }

  lemma ReadsMore(prefix: string, c: Client, more: string, c': Client)
    requires Reads(prefix, c)
    requires forall rest: string {:trigger ParseText(more + rest, c)} ::
      ParseText(more + rest, c) == ParseText(rest, c')
    ensures Reads(prefix + more, c')
  {
    hide ParseText;
    forall rest: string
      ensures ParseText(prefix + more + rest, NoClient) == ParseText(rest, c')
    {
      assert prefix + more + rest == prefix + (more + rest);
    }
  }

  // ----- Field by field -----

  lemma SingleKeys()
    ensures forall key | key in SINGLE_VALUED :: FieldKey(key)
  {
  }

  lemma ListKeys()
    ensures FieldKey("Options:") && FieldKey("SubmitOptions:") && FieldKey("AltRoots:")
  {
  }

  lemma ListKeysNotSingle()
    ensures "Options:" !in SINGLE_VALUED && "SubmitOptions:" !in SINGLE_VALUED && "AltRoots:" !in SINGLE_VALUED
  {
  }

  lemma Assignments(c: Client, v: string, vs: seq<string>)
    requires vs != []
    ensures Assign(c, "Client:", [v]) == Ok(c.(client := v))
    ensures Assign(c, "Owner:", [v]) == Ok(c.(owner := v))
    ensures Assign(c, "Host:", [v]) == Ok(c.(host := v))
    ensures Assign(c, "Root:", [v]) == Ok(c.(root := v))
    ensures Assign(c, "LineEnd:", [v]) == Ok(c.(lineEnd := v))
    ensures Assign(c, "Stream:", [v]) == Ok(c.(stream := v))
    ensures Assign(c, "StreamAtChange:", [v]) == Ok(c.(streamAtChange := v))
    ensures Assign(c, "ServerID:", [v]) == Ok(c.(serverId := v))
    ensures Assign(c, "SubmitOptions:", vs) == Ok(c.(submitOptions := vs))
    ensures Assign(c, "AltRoots:", vs) == Ok(c.(altRoots := vs))
  {
  }

  lemma AppliedIsAssigned(c: Client, line: string, key: string, values: seq<string>)
    requires values != [] && (key !in SINGLE_VALUED || |values| == 1)
    ensures ApplyLine(c, line, [key] + values) == Assign(c, key, values)
  {
    hide Assign;
    assert ([key] + values)[1..] == values && ([key] + values)[0] == key;
  }

  lemma ReadsNothing(prefix: string, c: Client)
    requires Reads(prefix, c)
    ensures Reads(prefix + "", c)
  {
    assert prefix + "" == prefix;
  }

  /** A field that is empty is not printed, and stays empty. */
  lemma ReadsField(prefix: string, c: Client, key: string, value: string, c': Client)
    requires Reads(prefix, c) && key in SINGLE_VALUED && (value != "" ==> Word(value))
    requires if value == "" then c' == c else Assign(c, key, [value]) == Ok(c')
    ensures Reads(prefix + FieldLine(key, value), c')
  {
    SingleKeys();
    hide Reads, Assign, Word, FieldKey, ApplyLine;
    if value != "" {
      assert Text.Join([value], ' ') == value;
      AppliedIsAssigned(c, key + "\t" + value, key, [value]);
      ReadsLine(prefix, c, key, [value], c');
    } else {
      ReadsNothing(prefix, c);
    }
  }

  lemma ReadsList(prefix: string, c: Client, key: string, values: seq<string>, text: string, c': Client)
    requires Reads(prefix, c) && FieldKey(key) && key !in SINGLE_VALUED
    requires forall i :: 0 <= i < |values| ==> Word(values[i])
    requires values != [] ==> text == Text.Join(values, ' ')
    requires if values == [] then c' == c else Assign(c, key, values) == Ok(c')
    ensures Reads(prefix + ListLine(key, values, text), c')
  {
    hide Reads, Assign, Word, FieldKey, ApplyLine, Text.Join;
    if values != [] {
      AppliedIsAssigned(c, key + "\t" + text, key, values);
      ReadsLine(prefix, c, key, values, c');
    } else {
      ReadsNothing(prefix, c);
    }
  }

  /** Words separated by blanks, with a blank in front: trimming leaves the joined words. */
  lemma {:induction false} SpacedJoin(options: seq<string>)
    requires options != []
    ensures Spaced(options) == " " + Text.Join(options, ' ')
  {
    if |options| == 1 {
      assert options[..0] == [];
    } else {
      var n := |options| - 1;
      SpacedJoin(options[..n]);
      JoinSnoc(options[..n], options[n]);
      assert options == options[..n] + [options[n]];
    }
  }

  lemma {:induction false} JoinSnoc(parts: seq<string>, last: string)
    requires parts != []
    ensures Text.Join(parts + [last], ' ') == Text.Join(parts, ' ') + " " + last
  {
    if |parts| > 1 {
      JoinSnoc(parts[1..], last);
      assert (parts + [last])[1..] == parts[1..] + [last];
    } else {
      assert (parts + [last])[1..] == [last];
    }
  }

  lemma TrimSpaceOf(text: string)
    requires text != "" && !IsSpace(text[0]) && !IsSpace(text[|text| - 1])
    ensures TrimSpace(" " + text) == text
  {
    assert (" " + text)[1..] == text;
  }

  lemma OptionsText(options: seq<string>)
    requires options != [] && forall i :: 0 <= i < |options| ==> Word(options[i])
    ensures TrimSpace(Spaced(options)) == Text.Join(options, ' ')
  {
    SpacedJoin(options);
    LastOfJoin(options);
    assert Text.Join(options, ' ')[0] == options[0][0];
    TrimSpaceOf(Text.Join(options, ' '));
  }

  /** Known options are added one by one. */
  lemma {:induction false} OptionsAdded(options: seq<string>, more: seq<string>)
    requires forall o | o in more :: Opts.IsOption(o)
    ensures AddOptions(options, more) == Ok(Opts.AppendedAll(options, more))
    decreases |more|
  {
    hide Opts.Appended, Opts.IsOption;
    if more != [] {
      OptionsAdded(Opts.Appended(options, more[0]), more[1..]);
    }
  }

  lemma OptionWords()
    ensures forall o | Opts.IsOption(o) :: Word(o)
  {
    assert forall k :: 0 <= k < |Opts.OPTIONS| ==> Word(Opts.OPTIONS[k]);
  }

  // ----- The view, which comes last -----

  ghost predicate PrintableView(view: seq<ViewEntry>) {
    forall i :: 0 <= i < |view| ==>
      Word(view[i].source) && Word(view[i].destination) && view[i].source[0] != '#' && !IsFieldToken(view[i].source)
  }

  function EntryLine(entry: ViewEntry): string {
    "\t" + entry.source + " " + entry.destination
  }

  lemma EntryTokens(entry: ViewEntry)
    requires Word(entry.source) && Word(entry.destination)
    ensures Tokenize(EntryLine(entry)) == [entry.source, entry.destination]
      && TrimLine(EntryLine(entry)) == EntryLine(entry)
    ensures '\n' !in EntryLine(entry)
  {
    var line, src, dst := EntryLine(entry), entry.source, entry.destination;
    assert line == ['\t'] + (src + ([' '] + dst));
    assert line[0] == '\t' && line[|line| - 1] == dst[|dst| - 1];
    assert '\n' !in src && '\n' !in dst;
    EntryFields(src, dst);
    EntryKept(line);
  }

  lemma EntryKept(line: string)
    requires line != "" && line[0] == '\t' && !IsSpace(line[|line| - 1])
    ensures TrimLine(line) == line
  {
    CutsAreSpaces();
    hide IsSpace;
    TrimKeeps(line, " \n\r");
  }

  lemma EntryFields(src: string, dst: string)
    requires Word(src) && Word(dst)
    ensures Tokenize(['\t'] + (src + ([' '] + dst))) == [src, dst]
  {
    TokensAreFields(['\t'] + (src + ([' '] + dst)));
    CutsAreSpaces();
    assert IsSpace(' ');
    hide IsSpace, Tokenize;
    FieldsSpace('\t', src + ([' '] + dst));
    FieldsWord(src, [' '] + dst);
    FieldsSpace(' ', dst);
    FieldsWord(dst, "");
    assert dst + "" == dst;
  }

  /** The lines of the view, as they come out of splitting the printed text. */
  ghost function EntryLines(view: seq<ViewEntry>): seq<string> {
    if view == [] then [""] else [EntryLine(view[0])] + EntryLines(view[1..])
  }

  lemma {:induction false} ViewLinesCons(view: seq<ViewEntry>)
    requires view != []
    ensures ViewLines(view) == EntryLine(view[0]) + "\n" + ViewLines(view[1..])
  {
    if |view| > 1 {
      var n := |view| - 1;
      ViewLinesCons(view[..n]);
      assert view[..n][1..] == view[1..][..n - 1];
    }
  }

  lemma {:induction false} ViewSplit(view: seq<ViewEntry>)
    requires PrintableView(view)
    ensures Text.Split(ViewLines(view), '\n') == EntryLines(view)
  {
    if view != [] {
      ViewSplit(view[1..]);
      ViewLinesCons(view);
      EntryTokens(view[0]);
      hide EntryLine;
      Text.SplitAfter(EntryLine(view[0]), ViewLines(view[1..]), '\n');
    }
  }

  lemma {:induction false} ViewRead(view: seq<ViewEntry>, collected: seq<ViewEntry>)
    requires PrintableView(view)
    ensures ViewBlock(EntryLines(view), collected) == Block(collected + view, [])
    decreases |view|
  {
    if view == [] {
      EmptyLineTokens();
      hide Tokenize, TrimLine;
      assert [""][1..] == [] && collected + [] == collected;
      assert ViewBlock([], collected) == Block(collected, []);
    } else {
      ViewRead(view[1..], collected + [view[0]]);
      EntryTokens(view[0]);
      hide Tokenize, TrimLine, EntryLine;
      var lines := EntryLines(view);
      assert lines[0] == EntryLine(view[0]) && lines[1..] == EntryLines(view[1..]);
      assert collected + [view[0]] + view[1..] == collected + view;
      assert ViewEntry(view[0].source, view[0].destination) == view[0];
    }
  }

  lemma EmptyLineTokens()
    ensures TrimLine("") == "" && Tokenize("") == []
  {
  }

  lemma ViewKey()
    ensures TrimLine("View:") == "View:" && Tokenize("View:") == ["View:"] && '\n' !in "View:"
    ensures "View:" != "ChangeView:" && "View:" != "Description:"
  {
    assert Word("View:");
    LineKept("View:");
    TokensAreFields("View:");
    FieldsWord("View:", "");
    assert "View:" + "" == "View:";
  }

  lemma ViewParsed(view: seq<ViewEntry>, c: Client)
    requires view != [] && PrintableView(view) && c.view == []
    ensures ParseText("View:\n" + ViewLines(view), c) == Verify(c.(view := view))
  {
    hide ViewLines, Tokenize, TrimLine, ViewBlock, EntryLines, Verify;
    var text := ViewLines(view);
    ViewKey();
    ViewSplit(view);
    ViewRead(view, []);
    assert "View:\n" + text == "View:" + ['\n'] + text;
    Text.SplitAfter("View:", text, '\n');
    assert [] + view == view;
    ViewLast(EntryLines(view), c, view);
  }

  lemma ViewLast(lines: seq<string>, c: Client, view: seq<ViewEntry>)
    requires ViewBlock(lines, c.view) == Block(view, [])
    ensures ParseLines(["View:"] + lines, c) == Verify(c.(view := view))
  {
    ViewKey();
    hide Tokenize, TrimLine, ViewBlock, Verify, ApplyLine, ChangeViewBlock, DescriptionBlock;
    var all := ["View:"] + lines;
    assert all[0] == "View:" && all[1..] == lines;
    assert "View:"[0] != '#';
  }

  // ----- The round trip -----

  ghost predicate AllWords(values: seq<string>) {
    forall i :: 0 <= i < |values| ==> Word(values[i])
  }

  ghost predicate Blankless(value: string) {
    value != "" ==> Word(value)
  }

  /** A client whose fields survive being printed: mandatory fields are set, no field or
      list element contains white space, options are known, and no view source looks like a
      comment or a field. */
  ghost predicate Printable(c: Client) {
    && Word(c.client) && Word(c.owner) && Word(c.root) && Word(c.lineEnd)
    && Blankless(c.host) && Blankless(c.stream) && Blankless(c.streamAtChange) && Blankless(c.serverId)
    && c.options != [] && (forall o | o in c.options :: Opts.IsOption(o))
    && c.submitOptions != [] && AllWords(c.submitOptions) && AllWords(c.altRoots)
    && c.view != [] && PrintableView(c.view)
  }

  /** What comes back: options are added one by one, and two fields are never printed. */
  function Reread(c: Client): Client
    requires forall o | o in c.options :: Opts.IsOption(o)
  {
    c.(options := Opts.AppendedAll([], c.options), description := "", changeView := [])
  }

  lemma NothingRead()
    ensures Reads("", NoClient)
  {
    assert forall rest: string :: "" + rest == rest;
  }

  lemma ReadsOptions(prefix: string, c: Client, options: seq<string>, c': Client)
    requires Reads(prefix, c) && c.options == [] && options != [] && (forall o | o in options :: Opts.IsOption(o))
    requires c' == c.(options := Opts.AppendedAll([], options))
    ensures Reads(prefix + ListLine("Options:", options, TrimSpace(Spaced(options))), c')
  {
    OptionWords();
    assert forall i :: 0 <= i < |options| ==> options[i] in options;
    ListKeys();
    ListKeysNotSingle();
    OptionsText(options);
    OptionsAdded([], options);
    assert Assign(c, "Options:", options) == Ok(c');
    hide Reads, Assign, FieldKey, Word, Opts.IsOption, TrimSpace, Spaced;
    ReadsList(prefix, c, "Options:", options, TrimSpace(Spaced(options)), c');
  }

  /** The fields before the options. */
  ghost function Head(c: Client): string {
    FieldLine("Client:", c.client) + FieldLine("Owner:", c.owner) + FieldLine("Host:", c.host)
      + FieldLine("Root:", c.root)
  }

  lemma HeadRead(c: Client)
    requires Printable(c)
    ensures Reads(Head(c), NoClient.(client := c.client, owner := c.owner, host := c.host, root := c.root))
  {
    var c0 := NoClient;
    var c1 := c0.(client := c.client);
    var c2 := c1.(owner := c.owner);
    var c3 := c2.(host := c.host);
    var c4 := c3.(root := c.root);
    NothingRead();
    Assignments(c0, c.client, [""]);
    Assignments(c1, c.owner, [""]);
    Assignments(c2, c.host, [""]);
    Assignments(c3, c.root, [""]);
    hide Reads, Assign, FieldLine, Word;
    assert "Client:" in SINGLE_VALUED && "Owner:" in SINGLE_VALUED && "Host:" in SINGLE_VALUED
      && "Root:" in SINGLE_VALUED;
    ReadsField("", c0, "Client:", c.client, c1);
    assert "" + FieldLine("Client:", c.client) == FieldLine("Client:", c.client);
    ReadsField(FieldLine("Client:", c.client), c1, "Owner:", c.owner, c2);
    ReadsField(FieldLine("Client:", c.client) + FieldLine("Owner:", c.owner), c2, "Host:", c.host, c3);
    ReadsField(FieldLine("Client:", c.client) + FieldLine("Owner:", c.owner) + FieldLine("Host:", c.host), c3,
      "Root:", c.root, c4);
  }

  ghost function Middle(c: Client): string {
    Head(c) + ListLine("Options:", c.options, TrimSpace(Spaced(c.options)))
    + ListLine("SubmitOptions:", c.submitOptions, Text.Join(c.submitOptions, ' '))
    + FieldLine("LineEnd:", c.lineEnd)
    + ListLine("AltRoots:", c.altRoots, Text.Join(c.altRoots, ' '))
  }

  lemma MiddleRead(c: Client)
    requires Printable(c)
    ensures Reads(Middle(c), NoClient.(client := c.client, owner := c.owner, host := c.host, root := c.root,
      options := Opts.AppendedAll([], c.options), submitOptions := c.submitOptions, lineEnd := c.lineEnd,
        altRoots := c.altRoots))
  {
    var c4 := NoClient.(client := c.client, owner := c.owner, host := c.host, root := c.root);
    var c5 := c4.(options := Opts.AppendedAll([], c.options));
    var c6 := c5.(submitOptions := c.submitOptions);
    var c7 := c6.(lineEnd := c.lineEnd);
    var c8 := c7.(altRoots := c.altRoots);
    HeadRead(c);
    ListKeys();
    ListKeysNotSingle();
    Assignments(c5, "", c.submitOptions);
    Assignments(c6, c.lineEnd, [""]);
    if c.altRoots != [] { Assignments(c7, "", c.altRoots); }
    hide Reads, Assign, FieldLine, ListLine, Head, TrimSpace, Spaced, Text.Join, FieldKey, Word, Opts.AppendedAll;
    var p5 := Head(c) + ListLine("Options:", c.options, TrimSpace(Spaced(c.options)));
    ReadsOptions(Head(c), c4, c.options, c5);
    var p6 := p5 + ListLine("SubmitOptions:", c.submitOptions, Text.Join(c.submitOptions, ' '));
    ReadsList(p5, c5, "SubmitOptions:", c.submitOptions, Text.Join(c.submitOptions, ' '), c6);
    var p7 := p6 + FieldLine("LineEnd:", c.lineEnd);
    ReadsField(p6, c6, "LineEnd:", c.lineEnd, c7);
    ReadsList(p7, c7, "AltRoots:", c.altRoots, Text.Join(c.altRoots, ' '), c8);
  }

  ghost function AllFields(c: Client): string {
    Middle(c) + FieldLine("Stream:", c.stream) + FieldLine("StreamAtChange:", c.streamAtChange)
      + FieldLine("ServerID:", c.serverId)
  }

  lemma AllFieldsRead(c: Client)
    requires Printable(c)
    ensures Reads(AllFields(c), Reread(c).(view := []))
  {
    var c8 := NoClient.(client := c.client, owner := c.owner, host := c.host, root := c.root,
      options := Opts.AppendedAll([], c.options), submitOptions := c.submitOptions, lineEnd := c.lineEnd,
        altRoots := c.altRoots);
    var c9 := c8.(stream := c.stream);
    var c10 := c9.(streamAtChange := c.streamAtChange);
    var c11 := c10.(serverId := c.serverId);
    MiddleRead(c);
    Assignments(c8, c.stream, [""]);
    Assignments(c9, c.streamAtChange, [""]);
    Assignments(c10, c.serverId, [""]);
    hide Reads, Assign, FieldLine, Middle, FieldKey, Word, Opts.AppendedAll;
    var p9 := Middle(c) + FieldLine("Stream:", c.stream);
    ReadsField(Middle(c), c8, "Stream:", c.stream, c9);
    var p10 := p9 + FieldLine("StreamAtChange:", c.streamAtChange);
    ReadsField(p9, c9, "StreamAtChange:", c.streamAtChange, c10);
    ReadsField(p10, c10, "ServerID:", c.serverId, c11);
    assert c11 == Reread(c).(view := []);
  }

  lemma PrintShape(c: Client)
    requires c.view != []
    ensures Print(c) == AllFields(c) + ("View:\n" + ViewLines(c.view))
  {
    hide FieldLine, ListLine, TrimSpace, Spaced, Text.Join, ViewLines;
  }

  /** Parsing a printed client gives the client back, but for what printing leaves out and
      for options that repeat or contradict each other. */
  lemma ParseOfPrint(c: Client)
    requires Printable(c)
    ensures Parse(Print(c)) == Ok(Reread(c))
  {
    AllFieldsRead(c);
    PrintShape(c);
    ViewParsed(c.view, Reread(c).(view := []));
    VerifyAccepts(c);
    hide AllFields, Print, ViewLines, ParseText, Reads, Opts.AppendedAll, Verify, Word;
    ReadsThen(AllFields(c), Reread(c).(view := []), "View:\n" + ViewLines(c.view));
    assert Parse(Print(c)) == ParseText(Print(c), NoClient) by { ParseIsParseText(Print(c)); }
  }

  lemma ParseIsParseText(data: string)
    ensures Parse(data) == ParseText(data, NoClient)
  {
    hide ParseLines, Text.Split;
  }

  lemma ReadsThen(prefix: string, c: Client, rest: string)
    requires Reads(prefix, c)
    ensures ParseText(prefix + rest, NoClient) == ParseText(rest, c)
  {
    hide ParseText;
  }

  lemma VerifyAccepts(c: Client)
    requires Printable(c)
    ensures Verify(Reread(c)) == Ok(Reread(c))
  {
    OptionsStay(c.options);
    hide Opts.AppendedAll;
  }

  lemma OptionsStay(options: seq<string>)
    requires options != [] && forall o | o in options :: Opts.IsOption(o)
    ensures Opts.AppendedAll([], options) != []
  {
    hide Opts.IsOption, Opts.Inverse;
    assert |Opts.Appended([], options[0])| > 0;
    NotShorter(Opts.Appended([], options[0]), options[1..]);
  }

  lemma {:induction false} NotShorter(options: seq<string>, more: seq<string>)
    requires forall o | o in more :: Opts.IsOption(o)
    ensures |Opts.AppendedAll(options, more)| >= |options|
    decreases |more|
  {
    hide Opts.IsOption, Opts.Inverse;
    if more != [] {
      NotShorter(Opts.Appended(options, more[0]), more[1..]);
    }
  }

  /** The exact condition for a perfect round trip. */
  lemma RoundTripIff(c: Client)
    requires Printable(c)
    ensures Parse(Print(c)) == Ok(c) <==> c.description == "" && c.changeView == [] && Opts.Compatible(c.options)
  {
    ParseOfPrint(c);
    Opts.AppendedAllIff(c.options);
  }
}
