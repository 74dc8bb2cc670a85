/** libs/go/p4lib/p4_impl.go: a description or a change view put into a printed client. */
module ClientBlocks {
  import opened Words
  import opened ClientSpec
  import Text
  import Opts = ClientOptions

  /** The lines as text. */
  function BlockText(lines: seq<string>): string {
    if lines == [] then "" else lines[0] + "\n" + BlockText(lines[1..])
  }

  /** The line is one line, and its first word, if there is one, is no field's key. */
  predicate Plain(line: string) {
    '\n' !in line && (Fields(line) != [] ==> !IsFieldToken(Fields(line)[0]))
  }

  ghost predicate AllPlain(lines: seq<string>) {
    forall i :: 0 <= i < |lines| ==> Plain(lines[i])
  }

  /** Every line trimmed of blanks, line feeds and carriage returns, with a line end. */
  function Trimmed(lines: seq<string>): string {
    if lines == [] then "" else Trim(lines[0], " \n\r") + "\n" + Trimmed(lines[1..])
  }

  predicate Comment(line: string) {
    Fields(line) == [] || Fields(line)[0][0] == '#'
  }

  /** The lines that are neither blank nor comments, trimmed. */
  function Told(lines: seq<string>): seq<string> {
    if lines == [] then []
    else if Comment(lines[0]) then Told(lines[1..])
    else [Trim(lines[0], " \n\r")] + Told(lines[1..])
  }

  // ----- Reading the lines -----

  lemma TokensOf(line: string)
    ensures Tokenize(TrimLine(line)) == Fields(line)
  {
    TokensAreFields(TrimLine(line));
    CutsAreSpaces();
    hide Tokenize, IsSpace, Fields, Trim;
    FieldsTrim(line, " \n\r");
  }

  lemma {:induction false} BlockSplit(lines: seq<string>, rest: string)
    requires AllPlain(lines)
    ensures Text.Split(BlockText(lines) + rest, '\n') == lines + Text.Split(rest, '\n')
  {
    hide Text.Split, Fields;
    if lines == [] {
      assert "" + rest == rest && lines + Text.Split(rest, '\n') == Text.Split(rest, '\n');
    } else {
      BlockSplit(lines[1..], rest);
      assert Plain(lines[0]);
      FirstLine(lines[0], BlockText(lines[1..]), rest);
      LinesOn(lines, Text.Split(rest, '\n'));
    }
  }

  lemma FirstLine(line: string, more: string, rest: string)
    requires '\n' !in line
    ensures Text.Split(line + "\n" + more + rest, '\n') == [line] + Text.Split(more + rest, '\n')
  {
    hide Text.Split;
    assert line + "\n" + more + rest == line + ['\n'] + (more + rest);
    Text.SplitAfter(line, more + rest, '\n');
  }

  lemma LinesOn(lines: seq<string>, tail: seq<string>)
    requires lines != []
    ensures [lines[0]] + (lines[1..] + tail) == lines + tail
  {
    assert lines == [lines[0]] + lines[1..];
  }

  /** The lines after a block, the first of which ends it. */
  ghost predicate Tail(tail: seq<string>) {
    tail != [] && Fields(tail[0]) != [] && IsFieldToken(Fields(tail[0])[0]) && Fields(tail[0])[0][0] != '#'
  }

  lemma {:induction false} DescriptionLines(lines: seq<string>, tail: seq<string>, collected: string)
    requires AllPlain(lines) && Tail(tail)
    ensures DescriptionBlock(lines + tail, collected) == Block(collected + Trimmed(lines), tail)
    decreases |lines|
  {
    hide Tokenize, Fields, Trim;
    if lines == [] {
      assert lines + tail == tail && collected + "" == collected;
      TokensOf(tail[0]);
    } else {
      var all := lines + tail;
      assert all[0] == lines[0] && all[1..] == lines[1..] + tail && Plain(lines[0]);
      TokensOf(lines[0]);
      DescriptionLines(lines[1..], tail, collected + TrimLine(lines[0]) + "\n");
      assert collected + Trimmed(lines) == collected + TrimLine(lines[0]) + "\n" + Trimmed(lines[1..]);
    }
  }

  lemma {:induction false} ChangeViewLines(lines: seq<string>, tail: seq<string>, collected: seq<string>)
    requires AllPlain(lines) && Tail(tail)
    ensures ChangeViewBlock(lines + tail, collected) == Block(collected + Told(lines), tail)
    decreases |lines|
  {
    hide Tokenize, Fields, Trim;
    if lines == [] {
      assert lines + tail == tail && collected + [] == collected;
      TokensOf(tail[0]);
    } else {
      var all := lines + tail;
      assert all[0] == lines[0] && all[1..] == lines[1..] + tail && Plain(lines[0]);
      TokensOf(lines[0]);
      if Comment(lines[0]) {
        ChangeViewLines(lines[1..], tail, collected);
      } else {
        ChangeViewLines(lines[1..], tail, collected + [TrimLine(lines[0])]);
        assert collected + Told(lines) == collected + [TrimLine(lines[0])] + Told(lines[1..]);
      }
    }
  }

  lemma BlockKeyRead(key: string)
    requires key == "Description:" || key == "ChangeView:"
    ensures TrimLine(key) == key && Tokenize(key) == [key] && '\n' !in key && key[0] != '#' && key != ""
  {
    assert Word(key);
    LineKept(key);
    TokensAreFields(key);
    FieldsWord(key, "");
    assert key + "" == key;
  }

  lemma ViewEndsBlock(view: seq<ViewEntry>)
    ensures Tail(Text.Split("View:\n" + ViewLines(view), '\n'))
  {
    ViewKey();
    TokensAreFields("View:");
    hide ViewLines, Tokenize, Fields;
    assert "View:\n" + ViewLines(view) == "View:" + ['\n'] + ViewLines(view);
    Text.SplitAfter("View:", ViewLines(view), '\n');
  }

  lemma KeySplit(key: string, lines: seq<string>, rest: string)
    requires AllPlain(lines) && (key == "Description:" || key == "ChangeView:")
    ensures Text.Split(key + "\n" + BlockText(lines) + rest, '\n') == [key] + (lines + Text.Split(rest, '\n'))
  {
    hide AllPlain, BlockText, Text.Split;
    BlockKeyRead(key);
    BlockSplit(lines, rest);
    assert key + "\n" + BlockText(lines) + rest == key + ['\n'] + (BlockText(lines) + rest);
    Text.SplitAfter(key, BlockText(lines) + rest, '\n');
  }

  lemma DescriptionText(lines: seq<string>, rest: string, c: Client)
    requires AllPlain(lines) && Tail(Text.Split(rest, '\n')) && c.description == ""
    ensures ParseText("Description:" + "\n" + BlockText(lines) + rest, c) ==
      ParseText(rest, c.(description := Trimmed(lines)))
  {
    hide ParseLines, DescriptionBlock, Text.Split, BlockText, Trimmed, AllPlain, Tail;
    var tail := Text.Split(rest, '\n');
    KeySplit("Description:", lines, rest);
    DescriptionLines(lines, tail, "");
    assert "" + Trimmed(lines) == Trimmed(lines);
    DescriptionFirst(lines + tail, c, Trimmed(lines), tail);
  }

  lemma DescriptionFirst(lines: seq<string>, c: Client, text: string, tail: seq<string>)
    requires DescriptionBlock(lines, c.description) == Block(text, tail)
    ensures ParseLines(["Description:"] + lines, c) == ParseLines(tail, c.(description := text))
  {
    BlockKeyRead("Description:");
    hide Tokenize, TrimLine, DescriptionBlock, ViewBlock, ChangeViewBlock, ApplyLine, Verify;
    var all := ["Description:"] + lines;
    assert all[0] == "Description:" && all[1..] == lines && "Description:" != "ChangeView:";
  }

  lemma ChangeViewText(lines: seq<string>, rest: string, c: Client)
    requires AllPlain(lines) && Tail(Text.Split(rest, '\n')) && c.changeView == []
    ensures ParseText("ChangeView:" + "\n" + BlockText(lines) + rest, c) ==
      ParseText(rest, c.(changeView := Told(lines)))
  {
    hide ParseLines, ChangeViewBlock, Text.Split, BlockText, Told, AllPlain, Tail;
    var tail := Text.Split(rest, '\n');
    KeySplit("ChangeView:", lines, rest);
    ChangeViewLines(lines, tail, []);
    assert [] + Told(lines) == Told(lines);
    ChangeViewFirst(lines + tail, c, Told(lines), tail);
  }

  lemma ChangeViewFirst(lines: seq<string>, c: Client, told: seq<string>, tail: seq<string>)
    requires ChangeViewBlock(lines, c.changeView) == Block(told, tail)
    ensures ParseLines(["ChangeView:"] + lines, c) == ParseLines(tail, c.(changeView := told))
  {
    BlockKeyRead("ChangeView:");
    hide Tokenize, TrimLine, DescriptionBlock, ViewBlock, ChangeViewBlock, ApplyLine, Verify;
    var all := ["ChangeView:"] + lines;
    assert all[0] == "ChangeView:" && all[1..] == lines;
  }

  // ----- In a printed client -----

  /** A description between the fields and the view of a printed client is read back, each line
      trimmed and with a line end. */
  lemma DescriptionIsRead(c: Client, lines: seq<string>)
    requires Printable(c) && AllPlain(lines)
    ensures Parse(AllFields(c) + ("Description:" + "\n" + BlockText(lines) + ("View:\n" + ViewLines(c.view)))) ==
      Ok(Reread(c).(description := Trimmed(lines)))
  {
    var before, view := Reread(c).(view := []), "View:\n" + ViewLines(c.view);
    var after := before.(description := Trimmed(lines));
    AllFieldsRead(c);
    ViewEndsBlock(c.view);
    ViewParsed(c.view, after);
    VerifyAccepts(c);
    assert Verify(after.(view := c.view)) == Ok(after.(view := c.view));
    hide AllFields, ViewLines, ParseText, Reads, Opts.AppendedAll, Verify, Word, BlockText, Trimmed, Parse, Tail,
      AllPlain, PrintableView;
    DescriptionText(lines, view, before);
    ReadsThen(AllFields(c), before, "Description:" + "\n" + BlockText(lines) + view);
    ParseIsParseText(AllFields(c) + ("Description:" + "\n" + BlockText(lines) + view));
  }

  /** So is a change view, but for blank lines and comments. */
  lemma ChangeViewIsRead(c: Client, lines: seq<string>)
    requires Printable(c) && AllPlain(lines)
    ensures Parse(AllFields(c) + ("ChangeView:" + "\n" + BlockText(lines) + ("View:\n" + ViewLines(c.view)))) ==
      Ok(Reread(c).(changeView := Told(lines)))
  {
    var before, view := Reread(c).(view := []), "View:\n" + ViewLines(c.view);
    var after := before.(changeView := Told(lines));
    AllFieldsRead(c);
    ViewEndsBlock(c.view);
    ViewParsed(c.view, after);
    VerifyAccepts(c);
    assert Verify(after.(view := c.view)) == Ok(after.(view := c.view));
    hide AllFields, ViewLines, ParseText, Reads, Opts.AppendedAll, Verify, Word, BlockText, Told, Parse, Tail,
      AllPlain, PrintableView;
    ChangeViewText(lines, view, before);
    ReadsThen(AllFields(c), before, "ChangeView:" + "\n" + BlockText(lines) + view);
    ParseIsParseText(AllFields(c) + ("ChangeView:" + "\n" + BlockText(lines) + view));
  }
}
