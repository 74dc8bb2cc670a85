/** Go's strings.Trim and strings.Fields, which the client-spec parser is built on. */
module Words {
  import Text

  /** unicode.IsSpace */
  predicate IsSpace(c: char) {
    || c == '\t' || c == '\n' || c == '\U{0B}' || c == '\U{0C}' || c == '\r' || c == ' '
    || c == '\U{85}' || c == '\U{A0}' || c == '\U{1680}' || '\U{2000}' <= c <= '\U{200A}'
    || c == '\U{2028}' || c == '\U{2029}' || c == '\U{202F}' || c == '\U{205F}' || c == '\U{3000}'
  }

  function TrimLeft(s: string, cut: string): string {
    if s != "" && s[0] in cut then TrimLeft(s[1..], cut) else s
  }

  function TrimRight(s: string, cut: string): string {
    if s != "" && s[|s| - 1] in cut then TrimRight(s[..|s| - 1], cut) else s
  }

  function Trim(s: string, cut: string): string {
    TrimRight(TrimLeft(s, cut), cut)
  }

  /** The length of the word s begins with. */
  function WordLength(s: string): (n: nat)
    ensures n <= |s| && (forall i :: 0 <= i < n ==> !IsSpace(s[i])) && (n < |s| ==> IsSpace(s[n]))
  {
    if s == "" || IsSpace(s[0]) then 0 else 1 + WordLength(s[1..])
  }

  /** The words of s: its maximal runs without white space. */
  function Fields(s: string): (words: seq<string>)
    ensures forall i :: 0 <= i < |words| ==> Word(words[i])
  {
    if s == "" then []
    else if IsSpace(s[0]) then Fields(s[1..])
    else [s[..WordLength(s)]] + Fields(s[WordLength(s)..])
  }

  predicate Word(w: string) {
    w != "" && forall i :: 0 <= i < |w| ==> !IsSpace(w[i])
  }

  lemma FieldsWord(w: string, rest: string)
    requires Word(w) && (rest != "" ==> IsSpace(rest[0]))
    ensures Fields(w + rest) == [w] + Fields(rest)
  {
    var s := w + rest;
    var n := WordLength(s);
    assert forall i :: 0 <= i < |w| ==> s[i] == w[i];
    assert rest != "" ==> s[|w|] == rest[0];
    assert s[..n] == w && s[n..] == rest;
  }

  lemma FieldsSpace(c: char, rest: string)
    requires IsSpace(c)
    ensures Fields([c] + rest) == Fields(rest)
  {
    assert ([c] + rest)[1..] == rest;
  }

  /** Joining words with blanks and splitting again. */
  lemma {:induction false} FieldsJoin(words: seq<string>)
    requires forall i :: 0 <= i < |words| ==> Word(words[i])
    ensures Fields(Text.Join(words, ' ')) == words
  {
    if |words| == 1 {
      FieldsWord(words[0], "");
      assert words[0] + "" == words[0];
    } else if |words| > 1 {
      var rest := Text.Join(words[1..], ' ');
      FieldsJoin(words[1..]);
      FieldsWord(words[0], " " + rest);
      FieldsSpace(' ', rest);
      assert words[0] + [' '] + rest == words[0] + (" " + rest);
    }
  }

  lemma {:induction false} FieldsTrimLeft(s: string, cut: string)
    requires forall c | c in cut :: IsSpace(c)
    ensures Fields(TrimLeft(s, cut)) == Fields(s)
  {
    if s != "" && s[0] in cut {
      FieldsTrimLeft(s[1..], cut);
    }
  }

  lemma {:induction false} FieldsTrailing(s: string, c: char)
    requires IsSpace(c)
    ensures Fields(s + [c]) == Fields(s)
    decreases |s|
  {
    if s == "" {
      assert s + [c] == [c] + "";
      FieldsSpace(c, "");
    } else if IsSpace(s[0]) {
      assert (s + [c])[1..] == s[1..] + [c];
      FieldsTrailing(s[1..], c);
    } else {
      var n := WordLength(s);
      assert s == s[..n] + s[n..] && s + [c] == s[..n] + (s[n..] + [c]);
      FieldsWord(s[..n], s[n..]);
      FieldsWord(s[..n], s[n..] + [c]);
      FieldsTrailing(s[n..], c);
    }
  }

  lemma {:induction false} FieldsTrimRight(s: string, cut: string)
    requires forall c | c in cut :: IsSpace(c)
    ensures Fields(TrimRight(s, cut)) == Fields(s)
  {
    if s != "" && s[|s| - 1] in cut {
      FieldsTrimRight(s[..|s| - 1], cut);
      FieldsTrailing(s[..|s| - 1], s[|s| - 1]);
      assert s[..|s| - 1] + [s[|s| - 1]] == s;
    }
  }

  /** Trimming white space does not change the words. */
  lemma FieldsTrim(s: string, cut: string)
    requires forall c | c in cut :: IsSpace(c)
    ensures Fields(Trim(s, cut)) == Fields(s)
  {
    FieldsTrimLeft(s, cut);
    FieldsTrimRight(TrimLeft(s, cut), cut);
  }
}
