/** Splitting text at a separator character and joining it back: the two string
    operations the diff, the trie and the client-spec code are built on. */
module Text {

  /** The pieces of s between occurrences of sep; at least one, possibly empty. */
  function Split(s: string, sep: char): (parts: seq<string>)
    ensures |parts| >= 1
    ensures forall part | part in parts :: sep !in part
  {
    if s == "" then [""]
    else
      var rest := Split(s[1..], sep);
      if s[0] == sep then [""] + rest else [[s[0]] + rest[0]] + rest[1..]
  }

  function Join(parts: seq<string>, sep: char): string {
    if |parts| == 0 then ""
    else if |parts| == 1 then parts[0]
    else parts[0] + [sep] + Join(parts[1..], sep)
  }

  lemma {:induction false} JoinSplit(s: string, sep: char)
    ensures Join(Split(s, sep), sep) == s
  {
    if s != "" {
      JoinSplit(s[1..], sep);
      var rest := Split(s[1..], sep);
      if s[0] == sep {
        assert ([""] + rest)[1..] == rest;
      } else {
        assert ([[s[0]] + rest[0]] + rest[1..])[1..] == rest[1..];
      }
    }
  }

  /** Prepending a separator-free piece to a text prepends that piece to its parts. */
  lemma {:induction false} SplitAfter(head: string, tail: string, sep: char)
    requires sep !in head
    ensures Split(head + [sep] + tail, sep) == [head] + Split(tail, sep)
  {
    var s := head + [sep] + tail;
    if head == "" {
      assert s[1..] == tail;
    } else {
      SplitAfter(head[1..], tail, sep);
      assert s[1..] == head[1..] + [sep] + tail;
      var rest := [head[1..]] + Split(tail, sep);
      assert [s[0]] + rest[0] == head && rest[1..] == Split(tail, sep);
    }
  }

  lemma {:induction false} SplitOne(s: string, sep: char)
    requires sep !in s
    ensures Split(s, sep) == [s]
  {
    if s != "" {
      SplitOne(s[1..], sep);
      assert [s[0]] + s[1..] == s;
    }
  }

  lemma {:induction false} SplitJoin(parts: seq<string>, sep: char)
    requires parts != []
    requires forall part | part in parts :: sep !in part
    ensures Split(Join(parts, sep), sep) == parts
  {
    if |parts| == 1 {
      SplitOne(parts[0], sep);
    } else {
      SplitJoin(parts[1..], sep);
      SplitAfter(parts[0], Join(parts[1..], sep), sep);
    }
  }
}
