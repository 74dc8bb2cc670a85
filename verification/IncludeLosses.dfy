/** tools/incredible/src/main.rs: which includes and definitions file_process loses, in text
    that may also hold definitions without a value, such as include guards. */
module IncludeLosses {
  import opened IncludePaths
  import opened IncludeScanner
  import opened IncludePieces

  // ----- Looking for a value -----

  /** What the scanner is doing after this text behind a definition without a value. */
  function ValueReading(key: string, text: string): Reading {
    var t := SkipBlanks(text);
    if t == "" then NeedsValue(key)
    else if White(t[0]) then Ready
    else if WordLength(t) == |t| then InValue(key, t)
    else Ready
  }

  lemma {:induction false} SkipMore(text: string, more: string)
    ensures SkipBlanks(text + more) == if SkipBlanks(text) == "" then SkipBlanks(more) else SkipBlanks(text) + more
  {
    if text == "" {
      assert text + more == more;
    } else if Blank(text[0]) {
      assert (text + more)[1..] == text[1..] + more;
      SkipMore(text[1..], more);
    }
  }

  lemma {:induction false} WordMore(word: string, more: string)
    requires WordLength(word) == |word|
    ensures WordLength(word + more) == |word| + WordLength(more)
  {
    if word == "" {
      assert word + more == more;
    } else {
      assert (word + more)[1..] == word[1..] + more;
      WordMore(word[1..], more);
    }
  }

  lemma SettledIff(key: string, text: string)
    ensures ValueReading(key, text).Ready? <==> SettlesValue(text)
  {
    var t := SkipBlanks(text);
    var n := WordLength(t);
    hide SkipBlanks, WordLength;
    if n < |t| { assert White(t[n]); }
  }

  /** A value once found stays found. */
  lemma SettlesMore(text: string, more: string)
    requires SettlesValue(text)
    ensures SettlesValue(text + more)
  {
    SkipMore(text, more);
    hide SkipBlanks;
    var i :| 0 <= i < |SkipBlanks(text)| && White(SkipBlanks(text)[i]);
    assert SkipBlanks(text + more)[i] == SkipBlanks(text)[i];
  }

  /** One more piece while the value is looked for. */
  lemma ValueNext(o: Outcome, key: string, text: string, piece: Piece)
    requires o.reading == ValueReading(key, text) && !o.reading.Ready?
    ensures Read(o, piece).reading == ValueReading(key, text + Render(piece))
  {
    var more := Render(piece);
    hide Render;
    SkipMore(text, more);
    if o.reading.InValue? {
      WordMore(SkipBlanks(text), more);
    } else {
      var t := SkipBlanks(more);
      assert "" + t == t && "" + t[..WordLength(t)] == t[..WordLength(t)];
    }
    hide SkipBlanks, WordLength;
  }

  // ----- The condition -----

  /** The last include or definition is a definition without a value, and the text behind it
      does not settle its value. */
  ghost predicate AwaitsFrom(pieces: seq<Piece>, g: nat) {
    && g < |pieces| && pieces[g].Guard? && (forall k :: g < k < |pieces| ==> !Wanted(pieces[k]))
    && !SettlesValue(RenderAll(pieces[g + 1..]))
  }

  ghost predicate Awaits(pieces: seq<Piece>) {
    exists g: nat :: AwaitsFrom(pieces, g)
  }

  /** A bare directive, not taken for a value, with no blank behind it. */
  ghost predicate PendingBare(pieces: seq<Piece>, i: nat) {
    Pending(pieces, i) && !Awaits(pieces[..i])
  }

  /** No include or definition stands where a value is awaited; and behind every bare directive
      that does not stand there either, a blank comes before the next include or definition. */
  ghost predicate AllClear(pieces: seq<Piece>) {
    && (forall j :: 0 <= j < |pieces| && Wanted(pieces[j]) ==> !Awaits(pieces[..j]))
    && forall i, j :: 0 <= i < j < |pieces| && pieces[i].Bare? && Wanted(pieces[j]) && !Awaits(pieces[..i]) ==>
         BlankBetween(pieces, i, j)
  }

  // ----- What the last piece changes -----

  lemma RenderedNext(pieces: seq<Piece>, g: nat)
    requires pieces != [] && g < |pieces| - 1
    ensures var n := |pieces| - 1;
      RenderAll(pieces[g + 1..]) == RenderAll(pieces[..n][g + 1..]) + Render(pieces[n])
  {
    var n := |pieces| - 1;
    assert pieces[g + 1..][..n - g - 1] == pieces[..n][g + 1..];
  }

  lemma AwaitsNext(pieces: seq<Piece>, g: nat)
    requires pieces != [] && !Wanted(pieces[|pieces| - 1])
    ensures var n := |pieces| - 1;
      AwaitsFrom(pieces, g) <==>
        AwaitsFrom(pieces[..n], g) && !SettlesValue(RenderAll(pieces[..n][g + 1..]) + Render(pieces[n]))
  {
    hide SettlesValue, RenderAll, Render;
    var n := |pieces| - 1;
    if g < n {
      RenderedNext(pieces, g);
      if SettlesValue(RenderAll(pieces[..n][g + 1..])) {
        SettlesMore(RenderAll(pieces[..n][g + 1..]), Render(pieces[n]));
      }
      assert forall k :: g < k < n ==> pieces[..n][k] == pieces[k];
    }
  }

  lemma AwaitsWanted(pieces: seq<Piece>, g: nat)
    requires pieces != [] && Wanted(pieces[|pieces| - 1])
    ensures AwaitsFrom(pieces, g) <==> g == |pieces| - 1 && pieces[g].Guard?
  {
    if g == |pieces| - 1 { assert pieces[g + 1..] == []; }
  }

  lemma PendingNext(pieces: seq<Piece>, i: nat)
    requires pieces != [] && i < |pieces| - 1
    ensures var n := |pieces| - 1;
      PendingBare(pieces, i) <==> PendingBare(pieces[..n], i) && !HasBlank(Render(pieces[n]))
  {
    hide HasBlank, Render, Awaits;
    var n := |pieces| - 1;
    assert pieces[..n][..i] == pieces[..i];
    assert forall k :: i < k < n ==> pieces[..n][k] == pieces[k];
  }

  lemma WantedHasBlank(piece: Piece)
    requires Wanted(piece)
    ensures HasBlank(Render(piece))
  {
    assert Render(piece)[|KeywordOf(piece)|] == ' ';
  }

  /** What the scanner is doing after pieces of which it has lost none. */
  ghost predicate Explained(pieces: seq<Piece>, reading: Reading) {
    && (reading.NeedsValue? || reading.InValue? ==> Awaits(pieces))
    && (forall g: nat | AwaitsFrom(pieces, g) :: reading == ValueReading(pieces[g].key, RenderAll(pieces[g + 1..])))
    && (reading.Swallowing? <==> exists i: nat :: PendingBare(pieces, i))
  }

  /** While a value is awaited the scanner is not looking for a '#', nor swallowing. */
  lemma AwaitingReading(pieces: seq<Piece>, reading: Reading)
    requires Explained(pieces, reading) && Awaits(pieces)
    ensures reading.NeedsValue? || reading.InValue?
  {
    var g: nat :| AwaitsFrom(pieces, g);
    SettledIff(pieces[g].key, RenderAll(pieces[g + 1..]));
  }

  lemma NonePendingWanted(pieces: seq<Piece>, i: nat)
    requires pieces != [] && Wanted(pieces[|pieces| - 1])
    ensures !PendingBare(pieces, i)
  {
    hide HasBlank, Render;
    WantedHasBlank(pieces[|pieces| - 1]);
  }

  lemma ExplainedWanted(pieces: seq<Piece>, o: Outcome)
    requires pieces != [] && Wanted(pieces[|pieces| - 1]) && o.reading.Ready?
    ensures Explained(pieces, Read(o, pieces[|pieces| - 1]).reading)
  {
    var n := |pieces| - 1;
    assert pieces[n + 1..] == [] && RenderAll([]) == "";
    hide AwaitsFrom, PendingBare, RenderAll;
    forall g: nat
      ensures AwaitsFrom(pieces, g) <==> g == n && pieces[n].Guard?
      ensures !PendingBare(pieces, g)
    {
      AwaitsWanted(pieces, g);
      NonePendingWanted(pieces, g);
    }
    assert pieces[n].Guard? ==> AwaitsFrom(pieces, n);
    assert forall key :: ValueReading(key, "") == NeedsValue(key);
  }

  ghost predicate NonePending(pieces: seq<Piece>) {
    forall i: nat :: !PendingBare(pieces, i)
  }

  lemma NonePendingAwaiting(pieces: seq<Piece>, i: nat)
    requires pieces != [] && Awaits(pieces[..|pieces| - 1])
    requires NonePending(pieces[..|pieces| - 1])
    ensures !PendingBare(pieces, i)
  {
    hide Awaits;
    if i < |pieces| - 1 { PendingNext(pieces, i); }
  }

  lemma StillAwaiting(pieces: seq<Piece>, g: nat, o: Outcome)
    requires pieces != [] && !Wanted(pieces[|pieces| - 1])
    requires AwaitsFrom(pieces[..|pieces| - 1], g)
    requires o.reading == ValueReading(pieces[g].key, RenderAll(pieces[..|pieces| - 1][g + 1..])) && !o.reading.Ready?
    ensures Read(o, pieces[|pieces| - 1]).reading == ValueReading(pieces[g].key, RenderAll(pieces[g + 1..]))
    ensures AwaitsFrom(pieces, g) <==> !Read(o, pieces[|pieces| - 1]).reading.Ready?
  {
    var n := |pieces| - 1;
    var text := RenderAll(pieces[..n][g + 1..]);
    AwaitsNext(pieces, g);
    RenderedNext(pieces, g);
    hide AwaitsFrom, RenderAll, Render, Read;
    ValueNext(o, pieces[g].key, text, pieces[n]);
    SettledIff(pieces[g].key, text + Render(pieces[n]));
    hide ValueReading, SettlesValue;
  }

  lemma ValueOfEach(pieces: seq<Piece>, o: Outcome, h: nat)
    requires pieces != [] && !Wanted(pieces[|pieces| - 1]) && Explained(pieces[..|pieces| - 1], o.reading)
    requires AwaitsFrom(pieces, h) && !o.reading.Ready?
    ensures Read(o, pieces[|pieces| - 1]).reading == ValueReading(pieces[h].key, RenderAll(pieces[h + 1..]))
  {
    AwaitsNext(pieces, h);
    hide ValueReading, RenderAll, Read, PendingBare, SettlesValue, Render;
    StillAwaiting(pieces, h, o);
  }

  lemma ExplainedAwaiting(pieces: seq<Piece>, o: Outcome)
    requires pieces != [] && !Wanted(pieces[|pieces| - 1]) && Explained(pieces[..|pieces| - 1], o.reading)
    requires Awaits(pieces[..|pieces| - 1])
    ensures Explained(pieces, Read(o, pieces[|pieces| - 1]).reading)
  {
    var before := pieces[..|pieces| - 1];
    AwaitingReading(before, o.reading);
    assert NonePending(before);
    var g: nat :| AwaitsFrom(before, g);
    StartedWithin(before, g);
    assert o.reading == ValueReading(pieces[g].key, RenderAll(before[g + 1..]));
    hide ValueReading, RenderAll, Read, PendingBare, SettlesValue, Render, AwaitsFrom;
    StillAwaiting(pieces, g, o);
    ValueOnly(pieces[g].key, RenderAll(pieces[g + 1..]));
    EachValue(pieces, o);
    NonePendingStill(pieces);
  }

  lemma StartedWithin(pieces: seq<Piece>, g: nat)
    requires AwaitsFrom(pieces, g)
    ensures g < |pieces| && pieces[g].Guard?
  {
  }

  lemma EachValue(pieces: seq<Piece>, o: Outcome)
    requires pieces != [] && !Wanted(pieces[|pieces| - 1]) && Explained(pieces[..|pieces| - 1], o.reading)
    requires !o.reading.Ready?
    ensures forall h: nat | AwaitsFrom(pieces, h) ::
      Read(o, pieces[|pieces| - 1]).reading == ValueReading(pieces[h].key, RenderAll(pieces[h + 1..]))
  {
    hide Explained, ValueReading, RenderAll, Read, SettlesValue, Render;
    forall h: nat | AwaitsFrom(pieces, h)
      ensures Read(o, pieces[|pieces| - 1]).reading == ValueReading(pieces[h].key, RenderAll(pieces[h + 1..]))
    {
      ValueOfEach(pieces, o, h);
    }
  }

  lemma NonePendingStill(pieces: seq<Piece>)
    requires pieces != [] && Awaits(pieces[..|pieces| - 1]) && NonePending(pieces[..|pieces| - 1])
    ensures NonePending(pieces)
  {
    hide Awaits, PendingBare;
    forall i: nat
      ensures !PendingBare(pieces, i)
    {
      hide NonePending;
      NonePendingAwaiting(pieces, i);
    }
  }

  lemma ValueOnly(key: string, text: string)
    ensures !ValueReading(key, text).Swallowing?
  {
  }

  /** Nothing is awaited, and the piece is no include and no definition. */
  lemma ExplainedOther(pieces: seq<Piece>, o: Outcome)
    requires pieces != [] && !Wanted(pieces[|pieces| - 1]) && WellFormed(pieces[|pieces| - 1])
    requires Explained(pieces[..|pieces| - 1], o.reading) && !Awaits(pieces[..|pieces| - 1])
    ensures Explained(pieces, Read(o, pieces[|pieces| - 1]).reading)
  {
    var n := |pieces| - 1;
    var before, last := pieces[..n], pieces[n];
    hide Render, HasBlank, ValueReading, RenderAll;
    forall g: nat
      ensures !AwaitsFrom(pieces, g)
    {
      AwaitsNext(pieces, g);
    }
    hide AwaitsFrom;
    if last.Bare? { NoBlankInBare(last); }
    assert PendingBare(pieces, n) <==> last.Bare?;
    hide PendingBare, WellFormed;
    forall i: nat | i < n
      ensures PendingBare(pieces, i) <==> PendingBare(before, i) && !HasBlank(Render(last))
    {
      PendingNext(pieces, i);
    }
    PendingWithin(pieces);
    PendingWithin(before);
  }

  lemma PendingWithin(pieces: seq<Piece>)
    ensures forall i: nat | PendingBare(pieces, i) :: i < |pieces|
  {
  }

  lemma {:induction false} ReadingExplained(pieces: seq<Piece>, defines: map<string, string>)
    requires AllWellFormed(pieces) && NothingLost(pieces, defines)
    ensures Explained(pieces, ReadAll(pieces, defines).reading)
  {
    if pieces != [] {
      var n := |pieces| - 1;
      var o := ReadAll(pieces[..n], defines);
      assert pieces[n] in pieces;
      LostBefore(pieces, defines);
      hide Explained, Read, WellFormed, NothingLost, Awaits;
      ReadingExplained(pieces[..n], defines);
      if Wanted(pieces[n]) {
        ExplainedWanted(pieces, o);
      } else if Awaits(pieces[..n]) {
        ExplainedAwaiting(pieces, o);
      } else {
        ExplainedOther(pieces, o);
      }
    }
  }

  /** Looking for a '#' is what the scanner does if it neither awaits a value nor swallows. */
  lemma ReadyIff(pieces: seq<Piece>, reading: Reading)
    requires Explained(pieces, reading)
    ensures reading.Ready? <==> !Awaits(pieces) && forall i: nat :: !PendingBare(pieces, i)
  {
    hide AwaitsFrom, PendingBare, ValueReading, RenderAll;
    if Awaits(pieces) { AwaitingReading(pieces, reading); }
  }

  lemma PendingIff(pieces: seq<Piece>, i: nat, j: nat)
    requires i < j <= |pieces|
    ensures PendingBare(pieces[..j], i) <==> pieces[i].Bare? && !Awaits(pieces[..i]) && !BlankBetween(pieces, i, j)
  {
    hide Awaits, HasBlank, Render;
    assert pieces[..j][..i] == pieces[..i];
    assert forall k :: i < k < j ==> pieces[..j][k] == pieces[k];
  }

  /** No value is awaited before piece j, and every bare directive before it has a blank in
      between. */
  ghost predicate ClearAt(pieces: seq<Piece>, j: nat)
    requires j <= |pieces|
  {
    && !Awaits(pieces[..j])
    && forall i :: 0 <= i < j && pieces[i].Bare? && !Awaits(pieces[..i]) ==> BlankBetween(pieces, i, j)
  }

  /** One include or definition is read, those before it having been. */
  lemma ReadIff(pieces: seq<Piece>, defines: map<string, string>, j: nat)
    requires j <= |pieces| && AllWellFormed(pieces) && NothingLost(pieces[..j], defines)
    ensures ReadAll(pieces[..j], defines).reading.Ready? <==> ClearAt(pieces, j)
  {
    hide WellFormed, ReadAll, NothingLost, Explained, Awaits, BlankBetween, PendingBare;
    ReadingExplained(pieces[..j], defines);
    ReadyIff(pieces[..j], ReadAll(pieces[..j], defines).reading);
    forall i | 0 <= i < j
      ensures PendingBare(pieces[..j], i) <==> pieces[i].Bare? && !Awaits(pieces[..i]) && !BlankBetween(pieces, i, j)
    {
      PendingIff(pieces, i, j);
    }
    PendingWithin(pieces[..j]);
  }

  /** No include and no definition is lost exactly if none stands where a value is awaited, and
      behind every bare directive outside such places a blank comes before the next of them. */
  lemma {:induction false} AllReadIff(pieces: seq<Piece>, defines: map<string, string>)
    requires AllWellFormed(pieces)
    ensures NothingLost(pieces, defines) <==> AllClear(pieces)
  {
    if pieces != [] {
      InitWellFormed(pieces);
      hide *;
      AllReadIff(pieces[..|pieces| - 1], defines);
      OneMoreRead(pieces, defines);
    }
  }

  lemma InitWellFormed(pieces: seq<Piece>)
    requires AllWellFormed(pieces) && pieces != []
    ensures AllWellFormed(pieces[..|pieces| - 1])
  {
    hide WellFormed;
  }

  lemma OneMoreRead(pieces: seq<Piece>, defines: map<string, string>)
    requires AllWellFormed(pieces) && pieces != []
    requires NothingLost(pieces[..|pieces| - 1], defines) <==> AllClear(pieces[..|pieces| - 1])
    ensures NothingLost(pieces, defines) <==> AllClear(pieces)
  {
    hide *;
    LostBefore(pieces, defines);
    ClearBefore(pieces);
    if NothingLost(pieces[..|pieces| - 1], defines) { ReadIff(pieces, defines, |pieces| - 1); }
  }

  lemma ClearBefore(pieces: seq<Piece>)
    requires pieces != []
    ensures var n := |pieces| - 1;
      AllClear(pieces) <==> AllClear(pieces[..n]) && (Wanted(pieces[n]) ==> ClearAt(pieces, n))
  {
    hide Awaits, HasBlank, Render;
    var n := |pieces| - 1;
    forall j | 0 <= j <= n
      ensures pieces[..n][..j] == pieces[..j]
    {
    }
    forall i, j | 0 <= i < j < n
      ensures BlankBetween(pieces[..n], i, j) <==> BlankBetween(pieces, i, j)
    {
      assert forall k :: i < k < j ==> pieces[..n][k] == pieces[k];
    }
  }
}
