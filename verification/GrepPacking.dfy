/** libs/go/p4lib/p4_impl.go, grepChunker: packing folders into groups of at most ten thousand
    files, each group searched by one command. */
module GrepPacking {
  const LIMIT := 10000

  datatype Size = Size(depotPath: string, fileCount: nat)

  function Files(sizes: seq<Size>): nat {
    if sizes == [] then 0 else Files(sizes[..|sizes| - 1]) + sizes[|sizes| - 1].fileCount
  }

  function Flat(groups: seq<seq<Size>>): seq<Size> {
    if groups == [] then [] else Flat(groups[..|groups| - 1]) + groups[|groups| - 1]
  }

  /** The folders to pack: not empty, and small enough for one group. */
  function Packable(sizes: seq<Size>): seq<Size> {
    if sizes == [] then []
    else
      var last := sizes[|sizes| - 1];
      if 0 < last.fileCount <= LIMIT then Packable(sizes[..|sizes| - 1]) + [last] else Packable(sizes[..|sizes| - 1])
  }

  /** The folders to search on their own, cut up further. */
  function TooLarge(sizes: seq<Size>): seq<Size> {
    if sizes == [] then []
    else
      var last := sizes[|sizes| - 1];
      if last.fileCount > LIMIT then TooLarge(sizes[..|sizes| - 1]) + [last] else TooLarge(sizes[..|sizes| - 1])
  }

  lemma FilesMore(sizes: seq<Size>, s: Size)
    ensures Files(sizes + [s]) == Files(sizes) + s.fileCount
  {
    assert (sizes + [s])[..|sizes|] == sizes;
  }

  lemma FlatMore(groups: seq<seq<Size>>, group: seq<Size>)
    ensures Flat(groups + [group]) == Flat(groups) + group
  {
    assert (groups + [group])[..|groups|] == groups;
  }

  lemma {:induction false} FilesJoined(a: seq<Size>, b: seq<Size>)
    ensures Files(a + b) == Files(a) + Files(b)
  {
    if b == [] {
      assert a + b == a;
    } else {
      assert (a + b)[..|a + b| - 1] == a + b[..|b| - 1];
      FilesJoined(a, b[..|b| - 1]);
    }
  }

  /** Every group fits the limit and is not empty, and the first folder of the next would not
      have fitted. */
  ghost predicate Packed(groups: seq<seq<Size>>) {
    && (forall g :: 0 <= g < |groups| ==> groups[g] != [] && Files(groups[g]) <= LIMIT)
    && forall g, h :: 0 <= g && h == g + 1 && h < |groups| ==> Files(groups[g]) + groups[h][0].fileCount > LIMIT
  }

  lemma PackedMore(groups: seq<seq<Size>>, group: seq<Size>)
    requires Packed(groups) && group != [] && Files(group) <= LIMIT
    requires groups == [] || Files(groups[|groups| - 1]) + group[0].fileCount > LIMIT
    ensures Packed(groups + [group])
  {
    hide Files;
  }

  /** What the loop keeps: the open group fits, and its first folder did not fit the last
      closed one. */
  ghost predicate Open(groups: seq<seq<Size>>, dirs: seq<Size>, total: nat) {
    && Packed(groups) && total == Files(dirs) <= LIMIT
    && (dirs != [] && groups != [] ==> Files(groups[|groups| - 1]) + dirs[0].fileCount > LIMIT)
    && (dirs == [] ==> groups == [])
  }

  lemma StartOver(groups: seq<seq<Size>>, dirs: seq<Size>, total: nat, s: Size)
    requires Open(groups, dirs, total) && 0 < s.fileCount <= LIMIT < total + s.fileCount
    ensures dirs != [] && Open(groups + [dirs], [s], s.fileCount)
  {
    PackedMore(groups, dirs);
    FilesMore([], s);
    assert [] + [s] == [s];
  }

  lemma PutIn(groups: seq<seq<Size>>, dirs: seq<Size>, total: nat, s: Size)
    requires Open(groups, dirs, total) && total + s.fileCount <= LIMIT
    requires dirs == [] ==> groups == []
    ensures Open(groups, dirs + [s], total + s.fileCount)
  {
    FilesMore(dirs, s);
  }

  lemma OpenFits(groups: seq<seq<Size>>, dirs: seq<Size>, total: nat)
    requires Open(groups, dirs, total)
    ensures total <= LIMIT && (dirs == [] ==> total == 0 && groups == [])
    ensures dirs != [] ==> Packed(groups + [dirs])
    ensures Packed(groups)
  {
    assert dirs == [] ==> total == 0;
    hide Files, Packed;
    if dirs != [] { PackedMore(groups, dirs); }
  }

  lemma NextFolder(sizes: seq<Size>, k: nat)
    requires k < |sizes|
    ensures Packable(sizes[..k + 1]) == Packable(sizes[..k]) + if 0 < sizes[k].fileCount <= LIMIT then [sizes[k]]
      else []
    ensures TooLarge(sizes[..k + 1]) == TooLarge(sizes[..k]) + if sizes[k].fileCount > LIMIT then [sizes[k]] else []
  {
    assert sizes[..k + 1][..k] == sizes[..k];
  }

  /** The list comes sorted by file count; nothing here needs that. */
  method Pack(sizes: seq<Size>) returns (groups: seq<seq<Size>>, divided: seq<Size>)
    ensures Flat(groups) == Packable(sizes) && divided == TooLarge(sizes)
    ensures Packed(groups)
  {
    var total: nat := 0;
    var dirs: seq<Size> := [];
    groups, divided := [], [];
    assert Open(groups, dirs, total) && Flat([]) == Packable([]) == [] && TooLarge([]) == [];
    hide Packable, TooLarge, Files, Open, Packed, Flat;
    for k := 0 to |sizes|
      invariant Flat(groups) + dirs == Packable(sizes[..k]) && divided == TooLarge(sizes[..k])
      invariant Open(groups, dirs, total)
    {
      var s := sizes[k];
      NextFolder(sizes, k);
      if s.fileCount > LIMIT {
        divided := divided + [s];
      } else {
        if total + s.fileCount > LIMIT {
          assert s.fileCount > 0 && dirs != [] by { OpenFits(groups, dirs, total); }
          StartOver(groups, dirs, total, s);
          FlatMore(groups, dirs);
          if |dirs| > 0 {
            groups := groups + [dirs];
          }
          total := 0;
          dirs := [];
        } else if s.fileCount > 0 {
          PutIn(groups, dirs, total, s);
        }
        if s.fileCount > 0 {
          assert dirs == [] ==> dirs + [s] == [s];
          dirs := dirs + [s];
          total := total + s.fileCount;
        }
      }
    }
    assert sizes[..|sizes|] == sizes;
    OpenFits(groups, dirs, total);
    if |dirs| > 0 {
      FlatMore(groups, dirs);
      groups := groups + [dirs];
    }
  }

  lemma {:induction false} FirstIsPart(group: seq<Size>)
    requires group != []
    ensures group[0].fileCount <= Files(group)
  {
    if |group| > 1 { FirstIsPart(group[..|group| - 1]); }
  }

  lemma LastTwo(groups: seq<seq<Size>>)
    requires Packed(groups) && |groups| >= 2
    ensures Packed(groups[..|groups| - 2])
    ensures Files(groups[|groups| - 2]) + Files(groups[|groups| - 1]) > LIMIT
  {
    FirstIsPart(groups[|groups| - 1]);
    hide Files;
  }

  lemma FlatTwo(front: seq<seq<Size>>, a: seq<Size>, b: seq<Size>)
    ensures Files(Flat(front + [a] + [b])) == Files(Flat(front)) + Files(a) + Files(b)
  {
    hide Files, Flat;
    FlatMore(front, a);
    FlatMore(front + [a], b);
    FilesJoined(Flat(front), a);
    FilesJoined(Flat(front) + a, b);
  }

  lemma Split(groups: seq<seq<Size>>)
    requires |groups| >= 2
    ensures groups == groups[..|groups| - 2] + [groups[|groups| - 2]] + [groups[|groups| - 1]]
  {
  }

  /** Two groups in a row hold more than the limit, so there are at most about twice as many
      groups as the files call for. */
  lemma {:induction false} FewGroups(groups: seq<seq<Size>>)
    requires Packed(groups)
    ensures (|groups| / 2) * 10001 <= Files(Flat(groups))
  {
    if |groups| >= 2 {
      LastTwo(groups);
      hide Packed, Files, Flat;
      Split(groups);
      FlatTwo(groups[..|groups| - 2], groups[|groups| - 2], groups[|groups| - 1]);
      FewGroups(groups[..|groups| - 2]);
    }
  }

  /** No folder is lost: every file is in a group or in a folder to be cut up. */
  lemma {:induction false} FilesConserved(sizes: seq<Size>)
    ensures Files(Packable(sizes)) + Files(TooLarge(sizes)) == Files(sizes)
  {
    if sizes != [] {
      var before, last := sizes[..|sizes| - 1], sizes[|sizes| - 1];
      FilesConserved(before);
      FilesMore(Packable(before), last);
      FilesMore(TooLarge(before), last);
    }
  }
}
