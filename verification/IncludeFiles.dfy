/** tools/incredible/src/main.rs: the scan of files with contents, their directives being what
    the byte scanner finds in them. */
module IncludeFiles {
  import opened Wrappers
  import opened IncludePaths
  import opened IncludeScan
  import IncludeScanner
  import IncludePieces

  /** The files and their contents, the include directories, how names split into components,
      and the definitions from the command line. */
  datatype Disk = Disk(
    contents: map<Path, string>,
    includes: seq<Path>,
    sanitised: string -> Path,
    plain: string -> Path,
    defines: map<string, string>)

  /** What the scanner finds in a text. */
  function RefsIn(text: string, defines: map<string, string>): seq<Ref> {
    IncludeScanner.Steps(text, 0, |text|, IncludeScanner.Fresh(defines)).refs
  }

  /** An input that does not exist has no includes. */
  function WorldOf(disk: Disk): World {
    World(
      disk.contents.Keys,
      path => if path in disk.contents then RefsIn(disk.contents[path], disk.defines) else [],
      disk.includes, disk.sanitised, disk.plain)
  }

  /** The whole single-threaded scan: exactly the files reachable by includes that the scanner
      sees. */
  method ScanFiles(disk: Disk, inputs: seq<Path>) returns (found: set<Path>)
    ensures forall p :: p in found <==> Reachable(WorldOf(disk), inputs, p)
  {
    var scan := new Scan(WorldOf(disk));
    scan.Run(inputs);
    found := scan.processed;
  }

  /** The scanner's method is what says which includes a file has. */
  method FileIncludes(disk: Disk, path: Path) returns (refs: seq<Ref>)
    ensures refs == WorldOf(disk).refs(path)
  {
    if path !in disk.contents {
      return [];
    }
    var defines;
    refs, defines := IncludeScanner.FileRefs(disk.contents[path], disk.defines);
  }

  /** For a file made of well-formed directives, with a blank behind every bare one before the
      next include or definition, the edges are the includes its directives ask for. */
  lemma EdgesOfPieces(disk: Disk, path: Path, pieces: seq<IncludePieces.Piece>, to: Path)
    requires path in disk.contents && disk.contents[path] == IncludePieces.RenderAll(pieces)
    requires IncludePieces.NoGuards(pieces) && IncludePieces.AllWellFormed(pieces) && IncludePieces.EnoughBlanks(pieces)
    ensures Edge(WorldOf(disk), path, to) <==>
      exists ref | ref in IncludePieces.Meaning(pieces, disk.defines) ::
        Resolve(WorldOf(disk), Parent(path), ref) == Some(to)
  {
    IncludePieces.ScanOfRender(pieces, disk.defines);
    var refs := IncludePieces.Meaning(pieces, disk.defines);
    assert WorldOf(disk).refs(path) == refs;
    hide Resolve, IncludePieces.Meaning, WorldOf;
    if ref :| ref in refs && Resolve(WorldOf(disk), Parent(path), ref) == Some(to) {
      var j :| 0 <= j < |refs| && refs[j] == ref;
    }
  }
}
