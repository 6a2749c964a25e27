/**
  `SRTPluginHelper.Versions`: the older helper that hashes with SHA-256, searches
  the same kind of catalog, and on an unknown checksum writes a ready-to-paste
  field declaration to `<game>_version.log`, with the game name fixed to "re4r".
 */
module Versions {
  import opened DotNet
  import opened Catalog
  import opened ByteArrayLiteral

  /** The game name `DetectVersion` passes to `OutputVersionString`. */
  const GameName: string := "re4r"

  /** The start of the field declaration, up to the byte-array literal. */
  function FieldPrefix(gameName: string): string {
    "private static readonly byte[] " + ToLowerInvariant(gameName) + "??_00000000 = "
  }

  /** Reads a field declaration for `gameName` back into the checksum it declares. */
  function ParseFieldDeclaration(gameName: string, line: string): Option<seq<byte>> {
    var prefix := FieldPrefix(gameName);
    if |line| >= |prefix| && line[..|prefix|] == prefix then ParseDeclaration(line[|prefix|..]) else None
  }

  /**
    `OutputVersionString`: the declaration is built in a string builder exactly as
    `Version.GetByteArrayDeclarationString` builds its literal, behind a field
    prefix, and is written to `<lower-case game name>_version.log`.
   */
  method OutputVersionString(cs: seq<byte>, gameName: string) returns (written: FileWrite)
    ensures written.path == ToLowerInvariant(gameName) + "_version.log"
    ensures written.line == FieldPrefix(gameName) + Declaration(cs)
  {
    var prefix := FieldPrefix(gameName);
    var sb := prefix + Opening(|cs|);
    assert sb == prefix + Opening(|cs|) + Appended(cs[..0]);
    for i := 0 to |cs|
      invariant sb == prefix + Opening(|cs|) + Appended(cs[..i])
    {
      sb := sb + HexEntry(cs[i]) + ", ";
      assert sb == prefix + Opening(|cs|) + Appended(cs[..i + 1]) by {
        AppendedStep(cs, i);
        Reassociated(prefix + Opening(|cs|), Appended(cs[..i]), HexEntry(cs[i]), ", ");
      }
    }
    assert cs[..|cs|] == cs;
    assert |sb| >= 2 && sb[..|sb| - 2] + " };" == prefix + Declaration(cs) by {
      TrimmedBuilder(prefix, cs, sb);
    }
    sb := sb[..|sb| - 2];
    sb := sb + " };";
    var filename := ToLowerInvariant(gameName) + "_version.log";
    written := FileWrite(filename, sb);
  }

  /**
    `DetectVersion`: a blank path returns `default` at once; otherwise the file's
    SHA-256 digest (`sha256`) is looked up, the first entry with the same bytes
    wins, and on a miss `OutputVersionString` writes `re4r_version.log`.
   */
  method DetectVersion<V>(sha256: seq<byte> -> seq<byte>, files: FileSystem, filePath: Option<string>,
                          supportedVersions: Catalog<V>)
    returns (result: Outcome<Option<V>>, written: Option<FileWrite>)
    ensures IsNullOrWhiteSpace(filePath) ==> result == Returned(None) && written == None
    ensures !IsNullOrWhiteSpace(filePath) && filePath.value !in files ==>
              result == Threw(IOException) && written == None
    ensures !IsNullOrWhiteSpace(filePath) && filePath.value in files ==>
              var checksum := sha256(files[filePath.value]);
              var found := FirstMatch(supportedVersions, checksum);
              result == Returned(found) &&
              (found.Some? ==> written == None) &&
              (found.None? ==> written == Some(FileWrite("re4r_version.log",
                                 "private static readonly byte[] re4r??_00000000 = " + Declaration(checksum))))
  {
    if IsNullOrWhiteSpace(filePath) {
      return Returned(None), None;
    }
    var path := filePath.value;
    if path !in files {
      return Threw(IOException), None;
    }
    var checksum := sha256(files[path]);
    for i := 0 to |supportedVersions|
      invariant forall j :: 0 <= j < i ==> supportedVersions[j].0 != checksum
    {
      if SequenceEqual(checksum, supportedVersions[i].0) {
        FirstMatchAt(supportedVersions, checksum, i);
        return Returned(Some(supportedVersions[i].1)), None;
      }
    }
    assert FirstMatch(supportedVersions, checksum) == None;
    var w := OutputVersionString(checksum, GameName);
    assert w.path == "re4r_version.log" &&
           w.line == "private static readonly byte[] re4r??_00000000 = " + Declaration(checksum) by {
      GameLogFile();
      GameFieldPrefix();
    }
    written := Some(w);
    result := Returned(None);
  }

  /** The log file `DetectVersion` writes is `re4r_version.log`. */
  lemma {:induction false} GameLogFile()
    ensures ToLowerInvariant(GameName) + "_version.log" == "re4r_version.log"
  {
    GameNameIsLowerCase();
  }

  /** The field `DetectVersion` declares is `re4r??_00000000`. */
  lemma {:induction false} GameFieldPrefix()
    ensures FieldPrefix(GameName) == "private static readonly byte[] re4r??_00000000 = "
  {
    GameNameIsLowerCase();
  }

  /** "re4r" has no upper-case letters: lowering it changes nothing. */
  lemma {:induction false} GameNameIsLowerCase()
    ensures ToLowerInvariant(GameName) == GameName
  {
    var lower := ToLowerInvariant(GameName);
    assert forall i :: 0 <= i < |GameName| ==> lower[i] == GameName[i];
  }

  /**
    Round trip: the declaration reads back as the checksum it was written from,
    and every line that reads back as a checksum is that checksum's declaration.
   */
  lemma {:induction false} FieldDeclarationRoundTrip(gameName: string, cs: seq<byte>, line: string)
    ensures ParseFieldDeclaration(gameName, line) == Some(cs) <==> line == FieldPrefix(gameName) + Declaration(cs)
  {
    PrefixedRoundTrip(FieldPrefix(gameName), cs, line);
  }

  /** A literal behind any fixed prefix reads back as its array, and nothing else does. */
  lemma {:induction false} PrefixedRoundTrip(prefix: string, cs: seq<byte>, line: string)
    ensures (|line| >= |prefix| && line[..|prefix|] == prefix && ParseDeclaration(line[|prefix|..]) == Some(cs))
            <==> line == prefix + Declaration(cs)
  {
    if line == prefix + Declaration(cs) {
      assert line[..|prefix|] == prefix && line[|prefix|..] == Declaration(cs);
      DeclarationRoundTrip(cs, Declaration(cs));
    }
    if |line| >= |prefix| && line[..|prefix|] == prefix && ParseDeclaration(line[|prefix|..]) == Some(cs) {
      DeclarationRoundTrip(cs, line[|prefix|..]);
      assert line == line[..|prefix|] + line[|prefix|..];
    }
  }
}
