/**
  `SRTPluginHelper.Version`: identify a program version from its file's checksum,
  and on an unknown checksum write a `<name>_VersionHash.log` file holding the
  checksum as a byte-array literal that can be pasted into the catalog.
 */
module Version {
  import opened DotNet
  import opened Catalog
  import opened ByteArrayLiteral

  /** A hash algorithm type argument: its type name and the digest it computes over a file's bytes. */
  datatype HashAlgorithm = HashAlgorithm(name: string, computeHash: seq<byte> -> seq<byte>)

  /** `GetChecksum<THashAlgorithm>`: the digest of the whole content read from the stream. */
  function GetChecksum(alg: HashAlgorithm, content: seq<byte>): seq<byte> {
    alg.computeHash(content)
  }

  /** The interpolated line `[time] name's algorithm checksum hash: literal`, without its line terminator. */
  function LogLine(utcNow: string, fileNameWithoutExt: string, alg: HashAlgorithm, versionHash: string): string {
    "[" + utcNow + "] " + fileNameWithoutExt + "'s " + alg.name + " checksum hash: " + versionHash
  }

  /**
    `DetectVersion`: a blank path returns `default` at once; otherwise the file is
    hashed (opening it may throw), the catalog is scanned in enumeration order and
    the first entry with the same bytes wins; on a miss the log file is written and
    `default` returned. `utcNow` is the timestamp the clock would give.
   */
  method DetectVersion<V>(alg: HashAlgorithm, files: FileSystem, filePath: Option<string>,
                          supportedVersions: Catalog<V>, utcNow: string)
    returns (result: Outcome<Option<V>>, written: Option<FileWrite>)
    ensures IsNullOrWhiteSpace(filePath) ==> result == Returned(None) && written == None
    ensures !IsNullOrWhiteSpace(filePath) && filePath.value !in files ==>
              result == Threw(IOException) && written == None
    ensures !IsNullOrWhiteSpace(filePath) && filePath.value in files ==>
              var checksum := GetChecksum(alg, files[filePath.value]);
              var name := FileNameWithoutExtension(filePath.value);
              var found := FirstMatch(supportedVersions, checksum);
              result == Returned(found) &&
              (found.Some? ==> written == None) &&
              (found.None? ==> written == Some(FileWrite(name + "_VersionHash.log", LogLine(utcNow, name, alg, Declaration(checksum)))))
  {
    if IsNullOrWhiteSpace(filePath) {
      return Returned(None), None;
    }
    var path := filePath.value;
    var fileNameWithoutExt := FileNameWithoutExtension(path);
    if path !in files {
      return Threw(IOException), None;
    }
    var checksum := GetChecksum(alg, files[path]);
    for i := 0 to |supportedVersions|
      invariant forall j :: 0 <= j < i ==> supportedVersions[j].0 != checksum
    {
      if SequenceEqual(checksum, supportedVersions[i].0) {
        FirstMatchAt(supportedVersions, checksum, i);
        return Returned(Some(supportedVersions[i].1)), None;
      }
    }
    assert FirstMatch(supportedVersions, checksum) == None by {
      assert forall j :: 0 <= j < |supportedVersions| ==> !SequenceEqual(checksum, supportedVersions[j].0);
    }
    var versionHashLogFilename := fileNameWithoutExt + "_VersionHash.log";
    var versionHash := GetByteArrayDeclarationString(checksum);
    var line := LogLine(utcNow, fileNameWithoutExt, alg, versionHash);
    written := Some(FileWrite(versionHashLogFilename, line));
    result := Returned(None);
  }

  /**
    `GetByteArrayDeclarationString`: a string builder starts with `new byte[N] { `,
    gets `0xHH, ` per byte, loses its last two characters and gets ` };`.
   */
  method GetByteArrayDeclarationString(checksum: seq<byte>) returns (s: string)
    ensures s == Declaration(checksum)
  {
    var sb := Opening(|checksum|);
    for i := 0 to |checksum|
      invariant sb == Opening(|checksum|) + Appended(checksum[..i])
    {
      sb := sb + HexEntry(checksum[i]) + ", ";
      assert sb == Opening(|checksum|) + Appended(checksum[..i + 1]) by {
        AppendedStep(checksum, i);
        Reassociated(Opening(|checksum|), Appended(checksum[..i]), HexEntry(checksum[i]), ", ");
      }
    }
    assert checksum[..|checksum|] == checksum;
    assert |sb| >= 2 && sb[..|sb| - 2] + " };" == Declaration(checksum) by {
      assert sb == [] + Opening(|checksum|) + Appended(checksum);
      TrimmedBuilder([], checksum, sb);
    }
    sb := sb[..|sb| - 2];
    sb := sb + " };";
    s := sb;
  }
}
