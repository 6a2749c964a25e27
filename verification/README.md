# SRTPluginHelper version detection, in Dafny

SRTPluginHelper is a helper library for SpeedRunTool plugins. It identifies which
release of a game executable a plugin is attached to. The file's bytes are hashed.
The digest is looked up in a catalog that the plugin supplies and that maps checksums
(`byte[]`) to version labels. When no catalog key has the same bytes, the digest is
written to a log file as a C# byte-array literal. Someone can then paste it into the
catalog. The library does this in two places that almost duplicate each other:

- `Version.DetectVersion` hashes with the hash algorithm given as a type argument. On a
  miss it writes `<file name without extension>_VersionHash.log` with the line
  `[<UTC time>] <name>'s <algorithm> checksum hash: new byte[N] { 0x.., ... };`.
  `Version.GetByteArrayDeclarationString` renders that literal.
- `Versions.DetectVersion` hashes with SHA-256. On a miss it calls
  `OutputVersionString` with the game name `"re4r"`. That call writes
  `private static readonly byte[] re4r??_00000000 = new byte[N] { ... };` to
  `re4r_version.log`.

The project has five modules, one per file:

- `DotNet` (`dotnet.dfy`) holds the framework pieces the helpers call:
  - the `byte` type, nullable results and exceptions;
  - `string.IsNullOrWhiteSpace`;
  - `Path.GetFileName` and `Path.GetFileNameWithoutExtension`, for `\` and `/` separators;
  - `ToLowerInvariant`, for ASCII letters;
  - the decimal and `X2` number formats.
- `ByteArrayLiteral` (`literal.dfy`) defines the literal both renderers produce (`Declaration`). It also has an independent parser for the literal (`ParseDeclaration`). The two are connected by an if-and-only-if round trip.
- `Catalog` (`catalog.dfy`) covers the catalog and its search:
  - `SequenceEqual`;
  - the first entry whose key has the checksum's bytes (`FirstMatch`).
- `Version` (`version.dfy`) models `Version.cs`.
- `Versions` (`versions.dfy`) models `Versions.cs`.

Modelling decisions:

- **Catalog.** The `Dictionary<byte[], TVersion>` is keyed by array reference, so two entries may hold equal bytes. The catalog is therefore its enumeration order, a sequence of (key, version) pairs. The `foreach` scan returns the first entry whose key has the checksum's bytes. The re-read `supportedVersions[version.Key]` uses that entry's own key reference, so it yields that entry's version.
- **The `default` result** is `None`.
- **Files.** The disk is a map from path to contents. A path that is not in the map cannot be opened or read to the end: the `FileStream` constructor or the hash's read of the stream throws (`Threw(IOException)`). The log file written on a miss is returned as a `FileWrite(path, line)` value.
- **Hash and clock.** The hash function and the clock reading are parameters:
  - `HashAlgorithm(name, computeHash)` for the `THashAlgorithm` type argument;
  - `sha256` for `SHA256.Create()`;
  - `utcNow` for `DateTime.GetCurrentUtcString()`.
- **The empty array.** The renderers start from `new byte[N] { `, add `0xHH, ` per byte, cut the last two characters and add ` };`. For an empty array the cut removes the `{ ` of the opening, not a trailing `, `. So the literal is `new byte[0]  };`, with two spaces and no opening brace. The model follows the code here. The parser accepts the two-space form, and only for a count of 0. That is why the round trip holds for every input, the empty one included. A hash digest is never empty, so the odd form does not appear in practice.

## Model

| member | source | states |
|---|---|---|
| Version.DetectVersion | src/SRTPluginHelper/Version.cs:27-67 | A null, empty or whitespace-only path returns `default` and writes nothing. A path that cannot be opened or read throws `IOException`. Otherwise the digest is the hash algorithm's function applied to the whole file content (`GetChecksum`, Version.cs:74-78), and the result is the version of the first catalog entry whose key has the same bytes as the file's digest, and no log is written. When no key matches, the result is `default` and `<name>_VersionHash.log` receives `[time] <name>'s <algorithm> checksum hash: ` followed by the digest's literal. Here `<name>` is the file name without extension. |
| Version.GetByteArrayDeclarationString | src/SRTPluginHelper/Version.cs:85-93 | The string-builder loop, the two-character trim and the closing append return exactly the byte-array literal of the checksum. This includes the empty-array form. |
| Versions.OutputVersionString | src/SRTPluginHelper/Versions.cs:20-44 | Writes one line to `<lower-case game name>_version.log`. The line is the field prefix `private static readonly byte[] <lower-case name>??_00000000 = ` followed by the literal of `cs`. |
| Versions.DetectVersion | src/SRTPluginHelper/Versions.cs:56-83 | A blank path returns `default` with no write. A path that cannot be opened or read throws `IOException`. A catalog hit returns the first matching entry's version without calling the writer. A miss returns `default`, and `re4r_version.log` receives `private static readonly byte[] re4r??_00000000 = ` followed by the digest's literal. |
| Versions.GameLogFile | src/SRTPluginHelper/Versions.cs:36 | With the game name `re4r`, the log file name is `re4r_version.log`. |
| Versions.GameFieldPrefix | src/SRTPluginHelper/Versions.cs:23 | With the game name `re4r`, the field declared is `re4r??_00000000`. |
| Versions.GameNameIsLowerCase | src/SRTPluginHelper/Versions.cs:81 | Lower-casing the fixed game name `re4r` leaves it unchanged. |
| Versions.FieldDeclarationRoundTrip | src/SRTPluginHelper/Versions.cs:23-33 | A field declaration reads back as the checksum it was written from. Every line that reads back as a checksum is that checksum's declaration. This holds in both directions. |
| Versions.PrefixedRoundTrip | src/SRTPluginHelper/Versions.cs:23-33 | Behind any fixed prefix, a line parses as the prefix followed by the literal of `cs` exactly when it is that text. |
| ByteArrayLiteral.DeclarationRoundTrip | src/SRTPluginHelper/Version.cs:87-92 | The parser returns `cs` for a string exactly when the string is the literal of `cs`. So the count written equals the number of elements, and the elements read back as the bytes. |
| ByteArrayLiteral.DeclarationLayout | src/SRTPluginHelper/Version.cs:87-91 | For a non-empty array, the literal is the opening `new byte[N] { `, then element `i` as `0xHH` at offset `6*i`, with `, ` after every element but the last, then ` };`. Its length is that of the opening plus `6*N + 1`. |
| ByteArrayLiteral.EntriesLayout | src/SRTPluginHelper/Version.cs:88-89 | Element `i` of the joined list sits at offset `6*i`. A `, ` separator follows every element except the last. |
| ByteArrayLiteral.HexEntryFormat | src/SRTPluginHelper/Versions.cs:26-27 | Every byte is written as exactly four characters: `0x` followed by two upper-case hexadecimal digits whose value is the byte. |
| ByteArrayLiteral.HexEntryRoundTrip | src/SRTPluginHelper/Version.cs:89 | One element parses back as byte `b` exactly when it is the `0x{b:X2}` rendering of `b`. |
| ByteArrayLiteral.EntriesRoundTrip | src/SRTPluginHelper/Version.cs:88-89 | The joined element list of a non-empty array parses back as that array. |
| ByteArrayLiteral.EntriesParsed | src/SRTPluginHelper/Versions.cs:26-27 | Any string the element-list parser accepts is the joined rendering of what it returns, and that result is non-empty. |
| ByteArrayLiteral.AppendedStep | src/SRTPluginHelper/Version.cs:88-89 | Each loop iteration extends the builder's contents by the next element and its `, `. |
| ByteArrayLiteral.TrimmedBuilder | src/SRTPluginHelper/Version.cs:90-91 | After the loop, dropping the builder's last two characters and appending ` };` yields the literal. This also holds behind any prefix. For a non-empty array the dropped characters are the trailing `, `. For an empty one they are the opening's `{ `. |
| Catalog.SequenceEqual | src/SRTPluginHelper/Version.cs:50 | The element-by-element comparison is true exactly when the two byte sequences are equal. |
| Catalog.SequenceEqualExact | src/SRTPluginHelper/Versions.cs:74 | A key matches exactly when it has the checksum's length and the same byte at every position. |
| Catalog.FirstMatch | src/SRTPluginHelper/Version.cs:48-55 | The result is `None` exactly when no key has the checksum's bytes, which includes the empty catalog. Otherwise it is the version at a position whose key matches and before which no key matches. |
| Catalog.FirstMatchAt | src/SRTPluginHelper/Versions.cs:72-76 | If the scan stops at position `i` because its key matches and no earlier key did, the search answer is that entry's version. |
| Catalog.FirstMatchPrefix | src/SRTPluginHelper/Version.cs:48-54 | Entries after a matching one are never consulted. An earlier duplicate key shadows a later one. |
| DotNet.BlankPathGuard | src/SRTPluginHelper/Version.cs:32-37 | The guard of both helpers (also Versions.cs:59) rejects a path exactly when it is null or trimming its leading `char.IsWhiteSpace` characters leaves nothing. Those characters are U+0009..U+000D, space, U+0085, U+00A0, U+1680, U+2000..U+200A, U+2028, U+2029, U+202F, U+205F and U+3000. |
| DotNet.TrimStart | src/SRTPluginHelper/Versions.cs:59 | The reference definition that `BlankPathGuard` compares the `string.IsNullOrWhiteSpace` guard against (.NET documents that guard as "empty after trimming"). It drops exactly the leading whitespace: every dropped character is whitespace, the result is a suffix of the input, and it does not start with whitespace. |
| DotNet.LastIndexOf | src/SRTPluginHelper/Version.cs:40 | The position of the last `.` in the file name, or -1: that position holds `.`, and no `.` follows it. |
| DotNet.FileName | src/SRTPluginHelper/Version.cs:40 | The file name is the suffix of the path after its last `\` or `/`. It contains no separator. |
| DotNet.FileNameWithoutExtensionShape | src/SRTPluginHelper/Version.cs:40 | The name without extension is the file name when the file name has no `.`. Otherwise it is the file name cut before its last `.`. |
| DotNet.ToLowerInvariant | src/SRTPluginHelper/Versions.cs:23 | The result has the same length and no upper-case ASCII letter. Each `A`-`Z` becomes its lower-case letter, and every other character is unchanged. |
| DotNet.DecimalString | src/SRTPluginHelper/Version.cs:87 | A count is written as a non-empty string of decimal digits. That string starts with `0` only for zero. |
| DotNet.DecimalRoundTrip | src/SRTPluginHelper/Version.cs:87 | The decimal rendering of a count reads back as the count. |
| DotNet.DecimalCanonical | src/SRTPluginHelper/Versions.cs:23 | A digit string with no leading zero is the decimal rendering of its value. So the count in a literal can be written in only one way. |
| DotNet.X2Digits | src/SRTPluginHelper/Versions.cs:27 | The `X2` format of a byte is two upper-case hexadecimal digits whose value is the byte. |

## Left out

- The hash computation is not modelled. `HashAlgorithm.Create(typeof(T).Name)` and `SHA256.Create().ComputeHash` are a function parameter, and nothing is assumed about the digest's length or about collisions. `HashAlgorithm.Create` returning `null` for an unknown name, which would throw a `NullReferenceException`, is not modelled.
- File opening is simplified. The `FileStream` mode, access and share flags are not modelled. Every failure to open the file or to read it while it is hashed becomes one `IOException`: the model does not tell apart a missing file, a denied access, or an argument exception for a malformed path.
- The log-file write is simplified. It is a `FileWrite(path, line)` value. The model leaves out:
  - `WriteLine`'s line terminator;
  - the UTF-8 encoding and its byte-order mark in `Version.cs`;
  - failures while writing;
  - the fact that an existing file is overwritten.
- Logger calls and their messages are left out. So are the `pluginInstance`, `logger` and `authors` parameters, which only feed those messages. The `ArgumentException` built on a blank path is only logged, never thrown, so the model returns `default`.
- `src/SRTPluginHelper/DateTime.cs` is not part of this model. The timestamp written on a miss is the `utcNow` parameter.
- Version.DetectVersion and Versions.DetectVersion model `default` as `None`. For a value-type version label, C# would return that type's zero value instead of a missing value.
- Path handling is simplified. `Path.GetFileName` treats only `\` and `/` as separators. Drive-letter prefixes such as `C:` without a separator, and the platform's invalid-path rules, are not modelled.
- `ToLowerInvariant` lower-cases only ASCII letters. The invariant culture's mapping of other letters is not modelled.
