# IgnitionCodegen post-processing, modelled in Dafny

IgnitionCodegen is an OpenAPI generator that produces Python client code for the Ignition
runtime. Once the templates are rendered, the generator repackages its output:

- **Resources.** `convertToResources` turns every flat file `<dir>/<base>.py` or
  `<dir>/<base>.json` into the resource layout `<dir>/<base>/code.py` or
  `<dir>/<base>/resource.json`, and collects every resource directory it touches.
- **Archives.** `zipDirectory` / `zipFile` serialise a directory tree into a zip archive.
- **Cleanup.** `deleteDirectory` removes intermediate folders.
- **Options.** `processOpts` reads and checks the generator options. `packagePath`,
  `modelFileFolder` and `apiFileFolder` decide where code is written.
- **Utilities.** `utils.kt` holds the scope codec of resource manifests, the big-endian byte
  encoding of an `Int`, `Boolean.toByte` and the hex encoding of byte arrays.

## How the model is built

The filesystem is a value. `FileTree.Node` is a file with a name and bytes, or a directory
with a name and an ordered list of entries. That order is the order `listFiles` returns.

Each operation that the source writes as a loop or as a sequence of side effects is an
imperative method, proved equal to a specification function:

- `Resources.ConvertToResources` follows the source loop over a listing taken once. The
  function it is proved equal to is `Resources.Convert`. `ResourceTree` proves what
  `Convert` does to a whole tree: every file, at any depth, ends up at `<base>/<target>`.
- `Archive.ZipFile` and `Archive.CopyContents` write into a `ZipOutputStream` object through
  a 1024-byte buffer filled by a `FileInputStream` object. `Archive.ZipEntries` specifies the
  resulting list of entries.
- `Cleanup.DeleteDirectory` recurses exactly as the source does. The source's
  `File.delete` only removes files and empty directories.
- `Options.Generator` is a class whose fields `processOpts` updates in place.

The code in `utils.kt` is pure and is modelled as functions.

### Behaviour worth knowing

- **Re-running the conversion moves files again.** `<base>/code.py` is itself a flat `.py`
  file, so converting an already converted tree moves it to `<base>/code/code.py`.
  `ResourceProperties.ConvertTwiceMovesAgain` proves this for every one-file directory.
- **Files with other extensions are not moved.** Their target name is empty, so the code
  renames them to `<dir>/<base>/` plus an empty name, which is the directory it has just
  created. A rename onto a directory fails, and the result is ignored. So the file stays
  where it is, while `<base>/` is still created and still recorded
  (`ResourceProperties.UnknownExtensionStays`).
- **A file in the way makes the conversion fail.** `Files.createDirectories` throws when the
  base names an existing file. The code wraps that exception in a `RuntimeException`, which
  ends the whole conversion. The model returns `Err(FileAlreadyExists(..))`.
- **A base that names a sibling directory.** The listing is taken once, before the loop. A
  file whose base names a directory of the same listing is moved into that directory. When
  the loop reaches that directory after the file, it converts the moved file a second time
  (`ResourceTree.SiblingDirectoryListedLater`). The relocation theorem `ResourceTree.ConvertRelocatesEveryFile` therefore asks that no file's
  base names another entry at its level, at every depth (`ResourceTree.Sources`).

## Model

| member | source | states |
|---|---|---|
| Resources.TargetName | src/main/java/com/corsosystems/codegen/IgnitionCodegen.java:194-199 | the target is `code.py` exactly for extension `py`, `resource.json` exactly for `json`, and empty for every other extension |
| Resources.CreateDirectories | src/main/java/com/corsosystems/codegen/IgnitionCodegen.java:201-206 | fails with `FileAlreadyExists(destinationPath)` exactly when a file has the base name; otherwise `<base>` is a directory afterwards, an existing one is reused unchanged, and no other entry changes |
| Resources.PlaceFile | src/main/java/com/corsosystems/codegen/IgnitionCodegen.java:189-210 | the recorded path is `<path>/<base>`; the step fails exactly when the base is non-empty and names an existing file |
| Resources.RenameInto | src/main/java/com/corsosystems/codegen/IgnitionCodegen.java:209-210 | `renameTo(<dir>/<base>/<target>)`: with an empty target or a directory in the way nothing changes; otherwise the file's name is gone, `<base>` holds `<target>` with the file's bytes and its other entries, and no other entry changes |
| Resources.RenameWithin | src/main/java/com/corsosystems/codegen/IgnitionCodegen.java:209-210 | the same rename for an empty base, inside the directory itself: with an empty target or a directory in the way nothing changes; otherwise `<target>` holds the file's bytes, the old name is gone, and no other entry changes |
| Resources.PlaceFilePreserves | src/main/java/com/corsosystems/codegen/IgnitionCodegen.java:189-210 | moving one file keeps the directory well-formed, and every other entry is still there with the same kind and no greater height, so the listing taken before the loop stays valid |
| Resources.MoveIntoResource | src/main/java/com/corsosystems/codegen/IgnitionCodegen.java:189-210 | the loop body's file branch, written as statements, computes exactly `PlaceFile` |
| Resources.Convert | src/main/java/com/corsosystems/codegen/IgnitionCodegen.java:184-216 | a successful conversion keeps the directory's name, leaves the tree well-formed, keeps every path already in the set, and adds only paths below `<path>/` |
| Resources.Fold | src/main/java/com/corsosystems/codegen/IgnitionCodegen.java:188-214 | the loop over the rest of the listing, when it succeeds, keeps the directory's name, leaves it well-formed, keeps every path already in the set, and adds only paths below `<path>/` |
| Resources.ConvertToResources | src/main/java/com/corsosystems/codegen/IgnitionCodegen.java:184-216 | the loop over the snapshot listing, with recursion into directories and moves of files, computes exactly `Convert` |
| ResourceProperties.PlaceFileMoves | src/main/java/com/corsosystems/codegen/IgnitionCodegen.java:189-210 | a `.py`/`.json` file whose base is free, or is a directory holding only files, succeeds: the old name is gone, `<base>` holds its old entries plus `<target>` with the file's bytes, and no other entry changes |
| ResourceProperties.UnknownExtensionStays | src/main/java/com/corsosystems/codegen/IgnitionCodegen.java:194-210 | a file with any other extension stays under its own name, while `<base>/` is still created and `<path>/<base>` still recorded |
| ResourceProperties.FlatConvert | src/main/java/com/corsosystems/codegen/IgnitionCodegen.java:184-216 | on a directory of flat `.py`/`.json` files, every file is gone from the top and found at `<base>/<target>` with its bytes; only resource directories remain; the set gains exactly `<path>/<base>` for each listed file |
| ResourceTree.TreeConvert | src/main/java/com/corsosystems/codegen/IgnitionCodegen.java:184-216 | on a tree whose files at every depth are `.py`/`.json` files with a base naming no sibling, the conversion succeeds and relocates every file of every directory, recursing into every subdirectory |
| ResourceTree.ConvertRelocatesEveryFile | src/main/java/com/corsosystems/codegen/IgnitionCodegen.java:184-216 | in such a tree, a file at any path `p/<name>` is gone after the conversion and found at `p/<base>/<target>` with its bytes |
| ResourceTree.SiblingDirectoryListedLater | src/main/java/com/corsosystems/codegen/IgnitionCodegen.java:186-213 | with `<base>.<ext>` listed before an empty directory `<base>`, the file is moved into `<base>` and then moved again when the loop converts `<base>`: the result holds `<base>/<stem>/<target>`, and `<base>/<target>` names nothing |
| ResourceProperties.ResourceDirsMembers | src/main/java/com/corsosystems/codegen/IgnitionCodegen.java:207 | the recorded set holds `<path>/<base>` for each listed name and nothing else |
| ResourceProperties.SharedBaseOneResource | src/main/java/com/corsosystems/codegen/IgnitionCodegen.java:201-210 | `<b>.py` and `<b>.json` share one resource directory `<b>` holding `code.py` and `resource.json` with their bytes; both old names are gone, nothing else is left, and exactly one path is recorded |
| ResourceProperties.ConvertSingle | src/main/java/com/corsosystems/codegen/IgnitionCodegen.java:184-216 | a directory holding one file `<base>.py` or `<base>.json` becomes exactly a directory holding `<base>/<target>` with the same bytes, recording `<path>/<base>` |
| ResourceProperties.ConvertTwiceMovesAgain | src/main/java/com/corsosystems/codegen/IgnitionCodegen.java:184-216 | converting the converted one-file tree moves the file again to `<base>/code/code.py` (or `<base>/resource/resource.json`), so the conversion is not idempotent |
| ResourceProperties.TargetIsStable | src/main/java/com/corsosystems/codegen/IgnitionCodegen.java:191-199 | `code.py` and `resource.json` map onto themselves as targets, with bases `code` and `resource` |
| ResourceRecords.AllFilesRecorded | src/main/java/com/corsosystems/codegen/IgnitionCodegen.java:184-216 | after a successful conversion, the set contains `<dir>/<base>` for every file at any depth of the original tree, besides everything it held before |
| ResourceRecords.ConvertRecordsAll | src/main/java/com/corsosystems/codegen/IgnitionCodegen.java:188-214 | converting any tree that still has everything an original tree had records the resource directories of all of the original's files |
| FileNames.IndexOfExtension | src/main/java/com/corsosystems/codegen/IgnitionCodegen.java:191-192 | the extension dot is the last '.', with no '.', '/' or '\\' after it; when there is none although the name has a dot, a '/' or '\\' comes after its last dot |
| FileNames.SplitAtExtension | src/main/java/com/corsosystems/codegen/IgnitionCodegen.java:190-192 | `getExtension` and `removeExtension`: base, '.' and extension give back the file name; the base is a prefix of the name; without an extension dot the base is the whole name and the extension is empty; the extension has no '.', '/' or '\\' |
| FileNames.ExtensionSplitIsInjective | src/main/java/com/corsosystems/codegen/IgnitionCodegen.java:190-192 | two names with the same base and the same non-empty extension are the same name |
| FileNames.JoinExtension | src/main/java/com/corsosystems/codegen/IgnitionCodegen.java:190-192 | `<base>.<ext>` with a plain extension splits back into exactly that base and extension |
| Archive.MarkerName | src/main/java/com/corsosystems/codegen/IgnitionCodegen.java:234-240 | a directory entry name ends in '/': it is the name itself when the name already ends in '/', and the name plus one '/' otherwise |
| Archive.ZipEntriesShape | src/main/java/com/corsosystems/codegen/IgnitionCodegen.java:229-256 | a hidden node writes no entry and a visible one at least one: a file exactly one with its bytes, a directory first its empty marker entry |
| Archive.ZipFile | src/main/java/com/corsosystems/codegen/IgnitionCodegen.java:229-256 | appends exactly `ZipEntries(fileToZip, fileName)` to the archive and changes nothing before them |
| Archive.CopyContents | src/main/java/com/corsosystems/codegen/IgnitionCodegen.java:247-255 | the read/write loop through the 1024-byte buffer leaves the open entry holding exactly the file's bytes, in order, with earlier entries untouched |
| Archive.FileInputStream.Read | src/main/java/com/corsosystems/codegen/IgnitionCodegen.java:252 | -1 at the end of the file; otherwise as many bytes as fit, copied in order into the front of the buffer |
| Archive.ZipDirectory | src/main/java/com/corsosystems/codegen/IgnitionCodegen.java:217-228 | the archive holds exactly the entries of the tree rooted at its own name |
| ArchiveProperties.ZipIgnoresHidden | src/main/java/com/corsosystems/codegen/IgnitionCodegen.java:230-232 | removing every hidden file and directory, at any depth, does not change the archive |
| ArchiveProperties.DirectoryMarkerFirst | src/main/java/com/corsosystems/codegen/IgnitionCodegen.java:233-244 | a visible directory's entries start with its marker; every later entry lies strictly below `fileName/` |
| ArchiveProperties.EntriesStartWith | src/main/java/com/corsosystems/codegen/IgnitionCodegen.java:241-244 | every entry of a node archived as `fileName` is `fileName` itself or lies below `fileName/` |
| ArchiveProperties.VisibleNodeArchived | src/main/java/com/corsosystems/codegen/IgnitionCodegen.java:229-256 | every file reached through visible directories is in the archive with its bytes, and every such directory as its marker, under its path |
| ArchiveProperties.ArchivedNodeVisible | src/main/java/com/corsosystems/codegen/IgnitionCodegen.java:229-256 | conversely, every entry is the file or marker of a visible node, named by that node's path |
| ArchiveProperties.ArchiveNamesDistinct | src/main/java/com/corsosystems/codegen/IgnitionCodegen.java:241-244 | in a tree without duplicate sibling names, no two entries have the same name, so `putNextEntry` never refuses a duplicate |
| ArchiveProperties.SeparateBranches | src/main/java/com/corsosystems/codegen/IgnitionCodegen.java:243 | names below two differently named siblings never coincide |
| Cleanup.DeleteEntry | src/main/java/com/corsosystems/codegen/IgnitionCodegen.java:285 | `File.delete` removes a file or an empty directory: that name is gone and every other entry is unchanged; a non-empty directory or a missing name leaves the directory as it was; the directory keeps its name |
| Cleanup.DeleteDirectory | src/main/java/com/corsosystems/codegen/IgnitionCodegen.java:269-286 | afterwards nothing called `name`, or below it, is left; every other entry is unchanged; the tree stays well-formed; a missing name changes nothing |
| Options.PackagePath | src/main/java/com/corsosystems/codegen/IgnitionCodegen.java:40-42 | the package path is `ignition/script-python/` followed by the base package path |
| Options.PackagePathInjective | src/main/java/com/corsosystems/codegen/IgnitionCodegen.java:40-42 | different base package paths give different package paths |
| Options.ModelFileFolder | src/main/java/com/corsosystems/codegen/IgnitionCodegen.java:45-47 | the model folder is `models` inside the client folder, which starts with `<outputFolder>/ignition/script-python/` |
| Options.ApiFileFolder | src/main/java/com/corsosystems/codegen/IgnitionCodegen.java:50-52 | the API folder is `api` inside the client folder, which starts with `<outputFolder>/ignition/script-python/` |
| Options.GeneratedFoldersInsideClientFolder | src/main/java/com/corsosystems/codegen/IgnitionCodegen.java:45-52 | the model and API folders are `models` and `api` directly inside the client folder that is converted to resources, and they differ |
| Options.DefaultProjectName | src/main/java/com/corsosystems/codegen/IgnitionCodegen.java:65 | the default project name is the package name with every '_' replaced by '-', character by character |
| Options.DefaultProjectNameSettled | src/main/java/com/corsosystems/codegen/IgnitionCodegen.java:65 | the default project name has no '_', and applying the rule again changes nothing |
| Options.RecursionLimitAccepts | src/main/java/com/corsosystems/codegen/IgnitionCodegen.java:88-95 | every 32-bit integer written in decimal passes the check; null and non-numerals fail with the `recursionLimit must be an integer, e.g. 2000.` message |
| Options.CheckRecursionLimit | src/main/java/com/corsosystems/codegen/IgnitionCodegen.java:88-95 | the check passes exactly when the option is absent or a string `Integer.parseInt` accepts; a non-string value is the cast failure, and null or any other string the `recursionLimit must be an integer` error |
| Numbers.ParseIntRoundTrip | src/main/java/com/corsosystems/codegen/IgnitionCodegen.java:91 | `Integer.parseInt` reads every 32-bit integer's decimal form back as that integer |
| Numbers.ParseIntCanonical | src/main/java/com/corsosystems/codegen/IgnitionCodegen.java:91 | an accepted numeral without '+', leading zeros or "-0" is exactly how its value is written |
| Options.PublishedKeepsOptions | src/main/java/com/corsosystems/codegen/IgnitionCodegen.java:72-95 | publishing the names, doc paths and fixed values leaves the package URL and the recursion-limit verdict as they were given |
| Options.PublishedOptions | src/main/java/com/corsosystems/codegen/IgnitionCodegen.java:72-82 | publishing adds exactly the published keys, holding the names, version, doc paths, actor, timestamp and hint scope; every other option keeps its value |
| Options.JoinSplitDots | src/main/java/com/corsosystems/codegen/IgnitionCodegen.java:120 | joining the dot-separated pieces with dots gives back the string |
| Options.SplitJoinDots | src/main/java/com/corsosystems/codegen/IgnitionCodegen.java:120 | splitting dot-free parts joined by dots gives back the parts |
| Options.DropTrailingEmpty | src/main/java/com/corsosystems/codegen/IgnitionCodegen.java:120 | `split` drops exactly the trailing empty pieces: the result is a prefix, does not end in an empty piece, and only empty pieces were dropped |
| Options.JavaSplitPieces | src/main/java/com/corsosystems/codegen/IgnitionCodegen.java:120 | `split("\\.")` gives dot-free pieces; a string without a dot is one piece; otherwise the last piece is not empty |
| Options.JavaSplitRejoins | src/main/java/com/corsosystems/codegen/IgnitionCodegen.java:120 | the pieces joined by dots give back the string up to the trailing dots `split` dropped; a string of dots alone gives no piece |
| Options.JoinDropTrailing | src/main/java/com/corsosystems/codegen/IgnitionCodegen.java:120 | dropping `n` trailing empty pieces drops `n` trailing dots from the joined string (one less when every piece goes) |
| Options.PackageDirs | src/main/java/com/corsosystems/codegen/IgnitionCodegen.java:119-127 | the loop builds every piece of the split package name but the last, joined by '/' |
| Options.PackageDirsOfDottedName | src/main/java/com/corsosystems/codegen/IgnitionCodegen.java:119-127 | for a package name made of non-empty dotted parts, the result is the directories of the enclosing packages (`a.b.c` gives `a/b`) |
| Options.Generator.ReadNames | src/main/java/com/corsosystems/codegen/IgnitionCodegen.java:56-70 | the package name, project name and version come from the options when present; the project name otherwise defaults to the package name with '-' for '_', and so contains no '_' |
| Options.Generator.ProcessOpts | src/main/java/com/corsosystems/codegen/IgnitionCodegen.java:55-131 | the names, version and URL are read; the published options are exactly the given ones with the names, doc paths, actor, timestamp and hint scope set; the error is the recursion-limit verdict; only on success are the model and API packages prefixed with `<packageName>.` |
| Utils.DeserializeScope | src/main/java/com/corsosystems/codegen/utils.kt:54-63 | succeeds exactly on N, G, D, C, A, giving 0, 1, 2, 4, 7 in that order; any other letter is an `IllegalArgumentException`; serialising the code gives the letter back |
| Utils.SerializeScope | src/main/java/com/corsosystems/codegen/utils.kt:65-76 | succeeds exactly on 0, 1, 2, 4, 7, giving the matching letter; any other code is an `IllegalArgumentException` |
| Utils.SerializeThenDeserialize | src/main/java/com/corsosystems/codegen/utils.kt:51-77 | serialising a valid code and deserialising the letter gives the code back |
| Utils.IntToByteArray | src/main/java/com/corsosystems/codegen/utils.kt:91-96 | four bytes whose big-endian two's-complement value is the integer |
| Utils.ByteArrayRoundTrip | src/main/java/com/corsosystems/codegen/utils.kt:91-96 | every four-byte array is the encoding of the integer it spells out, so the encoding is a bijection |
| Utils.BoolToByte | src/main/java/com/corsosystems/codegen/utils.kt:98 | the byte is 1 exactly for `true` and 0 exactly for `false` |
| Utils.ToHexStringAt | src/main/java/com/corsosystems/codegen/utils.kt:100-102 | byte `i` is written as the two lower-case hex digits at positions `2i` and `2i+1`, high nibble first |
| Utils.HexRoundTrip | src/main/java/com/corsosystems/codegen/utils.kt:100-102 | reading the hex string back gives the original bytes |
| Utils.HexStringIsCanonical | src/main/java/com/corsosystems/codegen/utils.kt:100-102 | every string the reader accepts is exactly the hex string of what it read, so the encoding is a bijection onto even-length lower-case hex strings |
| Bytes.ToByte | src/main/java/com/corsosystems/codegen/utils.kt:92-95 | `toByte` keeps the low 8 bits: the byte's unsigned value is the integer modulo 256 |

## Left out

- `addFileToZip` (IgnitionCodegen.java:257-268) is not modelled. It opens the zip as a file system through a `jar:` URI. The model has no notion of an archive on disk.
- `postProcess` as a whole is not modelled. That covers the orchestration and the `ResourceSigner` signing of each recorded path. It also covers writing `resource.json` files, `Instant.now()`, and deleting `.openapi-generator-ignore`. Of its steps, the model covers converting the client folder, zipping and deleting directories. The signer and the clock are code and state outside this model.
- The supporting-file and template registrations in `processOpts` (IgnitionCodegen.java:97-117) are not modelled. They only append file descriptors to lists of the OpenAPI generator framework.
- `InstantSerializer`, `ProjectResource` loading and `toManifest` in `utils.kt` are not modelled. They delegate to `java.time` and kotlinx.serialization.
- Logging and the real I/O are not modelled: stream closing, compression, and failures of reads and writes. The filesystem is a value, so the model says nothing about aliasing or concurrent changes on disk.
- Resources.Convert: when the conversion fails, the source has already changed the disk partly. The model keeps only the error, not that partial state.
- ResourceTree.ConvertRelocatesEveryFile: covers trees in which no file's base names another entry at its level (`ResourceTree.Sources`). When the base names a sibling directory that is listed after the file, the file is converted a second time, and the single-move statement does not hold (`ResourceTree.SiblingDirectoryListedLater`). `ResourceProperties.PlaceFileMoves` covers the one step into such a directory.
- Resources.Convertible: file names whose base is "." or ".." are excluded. For them the source would create, or move into, the directory itself or its parent.
- A `File` that is neither a file nor a directory (a broken link, a special file) is not modelled. A `null` returned by `listFiles` is not modelled either.
- Options.Generator.ProcessOpts: requires the package name, project name, version and URL options to be strings or absent. The paths it leaves out are these. A non-string value makes the `(String)` cast throw a `ClassCastException`. A null value passes the cast and sets the field to null: a null project name, version or URL stays null. A null package name makes `packageName.replaceAll` throw a `NullPointerException` at IgnitionCodegen.java:65 when no project name is given, and `packageName.split` throw one at IgnitionCodegen.java:120 otherwise. The fields are strings in the model, so it has no null. For the recursion limit, null and the cast failure are both modelled.
- Options.Generator.ProcessOpts: `currentPackagePath` is computed, as the source does, and then not used, as in the source.
- Numbers.ParseInt accepts ASCII digits only. Java's `Integer.parseInt` also accepts other Unicode decimal digits.
- `File.separatorChar` is taken to be '/'. `File.isHidden` is taken to mean a name starting with '.', which is the Unix rule.
- Archive.FileInputStream.Read always fills as much of the buffer as the remaining bytes allow. A real stream may return fewer bytes, and the contents written would be the same.
