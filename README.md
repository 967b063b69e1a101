# ApkCustomizationTool `Command` — a Dafny model

`Command` is the orchestrator of a tool that customises an APK. It unpacks the
APK with apktool, edits the unpacked tree, then repacks, signs and aligns it.
The signing, packing and aligning steps are done by external programs. Only a
few operations of `Command` have logic of their own, and this project models
those and proves properties of them:

- `getVersionCode` (`version_code.dfy`). It turns a version name
  `major.minor.build` into the decimal string of
  `100000000 + major*10000 + minor*100 + build`. The sum is computed in Java
  `int` arithmetic, and the three ways the method throws are modelled as
  errors.
- The line-rewrite loop of `updateApkToolYmlVersion` (`apktool_yml.dfy`). It
  rewrites the `versionCode` and `versionName` lines of `apktool.yml` and
  writes the file back with CR LF line endings.
- The meta-data loop of `updateAndroidManifest` (`android_manifest.dfy`). A
  nested loop, in place on an array of `meta-data` elements, sets `value` on
  every element whose `name` is requested.
- `copyFileStream`, the recursive overlay `copyFile` behind `replaceResource`,
  and the recursive `deleteFile` (`file_tree.dfy`). They are methods of a
  `FileSystem` class. Its `entries` field maps each existing path to a file
  or a directory, and the methods update it in place.

`java_text.dfy` gives the exact Java semantics of the class-library calls
these rely on:

- 32-bit `int` wrap-around;
- `Integer.parseInt` on digit strings;
- `String.valueOf(int)`;
- `String.split("\\.")` with its removal of trailing empty pieces;
- `String.contains`;
- `BufferedReader.readLine`, which ends a line at LF, CR or CR LF.

`results.dfy` holds the `Result` and `Option` datatypes.

Behaviours of the code worth knowing, each proved about the model:

- **Version names with a trailing dot.** The exception message at
  Command.java:275 asks for the `x.x.x` format. The code splits with
  `split("\\.")`, which drops trailing empty pieces, so `"1.2.3."` and
  `"1.2.3.."` are accepted all the same and give the same code as `"1.2.3"`
  (`TrailingDotIgnored`, `TrailingDotExample`).
- **Wrap-around.** The products and the sum at Command.java:277-280 are Java `int` arithmetic and
  wrap silently: `"214748.0.0"` gives `"-2047487296"` (`OverflowExample`).
- **Collisions.** A `minor` or `build` of 100 or more collides with other
  versions: `"1.100.0"` and `"2.0.0"` both give `"100020000"`
  (`CollisionOutsideRange`).

## Model

| member | source | states |
|---|---|---|
| VersionCode.VersionCodeOf | src/javafx/apktools/bin/Command.java:262-281 | The name is rejected as an illegal character exactly when it has a character other than a digit or '.'. It is rejected for its part count exactly when its characters are legal but `split("\\.")` does not give three pieces |
| VersionCode.ValidVersionName | src/javafx/apktools/bin/Command.java:272-280 | Three non-empty digit strings whose code fits an `int` give `Ok` of the decimal of 100000000 + a*10000 + b*100 + c |
| VersionCode.WrappingVersionName | src/javafx/apktools/bin/Command.java:277-280 | For any three digit strings that each fit an `int`, the result is that exact sum wrapped to 32 bits and printed with `String.valueOf` |
| VersionCode.EncodeWraps | src/javafx/apktools/bin/Command.java:277-280 | The Java expression, with each product and sum wrapped, equals the exact sum wrapped once |
| VersionCode.EncodeExact | src/javafx/apktools/bin/Command.java:277-280 | When the exact sum fits an `int`, the Java expression computes it without wrapping |
| VersionCode.NumericVersionName | src/javafx/apktools/bin/Command.java:272-280 | When the exact code of three numbers fits an `int`, the name written from them encodes to the decimal of that code (the round trip through `parseInt`) |
| VersionCode.VersionCodeInjective | src/javafx/apktools/bin/Command.java:277-280 | With minor < 100 and build < 100 and no overflow, equal codes come from equal versions |
| VersionCode.ExactCodeInjective | src/javafx/apktools/bin/Command.java:277-280 | The exact code determines (major, minor, build) when minor < 100 and build < 100 |
| VersionCode.EmptyComponentRejected | src/javafx/apktools/bin/Command.java:273-279 | A name with an empty component is rejected, by `parseInt` or by the part count |
| VersionCode.WrongPartCountRejected | src/javafx/apktools/bin/Command.java:273-276 | A digits-and-dots name with fewer than two dots, or with more than two and no trailing dot, gives `NotThreeParts` |
| VersionCode.TrailingDotIgnored | src/javafx/apktools/bin/Command.java:273 | Appending a dot to any name, the empty one included, does not change its result |
| VersionCode.ExampleCode | src/javafx/apktools/bin/Command.java:262-281 | "1.2.3" gives "100010203" |
| VersionCode.TrailingDotExample | src/javafx/apktools/bin/Command.java:273-276 | "1.2.3." is accepted and gives "100010203" |
| VersionCode.CollisionOutsideRange | src/javafx/apktools/bin/Command.java:277-280 | "1.100.0" and "2.0.0" both give "100020000" |
| VersionCode.OverflowExample | src/javafx/apktools/bin/Command.java:277-280 | "214748.0.0" gives "-2047487296" |
| JavaText.ParseIntOfDecimal | src/javafx/apktools/bin/Command.java:277-279 | `Integer.parseInt` reads back the decimal string of every number up to 2^31-1 as that number |
| JavaText.DecimalRoundTrip | src/javafx/apktools/bin/Command.java:280 | Reading back the decimal string of a number gives the number |
| JavaText.NatToDecimalInjective | src/javafx/apktools/bin/Command.java:280 | Distinct numbers have distinct decimal strings |
| JavaText.IntToDecimal | src/javafx/apktools/bin/Command.java:280 | `String.valueOf(int)` gives digits only for a non-negative value, and a '-' followed by the digits of a non-zero number for a negative one |
| JavaText.Wrap32 | src/javafx/apktools/bin/Command.java:277-280 | The value reduced to 32 bits is in `int` range, agrees with the input modulo 2^32, and is the input itself when that is already in range |
| JavaText.SplitAll | src/javafx/apktools/bin/Command.java:273 | The full split has one more piece than there are separators, and no piece contains the separator |
| JavaText.DropTrailingEmpty | src/javafx/apktools/bin/Command.java:273 | The result is a prefix that ends in a non-empty piece, and only empty pieces are dropped |
| JavaText.ReadJoinedLines | src/javafx/apktools/bin/Command.java:186-199 | Reading back, with `readLine`, text written as CR LF terminated lines gives exactly those lines |
| JavaText.ReadLines | src/javafx/apktools/bin/Command.java:186 | No line returned by `readLine` contains CR or LF |
| ApkToolYml.RewriteYml | src/javafx/apktools/bin/Command.java:184-199 | The loop produces `YmlUpdate`. It fails with `getVersionCode`'s error at the first `versionCode` line when the name is rejected; otherwise it yields the rewritten lines, each followed by CR LF |
| ApkToolYml.UpdateApkToolYmlVersion | src/javafx/apktools/bin/Command.java:180-212 | Returns true iff `apktool.yml` is an existing file and the rewrite succeeds. Then exactly that file is replaced by the rewritten text; otherwise the disk is unchanged |
| ApkToolYml.YmlReadBack | src/javafx/apktools/bin/Command.java:186-199 | For a name without CR or LF, reading the written file back gives one line per input line: `versionCode` lines carry the derived code, the remaining `versionName` lines the new name, and all other lines are unchanged |
| ApkToolYml.YmlFailure | src/javafx/apktools/bin/Command.java:187-188 | The update fails iff the file has a `versionCode` line and the name is rejected; a file without one accepts any name |
| ApkToolYml.YmlIdempotent | src/javafx/apktools/bin/Command.java:186-199 | For a name without CR or LF whose `versionName` line does not contain `versionCode`, running the update twice with the same name gives the same text as running it once |
| ApkToolYml.CodeLineIsCodeLine | src/javafx/apktools/bin/Command.java:188 | The written code line is itself recognised as a `versionCode` line |
| ApkToolYml.NameLineIsNameLine | src/javafx/apktools/bin/Command.java:193 | The written name line is itself recognised as a `versionName` line |
| AndroidManifest.PatchMetaData | src/javafx/apktools/bin/Command.java:142-154 | The nested loop over the element array succeeds iff `Patch` does, and leaves the array equal to `Patch`'s result |
| AndroidManifest.UpdateAndroidManifest | src/javafx/apktools/bin/Command.java:132-172 | A null manifest returns false. Otherwise the result is true iff the manifest file exists, parses and the patch goes through. Then only that file is rewritten, from the patched elements; otherwise the disk is unchanged |
| AndroidManifest.PatchCharacterization | src/javafx/apktools/bin/Command.java:142-154 | The patch succeeds iff no element lacks a `name` (when anything is requested) and no requested element lacks a `value`. It keeps the element count and every `name`. Every element whose name is requested gets the value of the last request for that name, and every other element is unchanged |
| AndroidManifest.PatchStep | src/javafx/apktools/bin/Command.java:145-153 | One pass of the inner loop on top of a successful patch extends the closed form by one request |
| AndroidManifest.PatchNoneExtends | src/javafx/apktools/bin/Command.java:142-154 | Once a request throws, the whole loop throws |
| AndroidManifest.PatchIdempotent | src/javafx/apktools/bin/Command.java:142-154 | Applying the same request list twice gives the result of applying it once |
| AndroidManifest.DuplicateNamesBothUpdated | src/javafx/apktools/bin/Command.java:145-152 | Two elements named "foo" both receive the requested value, and an element with another name is unchanged |
| FileTree.ChildNames | src/javafx/apktools/bin/Command.java:110 | The names listed for a directory are exactly those of its existing children |
| FileTree.FileSystem.CopyFileStream | src/javafx/apktools/bin/Command.java:306-323 | Succeeds iff the source is a file and the target is an existing file, or is missing with a directory as parent. Then exactly the target is set to the source's contents, or emptied when it is the source itself; otherwise nothing changes |
| FileTree.FileSystem.CopyTree | src/javafx/apktools/bin/Command.java:105-124 | Establishes `CopyDone`: no entry is created, removed or changes kind, and nothing outside the destination changes. When source and destination are equal or apart, every path holds `OverlayAt` |
| FileTree.FileSystem.ReplaceResource | src/javafx/apktools/bin/Command.java:93-97 | The overlay of the replacement folder onto the application folder, with the guarantees of `CopyTree` |
| FileTree.FileSystem.Delete | src/javafx/apktools/bin/Command.java:288-298 | Returns true iff the path exists. The disk becomes `Pruned`: the path and everything below it are gone, and every other entry is unchanged |
| FileTree.OverlayShape | src/javafx/apktools/bin/Command.java:109-118 | The overlay never creates or removes an entry and never turns a file into a directory or back |
| FileTree.MissingSourceNoOp | src/javafx/apktools/bin/Command.java:106-108 | A missing source leaves every entry unchanged |
| FileTree.HiddenSourceIgnored | src/javafx/apktools/bin/Command.java:110 | A destination path reached through a hidden name (one starting with '.') is not changed |
| FileTree.OverlayIdempotent | src/javafx/apktools/bin/Command.java:105-124 | For equal or disjoint source and destination, overlaying twice gives the result of overlaying once |
| FileTree.FileSourceOverlay | src/javafx/apktools/bin/Command.java:115-122 | With a file as source, only the destination itself can change, and only if it is an existing file |
| FileTree.OverlayChild | src/javafx/apktools/bin/Command.java:111-114 | Overlaying a child pair gives, below that child, the same result as the whole overlay |
| FileTree.CopyChildStep | src/javafx/apktools/bin/Command.java:111-114 | After visiting one more child, the disk is the overlay restricted to the visited children |
| FileTree.CopyDirDone | src/javafx/apktools/bin/Command.java:109-114 | Once every non-hidden child has been visited, the partial overlay is the whole overlay |
| FileTree.CopyStep | src/javafx/apktools/bin/Command.java:111-114 | The loop invariant `CopyPartial` survives one recursive call |
| FileTree.CopyFinish | src/javafx/apktools/bin/Command.java:109-114 | On loop exit `CopyPartial` becomes `CopyDone` |
| FileTree.CopyMissing | src/javafx/apktools/bin/Command.java:106-108 | The early return for a missing source meets `CopyDone` |
| FileTree.CopyFileCase | src/javafx/apktools/bin/Command.java:115-122 | The file branch, with its existence check on the target, meets `CopyDone` |
| FileTree.PruneChildStep | src/javafx/apktools/bin/Command.java:293-295 | Deleting one more child removes exactly that child's subtree from what is left |
| FileTree.PruneDirDone | src/javafx/apktools/bin/Command.java:292-296 | Once every child's subtree is gone, removing the directory prunes it completely |
| FileTree.PrunedWellFormed | src/javafx/apktools/bin/Command.java:288-298 | Removing a whole subtree never leaves an entry without its parent directory |
| FileTree.PrunedContents | src/javafx/apktools/bin/Command.java:288-298 | After pruning, nothing at or below the path remains and every other entry is unchanged |
| FileTree.MissingPruned | src/javafx/apktools/bin/Command.java:292-293 | Nothing lies below a missing path, so pruning it changes nothing |
| FileTree.FilePruned | src/javafx/apktools/bin/Command.java:289-290 | Pruning a file removes that file alone |
| FileTree.AncestorsAreDirs | src/javafx/apktools/bin/Command.java:109-113 | On a well-formed disk, every proper prefix of an existing path is an existing directory |
| FileTree.OverwriteWellFormed | src/javafx/apktools/bin/Command.java:201-203 | Rewriting the contents of an existing file keeps the disk well formed |

## Left out

- The subprocess wrappers (`decodeApk`, `buildApk`, `signerApkByTime`, `signerApk`, `zipalign`) and `executeCommand` (Command.java:36-85, 229-254) are not modelled. They only start external programs and relay their output.
- The XML parse and write of `updateAndroidManifest` (Command.java:138-140, 161-163) are the parameters `parse` and `render` of `UpdateAndroidManifest`. A malformed document and a missing `application` element are both a `parse` failure.
- `Manifest.getMetaData()` returning null is not modelled. The `Manifest` class is modelled only by its meta-data list, which is always present.
- `UpdateAndroidManifest`: a request with a null value is not modelled. Request values are strings.
- `AndroidManifest.PatchMetaData`: when `ok` is false, nothing is said about the array. As in Java, the elements may be left half-patched; `UpdateAndroidManifest` then drops them without writing.
- `AndroidManifest.UpdateAndroidManifest`: a null entry in the request list is not modelled. In Java it throws a `NullPointerException` at Command.java:143, which is caught, so the method returns false.
- `ApkToolYml.UpdateApkToolYmlVersion`: a null `versionName` is not modelled, because names are strings. In Java it throws in `getVersionCode` (Command.java:263) when the file has a `versionCode` line, so the method returns false. Without such a line, Command.java:193 writes `  versionName: 'null'`.
- `UpdateAndroidManifest` and `UpdateApkToolYmlVersion` do not model I/O failures while writing a file that exists, nor the platform charset of `getBytes()`. Contents are character strings.
- Every progress line sent to the callback is left out, because it has no effect on the result.
- `updateResourceStrings` (Command.java:220-222) is not modelled. It ignores its arguments and returns true.
- `VersionCode.VersionCodeOf`: only ASCII `'0'`-`'9'` count as digits. Java's `Character.isDigit` and `Integer.parseInt` also accept other Unicode decimal digits.
- `FileTree.FileSystem.ReplaceResource`: when one folder lies strictly inside the other, only the frame and shape guarantees of `CopyTree` are stated, not the contents, for the reason given on the next line.
- `FileTree.FileSystem.CopyTree`: when the source lies strictly inside the destination, or the destination inside the source, the result depends on the order in which `listFiles` returns children. For those cases only the frame conditions are stated, not the contents.
- `FileTree.FileSystem.CopyTree`: a `listFiles` that fails on an existing directory is not modelled, nor are hidden names beyond the leading-dot test.
- `FileTree.FileSystem.Delete`: a `file.delete()` that fails is not modelled. In Java that failure is silently ignored.
- `FileTree.FileSystem.Delete`: the `NullPointerException` that `deleteFile` throws on a missing path is reported as `ok == false`, with the disk unchanged.
- `FileTree`: symbolic links, permissions and concurrent changes to the disk are not modelled.
- `FileTree`: paths are sequences of names. The string concatenation with `File.separator` that builds them is not modelled.
