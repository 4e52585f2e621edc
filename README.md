# ClientInstaller, modelled in Dafny

This project models the two install procedures of the Fabric installer's
`ClientInstaller`. It proves what they do to a Minecraft directory.

- `install(mcDir, gameVersion, loaderVersion, progress)` builds the profile name
  `<loader>-<loaderVersion>-<gameVersion>`. It makes sure `versions/<name>`
  exists and deletes the legacy `<name>.jar`. It asks the metadata service
  for the profile JSON and writes it to `<name>.json`. It then downloads
  every library the JSON lists into `libraries/`, in list order. Each
  download is announced by one progress message, and the first failing
  download aborts the install. Finally it reports "done" and returns the
  name.
- `installFromZip(mcDir, zipFilePath, progress)` names the profile after the
  bundle file without its last extension. It makes sure `versions/<name>`
  exists. It extracts every zip entry into a fresh temporary directory;
  any error there aborts the install. It then walks the temporary directory
  and copies each regular file to the same relative path under the profile
  directory. A copy that throws is logged and skipped. Finally it reports
  "done" and returns the name.

Layout of the model:

- `outcomes.dfy` (`Outcomes`): Option and Result.
- `naming.dfy` (`Naming`): the derived names. The profile name is a
  `String.format`, the metadata query path another. The bundle name
  applies `replaceFirst("[.][^.]+$", "")`.
- `progress.dfy` (`Progress`): the `InstallerProgress` sink, as a class with
  a message log.
- `disk.dfy` (`Disk`): the disk as a value. `Tree` holds the regular files
  (path to bytes) and the directories.
  - Its operations follow `java.nio.file.Files`: `createDirectories`,
    `deleteIfExists`, `write` and `copy` with `REPLACE_EXISTING`. Each
    states when it fails and what it changes.
  - `FileSystem` is the mutable disk the methods act on.
- `layout.dfy` (`Layout`): the paths both procedures share and the steps
  they repeat.
  - "Ensure the directory" is `if (!Files.exists) createDirectories`.
  - "Place a file" creates its parent directories, then copies over it.
- `profile_builder.dfy` (`ProfileBuilder`): `install`.
  - `InstallProfile` is the whole procedure as a function of the disk
    before it.
  - The method `Install` (with `DownloadAll` for its `for` loop) is proved
    to follow it.
  - The lemmas state what the procedure guarantees.
- `bundle_installer.dfy` (`BundleInstaller`): `installFromZip`.
  - `InstallFromZipRun` is the whole procedure.
  - The method `InstallFromZip` follows it. Its two loops are
    `ExtractInto` (the `while` loop over entries) and `MergeInto` (the
    `forEach` over the walk, which takes the staged files in an order the
    method does not fix).

Collaborators the source calls but does not show are parameters:

- `Reference.LOADER_NAME` is the `loaderName` argument.
- `FabricService.queryMetaJson` is `service`: for a query path it gives the
  profile JSON as its serialized text and its parsed library list, or
  nothing when the request fails.
- `FabricService.downloadSubstitutedMaven` is `fetch`: for a URL it gives the
  artifact's bytes, or nothing when the transfer fails. A received artifact
  is placed at the library's file, parent directories first.
- The zip archive is the sequence of items `getNextEntry` yields.
- The order of `Files.walk` is the `walk` of the merge.

Two behaviours of the code are easy to miss:

- A failed metadata query writes no new profile JSON, but one left by an
  earlier install survives (`ServiceFailureWritesNoDescriptor`).
- Resolving the empty name against `versions` gives `versions` itself. So a
  bundle named `.zip` is merged straight into `versions/` (`ProfileDir`).

## Model

| member | source | states |
|---|---|---|
| Naming.ProfileNameRoundTrip | src/main/java/net/fabricmc/installer/client/ClientInstaller.java:43 | when the loader name and loader version hold no dash, cutting the profile name at its first two dashes gives back the three parts it was formatted from |
| Naming.ProfileNameCollides | src/main/java/net/fabricmc/installer/client/ClientInstaller.java:43 | with dashes inside the parts, two different inputs give the same profile name |
| Naming.MetaQueryPathParts | src/main/java/net/fabricmc/installer/client/ClientInstaller.java:56 | the metadata query path is `v2/versions/loader/<game>/<loader>/profile/json`, with each version at a fixed place |
| Naming.MetaQueryPathInjective | src/main/java/net/fabricmc/installer/client/ClientInstaller.java:56 | distinct (game version, loader version) pairs query distinct paths when the game version holds no slash |
| Naming.StripExtension | src/main/java/net/fabricmc/installer/client/ClientInstaller.java:84 | the bundle name is a prefix of the file name, and it is either the whole name or the name cut just before a match of `[.][^.]+$` |
| Naming.StripExtensionIsReplaceFirst | src/main/java/net/fabricmc/installer/client/ClientInstaller.java:84 | the pattern matches at most one place; the result is the name cut there, or the whole name when the pattern does not match |
| Naming.StripExtensionExamples | src/main/java/net/fabricmc/installer/client/ClientInstaller.java:84 | `Fabric-1.0.zip` gives `Fabric-1.0`; `bundle` and `bundle.` are kept; `.zip` gives the empty name; `a.b.c` gives `a.b` |
| Naming.StripExtensionIdempotent | src/main/java/net/fabricmc/installer/client/ClientInstaller.java:84 | on a name with at most one dot, stripping a second time changes nothing |
| Progress.InstallerProgress.UpdateProgress | src/main/java/net/fabricmc/installer/client/ClientInstaller.java:71 | a progress message is appended to the log, after all earlier ones |
| Disk.CreateDirectoriesSpec | src/main/java/net/fabricmc/installer/client/ClientInstaller.java:50 | `createDirectories(p)` succeeds exactly when no regular file is at `p` or above it. It then adds `p` and every directory above it, and otherwise changes nothing. It never changes a file and keeps a well-formed disk well-formed |
| Disk.Tree.DeleteIfExists | src/main/java/net/fabricmc/installer/client/ClientInstaller.java:54 | `deleteIfExists(p)` always removes a regular file, removes a directory exactly when it is empty, and is no error for an absent path unless a file stands on the way. It leaves no file at `p`, changes no other file or directory, and on failure changes nothing |
| Disk.Tree.Write | src/main/java/net/fabricmc/installer/client/ClientInstaller.java:57 | `write(p, data)` succeeds exactly when `p`'s directory exists and `p` is not a directory. It then holds `data` (created or truncated), and otherwise nothing changes |
| Disk.CopySpec | src/main/java/net/fabricmc/installer/client/ClientInstaller.java:107 | `copy(.., p, REPLACE_EXISTING)` succeeds exactly when `p`'s directory exists and `p` is not a directory with entries. It then holds the bytes as a regular file, and otherwise nothing changes |
| Disk.EmptyTree | src/main/java/net/fabricmc/installer/client/ClientInstaller.java:94 | the fresh temporary directory is empty and well-formed |
| Disk.NoFileAboveEntry | src/main/java/net/fabricmc/installer/client/ClientInstaller.java:50 | in a well-formed disk no regular file stands on the way to an existing entry |
| Disk.NoFileAboveFromPrefixes | src/main/java/net/fabricmc/installer/client/ClientInstaller.java:122-125 | when no proper prefix of a path is a regular file, no file stands on the way to it, so its parent directories can be created |
| Disk.FileSystem.Empty | src/main/java/net/fabricmc/installer/client/ClientInstaller.java:94 | `createTempDirectory` gives an empty disk |
| Disk.FileSystem.CreateDirectories | src/main/java/net/fabricmc/installer/client/ClientInstaller.java:50 | the live disk changes as `Tree.CreateDirectories` says |
| Disk.FileSystem.DeleteIfExists | src/main/java/net/fabricmc/installer/client/ClientInstaller.java:54 | the live disk changes as `Tree.DeleteIfExists` says |
| Disk.FileSystem.Write | src/main/java/net/fabricmc/installer/client/ClientInstaller.java:57 | the live disk changes as `Tree.Write` says |
| Disk.FileSystem.Copy | src/main/java/net/fabricmc/installer/client/ClientInstaller.java:107 | the live disk changes as `Tree.Copy` says |
| Layout.ProfileFiles | src/main/java/net/fabricmc/installer/client/ClientInstaller.java:45-53 | `<name>.json` and `<name>.jar` are two different files, both directly in the profile directory, and neither is in the library store |
| Layout.EnsureDirectory | src/main/java/net/fabricmc/installer/client/ClientInstaller.java:49-51 | an existing entry is left alone. Otherwise the directory is created exactly when no file stands on the way to it, and then it and every directory above it are added. No file changes, and a well-formed disk stays well-formed |
| Layout.EnsureDirectoryIdempotent | src/main/java/net/fabricmc/installer/client/ClientInstaller.java:90-92 | ensuring the profile directory a second time changes nothing and cannot fail |
| Layout.Place | src/main/java/net/fabricmc/installer/client/ClientInstaller.java:105-107 | creating the parent directories and then copying over the file changes the live disk as `PlaceFile` says |
| Layout.PlaceFileSpec | src/main/java/net/fabricmc/installer/client/ClientInstaller.java:125-127 | placing a file changes no file but the destination, which holds the bytes on success. It changes no directory outside the destination's prefixes, and keeps a well-formed disk well-formed |
| Layout.PlaceFileOverExisting | src/main/java/net/fabricmc/installer/client/ClientInstaller.java:125-127 | placing over an existing regular file always succeeds, replaces only its bytes and creates no directory |
| Layout.PlaceFileSucceeds | src/main/java/net/fabricmc/installer/client/ClientInstaller.java:105-107 | with no file on the way and no directory at the destination, placing succeeds and adds exactly the file and the directories above it |
| ProfileBuilder.LibraryDirectories | src/main/java/net/fabricmc/installer/client/ClientInstaller.java:63-67 | every directory on the way to a library's file is in the library store |
| ProfileBuilder.DownloadSpec | src/main/java/net/fabricmc/installer/client/ClientInstaller.java:72 | a download that succeeds got the artifact and stored exactly it at the library's file; one that fails changes no file. No directory outside the library store changes, and a well-formed disk stays well-formed |
| ProfileBuilder.DownloadSubstitutedMaven | src/main/java/net/fabricmc/installer/client/ClientInstaller.java:72 | the live disk changes as `Download` says |
| ProfileBuilder.AnnounceAt | src/main/java/net/fabricmc/installer/client/ClientInstaller.java:71 | the loop announces one message per library, naming it, in list order, and never "done" |
| ProfileBuilder.DownloadsCompleted | src/main/java/net/fabricmc/installer/client/ClientInstaller.java:65-73 | loop iterations that all succeed announced every library in order and received every artifact. The files are the old files overlaid with `LibraryWrites` |
| ProfileBuilder.CompletedAnnounced | src/main/java/net/fabricmc/installer/client/ClientInstaller.java:71 | iterations that all succeed announced exactly their libraries, in order |
| ProfileBuilder.CompletedWrote | src/main/java/net/fabricmc/installer/client/ClientInstaller.java:72 | iterations that all succeed leave the old files overlaid with their libraries' artifacts |
| ProfileBuilder.CompletedFetched | src/main/java/net/fabricmc/installer/client/ClientInstaller.java:72 | iterations that all succeed received every artifact |
| ProfileBuilder.LibraryWritesWithin | src/main/java/net/fabricmc/installer/client/ClientInstaller.java:67 | the loop writes no file but the listed libraries' files |
| ProfileBuilder.LibraryWritesCover | src/main/java/net/fabricmc/installer/client/ClientInstaller.java:67-72 | when every artifact arrives, every listed library's file is written |
| ProfileBuilder.LibraryWritesLastWins | src/main/java/net/fabricmc/installer/client/ClientInstaller.java:65-72 | when two libraries share a file, the later one in the list decides its bytes |
| ProfileBuilder.DownloadsStayInLibraries | src/main/java/net/fabricmc/installer/client/ClientInstaller.java:63-73 | the loop changes no file and no directory outside `libraries/` |
| ProfileBuilder.DownloadsKeepValid | src/main/java/net/fabricmc/installer/client/ClientInstaller.java:65-73 | the loop keeps a well-formed disk well-formed |
| ProfileBuilder.DownloadStopsAtFailure | src/main/java/net/fabricmc/installer/client/ClientInstaller.java:72 | after the first failed download no later library is announced or downloaded |
| ProfileBuilder.StoppedAtFirstFailure | src/main/java/net/fabricmc/installer/client/ClientInstaller.java:65-73 | a loop whose first failure is library k announced libraries 0..k, fetched every library before k, and holds the starting files overlaid with the bytes of libraries 0..k-1 |
| ProfileBuilder.DownloadFailed | src/main/java/net/fabricmc/installer/client/ClientInstaller.java:65-73 | a failed loop stopped at its first failing library, as `StoppedAtFirstFailure` describes |
| ProfileBuilder.LoopNeverDone | src/main/java/net/fabricmc/installer/client/ClientInstaller.java:65-73 | the loop itself never reports "done" |
| ProfileBuilder.OverwriteKeepsValid | src/main/java/net/fabricmc/installer/client/ClientInstaller.java:72 | overwriting only existing files keeps a disk well-formed |
| ProfileBuilder.DownloadOverExisting | src/main/java/net/fabricmc/installer/client/ClientInstaller.java:72 | downloading over an existing library file succeeds, replaces only its bytes and creates nothing |
| ProfileBuilder.DownloadAfterOverwrites | src/main/java/net/fabricmc/installer/client/ClientInstaller.java:72 | after earlier overwrites, one more download over an existing file is one more overwrite |
| ProfileBuilder.RedownloadOverExisting | src/main/java/net/fabricmc/installer/client/ClientInstaller.java:65-73 | when every library's file already exists, the loop fails nowhere, creates no directory and only rewrites those files |
| ProfileBuilder.RedownloadStep | src/main/java/net/fabricmc/installer/client/ClientInstaller.java:65-73 | one more library of such a loop only rewrites its own file |
| ProfileBuilder.DownloadAll | src/main/java/net/fabricmc/installer/client/ClientInstaller.java:65-73 | the `for` loop leaves the disk, the messages and the error as `DownloadLibraries` says |
| ProfileBuilder.DescriptorWritten | src/main/java/net/fabricmc/installer/client/ClientInstaller.java:49-57 | after the descriptor step the profile directory exists. The files are the old ones without `<name>.jar` and with `<name>.json` holding the serialized JSON. A well-formed disk stays well-formed |
| ProfileBuilder.DescriptorRewriteUnchanged | src/main/java/net/fabricmc/installer/client/ClientInstaller.java:49-57 | on a disk that already holds the same descriptor and no jar, the descriptor step succeeds and changes nothing |
| ProfileBuilder.InstallReachesLoop | src/main/java/net/fabricmc/installer/client/ClientInstaller.java:57-77 | once the descriptor is written, the install is the library loop followed by "done" and the name, or by the loop's error |
| ProfileBuilder.InstallPassedDescriptor | src/main/java/net/fabricmc/installer/client/ClientInstaller.java:49-65 | an install that succeeds, or fails on a library, got an answer from the metadata service and wrote it |
| ProfileBuilder.InstallWritesDescriptor | src/main/java/net/fabricmc/installer/client/ClientInstaller.java:49-57 | past the descriptor step the profile directory exists, `<name>.json` holds the JSON (overwritten, not appended), `<name>.jar` is gone, and every other file outside `libraries/` is as it was |
| ProfileBuilder.InstallSucceeds | src/main/java/net/fabricmc/installer/client/ClientInstaller.java:65-77 | a successful install returns the profile name. It announced every library once, in list order, then "done" once, and left a file at every listed library path |
| ProfileBuilder.InstallFailsFast | src/main/java/net/fabricmc/installer/client/ClientInstaller.java:49-75 | a failed install never reports "done". It reports nothing unless a download failed; then it stopped at the first failing library, every earlier library was fetched, and the disk holds the files after the descriptor step overlaid with the earlier libraries' bytes |
| ProfileBuilder.ServiceFailureWritesNoDescriptor | src/main/java/net/fabricmc/installer/client/ClientInstaller.java:53-56 | when the metadata request fails, the install fails with no message, and no file but the legacy jar changes. When the directory and jar steps succeed, the error is the service error |
| ProfileBuilder.InstallIdempotent | src/main/java/net/fabricmc/installer/client/ClientInstaller.java:40-77 | running a successful install again on its own result gives the same disk, messages and name |
| ProfileBuilder.Install | src/main/java/net/fabricmc/installer/client/ClientInstaller.java:40-77 | the live disk, the message log and the result are those of `InstallProfile` for the service's answer to the profile's query path |
| BundleInstaller.ExtractEntrySpec | src/main/java/net/fabricmc/installer/client/ClientInstaller.java:99-110 | an entry changes no file but its own name, and only when it is a file entry that succeeds. A directory entry adds its directories, and a well-formed staging directory stays well-formed |
| BundleInstaller.ExtractOne | src/main/java/net/fabricmc/installer/client/ClientInstaller.java:100-112 | one pass of the loop changes the staging directory as `ExtractEntry` says |
| BundleInstaller.ExtractedFiles | src/main/java/net/fabricmc/installer/client/ClientInstaller.java:94-114 | a completed extraction holds exactly `EntryFiles` of the archive, in a well-formed staging directory |
| BundleInstaller.ExtractionStops | src/main/java/net/fabricmc/installer/client/ClientInstaller.java:96-114 | no entry after the first failing one is read |
| BundleInstaller.EntryFilesFromEntries | src/main/java/net/fabricmc/installer/client/ClientInstaller.java:100-110 | every extracted file comes from a file entry of that name; directory entries make no file |
| BundleInstaller.EntryFilesLastWins | src/main/java/net/fabricmc/installer/client/ClientInstaller.java:107 | the last file entry of a name decides that file's bytes |
| BundleInstaller.ExtractInto | src/main/java/net/fabricmc/installer/client/ClientInstaller.java:96-114 | the `while` loop leaves the staging directory and the error as `Extract` says |
| BundleInstaller.ResolveInjective | src/main/java/net/fabricmc/installer/client/ClientInstaller.java:122 | different relative paths resolve to different destinations |
| BundleInstaller.MergeSpec | src/main/java/net/fabricmc/installer/client/ClientInstaller.java:117-133 | after the walk, every visited staged file whose copy did not fail is at its destination with the staged bytes. Only visited files can fail, every path that is no destination keeps its file, and a well-formed disk stays well-formed |
| BundleInstaller.MergeInto | src/main/java/net/fabricmc/installer/client/ClientInstaller.java:117-133 | the walk visits every staged file once, and the live disk changes as `MergeAll` says for that order |
| BundleInstaller.ZipFailsBeforeMerge | src/main/java/net/fabricmc/installer/client/ClientInstaller.java:90-114 | a failed bundle install reports nothing and changes no file. When the profile directory was there, the failure is the one that ended the extraction |
| BundleInstaller.ZipMerged | src/main/java/net/fabricmc/installer/client/ClientInstaller.java:117-137 | once extracted, the install returns the bundle name and reports "done" whatever copies failed. Each staged file that did not fail is in the profile directory with the bytes of its last entry, no file outside those destinations changes, and a well-formed disk stays well-formed |
| BundleInstaller.MergeDirectories | src/main/java/net/fabricmc/installer/client/ClientInstaller.java:117-133 | the walk creates or removes no directory outside the profile directory, except directories above it |
| BundleInstaller.ZipDirectories | src/main/java/net/fabricmc/installer/client/ClientInstaller.java:88-137 | whatever its outcome, a bundle install creates or removes no directory outside the profile directory, except directories above it |
| BundleInstaller.MergeReplacesExisting | src/main/java/net/fabricmc/installer/client/ClientInstaller.java:117-133 | on a well-formed disk, a destination that already holds a regular file keeps one through the walk, and the copy of its staged file never fails |
| BundleInstaller.ZipReplacesExisting | src/main/java/net/fabricmc/installer/client/ClientInstaller.java:80-137 | once extracted on a well-formed disk, a file of the profile directory that the bundle also holds is replaced by the bytes of its last entry |
| BundleInstaller.StagedPrefixFree | src/main/java/net/fabricmc/installer/client/ClientInstaller.java:99-110 | no extracted file lies on the way to another one, because a well-formed staging directory keeps files and directories apart |
| BundleInstaller.DestinationClear | src/main/java/net/fabricmc/installer/client/ClientInstaller.java:117-125 | when the profile directory holds only earlier copies, nothing stands where the next staged file goes: no file on its way and no directory in its place |
| BundleInstaller.FitsGrow | src/main/java/net/fabricmc/installer/client/ClientInstaller.java:122-127 | copying one more file keeps inside the profile directory only the copied files and the directories on the way to them |
| BundleInstaller.FitsStep | src/main/java/net/fabricmc/installer/client/ClientInstaller.java:120-128 | into a profile directory holding only earlier copies, copying the next staged file cannot fail |
| BundleInstaller.MergeNoConflict | src/main/java/net/fabricmc/installer/client/ClientInstaller.java:117-133 | a walk into a profile directory that holds nothing yet records no failed copy |
| BundleInstaller.ZipFreshInstall | src/main/java/net/fabricmc/installer/client/ClientInstaller.java:80-137 | installing a bundle into a profile directory that is absent or empty, with no file in its way, copies every extracted file: each is in the profile directory with the bytes of its last entry, and the bundle name is returned |
| BundleInstaller.InstallFromZip | src/main/java/net/fabricmc/installer/client/ClientInstaller.java:80-137 | the live disk, the message log and the result are those of `InstallFromZipRun`, for an order that visits each staged file once |

## Left out

- Real I/O is out. The disk is a map of files and a set of directories;
  permissions, links, timestamps, concurrent changes and disk-full errors
  are not modelled.
- `createTempDirectory` cannot fail in the model; it always yields a fresh,
  empty directory. The temporary directory is never cleaned up, in the code
  as in the model.
- `getFileName()` returning null (a root path) is not modelled: the file
  name is a string argument.
- The network is out. `queryMetaJson` and `downloadSubstitutedMaven` are
  function parameters, as described above.
- `FabricService` is not part of this model. The effect of
  `downloadSubstitutedMaven` on the disk is taken to be "create the parent
  directories, then replace the file", and a transfer failure to change no
  file.
- JSON parsing is out: the answer is given with its library list already
  parsed. `Library.getPath`/`getURL` are given as fields.
- UTF-8 encoding is out: `json.toString().getBytes(UTF_8)` is the `text`
  field.
- Localisation and message formatting (`Utils.BUNDLE`, `MessageFormat`) are
  out. Progress messages are `DownloadingLibrary(name)` and `Done`.
- `System.out` logging and `printStackTrace` are side output. The
  printed failures of the merge walk are only collected in `failed`.
- Path normalisation is out. Entry names are taken as already split into
  segments, and `..` segments escaping the temporary directory (zip-slip)
  are not modelled.
- Empty entry names are not modelled faithfully: the model's copy onto the
  temporary directory itself always fails, where Java would replace an
  empty directory.
- Profile names are assumed to contain no path separator. In Java a `/`
  inside a game or loader version would split the profile directory and
  the JSON and jar names into nested directories; the model treats the
  name as one path segment.
- Java's `$` also matches before a final line terminator; file names are
  assumed to contain none.
- The ZIP format itself is out: an archive is the sequence of entries
  `getNextEntry` yields, with `Unreadable` for a stream that throws.
- Files.walk also visits directories; the model's walk lists only the
  regular files, since the code skips directories.
- Exception types and messages are out. Every `IOException` the program
  throws becomes one of the `InstallError` kinds; a failure of
  `deleteIfExists` and one of `write` are both `FileWriteError`.
