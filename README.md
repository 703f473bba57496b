# nvm-desktop, modelled in Dafny

nvm-desktop is a desktop manager for Node.js versions. It installs releases from a mirror, records which version is current, and lets projects and groups of projects pin their own version through a `.nvmdrc` file. Two back ends exist: a Tauri back end written in Rust, and an older Electron back end written in TypeScript.

This project models the core of both back ends, the renderer's helpers, and two release scripts, and proves properties of the model.

**The Tauri back end (`src-tauri`)**
- The get-node crate:
  - the compile-target distribution table;
  - archive names with the arm64 fallback;
  - the version-index request;
  - the zip and tarball fetchers, over an abstract file system.
- The `Draft<T>` store that holds every configuration record.
- The settings, groups, node and projects records.
- The `core` commands for the current version, the version and installed lists, install and cancel, uninstall, projects, groups, and configuration export and import.
- The `cmds` wrappers that change behaviour.
- The older `node::list` variant.
- The json/text helpers and error macros.
- The shim migration.

**The Electron back end (`src/main`)**
- The `$placeholder$` translator and locale loading.
- The `get-node` library:
  - architecture table and version check;
  - options;
  - zip/raw/gz routing;
  - checksum;
  - download and its error text.
- The default mirror.
- The node-versions cache.
- The projects, groups, version and settings stores.
- The shim migration.

**The renderer (`src/renderer`, `src/lib`)**
- The comparison helpers.
- Theme application.
- The app context's reducer and `getMessage`.

**Scripts**
- `scripts/updatelog.mjs`: release notes are extracted by tag.
- `scripts/check.mjs`: the sidecar binary is downloaded.

**How the source's forms are kept**
- Pure code becomes functions with lemmas.
- Loops become methods whose loop invariants tie each step to a specification function.
- Objects and module caches that change in place become classes with `modifies` clauses:
  - `Draft<T>`;
  - the Electron stores' caches and files;
  - the progress throttle;
  - the cancel slot;
  - the root's class list.

**Inputs the model takes as parameters**
- The network, the disk's answers, the clock, environment variables and dialogs.
- Results the code cannot see from inside, such as whether a write succeeds, whether a file exists, or what a directory listing holds.

The file `wrappers.dfy` holds `Option`, `Result` and a `Status` (`Done | Failed(error)`). `strings.dfy` and `semver.dfy` hold the string and `major.minor.patch` helpers both back ends rely on.

## Model

| member | source | states |
|---|---|---|
| Distro.SupportedTargets | src-tauri/crates/get-node/src/node.rs:4-96 | exactly the eight listed `(target_os, target_arch)` pairs have a distro; every other target is the `compile_error!` branch |
| Distro.ArchIdOfTarget | src-tauri/crates/get-node/src/node.rs:4-96 | every supported target uses its CPU's Node arch id (x86, x64, arm64, armv7l) |
| Distro.WindowsDistros | src-tauri/crates/get-node/src/node.rs:5-39 | the Windows targets use "win" and "zip", and the identifiers `win-<arch>-zip` |
| Distro.MacDistros | src-tauri/crates/get-node/src/node.rs:40-65 | the macOS targets use "darwin" and "tar.gz", and the identifiers `osx-<arch>-tar` |
| Distro.LinuxDistros | src-tauri/crates/get-node/src/node.rs:66-92 | the Linux targets use "linux" and "tar.gz", and the identifiers `linux-<arch>` |
| Distro.FallbackIsX64 | src-tauri/crates/get-node/src/node.rs:32-39 | only the two aarch64 targets (Windows, macOS) have a fallback, and it is x64 with the x64 identifier |
| NodeArchive.ArchiveFilename | src-tauri/crates/get-node/src/node.rs:148-152 | the pair is the basename and the basename plus "." plus the distro extension |
| NodeArchive.MacArmChoice | src-tauri/crates/get-node/src/node.rs:116-130 | on Apple Silicon the basename is `node-v<v>-darwin-<arch>`, with arm64 exactly when major >= 16 |
| NodeArchive.WindowsArmChoice | src-tauri/crates/get-node/src/node.rs:132-146 | on Windows ARM the basename uses arm64 exactly when major >= 20, x64 otherwise |
| NodeArchive.ArchDependsOnMajorOnly | src-tauri/crates/get-node/src/node.rs:108-146 | two versions with the same major pick the same arch |
| NodeArchive.FixedArchElsewhere | src-tauri/crates/get-node/src/node.rs:108-114 | every other target's basename is `node-v<v>-<os>-<arch>` with its fixed arch |
| NodeArchive.BasenameRoundTrip | src-tauri/crates/get-node/src/node.rs:108-146 | the version can be read back from the basename |
| NodeArchive.ArchiveBasename | src-tauri/crates/get-node/src/node.rs:108-146 | `archive_basename`; NodeArchive.BasenameRoundTrip, NodeArchive.BasenameInjective and NodeArchive.BasenameTest state its properties |
| NodeArchive.NameRoundTrip | src-tauri/crates/get-node/src/node.rs:113 | the version field of `node-v<v>-<os>-<arch>` reads back as v whatever os and arch are |
| NodeArchive.BasenameInjective | src-tauri/crates/get-node/src/node.rs:108-146 | different versions never share an archive basename |
| NodeArchive.NoDashInShow | src-tauri/crates/get-node/src/node.rs:113 | a version's text has no '-', so it stays one field of the name |
| NodeArchive.BasenameTest | src-tauri/crates/get-node/src/node.rs:159-165 | 20.2.3 gives `node-v20.2.3-<os>-<arch>` on every target |
| NodeArchive.FilenameTest | src-tauri/crates/get-node/src/node.rs:167-176 | 20.2.3 gives `node-v20.2.3-<os>-<arch>.<ext>` on every target |
| NodeArchive.FallbackTests | src-tauri/crates/get-node/src/node.rs:178-224 | 15.2.3 on macOS arm64 and 19.2.3 on Windows arm64 give the x64 names and file names |
| VersionList.IndexUrl | src-tauri/crates/get-node/src/list.rs:62 | the index URL is the mirror with all trailing '/' removed, then "/index.json" |
| VersionList.VersionList | src-tauri/crates/get-node/src/list.rs:21-69 | a missing mirror fails with its message; the timeout defaults to 20000 ms; `no_proxy == Some(true)` disables every proxy; an enabled proxy replaces the system proxy with the parsable http/https/all ones; otherwise the builder is untouched; with a mirror the request is always built |
| VersionList.IndexUrlIgnoresTrailingSlashes | src-tauri/crates/get-node/src/list.rs:62 | appending any number of '/' to the mirror does not change the index URL |
| FsModel.CreateDirAll | src-tauri/crates/get-node/src/archive/zip.rs:74-81 | on success `p` is a directory; existing entries are untouched; new entries are directories on the way to `p`; a file on the way fails |
| FsModel.CreateNew | src-tauri/crates/get-node/src/archive/zip.rs:83-87 | succeeds exactly when the path is new and its parent is a directory, adding the file; a failure changes nothing |
| FsModel.Create | src-tauri/crates/get-node/src/archive/zip.rs:39 | succeeds exactly when the path is absent or a file and the parent is a directory, leaving an empty file |
| FsModel.RemoveFile | src-tauri/crates/get-node/src/archive/zip.rs:96 | succeeds exactly on an existing file, which it removes; otherwise nothing changes |
| FsModel.Rename | src-tauri/crates/get-node/src/archive/zip.rs:95 | succeeds exactly when the source exists, the target is new under a directory and not below the source; a failure changes nothing |
| FsModel.MoveInjective | src-tauri/crates/get-node/src/archive/zip.rs:95 | moving a subtree never merges two of its paths |
| FsModel.RenameMoves | src-tauri/crates/get-node/src/archive/zip.rs:95 | a rename lands the source on the target and leaves every path outside both subtrees as it was |
| Transfer.GoodPrefix | src-tauri/crates/get-node/src/archive/zip.rs:42-45 | the chunks before the first read or write error, which is where `chunk?` or `write_all(&chunk).await?` stops the loop |
| Transfer.StoreStatus | src-tauri/crates/get-node/src/archive/zip.rs:42-47 | the loop succeeds exactly when every chunk is read and written, otherwise it fails with the first error |
| Transfer.StoredWhole | src-tauri/crates/get-node/src/archive/zip.rs:42-47 | a body whose chunks are all stored leaves all of its bytes in the file |
| Transfer.Sums | src-tauri/crates/get-node/src/archive/zip.rs:42-47 | one running count per chunk |
| Transfer.SumsAt | src-tauri/crates/get-node/src/archive/zip.rs:44-46 | the count reported after chunk k is the byte total of chunks 0..k |
| Transfer.SumGrows | src-tauri/crates/get-node/src/archive/zip.rs:44 | a prefix never holds more bytes than the whole body |
| Transfer.SumsMonotone | src-tauri/crates/get-node/src/archive/tarball.rs:51-56 | reported counts never decrease, and the last one is the whole body |
| Transfer.WriteChunks | src-tauri/crates/get-node/src/archive/zip.rs:39-47 | stops at the first chunk that cannot be read or written, whose error fails the call; reports the running sums of the chunks written; the temporary file holds the bytes that reached it, a failed write's partial bytes included |
| ZipFetch.DownloadUrl | src-tauri/crates/get-node/src/archive/zip.rs:20 | `<mirror>/v<version>/<full_name>`; its property is ZipFetch.DownloadUrlDetermines |
| ZipFetch.DownloadUrlDetermines | src-tauri/crates/get-node/src/archive/zip.rs:20 | on one mirror the URL gives back the version directory (a version without '/') and the file name |
| ZipFetch.DownloadEvents | src-tauri/crates/get-node/src/archive/zip.rs:46 | one ("download", count, total) event per chunk, in order |
| ZipFetch.Unzip | src-tauri/crates/get-node/src/archive/zip.rs:61-92 | the loop over the entries equals the index-order extraction that stops at the first failure |
| ZipFetch.UnzipEvents | src-tauri/crates/get-node/src/archive/zip.rs:91 | one ("unzip", index + 1, total) event per extracted entry, in index order |
| ZipFetch.ExtractEntry | src-tauri/crates/get-node/src/archive/zip.rs:61-92 | one entry's extraction; its properties are ZipFetch.ExistingDirectoryAccepted, ZipFetch.ExistingFileRejected, ZipFetch.EntryKeeps and ZipFetch.BrokenCopyFails |
| ZipFetch.ExtractFrom | src-tauri/crates/get-node/src/archive/zip.rs:61-92 | the entries in index order, stopping at the first failure; ZipFetch.Unzip, ZipFetch.UnzipEvents and ZipFetch.ExtractionKeeps state its properties |
| ZipFetch.ExistingDirectoryAccepted | src-tauri/crates/get-node/src/archive/zip.rs:71-75 | a directory entry that already exists is accepted and changes nothing |
| ZipFetch.ExistingFileRejected | src-tauri/crates/get-node/src/archive/zip.rs:76-89 | a file entry whose path exists fails (create_new), and fails with AlreadyExists when its parent is a directory |
| ZipFetch.ExtractionKeeps | src-tauri/crates/get-node/src/archive/zip.rs:61-92 | extraction never changes or removes what was on disk before |
| ZipFetch.EntryKeeps | src-tauri/crates/get-node/src/archive/zip.rs:68-89 | one entry's extraction keeps every existing path |
| ZipFetch.Fetch | src-tauri/crates/get-node/src/archive/zip.rs:13-100 | each early failure leaves the disk and events untouched (bad version, send error, HTTP failure, missing content length); then creating the temporary file, a chunk's read or write, opening the archive and each entry, its data copy included, fail with their own error, each with the events reported so far and the disk it leaves (the partial temporary file, the extraction's disk); success exactly when all of them succeed, with the download, the extraction and the final rename and remove |
| ZipFetch.BrokenCopyFails | src-tauri/crates/get-node/src/archive/zip.rs:83-88 | a file entry whose data copy fails returns the error and leaves its new file with the bytes copied |
| Tarball.ArchiveFilename | src-tauri/crates/get-node/src/archive/tarball.rs:84-86 | the basename plus ".tar.gz"; its property is Tarball.ArchiveFilenameDetermines |
| Tarball.ArchiveFilenameDetermines | src-tauri/crates/get-node/src/archive/tarball.rs:84-86 | the temporary file's name determines the version, so two versions never share it |
| Tarball.Unpack | src-tauri/crates/get-node/src/archive/tarball.rs:68-76 | the entry loop equals the specification that stops at the first unreadable entry or failed unpack |
| Tarball.UnpackEvents | src-tauri/crates/get-node/src/archive/tarball.rs:72-75 | after each entry the callback receives the running sum of header sizes against the response's total |
| Tarball.UnpackIn | src-tauri/crates/get-node/src/archive/tarball.rs:73 | `unpack_in` of one entry; Tarball.EscapingEntrySkipped and Tarball.UnpackKeeps state its properties |
| Tarball.UnpackFrom | src-tauri/crates/get-node/src/archive/tarball.rs:68-76 | the entry loop stopping at the first failure; Tarball.Unpack and Tarball.UnpackEvents state its properties |
| Tarball.EscapingEntrySkipped | src-tauri/crates/get-node/src/archive/tarball.rs:73 | an entry climbing out of `dest` with `..` is skipped without error and changes nothing |
| Tarball.DownloadEvents | src-tauri/crates/get-node/src/archive/tarball.rs:51-56 | one (count, total) callback per chunk written |
| Tarball.Fetch | src-tauri/crates/get-node/src/archive/tarball.rs:30-82 | send error, HTTP failure and missing length fail before any write; then creating the temporary file, a chunk's read or write, opening the entry stream, an entry and the removal each fail with their own error, with the disk and events as left at that point; success exactly when every step succeeds, with every chunk written, every entry unpacked and the temporary file removed |
| Tarball.UnpackKeeps | src-tauri/crates/get-node/src/archive/tarball.rs:70-76 | unpacking never deletes a path, so the temporary file is still there for the removal at the end |
| Tarball.NoFallbackBeforeSixteen | src-tauri/crates/get-node/src/archive/tarball.rs:88-96 | despite its comment, 15.2.3 still gives the arm64 name |
| Tarball.ArchiveBasename | src-tauri/crates/get-node/src/archive/tarball.rs:88-96 | always the arm64 name, as Tarball.NoFallbackBeforeSixteen states for 15.2.3 |
| Semver.ParseShow | src-tauri/crates/get-node/src/archive/zip.rs:19 | a version's text parses back to the version |
| Semver.Parse | src-tauri/crates/get-node/src/archive/zip.rs:19 | `Version::parse` on `major.minor.patch`; Semver.ParseShow and Semver.ShowParse state that it inverts Semver.Show |
| Semver.ShowParse | src-tauri/crates/get-node/src/archive/zip.rs:19 | a text that parses is the canonical text of its version |
| Semver.Compare | src-tauri/src/core/node.rs:146-151 | -1, 0 and 1 mean exactly less, equal and greater |
| Semver.LtIrreflexive | src-tauri/src/core/node.rs:146-151 | no version precedes itself |
| Semver.LtTransitive | src-tauri/src/core/node.rs:146-151 | precedence is transitive |
| Semver.LtTotal | src-tauri/src/core/node.rs:146-151 | any two versions are ordered or equal |
| Drafts.LatestIsNewest | src-tauri/src/config/draft.rs:18-26 | `latest()` is the draft when one exists, otherwise the committed value |
| Drafts.DraftIsolated | src-tauri/src/config/draft.rs:28-36 | edits through `draft()` never reach `data()`; `latest()` shows them, composed in order |
| Drafts.ApplyCommits | src-tauri/src/config/draft.rs:38-49 | `apply()` commits the newest value, drops the draft and returns the old committed value |
| Drafts.ApplyNothing | src-tauri/src/config/draft.rs:47 | without a draft `apply()` returns None and changes nothing; a second `apply()` always does nothing |
| Drafts.ApplyKeepsLatest | src-tauri/src/config/draft.rs:38-49 | the newest value is the same before and after `apply()` |
| Drafts.DiscardRestores | src-tauri/src/config/draft.rs:51-54 | `discard()` hands back the draft and leaves the committed value, so an edited draft is forgotten |
| Drafts.EditLatestThenApply | src-tauri/src/config/draft.rs:18-49 | an edit through `latest()` followed by `apply()` commits the edited newest value |
| Drafts.Draft.constructor | src-tauri/src/config/draft.rs:57-63 | `From<T>` commits the value with no draft |
| Drafts.Draft.Data | src-tauri/src/config/draft.rs:14-16 | the committed value |
| Drafts.Draft.Newest | src-tauri/src/config/draft.rs:18-26 | the draft if any, otherwise the committed value |
| Drafts.Draft.EditDraft | src-tauri/src/config/draft.rs:28-36 | the new store is the old one with the draft cloned if needed and edited |
| Drafts.Draft.EditLatest | src-tauri/src/config/draft.rs:18-26 | the edit reaches the draft if any, otherwise the committed value |
| Drafts.Draft.EditData | src-tauri/src/config/draft.rs:14-16 | the edit reaches the committed value even under a draft |
| Drafts.Draft.Apply | src-tauri/src/config/draft.rs:38-49 | new store and result are those of `apply()` on the old store |
| Drafts.Draft.Discard | src-tauri/src/config/draft.rs:51-54 | new store and result are those of `discard()` on the old store |
| Drafts.DraftTest | src-tauri/src/config/draft.rs:72-109 | the crate's `test_draft` sequence of reads, edits and applies gives the values it asserts |
| Settings.Template | src-tauri/src/config/settings.rs:51-62 | the template: install directory, silent start off, "en", no proxy, the nodejs.org mirror, no_proxy off, "system" |
| Settings.Load | src-tauri/src/config/settings.rs:40-48 | the parsed file, or the template when reading or parsing failed |
| Settings.PatchSettings | src-tauri/src/config/settings.rs:95-114 | every field present in the patch overwrites, every absent one is kept, and the save's result is returned |
| Settings.EmptyPatch | src-tauri/src/config/settings.rs:96-111 | a patch with no field changes nothing |
| Settings.PatchIdempotent | src-tauri/src/config/settings.rs:96-111 | patching twice with the same record is patching once |
| Settings.PatchCompose | src-tauri/src/config/settings.rs:96-111 | two patches equal one whose fields take the later patch where present |
| Settings.FullPatchReplaces | src-tauri/src/config/settings.rs:96-111 | a patch with every field replaces the record |
| Groups.DecodeGroup | src-tauri/src/config/groups.rs:5-23 | a missing `projects` field decodes as the empty list; the other fields are kept |
| Groups.Load | src-tauri/src/config/groups.rs:32-45 | the list read from the file, or the empty template |
| Groups.Without | src-tauri/src/config/groups.rs:75 | `retain(p != path)` leaves `path` out and adds nothing |
| Groups.WithoutKeepsOthers | src-tauri/src/config/groups.rs:75 | every other path keeps its number of occurrences; without `path` the list is unchanged |
| Groups.FirstWith | src-tauri/src/config/groups.rs:73-74 | the first group holding the path |
| Groups.UpdateProjects | src-tauri/src/config/groups.rs:70-84 | only the first group holding the path loses it, and `true` is returned; with no holder the list is unchanged and `false` is returned |
| Groups.NoGroupNoVersion | src-tauri/src/config/groups.rs:102-105 | no group of that name means no version |
| Groups.UpdateProjectsVersion | src-tauri/src/config/groups.rs:89-110 | each group is regrouped: path removed everywhere, appended to every group of that name; the version is the last such group's |
| Groups.RegroupedMembership | src-tauri/src/config/groups.rs:97-106 | afterwards the path is in exactly the named groups, once and last |
| Groups.RegroupedUntouched | src-tauri/src/config/groups.rs:97-106 | a group neither holding the path nor named so is unchanged |
| Groups.UpdateList | src-tauri/src/config/groups.rs:58-61 | the list is replaced in memory |
| Groups.UpdateGroups | src-tauri/src/config/groups.rs:64-67 | the list is replaced and the save's result returned |
| Installed.Keep | src-tauri/src/utils/help.rs:50-61 | the kept names are listed names that hold a Node binary |
| Installed.KeepInOrder | src-tauri/src/utils/help.rs:50-61 | the kept names are a subsequence of the listing, in its order |
| Installed.KeepComplete | src-tauri/src/utils/help.rs:58-60 | no listed name holding a binary is left out |
| Installed.Collect | src-tauri/src/utils/help.rs:49-63 | the loop pushes exactly the kept names |
| Installed.ReadInstalled | src-tauri/src/utils/help.rs:43-64 | a missing directory gives the empty list, an unreadable one its error, otherwise the kept names |
| Help.ReadString | src-tauri/src/utils/help.rs:5-8 | the text, or the "failed to read the file" message |
| Help.ReadJson | src-tauri/src/utils/help.rs:11-25 | missing file, read failure and parse failure each give their message; otherwise the decoded value |
| Help.JsonTextSplits | src-tauri/src/utils/help.rs:32-35 | the written text is the json, or the prefix, a blank line and the json |
| Help.SaveJson | src-tauri/src/utils/help.rs:29-40 | an encoding error is returned as is, a failed write as "failed to save file", success writes the text |
| Help.SaveThenRead | src-tauri/src/utils/help.rs:11-40 | saving without prefix and reading back gives the saved value, for a decoder inverse to the encoder |
| Help.WrapErr | src-tauri/src/utils/help.rs:93-103 | success value passed through, error turned into its message |
| Help.LogErr | src-tauri/src/utils/help.rs:67-79 | a line is logged exactly on error (the error, or the given message); nothing is returned |
| CoreNode.GetCurrent | src-tauri/src/core/node.rs:37-48 | without fetch the newest value is returned unchanged; a failed sync returns its error; otherwise the synced version is applied and returned |
| CoreNode.SetCurrent | src-tauri/src/core/node.rs:51-59 | the version ("" for none) is committed with no draft left, and the save's result is returned |
| CoreNode.MenuUpdateIntended | src-tauri/src/core/node.rs:62-86 | a failed tray update discards the draft and is returned; otherwise the version is committed and the save's result returned |
| CoreNode.MenuFailureIgnored | src-tauri/src/core/node.rs:66-71 | as written the version is committed and the save reported whatever the tray does; this differs from the intent exactly when the tray fails |
| CoreNode.MenuUpdate | src-tauri/src/core/node.rs:62-86 | the menu update as written; CoreNode.MenuFailureIgnored states that a tray failure is dropped |
| CoreNode.UpdateCurrentFromMenu | src-tauri/src/core/node.rs:62-86 | the command on the shared store does what the as-written function says |
| CoreNode.GetVersionList | src-tauri/src/core/node.rs:91-114 | without fetch the newest cached list; a failed fetch changes nothing; otherwise the list is committed and returned |
| CoreNode.InsertDescPerm | src-tauri/src/core/node.rs:146-151 | insertion adds exactly one element |
| CoreNode.InsertDescSorted | src-tauri/src/core/node.rs:146-151 | insertion keeps a list newest first |
| CoreNode.TailSorted | src-tauri/src/core/node.rs:146-151 | the tail of a newest-first list is newest first |
| CoreNode.ConsSorted | src-tauri/src/core/node.rs:146-151 | an element at least as new as the head extends a newest-first list |
| CoreNode.SortedFromFirst | src-tauri/src/core/node.rs:146-151 | an element at least as new as all others can lead the list |
| CoreNode.SortDescending | src-tauri/src/core/node.rs:146-151 | newest first and a permutation of the input; a non-version name among two or more hits `unreachable!` |
| CoreNode.GetInstalledList | src-tauri/src/core/node.rs:117-158 | without fetch the stored list; with it the kept entries of the newest directory, sorted newest first, stored and returned; a missing directory gives the empty list |
| CoreNode.Throttle.constructor | src-tauri/src/core/node.rs:175 | the last emission is the start time |
| CoreNode.Throttle.Offer | src-tauri/src/core/node.rs:193-207 | an event is forwarded exactly when 300 ms have passed since the last forwarded one, which then becomes the last |
| CoreNode.ForwardedSpacing | src-tauri/src/core/node.rs:193-207 | forwarded events are events, in order, each at least 300 ms after the previous forwarded one |
| CoreNode.Throttled | src-tauri/src/core/node.rs:192-208 | running a sequence of events through one throttle forwards exactly the specified ones |
| CoreNode.CancelSlot.constructor | src-tauri/src/core/node.rs:26-27 | the slot starts empty |
| CoreNode.CancelSlot.Install | src-tauri/src/core/node.rs:177-181 | a fresh uncancelled channel replaces whatever the slot held |
| CoreNode.CancelSlot.Cancel | src-tauri/src/core/node.rs:215-224 | always Ok; the stored channel, if any, is signalled |
| CoreNode.CancelReachesLatestOnly | src-tauri/src/core/node.rs:177-181 | with two installs in flight, a cancel reaches only the later one |
| CoreNode.InstallNode | src-tauri/src/core/node.rs:161-212 | no version fails before anything else; a missing mirror or directory panics; otherwise the fetch config carries the settings and the slot holds the new channel |
| CoreNode.UninstallNode | src-tauri/src/core/node.rs:227-259 | no directory does nothing; otherwise both removals run and the version's error takes precedence |
| CoreProject.SaveRc | src-tauri/src/core/project.rs:85-86 | succeeds exactly in a writable folder, writing the version |
| CoreProject.UpdateProjectVersion | src-tauri/src/core/project.rs:80-89 | a missing folder gives 404 with no write; a writable one gets the version and 200; a read-only one fails |
| CoreProject.UpdateProjects | src-tauri/src/core/project.rs:69-77 | a failed `.nvmdrc` removal aborts before the list changes; otherwise the list is committed and saved |
| CoreProject.BatchUpdateProjectVersion | src-tauri/src/core/project.rs:92-110 | every write is attempted, and the batch succeeds exactly when every folder is writable |
| CoreProject.WriteAllWrites | src-tauri/src/core/project.rs:93-103 | after a batch every writable listed folder holds the version, and unlisted folders keep theirs |
| CoreProject.WriteAllKeeps | src-tauri/src/core/project.rs:93-103 | a folder outside the batch keeps its `.nvmdrc` |
| CoreProject.SetVersion | src-tauri/src/core/project.rs:121-127 | every project with that name gets the version; the others are unchanged |
| CoreProject.LastPathIffNamed | src-tauri/src/core/project.rs:122-123 | there is a path exactly when some project has that name |
| CoreProject.DropPath | src-tauri/src/core/project.rs:133-138 | the path leaves every group, names and versions stay, and groups without it are unchanged |
| CoreProject.ChangeWithVersion | src-tauri/src/core/project.rs:113-149 | no list does nothing; otherwise the named projects are written, dropped from their groups and saved, stopping at the first error |
| CoreProject.WriteProjects | src-tauri/src/core/project.rs:121-127 | the loop equals the specification of the writes; on success the list has the version set and the last path |
| CoreProject.DropFromGroups | src-tauri/src/core/project.rs:132-138 | the path is dropped from each group, and `need_update` says whether some group held it |
| CoreProject.FirstNamed | src-tauri/src/core/project.rs:166-172 | the first project with that name (the loop breaks there) |
| CoreProject.ChangeWithGroup | src-tauri/src/core/project.rs:152-208 | missing lists, missing project or a versionless group return Ok with nothing changed; otherwise the first named project joins the group and all three writes happen |
| Configration.ExportData | src-tauri/src/core/configration.rs:55-89 | the colour always; settings and mirrors only when asked; projects and groups only when asked |
| Configration.FirstGroupNamed | src-tauri/src/core/configration.rs:117 | `find` gives the first group of that name |
| Configration.Effective | src-tauri/src/core/configration.rs:114-120 | a version naming a group gives that group's version; any other version is kept; no version means no sync |
| Configration.SyncWrites | src-tauri/src/core/configration.rs:112-126 | a successful sync leaves each project's effective version in its folder |
| Configration.SyncKeeps | src-tauri/src/core/configration.rs:112-126 | a folder no project names keeps its `.nvmdrc` |
| Configration.SyncVersions | src-tauri/src/core/configration.rs:113-125 | the loop equals the sync specification, stopping at the first failure |
| Configration.Import | src-tauri/src/core/configration.rs:92-158 | each failure path (no file, URL, unreadable, undecodable, sync, save) as the code orders them; non-empty lists are committed and saved; the setting and mirrors are handed back |
| Configration.ExportImportRoundTrip | src-tauri/src/core/configration.rs:55-158 | exporting everything and importing without sync hands back the settings and mirrors and commits the projects and groups |
| Cmds.UpdateSettingsIntended | src-tauri/src/cmds.rs:46-63 | a failed save is returned and the patched draft left in place; otherwise as the command |
| Cmds.UpdateSettingsEffect | src-tauri/src/cmds.rs:46-63 | the patch is committed with no draft, the installed list is refreshed exactly when the directory changes, the tray exactly when locale or directory changes, and the result is Ok |
| Cmds.SaveFailureHidden | src-tauri/src/cmds.rs:50 | a failed save is reported as success as written, and as the error in the corrected version |
| Cmds.UpdateSettings | src-tauri/src/cmds.rs:46-63 | the command as written; Cmds.SaveFailureHidden states that it drops a failed save |
| Cmds.UpdateSettingsCommand | src-tauri/src/cmds.rs:46-63 | the command on the shared store follows the corrected function |
| Cmds.UninstallNode | src-tauri/src/cmds.rs:83-90 | no version fails with "version should not be null" before touching the disk; otherwise as `core::node` |
| NodeList.GetInstalledList | src-tauri/src/node/list.rs:37-72 | without fetch the stored list; a missing directory setting fails; otherwise the kept entries unsorted, committed and stored, and returned, since `update_installed` never fails |
| NodeList.ListingOrderKept | src-tauri/src/node/list.rs:53-65 | a name is in the list exactly when it is listed and holds a binary, and the list keeps the listing's order |
| Migrate.ParseI16 | src-tauri/src/utils/migrate.rs:48 | `parse::<i16>` only yields numbers in the i16 range |
| Migrate.ParseShown | src-tauri/src/utils/migrate.rs:129-132 | a saved schema number parses back |
| Migrate.SchemaVersion | src-tauri/src/utils/migrate.rs:46-54 | an unreadable or unparsable file reads as 0, otherwise its number |
| Migrate.Plan | src-tauri/src/utils/migrate.rs:30-43 | schema 0 runs only the basic step, a stale schema runs the last step, a current or newer one runs nothing |
| Migrate.ExeCopiesExactly | src-tauri/src/utils/migrate.rs:97-106 | exactly the `*.exe` entries are overwritten with the new shim |
| Migrate.WindowsBasicCounts | src-tauri/src/utils/migrate.rs:63-69 | the Windows basic step copies 4 executables and 3 command scripts, none for node |
| Migrate.Run | src-tauri/src/utils/migrate.rs:57-119 | operations run in order until the first failing one, whose error is returned |
| Migrate.RunOps | src-tauri/src/utils/migrate.rs:57-119 | the `?`-chained body equals the specification |
| Migrate.SavedOnlyAfterAll | src-tauri/src/utils/migrate.rs:70 | the final save happens exactly when every operation succeeded |
| Migrate.AppendSave | src-tauri/src/utils/migrate.rs:129-132 | a body without a save followed by the save saves last |
| Migrate.StepsSaveLast | src-tauri/src/utils/migrate.rs:57-119 | every step on every platform saves the current schema last and nowhere else |
| Migrate.ShimsNoSave | src-tauri/src/utils/migrate.rs:64-69 | the shim copies are only copies |
| Migrate.UpdateSchemaOutcome | src-tauri/src/utils/migrate.rs:30-43 | per platform: schema 0 runs the basic step, a stale one the last step, a current one nothing |
| Migrate.UpdateSchema | src-tauri/src/utils/migrate.rs:30-43 | `update_schema`; Migrate.UpdateSchemaOutcome states its outcome per platform |
| Compare.SupportKey | src/renderer/src/util.ts:13-20 | `osx-<arch>` on darwin, `win-<arch>` on win32, `<platform>-<arch>` otherwise; never empty |
| Compare.FindContaining | src/renderer/src/util.ts:22 | the first file containing the key |
| Compare.CheckSupportiveMeans | src/renderer/src/util.ts:13-23 | the check holds exactly when some file contains the key |
| Compare.CheckSupportive | src/renderer/src/util.ts:13-23 | `checkSupportive`; Compare.CheckSupportiveMeans and Compare.NonEmptyContainer state what it decides |
| Compare.NonEmptyContainer | src/renderer/src/util.ts:22 | a file containing a non-empty key is truthy |
| Compare.JsGt | src/renderer/src/util.ts:29 | `semver.gt` throws unless both parse, and otherwise is precedence |
| Compare.CompareVersionSigns | src/renderer/src/util.ts:25-30 | -1 exactly when the first is lower; never 0; equal versions give 1 both ways; different versions give opposite signs |
| Compare.CompareVersion | src/renderer/src/util.ts:25-30 | `compareVersion`; Compare.CompareVersionSigns, Compare.CompareVersionFlagRange and Compare.ComparatorsFailAlike state its properties |
| Compare.CompareVersionFlagRange | src/renderer/pages/versions/util.ts:16-21 | the boolean form gives 1 exactly when the second is greater, else 0, never negative |
| Compare.ComparatorsFailAlike | src/renderer/pages/versions/util.ts:16-21 | both comparators throw the same error on the same bad input |
| Compare.FilterIn | src/lib/utils/compare.ts:25-27 | an element is kept exactly when its set membership matches the filter |
| Compare.FilterSubsequence | src/lib/utils/compare.ts:25-27 | a filter keeps the order of its input |
| Compare.FilterSplits | src/lib/utils/compare.ts:26-27 | the keep and drop filters split the input as a multiset |
| Compare.FilterKeepsCount | src/lib/utils/compare.ts:25-27 | a kept element keeps all its occurrences |
| Compare.CompareArrayMembers | src/lib/utils/compare.ts:21-34 | added is in b and not a, removed in a and not b, unchanged in both |
| Compare.CompareArrayParts | src/lib/utils/compare.ts:21-34 | removed and unchanged partition a; all three keep their source's order; added keeps every occurrence |
| Compare.Lookup | src/lib/utils/compare.ts:48-49 | a missing key reads as `undefined` |
| Compare.LookupDistinct | src/lib/utils/compare.ts:48-49 | with distinct keys each key reads its own value |
| Compare.Get | src/lib/utils/compare.ts:48-49 | `obj[key]` of a missing key is `undefined` |
| Compare.ShallowEqualCounts | src/lib/utils/compare.ts:43-45 | different key counts are never equal |
| Compare.ShallowEqual | src/lib/utils/compare.ts:39-62 | `shallowEqual`; Compare.ShallowEqualCounts, Compare.ShallowEqualReflexive, Compare.NaNNotReflexive, Compare.ShallowEqualAsymmetric and Compare.NullComparedStrictly state its properties |
| Compare.StrictEq | src/lib/utils/compare.ts:55 | `===`; Compare.StrictEqTyped states its cases |
| Compare.StrictEqTyped | src/lib/utils/compare.ts:55 | `===` tells apart values of different types and `NaN` from itself, and equates `0` with `-0` |
| Compare.ShallowEqualReflexive | src/lib/utils/compare.ts:39-62 | an object with distinct keys at every level and no `NaN` is equal to itself |
| Compare.NaNNotReflexive | src/lib/utils/compare.ts:51-56 | an object holding `NaN` is not equal to itself |
| Compare.ShallowEqualAsymmetric | src/lib/utils/compare.ts:47-59 | only the first object's keys are read: `{a: undefined}` equals `{b: 1}` |
| Compare.NullComparedStrictly | src/lib/utils/compare.ts:51-55 | `null` is compared with `===`, so it equals only `null` |
| Compare.CompareObject | src/renderer/src/util.ts:34-42 | the loop returns true exactly when every key of the first object has a `===` value in the second |
| Compare.AgreesOnTyped | src/renderer/src/util.ts:37 | `{a: 1}` and `{a: "1"}` disagree, as do two objects holding `NaN`; equal numbers agree |
| Compare.AgreesOnOneSided | src/renderer/src/util.ts:36-40 | the empty object agrees with everything, but not the other way round |
| Theme.ThemedMeans | src/renderer/src/util.ts:4-11 | the theme is present afterwards; if it was there nothing changes; otherwise the other theme class goes and the rest stays |
| Theme.ThemedIdempotent | src/lib/utils/apply-theme.ts:4-11 | applying a theme twice is applying it once |
| Theme.ClassList.constructor | src/renderer/src/util.ts:5 | the root element's initial classes |
| Theme.ClassList.ApplyTheme | src/renderer/src/util.ts:4-11 | the class list becomes the themed one |
| I18n.Filled | src/main/i18n.ts:55-61 | `value \|\| ''`: the value's text when truthy, '' otherwise |
| I18n.NextDollar | src/main/i18n.ts:43 | the first '$' at or after a position |
| I18n.NextPlaceholder | src/main/i18n.ts:43-45 | the next `$name$` match: an opening and a closing '$' with at least one character and no '$' between |
| I18n.NoPlaceholderWithoutDollar | src/main/i18n.ts:43-45 | without a '$' there is no match |
| I18n.RenderWithoutDollar | src/main/i18n.ts:45-71 | a message without '$' is returned unchanged |
| I18n.Render | src/main/i18n.ts:45-71 | the placeholder loop's text; I18n.RenderWithoutDollar, I18n.RenderCopiesText, I18n.RenderStep, I18n.RenderEnd and I18n.FormatPlaceholders state its properties |
| I18n.RenderCopiesText | src/main/i18n.ts:49-69 | with every placeholder mapped to itself the message comes back unchanged |
| I18n.RenderStep | src/main/i18n.ts:50-64 | one loop step appends the text before the match and the value |
| I18n.RenderEnd | src/main/i18n.ts:67-69 | with no more matches the rest is appended |
| I18n.FormatPlaceholders | src/main/i18n.ts:43-71 | the `exec` loop builds the specified text |
| I18n.LazyEnd | src/main/i18n.ts:38 | the closing '$' of `/\$.+?\$/`: the first one after at least one character, with no line terminator before it |
| I18n.FirstSpan | src/main/i18n.ts:38 | the leftmost match; none exactly when no match opens |
| I18n.ReplaceFirstSpan | src/main/i18n.ts:38 | `replace` changes only the leftmost match, or nothing when there is none |
| I18n.ReducedSmall | src/main/i18n.ts:35-40 | an empty array keeps the message; one item replaces the first span |
| I18n.ReplaceWithoutDollar | src/main/i18n.ts:38 | a message without '$' has nothing to replace |
| I18n.Setup | src/main/i18n.ts:3-9 | a falsy locale or missing table throws its error; otherwise the translator |
| I18n.SetupKeepsLocale | src/main/i18n.ts:74 | `getLocale` returns the locale given to `setup` |
| I18n.GetMessage | src/main/i18n.ts:11-72 | the method equals the specification of `getMessage` |
| I18n.MessageCases | src/main/i18n.ts:12-40 | an unknown key gives ''; it throws exactly for multi-item arrays and string or number substitutions; absent substitutions give the message |
| I18n.Message | src/main/i18n.ts:11-72 | the main process's `getMessage`; I18n.MessageCases, I18n.GetMessage and I18n.TranslatorsCompared state its properties |
| I18n.AppGetMessage | src/renderer/src/app-context.tsx:156-206 | the method equals the renderer's `getMessage` |
| I18n.AppMessage | src/renderer/src/app-context.tsx:156-206 | the renderer's `getMessage`; I18n.AppGetMessage and I18n.TranslatorsCompared state its properties |
| I18n.TranslatorsCompared | src/renderer/src/app-context.tsx:156-206 | the two translators agree on known keys; on unknown keys the renderer returns the key, and multi-item arrays do not throw there |
| I18n.Reduce | src/renderer/src/app-context.tsx:65-77 | both actions spread the payload over the state (payload wins, other fields kept), others return the state |
| I18n.ReduceIdempotent | src/renderer/src/app-context.tsx:65-77 | dispatching an action twice is dispatching it once |
| I18n.OnUpdateSetting | src/renderer/src/app-context.tsx:119-144 | a theme is applied exactly when it changed (the system theme for "system"); messages reload exactly when the locale changed; the setting is merged |
| I18n.UpdateSettingReloads | src/renderer/src/app-context.tsx:119-144 | afterwards the state holds the new settings over the old and the loaded messages when the locale changed |
| Locale.NormalizeLocaleName | src/main/locale.ts:8-14 | every `en-` locale becomes "en"; others are kept |
| Locale.OnDiskNameMeans | src/main/locale.ts:17 | only the first '-' becomes '_' |
| Locale.OnDiskName | src/main/locale.ts:17 | `locale.replace("-", "_")`; Locale.OnDiskNameMeans states what it changes |
| Locale.Overlay | src/main/locale.ts:41-45 | the locale's messages win key by key over English, which fills the rest |
| Locale.LoadLocale | src/main/locale.ts:26-61 | a falsy locale throws, as does an unreadable English table; an unreadable locale falls back to English; the translator keeps the app locale |
| Locale.EnglishOverlaysItself | src/main/locale.ts:41-45 | overlaying English on itself changes nothing |
| GetNode.Platforms | src/main/deps/get-node/arch.ts:18-28 | defined exactly on the table's keys |
| GetNode.ValidateArch | src/main/deps/get-node/arch.ts:31-40 | passes exactly on a table key, and otherwise throws the message listing them |
| GetNode.GetArch | src/main/deps/get-node/arch.ts:44-52 | AIX always "ppc64", otherwise the table entry |
| GetNode.ArchTable | src/main/deps/get-node/arch.ts:18-28 | every table entry as written; the `Arch` names not in the table give `undefined` |
| GetNode.CheckVersion | src/main/deps/get-node/version.ts:8-16 | an invalid version throws "Invalid Version"; anything below 0.8.6 is rejected; the rest pass |
| GetNode.CheckVersionBoundary | src/main/deps/get-node/version.ts:8-16 | 0.8.6 passes and 0.8.5 fails |
| GetNode.GetOpts | src/main/deps/get-node/options.ts:83-109 | a non-plain object throws; each missing field takes its default |
| GetNode.GetOptsDefaults | src/main/deps/get-node/options.ts:83-109 | the empty options give every default |
| GetNode.ShouldUseZipRanges | src/main/deps/get-node/archive/zip.ts:12-15 | zip exactly for `^4.5.0 \|\| >=6.2.1`: never for 5.x, 6.0.x, 6.1.x, 6.2.0 or below 4.5.0 |
| GetNode.ShouldUseZip | src/main/deps/get-node/archive/zip.ts:12-15 | `semver.satisfies` on the zip range; GetNode.ShouldUseZipRanges states which versions pass |
| GetNode.RawFilepath | src/main/deps/get-node/archive/raw.ts:24-39 | an invalid version throws; from 4.0.0 `win-<arch>/node.exe`, before it the old layout |
| GetNode.RouteFor | src/main/deps/get-node/archive/index.ts:9-72 | Windows takes zip when available and raw otherwise; supported Unix takes gz; anything else throws "Unsupported platform" |
| GetNode.FirstLineFor | src/main/deps/get-node/checksum.ts:48-59 | the first line whose second field is the file |
| GetNode.ExpectedChecksum | src/main/deps/get-node/checksum.ts:48-59 | the first field of that line, or none |
| GetNode.CheckChecksum | src/main/deps/get-node/checksum.ts:19-41 | no message exactly when the expected checksum is the actual one; each failure becomes its message |
| GetNode.ChecksumListed | src/main/deps/get-node/checksum.ts:48-86 | a checksum file in the mirror's format yields the listed checksum |
| GetNode.SplitLine | src/main/deps/get-node/checksum.ts:79-80 | the first line of a text starting with a line is that line |
| GetNode.SplitTwoFields | src/main/deps/get-node/checksum.ts:83-86 | two space-free fields separated by spaces split into those two fields |
| GetNode.GetDownloadError | src/main/deps/get-node/download.ts:113-130 | a DNS failure names the mirror, a 404 names the missing version, others pass through |
| GetNode.DownloadErrorOrder | src/main/deps/get-node/download.ts:113-130 | a message with both markers is classified as the DNS failure |
| GetNode.RemoveTree | src/main/deps/get-node/download.ts:144-146 | everything at or below the path goes; nothing else does |
| GetNode.DownloadAsWritten | src/main/deps/get-node/download.ts:14-31 | an existing installation is returned without downloading; a failure changes nothing outside the temporary path |
| GetNode.Download | src/main/deps/get-node/download.ts:14-146 | an existing installation is returned as is; otherwise nothing below the temporary path survives; the download is atomic: a failure changes nothing outside the temporary path, so with nothing there before it leaves the disk as it was |
| GetNode.DownloadFailureKeeps | src/main/deps/get-node/download.ts:40-66 | a failed download, wherever below the temporary path the raw binary is written, leaves the disk outside that path unchanged |
| GetNode.RuntimeStaysInTmp | src/main/deps/get-node/archive/index.ts:9-72 | fetching and unpacking the runtime touches only paths below the temporary path |
| GetNode.DownloadWith | src/main/deps/get-node/download.ts:14-146 | the download with the raw binary's place as a parameter; GetNode.Download, GetNode.DownloadFailureKeeps and GetNode.DownloadWithInstalls state its properties |
| GetNode.DownloadRuntime | src/main/deps/get-node/archive/index.ts:9-72 | the route's fetch and unpacking into the temporary path; GetNode.RuntimeStaysInTmp and GetNode.RawRuntime state its properties |
| GetNode.MoveTreeLands | src/main/deps/get-node/download.ts:132-139 | moving a tree puts each file below the target |
| GetNode.AbsentBelow | src/main/deps/get-node/download.ts:132-139 | nothing exists below a path where nothing exists |
| GetNode.ExistsAdded | src/main/deps/get-node/archive/raw.ts:16 | adding a file makes exactly it and its ancestors exist |
| GetNode.RawRuntime | src/main/deps/get-node/archive/raw.ts:9-21 | the raw route on a healthy network adds the binary at its target |
| GetNode.RawInstallFails | src/main/deps/get-node/download.ts:58-66 | as written, a healthy raw Windows download fails because the binary is not under tmpFile/version |
| GetNode.DownloadWithInstalls | src/main/deps/get-node/download.ts:51-66 | when the runtime lands under tmpFile/version, the version's binary ends up installed |
| GetNode.RawInstallFixed | src/main/deps/get-node/download.ts:51-66 | with the binary written under tmpFile/version, a healthy raw download installs it and cleans up |
| GetNode.PrefixesOrdered | src/main/deps/get-node/download.ts:132-146 | two prefixes of one path are ordered |
| GetNode.InstalledSurvives | src/main/deps/get-node/download.ts:144-146 | the installed binary survives the temporary path's removal |
| Mirror.FirstSet | src/main/deps/fetch-node-website/mirror.ts:12 | the first truthy variable in order, and none exactly when none is set |
| Mirror.DefaultMirrorChoice | src/main/deps/fetch-node-website/mirror.ts:3-15 | NODE_MIRROR, then NVM_NODEJS_ORG_MIRROR, N_NODE_MIRROR, NODIST_NODE_MIRROR, and nodejs.org when none is set |
| Mirror.GetDefaultMirror | src/main/deps/fetch-node-website/mirror.ts:3-15 | `getDefaultMirror`; Mirror.DefaultMirrorChoice states the choice |
| AllNodeVersions.GetCache | src/main/deps/all-node-versions/cache/index.ts:33-41 | nothing when a fetch is forced or the file is missing, otherwise the file's versions, or `readJsonSync`'s error when it does not parse |
| AllNodeVersions.SetCache | src/main/deps/all-node-versions/cache/index.ts:13-31 | an existing file is kept unless a fetch is forced; without a response, or when the file cannot be opened, it is left; a streamed body replaces it, whole exactly when the stream does not break before its end, otherwise truncated to what was written |
| AllNodeVersions.WithBinary | src/main/deps/all-node-versions/cache/index.ts:43-55 | exactly the entries whose binary exists |
| AllNodeVersions.WithBinaryInOrder | src/main/deps/all-node-versions/cache/index.ts:46-52 | the kept entries are a subsequence of the listing, in directory order |
| AllNodeVersions.GetInstalledVersions | src/main/deps/all-node-versions/cache/index.ts:43-55 | no directory gives none; otherwise exactly the entries with a binary |
| AllNodeVersions.AllVersions | src/main/deps/all-node-versions/index.ts:14-29 | the process cache answers unless forced; then the file cache, whose parse error is thrown; otherwise the fetch, which is cached |
| AllNodeVersions.FetchedIsKept | src/main/deps/all-node-versions/index.ts:14-29 | once fetched, later unforced calls return the fetched index |
| AllNodeVersions.BrokenFileFails | src/main/deps/all-node-versions/index.ts:20 | with no process cache, a versions file that does not parse makes the call fail with the parse error |
| AllNodeVersions.Caches.constructor | src/main/deps/all-node-versions/index.ts:14-40 | both caches start empty |
| AllNodeVersions.Caches.AllNodeVersions | src/main/deps/all-node-versions/index.ts:14-29 | result and new cache follow the specification; the installed cache is untouched |
| AllNodeVersions.Caches.AllInstalledNodeVersions | src/main/deps/all-node-versions/index.ts:31-40 | the cached list unless a refresh is asked for; otherwise the installed versions, cached |
| ElectronStore.Disk.constructor | src/main/utils/projects.ts:7-19 | the files, `.nvmdrc` contents and existing folders given |
| ElectronStore.Disk.GetVersion | src/main/utils/projects.ts:47-54 | a folder's `.nvmdrc` text, or '' without one |
| ElectronStore.Disk.SyncProjectVersion | src/main/utils/projects.ts:56-61 | a missing folder gives 404 with no write; otherwise the version is written and 200 returned |
| ElectronStore.Disk.RemoveRc | src/main/utils/projects.ts:21-29 | the `.nvmdrc` of a non-empty path is removed; nothing else changes |
| ElectronStore.Unlinked | src/main/utils/projects.ts:22-24 | no or empty path keeps the files; otherwise just that one goes |
| ElectronStore.SyncAll | src/main/utils/projects.ts:69-90 | every existing listed folder has the version; the others keep theirs |
| ElectronStore.Regrouped | src/main/utils/projects.ts:75-82 | each project in the paths gets the group's name as version; the rest are unchanged |
| ElectronStore.RegroupedStep | src/main/utils/projects.ts:75-82 | regrouping path by path equals regrouping all at once |
| ElectronStore.Marked | src/main/utils/projects.ts:31-45 | projects whose folder is missing become inactive; the others are unchanged |
| ElectronStore.SyncEach | src/main/utils/projects.ts:31-45 | a sync only adds `.nvmdrc` files, and only for listed existing folders |
| ElectronStore.ProjectsCache.constructor | src/main/utils/projects.ts:5 | the cache starts empty |
| ElectronStore.ProjectsCache.GetProjects | src/main/utils/projects.ts:7-19 | the cache answers unless a load is asked for; a missing file gives [] without caching; otherwise the file, cached |
| ElectronStore.ProjectsCache.UpdateProjects | src/main/utils/projects.ts:21-29 | the `.nvmdrc` is removed and the list written and cached |
| ElectronStore.ProjectsCache.UpdateProjectsAndSync | src/main/utils/projects.ts:31-45 | missing folders are marked inactive; with sync every existing folder gets its version; the list is written and cached |
| ElectronStore.ProjectsCache.UpdateProjectAndSyncVersion | src/main/utils/projects.ts:69-90 | each folder's version is synced; with no cache the call rejects; otherwise the regrouped list is written and cached |
| ElectronStore.ClearedAsWritten | src/main/utils/groups.ts:38-44 | one entry per group |
| ElectronStore.FilterOut | src/main/utils/groups.ts:40-42 | an element is kept exactly when it is not dropped |
| ElectronStore.ClearedAsWrittenEmpties | src/main/utils/groups.ts:38-44 | as written every group ends with no projects |
| ElectronStore.FilterOutCovered | src/main/utils/groups.ts:40-42 | filtering a list by itself leaves nothing |
| ElectronStore.FilterOutNothing | src/main/utils/groups.ts:40-42 | dropping nothing keeps the list |
| ElectronStore.ClearedAsWrittenCounterexample | src/main/utils/groups.ts:38-44 | a group unrelated to the new one still loses its project |
| ElectronStore.Pruned | src/main/utils/groups.ts:38-44 | each group keeps name and version and loses exactly the new group's paths |
| ElectronStore.PrunedSeparates | src/main/utils/groups.ts:38-50 | after creating, each new path is in the new group only, and every other membership is kept |
| ElectronStore.CreateGroupAsWritten | src/main/utils/groups.ts:25-51 | rejects without cache; with projects every old group is cleared |
| ElectronStore.CreatedGroups | src/main/utils/groups.ts:25-51 | rejects without cache; otherwise the new group first and the others pruned |
| ElectronStore.CreateGroupNoProjects | src/main/utils/groups.ts:46-50 | with no projects both agree: the group is prepended |
| ElectronStore.Versioned | src/main/utils/groups.ts:63-77 | the named groups take the version; the others are unchanged |
| ElectronStore.GroupsCache.constructor | src/main/utils/groups.ts:6 | the cache starts empty |
| ElectronStore.GroupsCache.GetGroups | src/main/utils/groups.ts:8-23 | the cache answers unless a load is asked for; a missing file gives [] and caches it; otherwise the file |
| ElectronStore.GroupsCache.CreateGroup | src/main/utils/groups.ts:25-51 | the projects are synced first when the group has projects and a version: each existing folder gets the version in `.nvmdrc`, the cached projects take the group's name and are written to `projects.json`; without a project cache that sync rejects and nothing changes; without the sync the projects and `.nvmdrc` files stay; then the corrected groups are written |
| ElectronStore.GroupsCache.UpdateGroups | src/main/utils/groups.ts:53-61 | the `.nvmdrc` is removed and the groups written and cached |
| ElectronStore.GroupsCache.UpdateGroupVersion | src/main/utils/groups.ts:63-77 | the projects are synced first; without a cache the call rejects; otherwise the versioned groups are written and cached |
| ElectronVersion.Files.constructor | src/main/utils/version.ts:7-41 | the `default` file and version directories given |
| ElectronVersion.Current | src/main/utils/version.ts:7-17 | the cache answers unless a fetch is asked for; a missing file gives '' and keeps the cache; otherwise the file is cached |
| ElectronVersion.GetAfterSet | src/main/utils/version.ts:7-26 | after a set, reading gives the new version |
| ElectronVersion.GetAfterUninstall | src/main/utils/version.ts:7-41 | after uninstalling the current version, a plain read still gives the cached version |
| ElectronVersion.VersionCache.constructor | src/main/utils/version.ts:5 | the cache starts empty |
| ElectronVersion.VersionCache.GetCurrentVersion | src/main/utils/version.ts:7-17 | result and new cache follow the specification |
| ElectronVersion.VersionCache.SetCurrentVersion | src/main/utils/version.ts:19-26 | a failed write rejects and changes nothing; success writes file and cache |
| ElectronVersion.UninstallVersion | src/main/utils/version.ts:28-41 | the directory goes first (its failure stops everything), then `default` if current; the cache is untouched |
| ElectronSetting.DefaultSetting | src/main/utils/setting.ts:7-18 | "en" for English system locales else "zh-CN"; "system"; minimise; the install directory, mirror and proxy defaults |
| ElectronSetting.Filled | src/main/utils/setting.ts:23-30 | falsy directory, closer and proxy are filled in; the rest stays |
| ElectronSetting.FilledIdempotent | src/main/utils/setting.ts:23-30 | filling in twice is filling in once |
| ElectronSetting.GetSettingAsWritten | src/main/utils/setting.ts:6-32 | no file gives the default; a null file throws; an object is filled in |
| ElectronSetting.NullSettingThrows | src/main/utils/setting.ts:22-23 | a file that parses to `null` makes the reader throw |
| ElectronSetting.GetSetting | src/main/utils/setting.ts:6-32 | no file or a null one gives the default; an object is filled in |
| ElectronSetting.GetSettingComplete | src/main/utils/setting.ts:6-32 | the corrected reader always gives complete settings, and agrees with the original where that succeeds |
| ElectronSetting.SetSetting | src/main/utils/setting.ts:34-39 | a successful write stores the settings; a failed one leaves the file |
| ElectronSetting.SetThenGet | src/main/utils/setting.ts:6-39 | saved settings read back filled in, and unchanged when already complete |
| ElectronMigration.NumberOfTrimmed | src/main/utils/migration.ts:138 | `Number` on decimal integer text: empty text is 0, digits their value, a sign followed by digits the signed value; every other form is NaN here (see "## Left out") |
| ElectronMigration.NumberOfShown | src/main/utils/migration.ts:136-143 | a saved number reads back |
| ElectronMigration.NumberOfNumeral | src/main/utils/migration.ts:138 | a digit string reads as its value |
| ElectronMigration.NumberOf | src/main/utils/migration.ts:138 | `Number` with surrounding white space ignored; ElectronMigration.NumberOfShown and ElectronMigration.NumberOfNumeral state its properties |
| ElectronMigration.SchemaVersion | src/main/utils/migration.ts:133-139 | a missing or empty file is 0; otherwise `Number` of its text |
| ElectronMigration.GuardsFor | src/main/utils/migration.ts:33-89 | NaN and numbers below 1 run both steps; 1 up to below 12 runs the last step only; 12 or more runs nothing |
| ElectronMigration.GarbageRunsBoth | src/main/utils/migration.ts:33-89 | a file that is not a number runs both steps |
| ElectronMigration.TargetsDiffer | src/main/utils/migration.ts:18-33 | schema 0 runs both steps here but only the basic step in the Rust back end; 12 is current here but stale there |
| ElectronMigration.Links | src/main/utils/migration.ts:78-82 | one caught symlink to the shim per default executable |
| ElectronMigration.ExeCopies | src/main/utils/migration.ts:110-113 | only uncaught copies of the new shim |
| ElectronMigration.ExeCopiesExactly | src/main/utils/migration.ts:111-112 | a `*.exe` entry is overwritten |
| ElectronMigration.Run | src/main/utils/migration.ts:20-117 | completed operations never failed, and there are no more of them than actions |
| ElectronMigration.RunFailsIff | src/main/utils/migration.ts:32-117 | a step fails exactly when one of its operations fails uncaught |
| ElectronMigration.UpdateSchemaFails | src/main/utils/migration.ts:20-30 | the result is 408 exactly when an operation of a step that runs fails uncaught, otherwise undefined |
| ElectronMigration.UpdateSchema | src/main/utils/migration.ts:20-30 | `updateSchema`; ElectronMigration.UpdateSchemaFails, ElectronMigration.GarbageRunsBoth and ElectronMigration.FreshUnixRunsBoth state its properties |
| ElectronMigration.FirstStepFails | src/main/utils/migration.ts:23-29 | an uncaught failure in the default step, when that step runs, gives 408 on either platform |
| ElectronMigration.SecondStepFails | src/main/utils/migration.ts:23-29 | an uncaught failure in the last step, when that step runs, gives 408 on either platform |
| ElectronMigration.WindowsShimCopyFails | src/main/utils/migration.ts:108 | on Windows a failed copy of `nvmd.exe` gives 408 whenever the last step runs |
| ElectronMigration.WindowsCommandShimFails | src/main/utils/migration.ts:48-53 | on Windows a failed copy of a command shim gives 408 in the default step |
| ElectronMigration.WindowsExeCopyFails | src/main/utils/migration.ts:110-113 | on Windows a failed copy over a listed `.exe` gives 408 |
| ElectronMigration.UnixShellRemovalFails | src/main/utils/migration.ts:59-62 | outside Windows a failed removal of the old shell file gives 408 |
| ElectronMigration.RunStep | src/main/utils/migration.ts:32-117 | the step's `await` chain equals the specification |
| ElectronMigration.CaughtRunsThrough | src/main/utils/migration.ts:76-82 | with every failure caught the step completes, and every non-failing operation runs |
| ElectronMigration.RunThroughSaves | src/main/utils/migration.ts:84 | such a step saves the schema |
| ElectronMigration.UnixOnlyRemovalFails | src/main/utils/migration.ts:59-67 | on Unix only an uncaught removal can fail the update |
| ElectronMigration.FreshUnixRunsBoth | src/main/utils/migration.ts:20-117 | a fresh Unix install runs both steps and the result is undefined |
| ElectronMigration.Ops | src/main/utils/migration.ts:32-117 | the operations of the actions, in order |
| ElectronMigration.NoFailures | src/main/utils/migration.ts:32-117 | without failures every operation runs |
| UpdateLog.Key | scripts/updatelog.mjs:25-31 | a title's key is non-empty and starts with 'v' |
| UpdateLog.TrimmedLead | scripts/updatelog.mjs:27 | trimming text that starts with a non-space keeps its first character |
| UpdateLog.Step | scripts/updatelog.mjs:24-37 | a duplicate title fails; a new title opens its section; the end marker closes it; other lines go to the open section |
| UpdateLog.Resolve | scripts/updatelog.mjs:7-44 | a missing file fails; an unknown tag fails; otherwise the tag's lines, joined and trimmed |
| UpdateLog.ResolveUpdateLog | scripts/updatelog.mjs:7-44 | the `forEach` loop gives the specified result |
| UpdateLog.FoldStep | scripts/updatelog.mjs:24-37 | the fold takes one line at a time |
| UpdateLog.Fold | scripts/updatelog.mjs:24-37 | the `forEach` over the lines; UpdateLog.FoldStep, UpdateLog.FoldAppend, UpdateLog.FoldClean, UpdateLog.FoldKeeps and UpdateLog.TitlesDistinct state its properties |
| UpdateLog.FoldAppend | scripts/updatelog.mjs:24-37 | folding two parts in turn is folding their concatenation |
| UpdateLog.ErrStays | scripts/updatelog.mjs:24-37 | once an error occurred the rest of the lines change nothing |
| UpdateLog.FoldClean | scripts/updatelog.mjs:24-37 | no section ever holds a title or end line |
| UpdateLog.StepClean | scripts/updatelog.mjs:24-37 | one step keeps the sections clean |
| UpdateLog.NoMarkersInNotes | scripts/updatelog.mjs:24-37 | the notes never contain title or end lines |
| UpdateLog.PreambleIgnored | scripts/updatelog.mjs:24-37 | lines before the first title are ignored |
| UpdateLog.PreambleStays | scripts/updatelog.mjs:24-37 | a preamble alone leaves the initial state |
| UpdateLog.NotesCollected | scripts/updatelog.mjs:25-36 | a title followed by plain lines collects exactly those lines |
| UpdateLog.FoldKeeps | scripts/updatelog.mjs:24-37 | sections are never dropped, and every title read has its section |
| UpdateLog.TitlesDistinct | scripts/updatelog.mjs:25-31 | a successful read has distinct title keys |
| CheckScript.UserArg | scripts/check.mjs:35-37 | the k-th user argument, when present |
| CheckScript.Target | scripts/check.mjs:35-37 | the target is the first argument, or the second after `--force` |
| CheckScript.Lookup | scripts/check.mjs:38-40 | a map entry exactly for its keys |
| CheckScript.Selected | scripts/check.mjs:38-40 | a non-empty target is looked up in the tables; otherwise the host's platform and arch |
| CheckScript.AssetName | scripts/check.mjs:45-61 | the asset exactly for the supported pairs; otherwise the "unsupported" error naming it |
| CheckScript.KnownTargetsSupported | scripts/check.mjs:17-61 | every table target has an arch and an asset |
| CheckScript.UnknownTargetRejected | scripts/check.mjs:38-61 | an unknown target yields no platform and is rejected |
| CheckScript.EntryTargetDropsTop | scripts/check.mjs:117 | an entry's first path component is removed below the resource directory |
| CheckScript.Removed | scripts/check.mjs:133-136 | exactly the paths outside the removed directory stay |
| CheckScript.NestedFileAtTarget | scripts/check.mjs:116-123 | a file below the archive's top folder is written at its computed target |
| CheckScript.TopLevelFileOutside | scripts/check.mjs:116-123 | a file at the archive's top level is written into `src-tauri`, outside the resource directory |
| CheckScript.Extract | scripts/check.mjs:114-125 | extraction only adds paths |
| CheckScript.ExtractPlacesAll | scripts/check.mjs:114-125 | after a successful extraction every directory entry exists at its target and every file in its target's directory under its base name |
| CheckScript.Disk.constructor | scripts/check.mjs:92 | the paths given |
| CheckScript.Disk.ExtractEntries | scripts/check.mjs:114-125 | the entry loop equals the extraction specification |
| CheckScript.Disk.RunScript | scripts/check.mjs:92-137 | the run does what its specification says |
| CheckScript.Script | scripts/check.mjs:35-137 | an unsupported target stops before any download; otherwise the run |
| CheckScript.RunCleansUp | scripts/check.mjs:133-136 | whatever happens, the temporary directory is removed |
| CheckScript.Run | scripts/check.mjs:92-137 | `run()`; CheckScript.RunCleansUp, CheckScript.ExistingShimKept and CheckScript.RunPlacesEntries state its properties |
| CheckScript.ExistingShimKept | scripts/check.mjs:100 | an existing shim without `--force` skips the download |
| CheckScript.RunPlacesEntries | scripts/check.mjs:92-137 | a successful run places every entry where the extraction puts it, and keeps every path outside the temporary directory |
| CheckScript.ProxyFromEnv | scripts/check.mjs:69-79 | the first non-empty proxy variable, and none exactly when all are unset or empty |
| CheckScript.RequestAsWritten | scripts/check.mjs:81-84 | the request carries the URL and no agent |
| CheckScript.ProxyIgnored | scripts/check.mjs:69-84 | with HTTP_PROXY set, a proxy is found but the request still has no agent |
| CheckScript.DownloadRequest | scripts/check.mjs:69-84 | the request carries the URL and the proxy found |
| CheckScript.DownloadRequestProxied | scripts/check.mjs:69-84 | the request has an agent exactly when some proxy variable is set, HTTP_PROXY first |

## Left out

**Runtime and I/O**
- File I/O, the network, processes, dialogs, the clock and console or log output become parameters and results. Nothing is read, written or sent, and log lines are not modelled except by `Help.LogErr`.
- Concurrency is modelled in sequence, with the later write winning. This covers `tokio::join!`, `try_join!`, `Promise.all` and the async interleaving in `updateProjectsAndSync`.
- CoreProject.BatchUpdateProjectVersion: with `buffer_unordered` the error reported is the first to complete. The model reports the first in path order.
- CoreProject.ChangeWithGroup: with `try_join!` a later future may not run once an earlier one fails. The model applies all three effects and reports the first error.

**Rust libraries modelled abstractly**
- Serde json encoding and decoding are a parameter.
- Versions are `major.minor.patch` release triples without prerelease or build parts. The same holds for the `semver` package on the TypeScript side, whose `v` prefix is accepted.
- The abstract file system has no permissions, symlinks or timestamps.
- FsModel.Rename: a rename onto an existing empty directory, which succeeds on Unix when the source is a directory, fails here; the target must be new.
- Zip entries are given as decoded names. Directory detection is `entry.dir()`, and entries whose name does not decode as UTF-8 fail.
- ZipFetch.ExtractEntry: entry names are relative lists of normal path components, without `..` or a root. Rust's `Path::join` keeps `..` and lets an absolute name replace `dest`, so for such names the source writes outside `dest`; the model places every entry below it.
- Tarball.UnpackIn: entry paths are lists of normal components besides `..`; the `.`, root and prefix components that `unpack_in` ignores do not occur.
- Tarball entries count their header size; gzip decompression is not modelled.
- Transfer.WriteChunks: `sync_all`, the seek back to the start and the reopening of the temporary file are taken to succeed.

**Tauri parts not in this model**
- `dirs`, `handle`, `tray`, `resolve`, `update` and `main.rs` are not part of this model.
- `sync_current`, `save_current`, `get_locale`, `save_string`, `select_projects` and `sync_project_version` are called but not defined in the files read.
  - They are modelled through their evident effect. `sync_project_version` in the import is modelled as a `.nvmdrc` write.
- `add_projects` (core/project.rs:44-66) runs a file dialog and reads folders; it is left out.
- `project_list` (core/project.rs:18-32), `group_list` (core/group.rs:8-22) and the `cmds` forwarders only pass through to the functions modelled.
- `Handle::update_systray_part` is an input result.

**Electron and renderer**
- CoreNode.InstallNode: `settings.mirror.unwrap()` and `directory.unwrap()` panics are modelled as failures.
- CoreNode.SortDescending: `version_compare::compare` accepts more than canonical `major.minor.patch` names (such as `18.0`, `v18.0.0` and `18.0.0-rc.1`) and orders them by its own rules. That crate is not modelled: names are compared as semantic-version triples, so a directory holding such a name fails here where the source sorts it. The `unreachable!` panic on a name that does not parse is modelled as an `Err` result.
- CoreNode.GetInstalledList: inherits both gaps of CoreNode.SortDescending: the narrower set of names that sort, and the panic modelled as an `Err` result.
- ElectronMigration.NumberOfTrimmed: `Number` is modelled for decimal integers with an optional sign only. Fractions ("1.5"), exponents ("1e3"), hex, binary and octal literals ("0x10"), and "Infinity", which JavaScript evaluates, count as NaN here. A file holding such a text therefore runs both steps in the model, where the source compares its value.
- ElectronMigration.SchemaVersion: inherits the gap of ElectronMigration.NumberOfTrimmed.
- I18n: `replace` replacement patterns (`$&`, `$1`) in the substituted text are not interpreted.
- I18n: key lookup does not see prototype keys such as `constructor`, so `messages[key]` is a plain map lookup.
- I18n.OnUpdateSetting: the setting is merged into the current state. In the source the callback spreads the `state` captured when its memo last changed, and its dependencies omit the system theme, the colour and the messages, so a stale copy can undo a later theme change; that staleness is not modelled.
- Locale.Overlay is lodash `merge` on flat string tables; nested objects are not modelled.
- ElectronSetting: the fill-in of the parsed object is modelled as a value update, so aliasing of that object is not modelled.
- ElectronStore: writes through `fs-extra` are taken to succeed.
- ElectronStore, ElectronSetting: a file that exists but cannot be read has no state in the model (it is missing, null or a value). `readJson` with `throws: false` swallows only parse errors, so such a read rejects in the source.
- ElectronMigration.SchemaVersion: a failed `readFile` of the schema file happens before the `try` of `updateSchema`, so it rejects the promise instead of returning 408; the model has only a missing file or its text.
- AllNodeVersions.SetCache: the `response` handler runs after `setCache` has returned; the model gives the file once the handler has finished.
- Compare: numbers are exact reals with a separate `NaN`; infinities and floating-point rounding are not modelled.
- Compare.JsParse: `semver` trims surrounding white space and rejects text longer than 256 characters; the model rejects padded text and sets no length limit.
- ElectronStore: its error texts are V8's messages, taken as constants.
- ElectronMigration: the `setx` call's result is ignored by the code and is not modelled. The bin directory listing in the Windows last step is an input.
- The renderer's components and pages are left out, apart from the helpers listed, as are the updater and the menu. The `Debouncer` and `useEventCallback` are not modelled.
- CheckScript: `path.join` normalisation is not modelled; paths are joined with '/'.
- CheckScript: the zip library's reading of the archive is an input.

## Findings

| source | as written | input that shows it | evidently intended | confidence | as-written member | corrected member |
|---|---|---|---|---|---|---|
| src-tauri/src/core/node.rs:66-71 | `wrap_err!` on the tray update is neither returned nor matched. `ret` is always Ok, so the draft is applied and saved even when the tray update fails. | the tray update returns an error | a failed tray update discards the draft and is returned | not executed | CoreNode.MenuFailureIgnored | CoreNode.MenuUpdateIntended |
| src-tauri/src/cmds.rs:50 | `wrap_err!(patch_settings)` is not followed by `?`, so a failed save is dropped and the command returns Ok | the settings file cannot be written | the command returns the save's error | not executed | Cmds.SaveFailureHidden | Cmds.UpdateSettingsIntended |
| src/main/utils/groups.ts:38-44 | every old group's projects are filtered by that group's own list, which empties every group | `createGroup` of a group with `/work/y` while group "a" holds `/work/x` | only the new group's paths leave the other groups | not executed | ElectronStore.ClearedAsWrittenCounterexample | ElectronStore.PrunedSeparates |
| src/main/utils/setting.ts:22-31 | the parsed file's fields are read before the `\|\| defaultSetting` fallback, so a file that parses to `null` throws | a settings file holding `null` | a null file gives the default settings | not executed | ElectronSetting.NullSettingThrows | ElectronSetting.GetSettingComplete |
| src/main/deps/get-node/archive/raw.ts:16 | the raw binary is written at `tmpFile`, while download.ts:58-66 moves `tmpFile/<version>`, so the move finds nothing | a Windows download of a version without a zip archive, such as 4.4.0 | the binary is written below `tmpFile/<version>` like the other routes | not executed | GetNode.RawInstallFails | GetNode.RawInstallFixed |
| scripts/check.mjs:69-84 | the proxy agent is built into `options` but `fetch` is called without them, so the proxy is never used | HTTP_PROXY set to `http://127.0.0.1:7890` | the request goes through the agent | not executed | CheckScript.ProxyIgnored | CheckScript.DownloadRequestProxied |
