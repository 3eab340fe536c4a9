# plasmactl-package in Dafny

A model of the `package` action of the plasmactl-package plugin, with proofs about it. The action packs a platform composition's build directory (`.compose/build`) into a gzip-compressed tar archive named after the repository and its last commit. It writes the archive into `$HOME/artifact` first, then copies it to `.compose/artifacts`.

The model has three parts.

- `getRepoInfo` (`RepoInfo`, using `Paths` and `Hex`) reads the repository's name, last commit message and short commit id. Each go-git lookup is an input that either yields its value or fails. The two Go runtime panics the function can reach are explicit results, not preconditions:
  - indexing an empty URL list;
  - slicing a base name shorter than four characters.
- `createArchive` (`TarWalk`, `WalkSpec`, `Archive`, with the tree in `FileTree`) is modelled in three layers:
  - the `filepath.Walk` callback decides, for each visited node, whether to skip it, abort, or write tar headers and data;
  - the walk runs that callback over a source tree;
  - the whole function becomes a run of filesystem effects. Every call's outcome is an input. The deferred closes run last-opened first.
- `createArtifact` (`Artifact`) chains these together and builds the artifact's file name.

The walk has a reference definition, the preorder listing of the whole tree (`WalkSpec.Listing`). An item is kept when neither the root nor any segment of its path below the root is an excluded name. The walk's output is proved equal to the tar headers of the kept items, in listing order. Its failure is proved to happen exactly at the first listed node the walk reaches whose callback aborts (`WalkSpec.WalkFailsAtFirstFault`). The corollaries about exclusion, completeness, contents and ordering follow from that lemma (`WalkProperties`). `WalkExamples` works through concrete trees.

A Go string is modelled as a `string` holding one char per byte, so `|s|` is Go's `len(s)` and non-ASCII text appears as its UTF-8 bytes. The source tree's root node is named after the base of the directory being archived, "build" for the plugin.

Behaviour of the code worth knowing:
- The archive holds more than the files. There is an entry "." for the build directory itself, and one entry for every non-excluded directory, with no trailing slash.
- A symbolic link is written as two headers. The first links to the entry's own relative path, written with the host separator. The second links to the real target.
- The tar and gzip writers are closed only on the way to success. After a walk error neither is closed. After a failed tar close the gzip writer is not closed. A failed gzip close comes after a tar close.
- A failed copy leaves a truncated file at the artifact path. `os.Create` has already created or emptied it.
- `createArchive` does not check that its two directories differ. When the temporary path and the artifact path name one file, `os.Create` on the artifact empties the archive before `io.Copy` reads it, and the function returns nil with the file empty. The plugin's two paths are different strings.
- The walk stops at the first node it reaches whose lstat, directory listing or read fails. An unreadable file or link with an excluded name is dropped instead. No entry inside an excluded directory is visited. The directory's own listing is still read, and a failed read stops the walk.
- A stat error on the build directory other than "does not exist" is ignored, and archiving goes ahead.
- A remote URL without ".git" still loses its last four characters.

## Model

| member | source | states |
|---|---|---|
| Paths.Base | package.go:28 | `filepath.Base`: "" gives "."; a path of slashes gives "/"; otherwise the last non-empty element, trailing slashes removed |
| Paths.BaseOfElement | package.go:28 | the base of `prefix/name` is `name` when `name` has no slash |
| RepoInfo.RepoName | package.go:27-29 | the name is the base with its last four characters removed; it returns exactly when the base has at least four characters, and otherwise panics with slice bound length−4 |
| RepoInfo.RepoNameOfGitUrl | package.go:27-29 | a remote `.../name.git` yields exactly `name` |
| RepoInfo.RepoNameDropsLastFour | package.go:27-29 | whatever its last four characters are, a remote `.../name` yields `name` without them, so ".../plasmactl" gives "plasm" |
| RepoInfo.RepoNamePanicsOnShortBase | package.go:27-29 | a remote whose last element has fewer than four characters panics, with slice bound its length minus four |
| Hex.Encode | package.go:41 | `Hash.String()` has two lowercase hex digits per byte |
| Hex.EncodeInjective | package.go:41 | different hashes have different strings |
| Hex.ShortSha | package.go:41 | the short id is the digits of the first three bytes and the high digit of the fourth; the slice `[:7]` never panics |
| Hex.ShortShaIdentifiesPrefix | package.go:41 | two hashes have the same short id exactly when they agree on the first 28 bits |
| Hex.ShortShaIsHex | package.go:41 | the short id is seven hex digits and holds no '-' |
| RepoInfo.GetRepoInfo | package.go:15-44 | every error result carries three empty strings; success exactly when every lookup succeeds and the name derivation returns, with the name, message and short id taken from the lookups; a panic exactly when the remote is found and its URL list is empty or its first URL's base is too short |
| RepoInfo.FirstFailingLookupReported | package.go:17-39 | the error reported is the one from the first failing lookup, in the order open, remote, HEAD, commit |
| RepoInfo.LaterLookupsNotReached | package.go:17-35 | once a lookup fails, the answers of the later lookups do not affect the result |
| Paths.ToSlash | package.go:100 | each host separator becomes '/', every other character is kept |
| Paths.ToSlashRelPath | package.go:88-100 | the header name of a relative path is its segments joined by '/' |
| Paths.SplitJoin | package.go:88-100 | splitting a '/'-joined path of slash-free segments gives the segments back |
| Paths.JoinPathBase | package.go:56-57 | the base of the joined path is the file name, so the temporary archive and the artifact are both named after the file name |
| Paths.JoinPathParts | package.go:56-57 | a joined path ends in the file name, and the part before it is the directory up to trailing slashes, which are not doubled |
| Paths.RelPath | package.go:88 | the root's relative path is ".", and no path of non-empty segments other than "." is "." |
| TarWalk.Emitted | package.go:93-131 | a node that can be read gives at least one header, one that cannot gives none; on a '/' or '\\' host every header name is the relative path joined with '/'; only a regular file carries data, and that data is its contents |
| TarWalk.Callback | package.go:74-134 | skips exactly the excluded directories; drops excluded non-directories; aborts exactly on a failed lstat, an unreadable directory, or an unreadable non-excluded file or link, reporting the path; otherwise writes the node's headers and data |
| TarWalk.Walk | package.go:74-134 | an error is reported at the node's path or beneath it; an excluded directory gives no entries and its contents are not visited; a non-excluded node's own headers come first |
| TarWalk.WalkChildren | package.go:74 | an error from the children is reported at a path beneath one of them |
| TarWalk.WalkSource | package.go:74 | a successful walk of an excluded source directory writes nothing; otherwise, on a '/' or '\\' host, its first entry is named "." |
| WalkSpec.Listing | package.go:74 | the walk order from a node: the node itself comes first, and every listed path extends the node's path |
| WalkSpec.WalkIsFilteredListing | package.go:74-134 | a successful walk writes exactly the headers of the kept items of the preorder listing, in order |
| WalkSpec.WalkChildrenIsFilteredListing | package.go:74-134 | the same, for the children of a non-excluded directory |
| WalkSpec.WalkSucceedsWithoutFaults | package.go:74-134 | a tree in which every node can be stat'ed and read is walked without error |
| WalkSpec.FirstFaultSpec | package.go:75-85 | the first fault found is a listed item that the walk reaches and on which the callback aborts, and no earlier item is one; when none is found, no item is one |
| WalkSpec.WalkFailsAtFirstFault | package.go:74-137 | the walk fails exactly when it reaches a node whose lstat, listing or non-excluded read fails; it reports the first such node in walk order, with that node's error |
| WalkSpec.WalkChildrenFailAtFirstFault | package.go:74-134 | the same, for the children of a non-excluded directory |
| WalkProperties.ExcludedNamesNeverArchived | package.go:68-85 | no archived name has ".git", ".compose" or ".plasmactl" as any of its segments |
| WalkProperties.ExcludedRootArchivesNothing | package.go:80-82 | a source directory with an excluded name gives an empty archive |
| WalkProperties.RootEntryIsDot | package.go:88-103 | the first entry is the source directory itself, named "." |
| WalkProperties.KeptItemArchived | package.go:74-134 | every kept node's headers appear, contiguously, in the archive |
| WalkProperties.NodeArchived | package.go:94-131 | a kept file is archived with its name and full contents; a kept directory as a header with no data; a kept link as two headers, the first linking to its relative path with host separators and the second to its target |
| WalkProperties.ListingIsPreorder | package.go:74 | in a well-formed tree every node is listed before everything beneath it |
| WalkProperties.KeptItemsInOrder | package.go:74-134 | two kept nodes are archived in walk order |
| WalkProperties.DirectoryPrecedesDescendants | package.go:74-134 | a directory's header comes before the entries of everything beneath it |
| WalkExamples.GitDirectorySkipped | package.go:68-134 | a tree with `.git`, `a.txt` and `sub/b.txt` gives ".", "a.txt", "sub", "sub/b.txt", with contents |
| WalkExamples.SymlinkTwoHeaders | package.go:94-131 | a link gives a header linking to its own path, then one linking to its target |
| WalkExamples.HostSeparatorInFirstLinkname | package.go:94-100 | with '\\' as separator the header name uses '/' and the first link name keeps '\\' |
| WalkExamples.ReadErrors | package.go:75-85 | an unreadable file aborts the walk unless its name is excluded; an unreadable excluded directory still aborts |
| Archive.Closes | package.go:62 | the deferred closes: one per handle, last-acquired first |
| Archive.CreateArchive | package.go:46-168 | for a temporary path and an artifact path that name different files: success exactly when every call succeeds and the walk succeeds, and then both the temporary archive and the artifact hold the walked entries; an error leaves no complete copy of this run's archive at the artifact path, and a truncated file there exactly when the copy failed, while otherwise a file left by an earlier run stays as it was; the temporary file is untouched exactly when a directory or its creation failed, and complete exactly when the walk and both writer closes succeeded; each directory failure reports that directory; a directory failure opens no file; a walk failure closes neither writer and copies nothing; a copy happens only after both writers closed successfully; a failed tar close is reported with its cause and leaves neither writer closed; a failed gzip close is reported with its cause, after the tar close |
| Archive.WriteArchive | package.go:74-148 | from the walk on: success exactly when the walk and every later call succeed; a walk error is reported as such and then no writer is closed and nothing is copied; the temporary file is complete, holding the walked entries, exactly when both writer closes succeed; the gzip writer is closed only after the tar writer closed successfully; each writer-close failure is reported as itself, and a failed tar close leaves the gzip writer unclosed |
| Archive.CopyArchive | package.go:150-167 | for two paths that name different files: the temporary archive is complete; the artifact is untouched when opening the archive or creating the artifact fails, truncated when the copy fails, and a complete copy otherwise; each failure reports its own error |
| ArchiveProperties.ClosesInOrder | package.go:140-165 | the tar writer is closed before the gzip writer, and a copy happens only after both closed successfully |
| ArchiveProperties.DeferredClosesMirrorAcquisitions | package.go:46-168 | on every path, each file created or opened is closed exactly once, last-opened first, after every other effect |
| ArchiveProperties.WriteInOrder | package.go:136-148 | from the walk on: the tar writer's close precedes the gzip writer's, and a copy comes after both |
| ArchiveProperties.CopyInOrder | package.go:150-167 | in the copy phase, after both writer closes, any copy step follows them |
| ArchiveProperties.WriteClosesMirrorAcquisitions | package.go:136-148 | the same for the walk and writer-close phase |
| ArchiveProperties.CopyClosesMirrorAcquisitions | package.go:150-167 | the same for the copy phase |
| Artifact.ArchiveFileName | plugin.go:53 | the file name is the repository name, a '-', the short id and "-plasma-src.tar.gz", at these positions |
| Artifact.ArchivePathsDiffer | plugin.go:51-73 | the temporary archive (`$HOME/artifact/<file>`) and the artifact (`.compose/artifacts/<file>`) the action passes to `createArchive` are different paths |
| Artifact.ParseArchiveFileName | plugin.go:53 | a name that parses has a seven-character id and the length of a formatted name |
| Artifact.ParseFormatted | plugin.go:53 | a file name formatted from a name and a seven-character id parses back to both |
| Artifact.FormatParsed | plugin.go:53 | a file name that parses is the one formatted from its parts |
| Artifact.CreateArtifact | plugin.go:40-80 | a panic exactly when the repository read panics; a failed read ends with "error getting repository information" and nothing else happens; the archive call is made exactly when the read succeeds, the home directory is known and the build directory is not missing, with `.compose/build`, `$HOME/artifact`, `.compose/artifacts` and `<name>-<sha>-plasma-src.tar.gz`; completion exactly when that call succeeds, and "error creating archive" when it fails |
| Artifact.RepoFailureShortCircuits | plugin.go:41-45 | a failed repository read gives the same result whatever the home directory, the build directory and the filesystem do |
| Artifact.OnlyNotExistStops | plugin.go:63-70 | a stat error other than "does not exist" behaves like a found directory; a missing one ends the action with the build-dir message |
| Artifact.HomeErrorReturnedUnwrapped | plugin.go:47-50 | the home directory's error is returned as it is |
| Artifact.ArtifactNamedAfterRepository | plugin.go:51-53 | for a remote `.../name.git` the artifact path is `.compose/artifacts/name-<short id>-plasma-src.tar.gz`, and that file name parses back to the name and the id |
| Artifact.CompletedArtifactIsFilteredBuildTree | plugin.go:72-79 | when the action completes, the artifact equals the temporary archive and holds exactly the kept items of the build tree's listing |

## Left out

- go-git itself: opening the repository, resolving remotes, HEAD and commits. These are inputs of the model (`GitView`).
- Real filesystem I/O. Every call is an outcome input, and the source tree is a value given with its children in the order `filepath.Walk` visits them (sorted by name). The model does not sort them.
- The byte encoding of tar and gzip. An archive is the sequence of headers (name, type, link name) and the data that follows each one.
- The mode, size, modification time and owner fields of tar headers.
- Write errors of the tar stream during the walk (`WriteHeader`, `io.Copy` into the tar writer). Only errors from lstat, reading a directory, opening or reading a file, and reading a link are modelled.
- The bytes of a partially written file: the temporary archive after a failed walk or close, and the artifact after a failed copy. The model records only that the file was created or truncated and is not complete.
- The per-file `Close` deferred inside the walk callback.
- Special files. For a socket `tar.FileInfoHeader` fails and the walk stops with that error. A device or named pipe gets a header and is then opened and read like a regular file, and opening a pipe can block.
- Paths.JoinPath: of the cleaning `filepath.Join` does, it models only two things. Empty arguments are dropped, and the directory's trailing slashes are not doubled. It does not model the rest of `Clean`: ".", ".." and inner doubled slashes. It does not model the '\\' separator of Windows hosts or the `path.Clean` applied before each `os.Create` and `os.Open`.
- Paths.Base: models only '/' as a separator, not Windows volume names or '\\'.
- `filepath.Rel` failing, which cannot happen for paths the walk produces under its own root.
- Logging and terminal output, `init`, `PluginInfo`, `DiscoverActions` and the action's YAML.
- Hex.ShortSha: the hash is SHA-1 (20 bytes). SHA-256 repositories are not modelled.
- RepoInfo.RepoName: its lengths are Go's byte lengths only under the one-char-per-byte convention for strings. A URL written as Unicode characters, not as its UTF-8 bytes, is measured in characters, unlike Go's `len`.
- Archive.CreateArchive: the temporary path and the artifact path are taken to name different files. When they name one file, the code returns nil with that file empty, while the model calls both complete. The plugin's two paths differ as strings (`Artifact.ArchivePathsDiffer`); only a symbolic link between `$HOME/artifact` and `.compose/artifacts` could make them one file, and links in the filesystem outside the source tree are not modelled.
- Archive.WriteArchive: the same assumption, from the walk on.
- Archive.CopyArchive: the same assumption; its promise that the temporary archive stays complete holds only for two different files.
