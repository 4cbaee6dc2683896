# Directory-tree text archivers, modelled in Dafny

The repository holds two Node scripts that walk a project directory and
concatenate the qualifying files into one text archive:

- `tar.cjs` writes each file's content between a header and a footer.
- `tar-compressed.js` is meant to write the content gzip-compressed and
  base64-encoded. As written, two of its string literals do not parse (see
  "Left out"). The model is of the script with those two literals repaired.

This project models the part of both scripts that has real semantics:

- which files each walk selects, and in what order;
- how each walk prunes subtrees;
- the pure parts of the per-file entry: the octal permission string, the
  decimal numbers, and the `./`-prefixed path shown in the header and footer.

Both walks use hard-coded lists; neither script reads ignore files.

## Structure

- `strings.dfy` (`Strings`) holds prefix and suffix tests, the JavaScript
  line terminators that a regex `.` refuses, and character repetition.
- `paths.dfy` (`Paths`) models the parts of Node's `path` module that the
  scripts use:
  - `path.extname` of a directory-entry name;
  - `path.join` relative to the walk root;
  - the `replace(/\\/g, '/')` display form of a path.
- `numerals.dfy` (`Numerals`) models the pieces of the permission string:
  - `Number.prototype.toString(base)`, with its inverse `Value`;
  - `padStart`;
  - `&` on non-negative integers after the 32-bit conversion JavaScript applies.
- `tree.dfy` (`FsTree`) is the directory tree as `readdirSync` presents it.
  - Each listing is a sequence of entries in listing order.
  - An entry is a file, a directory, or anything else.
  - Each file carries what `statSync` and `readFileSync` would return, or
    `None` when either call throws.
  - `AllFiles` is the unpruned depth-first listing of every file. Both walks
    are measured against it.
- `tar.dfy` (`Tar`) and `tar_props.dfy` (`TarProps`) model `tar.cjs`:
  - the constant lists;
  - the generated-file regexes;
  - the prefix loop and `shouldExcludeFile`;
  - the walk.
- `tar_entry.dfy` (`TarEntry`) models the text `tar.cjs` appends for each
  file: the header lines, the content, the footer, and the archive they
  make up.
- `tar_compressed.dfy` (`TarCompressed`) and `tar_compressed_props.dfy`
  (`TarCompressedProps`) model `tar-compressed.js`: its exact-name walk and
  the fields of its entries.

Two consequences of the code, both proved:

- In `tar.cjs` the directory test is a plain string prefix of the relative
  path. It applies to files as well as directories, so `buildNotes.txt` and
  `tmpx/` at the root are skipped. Because a descendant's path extends its
  ancestor's path, the prune only saves work: the walk yields exactly the
  filtered depth-first listing.
- `path.extname('.gitignore')` is the empty string. The `.gitignore` and
  `.npmignore` entries of both extension lists therefore never match a plain
  dotfile such as `.gitignore` itself. They match only names such as
  `foo.gitignore`. Neither script ever archives a file whose only dot is its
  first character.

## Model

| member | source | states |
|---|---|---|
| Tar.IsExcludedDir | tar.cjs:131-138 | The loop sets `isExcludedDir` exactly when the relative path starts with one of the eighteen listed strings. The `=== excludedDir` alternative never changes the verdict. |
| Tar.AnyMatches | tar.cjs:112-117 | The loop over the patterns returns true iff some pattern in the list matches the path, and false when none does. |
| Tar.ShouldExcludeFile | tar.cjs:108-118 | Returns true iff at least one of the eleven generated-file patterns matches the path, and false when none does. |
| TarProps.WalkIsFilteredListing | tar.cjs:124-166 | The walk yields the files of the unpruned depth-first listing that pass the prefix test and the per-file tests, in the same order. Entries that are neither files nor directories never appear. |
| TarProps.EntryIsFiltered | tar.cjs:127-165 | One loop iteration yields the filtered listing of that entry. A directory that fails the prefix test contributes nothing, and this is what the filter would have kept of it anyway. |
| TarProps.WalkEmitsSelected | tar.cjs:131-157 | Every emitted file's relative path passes the prefix test, the allow-list, the Markdown denial and the pattern denial. |
| TarProps.EmittedFilesPassAllowList | tar.cjs:154-156 | Every emitted file has a listed extension or a listed whole name, and no emitted file has the extension `.md`. |
| TarProps.FileEmittedIff | tar.cjs:144-160 | A file is handed to `processFile` if and only if its relative path has no excluded prefix, it is allowed by extension or name, it is not Markdown, and no pattern matches its path. |
| TarProps.ExcludedDirExtends | tar.cjs:134 | If a path fails the prefix test, so does every string that extends it. |
| TarProps.PrunedDirHidesSubtree | tar.cjs:139-142 | No file below a directory whose relative path fails the prefix test is ever emitted. |
| TarProps.PrefixNotSegment | tar.cjs:134 | The test works on characters, not path segments: a file `buildNotes.txt` and a directory `tmpx` at the root are both skipped. |
| TarProps.GeneratedFilesNeverEmitted | tar.cjs:78-95 | No emitted path ends in `.g.dart`, `.freezed.dart`, `.gr.dart`, `lib/firebase_options.dart` or `pubspec.lock`, whatever the tree. |
| TarProps.NotGeneratedSuffixes | tar.cjs:83-94 | A path that no generated-file pattern matches has none of the five generated suffixes. |
| TarProps.LocalizationFilesExcluded | tar.cjs:81 | `<anything>lib/l10n/app_localizations_<middle>.dart` is excluded whenever the middle part holds no line terminator. |
| TarProps.PlainDotfilesNeverEmitted | tar.cjs:147-155 | No emitted file is a plain dotfile such as `.gitignore`. Its extension is empty, so the `.gitignore` and `.npmignore` entries at lines 61-62 never match such a file; they match only names like `foo.gitignore`. |
| TarProps.PlainDotfileNotAllowed | tar.cjs:154-155 | A plain dotfile fails the allow-list: its empty extension is not listed, and no listed whole name starts with a dot. |
| TarProps.WalkAppend | tar.cjs:127 | The entries of a listing are handled in order: walking `a + b` yields the walk of `a` followed by the walk of `b`. |
| Tar.Matches | tar.cjs:78-95 | Models `pattern.test` for the end-anchored, start-unanchored patterns. A match always ends with the pattern's anchored text. A `head.*tail$` match is at least as long as `head` and `tail` together. |
| TarEntry.Record | tar.cjs:173-201 | A file whose stat or read throws yields no text. Otherwise the entry starts with the two header lines and the remaining header lines, and ends with the file's content followed by the footer and a blank line. Its length is exactly the sum of those parts, so the content is exactly what lies between the header and the footer. |
| TarEntry.HeaderFieldsInOrder | tar.cjs:185-190 | The header lines after the path come in the written order: size, mode, uid, gid, mtime, each at the offset where the previous one ends, then `--- END HEADER ---`. |
| TarEntry.HeaderShowsPath | tar.cjs:183-184 | In a readable file's entry, the displayed path sits right after `--- START HEADER ---`, a newline and `path: `. |
| TarEntry.FooterShowsPath | tar.cjs:193-196 | In a readable file's entry, the same displayed path sits right before ` ---` and the final blank line. |
| TarEntry.RecordShowsMode | tar.cjs:185-186 | In a readable file's entry, the `mode:` line follows the `size:` line directly after the two opening header lines. |
| TarEntry.RecordShowsPerms | tar.cjs:179-186 | The permission string, which reads back in base 8 as `mode mod 512` (Numerals.Perms), sits right after `mode: ` in the entry. |
| TarEntry.RecordText | tar.cjs:173-201 | The text for a visited file is empty exactly when its stat or read throws. |
| TarEntry.ArchiveText | tar.cjs:196-197 | The entries are appended in visiting order. The archive text is empty exactly when no visited file can be read. |
| TarEntry.ArchiveEmptyIff | tar.cjs:196-201 | Appending the entries of a sequence of visited files gives the empty text exactly when none of them can be read. |
| TarProps.UnreadableFileSkipped | tar.cjs:173-201 | A file whose stat or read throws adds nothing to the archive and does not stop the walk. The entries of its later siblings follow those of its earlier ones. |
| TarProps.UnreadableFileArchivesNothing | tar.cjs:199-201 | The archive text for a failed file alone is empty. |
| TarProps.WalkIgnoresReadFailures | tar.cjs:144-160 | Two trees of the same shape yield the same emitted paths, whatever reading their files would return. |
| Numerals.Perms | tar.cjs:179 | The permission string has exactly three characters, each in `0`..`7`, and read in base 8 it is `mode mod 512`. |
| Numerals.PermsDetermineMode | tar.cjs:179 | Two modes render the same permission string iff they agree modulo 512. |
| Numerals.PermissionBits | tar.cjs:179 | `mode & 0o777`, computed bit by bit after the 32-bit conversion, equals `mode mod 512`. |
| Numerals.BitAndLowMask | tar.cjs:179 | Masking with `2^k - 1` gives `a mod 2^k`. |
| Numerals.BitAndIsLowBits | tar.cjs:179 | Masking with `2^k - 1` keeps exactly the `k` least significant bits. |
| Numerals.LowBitsIsMod | tar.cjs:179 | The `k` least significant bits denote `a mod 2^k`. |
| Numerals.Digits | tar.cjs:185-188 | `toString(base)` is a non-empty string of digits of that base, and it starts with `0` only for zero. |
| Numerals.ValueOfDigits | tar.cjs:185-188 | Reading a rendered number back in its base gives the number. |
| Numerals.ValueIgnoresLeadingZeros | tar.cjs:179 | Leading zeros added by padding do not change the value denoted. |
| Numerals.OctalFitsThree | tar.cjs:179 | Any number below 512 takes at most three octal digits, so padding to three never truncates. |
| Numerals.PadStart | tar.cjs:179 | `padStart` keeps the string as a suffix, reaches the target length, and fills only with the fill character. |
| Paths.Extname | tar.cjs:147 | The extension is empty exactly when the name has no dot, its only dot is the first character, or it is `..`. Otherwise it is the dot-initial, dot-free suffix of the name. |
| Paths.LastDot | tar.cjs:147 | Gives the index of the last dot, or -1 when there is none. |
| Paths.PlainDotfileHasNoExtension | tar.cjs:61-62 | A name whose only dot is its first character has an empty extension. |
| Paths.Join | tar.cjs:128-129 | Models `path.join(dir, name)` seen relative to the walk root (`path.relative('.', …)`). Joining onto the root gives the name itself. Otherwise the result is `dir`, a `/`, then the name: it starts with `dir` and ends with the name. |
| Paths.JoinAll | tar.cjs:128-129 | The relative path of the directory reached through a chain of names. It is empty for the root and ends with the last name otherwise. |
| Paths.JoinAllExtends | tar.cjs:128-129 | The relative path of a directory is a string prefix of the path of every directory below it. |
| Paths.JoinExtends | tar.cjs:128 | `path.join(dir, name)` starts with `dir`. |
| Paths.ToSlashes | tar.cjs:184 | `replace(/\\/g, '/')` keeps the length, turns each backslash into a slash, and leaves every other character alone. |
| Paths.DisplayPath | tar.cjs:193 | The displayed path is `./` followed by the relative path, two characters longer. Each backslash of the relative path becomes `/` in its place, and every other character is kept. |
| Paths.DisplayPathOfSlashPath | tar.cjs:184 | A relative path with no backslash is displayed unchanged after `./`. |
| FsTree.VisitPathExtends | tar.cjs:128-129 | The relative path of a file below a directory extends that directory's relative path. |
| FsTree.AllFiles | tar.cjs:144-146 | Every file of the unpruned listing lies below the directory whose listing was walked. |
| FsTree.HeadRecursiveAppend | tar.cjs:127 | A function that handles the head entry of a listing and then recurses on the rest distributes over concatenation. |
| FsTree.FlatMapMembers | tar-compressed.js:84-88 | Whatever a visit-by-visit append yields came from the contribution of one of the visited files. |
| FsTree.FlatMapAtMostOne | tar-compressed.js:84 | When each visited file contributes at most one item, the appended result is no longer than the sequence of visits. |
| TarCompressed.Process | tar-compressed.js:47-72 | A record exists iff stat and read succeed. It carries the file's relative path, size, uid, gid and mtime, the encoded content and its length, and a mode of exactly three octal digits whose value is `mode mod 512`. |
| TarCompressed.Archive | tar-compressed.js:84-88 | Records are appended in visiting order, at most one per visited file. Every record is the `processFile` record of some visited file. |
| TarCompressedProps.WalkIsFilteredListing | tar-compressed.js:25-44 | From the root, the walk yields the files of the unpruned depth-first listing that have no excluded name on their path and pass the include test, in the same order. |
| TarCompressedProps.EntryIsFiltered | tar-compressed.js:27-43 | One loop iteration yields the filtered listing of that entry. A directory with an excluded name contributes nothing. |
| TarCompressedProps.WalkEmitsSelected | tar-compressed.js:29-41 | No emitted file has `.git`, `node_modules` or `tmp` as its own name or as the name of any directory on its path, and every emitted file passes the include test. |
| TarCompressedProps.FileEmittedIff | tar-compressed.js:29-41 | A file is handed to `processFile` iff its name is not excluded and its extension is listed or its name is `Dockerfile`. |
| TarCompressedProps.ExactNameOnly | tar-compressed.js:29 | A directory named `tmp` is skipped with everything in it, while `tmpdata/a.js` is emitted. |
| TarCompressedProps.MarkdownIncluded | tar-compressed.js:11 | `README.md` at the root is emitted. |
| TarCompressedProps.PlainDotfilesNeverEmitted | tar-compressed.js:36-39 | No emitted file is a plain dotfile such as `.gitignore`. |
| TarCompressedProps.WalkAppend | tar-compressed.js:27 | Walking `a + b` yields the walk of `a` followed by the walk of `b`. |
| TarCompressedProps.ArchiveIsReadableVisits | tar-compressed.js:47-88 | The archive holds one record per readable visited file, carrying that file's path, and none for the others, in visiting order. |
| TarCompressedProps.UnreadableFileArchivesNothing | tar-compressed.js:86-88 | A failed file alone yields no record. |
| TarCompressedProps.UnreadableFileSkipped | tar-compressed.js:86-88 | A failed file adds nothing and does not stop the walk. The records of its later siblings follow those of its earlier ones. |
| TarCompressedProps.WalkIgnoresReadFailures | tar-compressed.js:33-41 | Two trees of the same shape yield the same emitted paths, whatever reading their files would return. |

## Left out

- `update-doc.js` is not part of this model. It consists of `glob` matching, an OAuth flow, Google Docs API calls and asynchronous file I/O.
- File-system calls are replaced by the input tree:
  - `readdirSync` is the listing order of the tree.
  - `statSync` and `readFileSync` are the per-file `Option<Stat>`; `None` stands for any throw.
  - `appendFileSync`, `mkdirSync` and `writeFileSync` are not modelled. The archive is returned as a value instead.
- A failing `readdirSync` is not modelled. Neither script catches it (tar.cjs:125, tar-compressed.js:26), so an unlistable directory, for example one that gives EACCES, ends the whole run with a truncated archive. The tree model always lists every directory, so every walk here runs to completion.
- `tar-compressed.js` does not parse as written. On line 63 (and 76), `/\/g, '/` closes the regex early and leaves an unterminated string. On lines 73-74, a raw newline sits inside a single-quoted string. So as written no part of the script runs. The model is of the script with `/\\/g` and `'\n'` restored.
- `zlib.gzipSync` followed by base64 is a parameter `encode` of `TarCompressed.Process`.
- `stat.mtime.toUTCString()` is taken as an already rendered string.
- `console` logging is not modelled.
- The header and footer text of `tar-compressed.js` (its lines 61-83) is not modelled; only the record's fields are.
- Path handling assumes `/`-separated relative paths and entry names without `/`. Such names are never `.` or `..` and never empty, as `readdirSync` returns them.
  - `path.normalize` in `shouldExcludeFile` is the identity on such paths.
  - Windows separators are not modelled.
- Paths.Extname: models `path.extname` only for names without a `/`, which is every name the walks pass to it.
- Numerals.PermissionBits: JavaScript numbers are doubles. The model takes `mode` as an exact natural number. It applies the 32-bit conversion of `&` but not the loss of precision above 2^53, which no file mode reaches.
- Numerals.Digits: models `toString(base)` only for bases 2 to 10 and non-negative integers, the only cases the scripts use.
- Tar.Walk: carries no contract of its own. What it yields is stated by `TarProps.WalkIsFilteredListing` and the lemmas after it.
- TarCompressed.Walk: carries no contract of its own. What it yields is stated by `TarCompressedProps.WalkIsFilteredListing` and the lemmas after it.
