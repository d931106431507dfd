# repo_concatenate, modelled in Dafny

`repo_concatenate.py` writes a repository into one text file. That file holds
four sections:

- code statistics;
- a "Folder Structure" drawing of the directory tree;
- a numbered "File Index" of the files it includes;
- every included file's text, each between a numbered header and a numbered
  footer.

This project models the part of the script that chooses and orders the files
and renders them. It proves what each piece returns.

The file system is an immutable tree. `FileTree.Node` is either a file with a
name, a byte size and a line count, or a directory whose entries are in
listing order. The `.gitignore` matcher of the `gitignore_parser` library is
an uninterpreted predicate on path strings, or absent (`Inclusion.Gitignore`).
`REPO_NAME` and `SCRIPT_NAME` are parameters (`Inclusion.Config`), and
`OUTPUT_FILE` is `REPO_NAME + ".txt"`.

Modules, in dependency order:

- `Paths`: `os.path.join`, `basename`, `splitext` (`Extension`), and
  `relpath` for paths under ".". It also holds the "inside a directory"
  relation on paths.
- `FileTree`: the tree, well-formedness (proper, unique entry names), a size
  measure, subsequences, and the stable sort by name that `sorted(...,
  key=lambda e: e.name)` performs.
- `Inclusion`: the constants and `should_include_file`.
- `Walker`: `get_relevant_files` as a recursive pre-order walk, pruned
  exactly as the source prunes `dirs`. A directory's kept files come first,
  then the walks of its kept subdirectories.
- `StackWalk`: the same walk run the way `os.walk` runs it, with a stack of
  directories and the surviving subdirectories pushed in reverse. It is
  proved equal to the recursive walk.
- `WalkFacts`, `WalkOrder`: what the walk returns (membership, pruning, paths
  inside the walked directory) and in which order.
- `FolderStructure`: `get_folder_structure` / `add_to_structure`, line for
  line.
- `StructureFacts`, `StructureRows`: the drawing's shape. One line per shown
  entry, sorted at each level, the corner on the last entry only, and four
  characters of prefix per directory level.
- `Statistics`: `count_files_per_type` (Python dictionaries as cell
  sequences in insertion order) and `find_largest_file`.
- `Numbers`: `str(n)` and `f"{n:04d}"`, with the readings that recover `n`.
- `Report`: the index loop and the contents loop of `main`.
- `Consistency`: how the drawing and the walk relate.

Two tests of the same intent differ, and the model keeps both as written.

- `should_include_file` compares the whole joined path (`./name.txt`) with
  the bare `OUTPUT_FILE` name, so that test never rejects anything the walk
  builds.
- The drawing compares entry names.

So every file the drawing shows is walked, but a file named like the output
file, or a file named ".git", is walked, indexed and copied while the drawing
hides it. `Consistency` proves both directions. The same holds for a
directory named SCRIPT_NAME, ".gitignore" or like the output file: the walk
prunes only ".git" and matched directories (lines 81-85), so it indexes and
copies the files inside, while the drawing (lines 108-112) leaves out the
directory and its whole subtree.

## Model

| member | source | states |
|---|---|---|
| Paths.Join | repo_concatenate.py:87 | joining an entry name onto a directory path inserts exactly one separator, and the result ends with the name |
| Paths.Basename | repo_concatenate.py:62-63 | the base name is the separator-free tail of the path, preceded by a separator when it is not the whole path |
| Paths.BasenameOfJoin | repo_concatenate.py:62-63 | the base name of a joined path is the name that was joined on |
| Paths.ExtensionPresent | repo_concatenate.py:182 | `splitext` reports an extension exactly when the base name has a dot preceded somewhere by a non-dot character |
| Paths.Extension | repo_concatenate.py:182 | the extension is empty or starts at a dot, is a suffix of the base name, and holds no further dot |
| Paths.RelativeToDot | repo_concatenate.py:322 | `relpath(p, ".")` of a path under "./" is the path without "./", so prefixing "./" gives the path back |
| FileTree.SortByName | repo_concatenate.py:108 | sorting by name yields the same entries (as a multiset) in ascending name order |
| Inclusion.IncludeJoined | repo_concatenate.py:61-64 | a joined path is included iff it is not OUTPUT_FILE as a whole string, the entry is neither SCRIPT_NAME nor ".gitignore", and the matcher does not accept the path |
| Inclusion.OutputTestNeverFires | repo_concatenate.py:61-64 | a path the walk builds never equals OUTPUT_FILE, so inclusion depends only on the name tests and the matcher |
| Walker.KeptFiles | repo_concatenate.py:86-89 | the kept files of a directory are, in listing order, exactly its files whose joined path passes `should_include_file` |
| Walker.RemoveGitDir | repo_concatenate.py:81-82 | `dirs.remove('.git')` keeps the order and every other directory, and with unique names leaves no ".git" |
| Walker.Unignored | repo_concatenate.py:83-85 | the comprehension keeps, in order, exactly the directories whose joined path the matcher does not accept |
| Walker.KeptDirs | repo_concatenate.py:81-85 | the walk descends, in listing order, into exactly the subdirectories not named ".git" and not accepted by the matcher |
| StackWalk.WalkFiles | repo_concatenate.py:80-89 | `os.walk`'s stack loop with `dirs` pruned in place returns exactly the recursive pre-order walk |
| WalkFacts.RelevantFilesMembership | repo_concatenate.py:80-89 | a file is returned iff it is reached through kept directories and its joined path passes `should_include_file` |
| WalkFacts.RelevantFilesAvoidPruned | repo_concatenate.py:81-85 | no returned path lies inside a ".git" directory or a directory the matcher accepts, at any depth |
| WalkFacts.RelevantFilesInside | repo_concatenate.py:80-89 | every returned path lies inside the walked directory |
| WalkOrder.DirectFilesFirst | repo_concatenate.py:80-89 | top-down: every file directly in a directory precedes every file from its subdirectories |
| WalkOrder.SubdirectoriesInOrder | repo_concatenate.py:80-85 | kept subdirectories are walked whole, one after another, in the order of the pruned `dirs` list |
| FolderStructure.Listing | repo_concatenate.py:108-112 | a level lists its entries sorted by name, exactly those not named ".git", OUTPUT_FILE, SCRIPT_NAME or ".gitignore" and not accepted by the matcher |
| FolderStructure.ListingDistinct | repo_concatenate.py:108-112 | in a directory whose entry names are unique, the sorted and filtered listing names each entry once |
| FolderStructure.EntryLine | repo_concatenate.py:117-121 | an entry's line is its prefix, its connector, its name, and a slash exactly for a directory |
| FolderStructure.GetFolderStructure | repo_concatenate.py:125-126 | the section starts with `REPO_NAME/`, followed by the drawing of the top directory |
| StructureFacts.LevelLines | repo_concatenate.py:114-121 | the lines of one level are the sorted, filtered entries, one each in order, with the corner on the last only |
| StructureFacts.SubtreeIndent | repo_concatenate.py:115-119 | every line of a directory's subtree starts with the directory's prefix plus one block: four blanks when the directory's own line has `└── `, and `│   ` when it has `├── ` |
| StructureFacts.TopLevelLines | repo_concatenate.py:125-126 | below the first line, the top level is the listing of the repository directory and every line starts with a connector or an indentation block |
| StructureRows.RowsUnique | repo_concatenate.py:106-121 | in a well-formed tree no two lines of a subtree's drawing depict the same entry: each pair of lines differs in directory or in entry name |
| StructureRows.FolderStructureDepicts | repo_concatenate.py:106-126 | the section is the first line plus one line per row; no two rows depict the same entry; no depicted entry has a hidden name or is matched; its prefix is 4 characters per level |
| StructureRows.FolderStructureShows | repo_concatenate.py:108-119 | an entry is depicted iff it is reached through shown directories and is shown itself |
| Statistics.Add | repo_concatenate.py:183 | `t[k] += w` on a defaultdict raises `k` by `w`, appends a new key last, and changes nothing else |
| Statistics.Tally | repo_concatenate.py:180-184 | counting a sequence gives one key per distinct element in first-occurrence order, valued by its occurrences, summing to the length |
| Statistics.CountExtensions | repo_concatenate.py:181-183 | the counting loop builds exactly the tally of the extensions |
| Statistics.CountFilesPerType | repo_concatenate.py:180-184 | keys are the extensions in first-occurrence order, each valued by its number of files, and the counts sum to the number of files |
| Statistics.FilesPerTypeKeys | repo_concatenate.py:180-184 | every key is the extension of some listed file, and every listed file's extension is a key |
| Statistics.FindLargestFile | repo_concatenate.py:216-230 | given which files `open` succeeds on: the result is at least as large as every file that opens; it describes the first of the largest files that open, since a larger file that fails to open is skipped; it stays `{'', 0, 0}` iff no file that opens has a positive size |
| Numbers.DecimalRoundTrip | repo_concatenate.py:323 | reading back `str(n)` gives `n` |
| Numbers.Pad4 | repo_concatenate.py:344 | `{n:04d}` is all digits, at least four long, and reads back as `n` |
| Report.ReadIndexLine | repo_concatenate.py:323 | an index line reads back as its number and the relative path |
| Report.FileIndex | repo_concatenate.py:310-324 | the index has one line per walked file; line `i` reads back as number `i + 1` and that file's relative path |
| Report.IndexSection | repo_concatenate.py:313-324 | the "File Index" lists the walk of the repository in walk order, numbered 1, 2, 3 and so on |
| Report.ReadBlockNumber | repo_concatenate.py:343-349 | a block's `FILE_nnnn` header reads back as the block's number |
| Report.ContentSection | repo_concatenate.py:329-350 | only a file that opens gets a block, numbered one more than the number of successful reads before it |
| Report.NumbersAgree | repo_concatenate.py:329-350 | a file's content number equals its index number iff every earlier file opened |
| Report.AllRead | repo_concatenate.py:329-350 | when every file opens, block `i` is file `i`'s, numbered `i + 1` |
| Report.Concatenate | repo_concatenate.py:301-350 | the drawing is `get_folder_structure`, the index is the walk numbered from 1, and when every file opens, block `i` has index line `i`'s number and path |
| Consistency.DrawnFilesAreWalked | repo_concatenate.py:108-119 | every file row of the drawing is a file the walk returns, at the same path |
| Consistency.OutputFileWalkedNotDrawn | repo_concatenate.py:61-64 | a top-level file named OUTPUT_FILE (not the script, not ".gitignore", not matched) is walked while the drawing omits it |
| Consistency.GitFileWalkedNotDrawn | repo_concatenate.py:81-82 | a file named ".git" is walked (only a directory of that name is pruned) while the drawing omits it |

## Left out

- File system I/O: `os.walk`, `os.scandir`, `open`, `os.path.getsize` and writing the output file. The tree value carries the sizes and line counts these would report, and a file's text comes from a `read` parameter.
- The files are fixed for the whole run. The script opens the output file (line 304) before its index and contents walks, so those walks can see a file the drawing and statistics walks did not. The model gives all walks the same tree.
- The pattern language of `gitignore_parser` and `parse_gitignore`: a foreign library, taken as an uninterpreted predicate or absent.
- `count_total_lines`, `count_lines_per_file_type`, `calculate_average_file_size`, `calculate_statistics` and `format_statistics`: line counting, float division and `.2f` formatting. They also aggregate the same walk as the counts above.
- `handle_error`, `exit(1)`, and an exception stopping `get_relevant_files` or `add_to_structure` midway. `os.walk` and `os.scandir` failing on an unreadable directory are left out too; scanning a file in place of a directory gives an empty listing.
- Report.ContentSection: a file that opens but fails while its block is being written leaves a partial block without advancing the counter. The model treats every file as either readable whole or unopenable, with no block.
- Statistics.FindLargestFile: `getsize` failing for a file is not modelled; every file has a size. Whether `open` succeeds is a parameter, and a failure to open skips the file as the source does. A file that opens but fails while its lines are counted is not modelled separately.
- The derivation of `REPO_NAME` from `abspath` and of `SCRIPT_NAME` from `__file__`: parameters of `Config`.
- Symlinks and the `is_dir` distinction between `os.walk` and `os.scandir`: every node is a plain file or a directory.
- The output text is assembled as: statistics, the drawing joined with newlines, the index joined with newlines, then the blocks. The model stops at the three sections' sequences and the block records (`Report.Block` gives a block's text).
