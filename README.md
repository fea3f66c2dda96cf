# gindex in Dafny

`gindex.py` writes an `index.md` for a directory tree. The page has a title, a
"目录" heading, and a nested Markdown bullet list. In the list, every Markdown
file becomes a link and every subdirectory becomes a plain bullet. The
subdirectory's own contents follow it, indented four more spaces. This project
models the part of the script that decides what that page says. It has three
pieces:

- `is_ignored_dir`: the three directory names that are never listed.
- `generate_nested_list`: the recursive renderer.
- The assembly of the page text in `generate_markdown_index`: headings, then the
  list or a placeholder.

It proves properties of that model.

The project has three files.

- `tree.dfy` (module `FileTree`) holds the file system as an input value.
  - An `Entry` is a `File`, a `Dir` with its `Listing`, or a `Special` entry that
    is neither a regular file nor a directory. The renderer skips `Special`
    entries.
  - A `Listing` is either the entries `os.listdir` returns or `Denied`, which
    stands for a `PermissionError`.
  - `SortByName` is `sorted(...)`. It is an insertion sort by code-point
    lexicographic order, which is Python's order on `str`. It is proved sorted
    and a permutation of its input.
- `gindex.dfy` (module `GIndex`) holds two things.
  - The renderer as a specification function. `Render` produces the bullet lines
    of a directory's fragment, and `Text` joins them into a string.
  - The renderer as imperative methods that keep the loops of the original.
    - `Partition` builds `directories` and `markdown_files`.
    - `EmitFiles` is the file loop.
    - `EmitDirectories` and `EmitDirectory` are the directory loop and its
      recursion.
    - `GenerateNestedList` ties these together. It is proved to return exactly
      `Text(Render(...))`.
  - `IndexPage` and `GenerateMarkdownIndex` build the page text.
- `gindex_properties.dfy` (module `GIndexProperties`) holds lemmas about the
  rendered list and the page.

Three inputs that the script gets from the host become parameters of the model:

- The host's path separator is the parameter `sep`.
- The directory being rendered is named by the directory names leading to it
  from the scan root (`rel`). That sequence is empty at the root, which is
  where `os.path.relpath` returns `'.'`.
- The root's base name is the parameter `rootName`.

Two behaviours of the code are worth knowing, and the model keeps both.

- The entries of a directory are sorted by name before they are partitioned.
- A subdirectory that cannot be listed still gets its own plain `* name`
  bullet. The "无法访问目录" line follows it one level deeper, because it is the
  recursive call that meets the permission error.

The link is built by joining the directory names with the host separator and
then turning every `\` into `/`. As a result, on a host whose separator is `/`,
a backslash that is part of a directory's name is rewritten as well. The model
keeps this behaviour, and `BackslashInNameRewritten` proves it for every such name.
The replacement is applied to the directory part only. A backslash in a
Markdown file's own name is kept, so on a `/` host the link `a/b\c.md` still
holds one. The model does the same: `FileLinkShape` promises that no backslash
comes before the file name, and that the link ends with the name unchanged.

## Model

| member | source | states |
|---|---|---|
| FileTree.SortByName | gindex.py:34 | the listing in Python's code-point string order: sorted by name and a permutation of what `os.listdir` returned |
| FileTree.InsertByName | gindex.py:34 | inserting one entry into a sorted listing keeps it sorted and adds exactly that entry |
| FileTree.NameLeTotal | gindex.py:34 | any two names are ordered one way or the other, so sorting is well defined |
| FileTree.NameLeTransitive | gindex.py:34 | the name order is transitive |
| FileTree.NameLeAntisymmetric | gindex.py:34 | two names ordered both ways are the same name |
| FileTree.NameLe | gindex.py:34 | Python's `<=` on `str`: code point by code point, a proper prefix first; NameLeTotal, NameLeTransitive and NameLeAntisymmetric prove it a total order |
| GIndex.IsIgnoredDir | gindex.py:11-14 | exactly `.git`, `__pycache__` and `.DS_Store`; RenderWellFormed proves such a directory never gets a bullet and IgnoredDirectoryNotEntered that it is never entered |
| GIndex.EndsWith | gindex.py:46 | `str.endswith`: the last characters of the string are the suffix |
| GIndex.IsMarkdownName | gindex.py:46 | `item.endswith('.md') and item != 'index.md'`; MarkdownFilesCount and RenderWellFormed state that exactly such names get link bullets |
| GIndex.IsListedDir | gindex.py:44 | the first branch of the partition: a directory whose name is not ignored; SubdirsCount states that exactly such entries are kept |
| GIndex.IsListedMarkdown | gindex.py:46 | the second branch of the partition: a regular file with a Markdown name other than `index.md`; MarkdownFilesCount states that exactly such files are kept |
| GIndex.Subdirs | gindex.py:44-45 | every directory kept is an entry of the listing that is a directory with a name that is not ignored |
| GIndex.MarkdownFiles | gindex.py:46-47 | every file kept is a regular file of the listing whose name ends in `.md` and is not `index.md` |
| GIndex.Partition | gindex.py:39-47 | the partition loop builds exactly the listed directories and the listed Markdown files, each in listing order |
| GIndex.Indent | gindex.py:30 | the indentation at depth d is 4·d spaces |
| GIndex.StripMd | gindex.py:51 | the display name followed by `.md` is the file name |
| GIndex.SlashSeparators | gindex.py:58 | every backslash becomes a slash, every other character is kept, and no backslash remains |
| GIndex.FileLinkShape | gindex.py:53-59 | the link is the bare file name exactly at the scan root; below the root the name follows a `/`, and nothing before the name is a backslash |
| GIndex.JoinPath | gindex.py:53 | the directory names from the root joined by the host separator, as `os.path.relpath` returns them; JoinPathSlashed and BackslashSurvivesJoin state what normalising it gives |
| GIndex.FileLink | gindex.py:53-59 | the link target of a file bullet: the bare name at the root, else the normalised directory, `/`, and the name; FileLinkShape, PortableLinks and BackslashInNameRewritten state its shape |
| GIndex.LineText | gindex.py:36-67 | the text of one bullet: indentation, `* `, the link, the directory name or the inaccessible mark, and a newline; LineShape states its shape |
| GIndex.Render | gindex.py:16-74 | the lines of a directory's fragment: the inaccessible line for an unreadable directory, else the file bullets of the sorted listing and then each listed directory with its fragment one level deeper; GenerateNestedList is proved to return its text, and TopLevelLines, RenderWellFormed, RenderEmptyIff and IgnoredDirectoryNotEntered state its properties |
| GIndex.FileLines | gindex.py:50-60 | the file bullets of one level, one per Markdown file in order; FileLinesAt states them element by element |
| GIndex.DirLines | gindex.py:63-72 | the directory blocks of one level in order; DirLinesConcat, DirectoryBlock and DirLinesAtDepth state their structure |
| GIndex.EmitFiles | gindex.py:50-60 | the file loop's text is one link bullet per Markdown file, in order, at the current indentation |
| GIndex.EmitDirectory | gindex.py:64-72 | one turn of the directory loop gives the plain name bullet followed by the subdirectory's fragment one level deeper |
| GIndex.EmitDirectories | gindex.py:63-72 | the directory loop's text is each directory's block in order |
| GIndex.GenerateNestedList | gindex.py:16-74 | the renderer returns the text of the specified fragment: the single inaccessible line for an unreadable directory, or the file bullets followed by the directory blocks |
| GIndex.Text | gindex.py:28-72 | the `result` string that `+=` builds, line after line; TextAppend states it is compositional and TextBlankIffEmpty that it is blank exactly when no line was rendered |
| GIndex.TextAppend | gindex.py:60-72 | accumulating with `+=` is compositional: the text of two runs of lines is the concatenation of their texts |
| GIndex.IsPythonSpace | gindex.py:102 | the characters `str.isspace` accepts, which `str.strip()` removes |
| GIndex.IsBlank | gindex.py:102 | `not s.strip()`: every character is Python whitespace; TextBlankIffEmpty proves rendered text blank exactly when no line was rendered |
| GIndex.Header | gindex.py:95-98 | the two heading writes, `# {root_name}` and `## 目录`, each followed by a blank line; PageText states the page is this header followed by the list or the placeholder |
| GIndex.IndexPage | gindex.py:95-105 | the page starts with `# name` and the `## 目录` heading, followed by the placeholder if the list is blank and by the list otherwise |
| GIndex.GenerateMarkdownIndex | gindex.py:95-105 | the page text written for a scan root is the page built around the rendered fragment of the root |
| GIndexProperties.LineShape | gindex.py:30-67 | every bullet line is exactly 4·depth spaces, then `* `, and ends with a newline |
| GIndexProperties.TextBlankIffEmpty | gindex.py:102 | the rendered text is blank for `str.strip()` exactly when no line was rendered |
| GIndexProperties.FileLinesAt | gindex.py:50-60 | the k-th file bullet links the k-th Markdown file, shown without its `.md` |
| GIndexProperties.RenderWellFormed | gindex.py:44-72 | no line is shallower than its fragment; no directory bullet names an ignored directory; every link shows a Markdown name other than `index.md` without `.md`, ends with that file name and has no backslash before it |
| GIndexProperties.DirLinesWellFormed | gindex.py:63-72 | the same holds for the directory part, and in that part the lines at the current depth are directory name bullets |
| GIndexProperties.FilesBeforeDirectories | gindex.py:49-72 | at any one level, every file bullet comes before every directory bullet |
| GIndexProperties.TopLevelLines | gindex.py:42-72 | the lines at a level are exactly the file bullets of the sorted listing's Markdown files followed by one name bullet per listed subdirectory |
| GIndexProperties.DirLinesAtDepth | gindex.py:63-72 | the lines of the directory part at the current depth are exactly the directories' name bullets |
| GIndexProperties.MarkdownFilesCount | gindex.py:46-47 | a name is kept as often as a regular file of that name occurs if it is a Markdown name other than `index.md`, and never otherwise |
| GIndexProperties.SubdirsCount | gindex.py:44-45 | a directory is kept as often as it occurs if its name is not ignored, and never otherwise |
| GIndexProperties.EachMarkdownFileListedOnce | gindex.py:34-47 | after sorting, every Markdown file other than `index.md` gets its bullet once, and no other file gets one |
| GIndexProperties.EachSubdirectoryListedOnce | gindex.py:34-45 | after sorting, every directory that is not ignored is listed once, and an ignored one never |
| GIndexProperties.PartitionKeepsOrder | gindex.py:42-47 | the partition keeps the sorted order within the files and within the directories |
| GIndexProperties.IgnoredDirectoryNotEntered | gindex.py:11-14 | what an ignored directory contains, or whether it can be read, makes no difference to the output: it is never entered |
| GIndexProperties.SortUpToIgnored | gindex.py:34 | listings that differ only inside ignored directories sort the same way |
| GIndexProperties.PartitionUpToIgnored | gindex.py:42-47 | such listings partition into the same directories and files |
| GIndexProperties.DirLinesConcat | gindex.py:63-72 | the directory loop's lines for two runs of directories are the concatenation of each run's lines |
| GIndexProperties.DirectoryBlock | gindex.py:67-72 | a directory's name bullet is immediately followed by its fragment one level deeper, and its siblings render independently of it |
| GIndexProperties.UnreadableDirectoryIsLocal | gindex.py:33-36 | an unreadable subdirectory renders as its name bullet and one inaccessible line one level deeper, and its siblings are still rendered |
| GIndexProperties.UnreadableText | gindex.py:36 | an unreadable directory's fragment is exactly the indented `* [无法访问目录]` line |
| GIndexProperties.RenderEmptyIff | gindex.py:33-74 | a fragment is empty exactly when its directory is readable and has no Markdown file other than `index.md` and no directory that is not ignored |
| GIndexProperties.PortableLinks | gindex.py:53-59 | when no directory name holds a backslash, the link is the same with `/` or `\` as host separator: the directory names joined by `/`, a `/`, and the file name |
| GIndexProperties.JoinPathSlashed | gindex.py:58 | normalising a path joined with either separator gives the names joined by `/` |
| GIndexProperties.BackslashSurvivesJoin | gindex.py:53 | a backslash in any directory name is still in the joined relative directory |
| GIndexProperties.BackslashInNameRewritten | gindex.py:58 | on a `/` host, whenever some directory name contains a backslash, the link differs from the names joined by `/`, a `/` and the file name, so it no longer names that directory |
| GIndexProperties.PageText | gindex.py:95-105 | the page is the two headings followed by the placeholder exactly when the root has nothing to list, and by the rendered list otherwise |

## Left out

- The `main` driver (gindex.py:108-137) is not modelled. It looks up the working directory, picks the subdirectories, calls the generator once per subdirectory, prints, and exits. All of that is process plumbing and output.
- The output file is not modelled: opening and writing it, its UTF-8 encoding, and `os.makedirs` for its directory (gindex.py:88-93). `GenerateMarkdownIndex` returns the page text instead.
- `os.path.normpath` and `os.path.basename` (gindex.py:85-86) are not modelled. The root's base name is the parameter `rootName`.
- Host path semantics are not modelled: `os.path.join`, `os.path.relpath`, `os.path.isdir` and `os.path.isfile`. The input tree already says which entries are directories and files. The relative directory is the sequence of directory names from the root, joined with the separator `sep`.
- Errors from `os.listdir` other than `PermissionError` are not modelled, for example a directory removed during the scan. The script lets them propagate as exceptions.
- Symbolic links are not modelled as such. A link to a directory appears as a `Dir`. A cycle of links cannot be expressed in the finite input tree.
- Names are sequences of Unicode scalar values. Python strings that carry surrogate escapes for undecodable file names are not modelled.
- The recursion depth is not bounded. `generate_nested_list` recurses once per directory level, so a tree nested about 1000 levels deep raises `RecursionError` under Python's default recursion limit. The model renders trees of any depth.
