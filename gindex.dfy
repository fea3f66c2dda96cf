/** The renderer of gindex.py: the nested Markdown bullet list that
    `generate_nested_list` produces for one directory, and the index page that
    `generate_markdown_index` writes around it.

    A directory is identified by the names of the directories on the way to it
    from the scan root (`rel`, empty at the root); the host's path separator is
    the parameter `sep`. */
module GIndex {
  import opened FileTree

  /** `is_ignored_dir`: version-control, cache and OS metadata directories. */
  predicate IsIgnoredDir(name: string)
  {
    name == ".git" || name == "__pycache__" || name == ".DS_Store"
  }

  predicate EndsWith(s: string, suffix: string)
  {
    |suffix| <= |s| && s[|s| - |suffix|..] == suffix
  }

  /** A file name that gets a bullet: `*.md`, but not the index itself. */
  predicate IsMarkdownName(name: string)
  {
    EndsWith(name, ".md") && name != "index.md"
  }

  /** First branch of the partition: a directory that is not ignored,
      whether or not it can be listed. */
  predicate IsListedDir(e: Entry)
  {
    e.Dir? && !IsIgnoredDir(e.name)
  }

  /** Second branch of the partition: a regular Markdown file. */
  predicate IsListedMarkdown(e: Entry)
  {
    e.File? && IsMarkdownName(e.name)
  }

  /** The `directories` list the partition loop builds: the listed
      directories of `items`, in the order of `items`. */
  function Subdirs(items: seq<Entry>): (r: seq<Entry>)
    ensures forall k :: 0 <= k < |r| ==> IsListedDir(r[k]) && r[k] in items
  {
    if items == [] then []
    else
      var last := items[|items| - 1];
      assert items == items[..|items| - 1] + [last];
      Subdirs(items[..|items| - 1]) + (if IsListedDir(last) then [last] else [])
  }

  /** The `markdown_files` list the partition loop builds: the names of the
      Markdown files of `items`, in the order of `items`. */
  function MarkdownFiles(items: seq<Entry>): (r: seq<string>)
    ensures forall k :: 0 <= k < |r| ==> IsMarkdownName(r[k]) && File(r[k]) in items
  {
    if items == [] then []
    else
      var last := items[|items| - 1];
      assert items == items[..|items| - 1] + [last];
      MarkdownFiles(items[..|items| - 1]) + (if IsListedMarkdown(last) then [last.name] else [])
  }

  /** `"    " * base_indent`. */
  function Indent(depth: nat): (r: string)
    ensures |r| == 4 * depth
    ensures forall k :: 0 <= k < |r| ==> r[k] == ' '
  {
    if depth == 0 then "" else Indent(depth - 1) + "    "
  }

  /** `md_file[:-3]`, the bullet's display text. */
  function StripMd(name: string): (r: string)
    ensures EndsWith(name, ".md") ==> r + ".md" == name
    ensures |name| < 3 ==> r == ""
  {
    if |name| >= 3 then name[..|name| - 3] else ""
  }

  /** `os.path.relpath(current_path, root_path)` below the root: the
      directory names from the root down, joined by the host separator. */
  function JoinPath(parts: seq<string>, sep: char): string
  {
    if |parts| == 0 then ""
    else if |parts| == 1 then parts[0]
    else JoinPath(parts[..|parts| - 1], sep) + [sep] + parts[|parts| - 1]
  }

  /** `s.replace('\\', '/')`. */
  function SlashSeparators(s: string): (r: string)
    ensures |r| == |s|
    ensures forall k :: 0 <= k < |s| ==> r[k] == (if s[k] == '\\' then '/' else s[k])
    ensures forall k :: 0 <= k < |r| ==> r[k] != '\\'
  {
    if s == [] then ""
    else [if s[0] == '\\' then '/' else s[0]] + SlashSeparators(s[1..])
  }

  /** The link target of Markdown file `file` in directory `rel`: the bare
      name at the scan root, otherwise the normalised relative directory, a
      slash and the name. */
  function FileLink(sep: char, rel: seq<string>, file: string): string
  {
    if rel == [] then file
    else
      var relativeDir := SlashSeparators(JoinPath(rel, sep));
      relativeDir + "/" + file
  }

  /** The link ends with the file name; at the scan root it is the bare
      name, below it the name follows a `/`, and no backslash is left in
      front of the name. */
  lemma FileLinkShape(sep: char, rel: seq<string>, file: string)
    ensures EndsWith(FileLink(sep, rel, file), file)
    ensures rel == [] <==> |FileLink(sep, rel, file)| == |file|
    ensures rel != [] ==> FileLink(sep, rel, file)[|FileLink(sep, rel, file)| - |file| - 1] == '/'
    ensures forall k :: 0 <= k < |FileLink(sep, rel, file)| - |file| ==> FileLink(sep, rel, file)[k] != '\\'
  {
    if rel != [] {
      var relativeDir := SlashSeparators(JoinPath(rel, sep));
      assert FileLink(sep, rel, file) == relativeDir + "/" + file;
      assert FileLink(sep, rel, file)[|relativeDir| + 1..] == file;
    }
  }

  /** One bullet line of the rendered list. */
  datatype Line =
    | Link(depth: nat, display: string, target: string)  // `* [display](target)`
    | Plain(depth: nat, name: string)                     // `* name`, a directory
    | NoAccess(depth: nat)                                // `* [无法访问目录]`

  const NoAccessMark: string := "[无法访问目录]"

  /** The text of one line: `4 * depth` spaces, `* `, the payload, a newline. */
  function LineText(l: Line): string
  {
    var payload := match l
      case Link(_, display, target) => "[" + display + "](" + target + ")"
      case Plain(_, name) => name
      case NoAccess(_) => NoAccessMark;
    Indent(l.depth) + "* " + payload + "\n"
  }

  /** The lines joined into one string, as the renderer accumulates them. */
  function Text(lines: seq<Line>): string
  {
    if lines == [] then "" else Text(lines[..|lines| - 1]) + LineText(lines[|lines| - 1])
  }

  /** The fragment `generate_nested_list` renders for the directory at `rel`
      whose listing is `listing`, at recursion depth `depth`: a permission
      error gives one placeholder line; otherwise the Markdown files of the
      sorted listing come first, then every listed directory with its own
      fragment one level deeper. */
  function Render(sep: char, rel: seq<string>, listing: Listing, depth: nat): seq<Line>
    decreases listing, 1
  {
    match listing
    case Denied => [NoAccess(depth)]
    case Listed(children) =>
      var items := SortByName(children);
      SubdirsAreChildren(children);
      FileLines(sep, rel, MarkdownFiles(items), depth) + DirLines(sep, rel, listing, Subdirs(items), depth)
  }

  /** The file bullets of one level, in the order of `files`. */
  function FileLines(sep: char, rel: seq<string>, files: seq<string>, depth: nat): seq<Line>
  {
    if files == [] then []
    else
      var file := files[|files| - 1];
      FileLines(sep, rel, files[..|files| - 1], depth) + [Link(depth, StripMd(file), FileLink(sep, rel, file))]
  }

  /** The directory bullets of one level: each directory's name line followed
      by its fragment one level deeper. `parent` is the listing the
      directories come from. */
  function DirLines(sep: char, rel: seq<string>, ghost parent: Listing, dirs: seq<Entry>, depth: nat): seq<Line>
    requires parent.Listed?
    requires forall k :: 0 <= k < |dirs| ==> dirs[k].Dir? && dirs[k] in parent.items
    decreases parent, 0, |dirs|
  {
    if dirs == [] then []
    else
      var dir := dirs[|dirs| - 1];
      DirLines(sep, rel, parent, dirs[..|dirs| - 1], depth)
        + [Plain(depth, dir.name)] + Render(sep, rel + [dir.name], dir.contents, depth + 1)
  }

  /** `generate_nested_list(root_path, current_path, base_indent)`, with the
      loops of the original: partition the sorted listing, emit the file
      bullets, then emit each directory and recurse into it. */
  method GenerateNestedList(sep: char, rel: seq<string>, listing: Listing, depth: nat) returns (result: string)
    ensures result == Text(Render(sep, rel, listing, depth))
    decreases listing, 2
  {
    result := "";
    var indent := Indent(depth);
    if listing.Denied? {
      return indent + "* " + NoAccessMark + "\n";
    }
    var items := SortByName(listing.items);

    var directories, markdownFiles := Partition(items);
    SubdirsAreChildren(listing.items);

    var fileText := EmitFiles(sep, rel, markdownFiles, depth);
    var dirText := EmitDirectories(sep, rel, listing, directories, depth);
    TextAppend(FileLines(sep, rel, markdownFiles, depth), DirLines(sep, rel, listing, directories, depth));
    result := fileText + dirText;
  }

  /** The directory loop of `generate_nested_list`: for each directory, its
      name as a plain bullet, then its own fragment one level deeper. */
  method EmitDirectories(sep: char, rel: seq<string>, ghost listing: Listing, directories: seq<Entry>, depth: nat)
    returns (result: string)
    requires listing.Listed?
    requires forall k :: 0 <= k < |directories| ==> directories[k].Dir? && directories[k] in listing.items
    ensures result == Text(DirLines(sep, rel, listing, directories, depth))
    decreases listing, 1
  {
    result := "";
    assert directories[..0] == [];
    for i := 0 to |directories|
      invariant result == Text(DirLines(sep, rel, listing, directories[..i], depth))
    {
      var entry := EmitDirectory(sep, rel, listing, directories[i], depth);
      DirLinesStep(sep, rel, listing, directories, i, depth);
      result := result + entry;
    }
    assert directories[..|directories|] == directories;
  }

  /** One turn of the directory loop: the directory's name as a plain
      bullet, then what `generate_nested_list` renders for it one level
      deeper (appended only when non-empty). */
  method EmitDirectory(sep: char, rel: seq<string>, ghost listing: Listing, directory: Entry, depth: nat)
    returns (result: string)
    requires listing.Listed? && directory.Dir? && directory in listing.items
    ensures result == LineText(Plain(depth, directory.name))
                      + Text(Render(sep, rel + [directory.name], directory.contents, depth + 1))
    decreases listing, 0
  {
    var indent := Indent(depth);
    result := indent + "* " + directory.name + "\n";
    var subList := GenerateNestedList(sep, rel + [directory.name], directory.contents, depth + 1);
    if |subList| > 0 {
      result := result + subList;
    }
  }

  /** The file loop of `generate_nested_list`: one link bullet per Markdown
      file, at the current indentation. */
  method EmitFiles(sep: char, rel: seq<string>, markdownFiles: seq<string>, depth: nat) returns (result: string)
    ensures result == Text(FileLines(sep, rel, markdownFiles, depth))
  {
    result := "";
    var indent := Indent(depth);
    for i := 0 to |markdownFiles|
      invariant result == Text(FileLines(sep, rel, markdownFiles[..i], depth))
    {
      var mdFile := markdownFiles[i];
      var displayName := StripMd(mdFile);
      var fileLink;
      if rel == [] {
        fileLink := mdFile;
      } else {
        var relativeDir := SlashSeparators(JoinPath(rel, sep));
        fileLink := relativeDir + "/" + mdFile;
      }
      FileLinesStep(sep, rel, markdownFiles, i, depth);
      assert fileLink == FileLink(sep, rel, mdFile);
      var line := indent + "* [" + displayName + "](" + fileLink + ")\n";
      LinkLineText(depth, displayName, fileLink);
      result := result + line;
    }
    assert markdownFiles[..|markdownFiles|] == markdownFiles;
  }

  /** The partition loop of `generate_nested_list`: the listed directories
      and the Markdown files of `items`, each in the order of `items`. */
  method Partition(items: seq<Entry>) returns (directories: seq<Entry>, markdownFiles: seq<string>)
    ensures directories == Subdirs(items)
    ensures markdownFiles == MarkdownFiles(items)
  {
    directories, markdownFiles := [], [];
    for i := 0 to |items|
      invariant directories == Subdirs(items[..i])
      invariant markdownFiles == MarkdownFiles(items[..i])
    {
      var item := items[i];
      assert items[..i + 1] == items[..i] + [item];
      SubdirsSnoc(items[..i], item);
      MarkdownFilesSnoc(items[..i], item);
      if item.Dir? && !IsIgnoredDir(item.name) {
        directories := directories + [item];
      } else if item.File? && EndsWith(item.name, ".md") && item.name != "index.md" {
        markdownFiles := markdownFiles + [item.name];
      }
    }
    assert items[..|items|] == items;
  }

  /** The text of a file bullet, `{indent}* [{display_name}]({file_link})`. */
  lemma LinkLineText(depth: nat, display: string, target: string)
    ensures LineText(Link(depth, display, target)) == Indent(depth) + "* [" + display + "](" + target + ")\n"
  {
    var payload := "[" + display + "](" + target + ")";
    assert LineText(Link(depth, display, target)) == Indent(depth) + "* " + payload + "\n";
    assert "* " + payload + "\n" == "* [" + display + "](" + target + ")\n";
  }

  /** One turn of the file loop appends one link line to the text. */
  lemma FileLinesStep(sep: char, rel: seq<string>, files: seq<string>, i: nat, depth: nat)
    requires i < |files|
    ensures Text(FileLines(sep, rel, files[..i + 1], depth))
         == Text(FileLines(sep, rel, files[..i], depth))
            + LineText(Link(depth, StripMd(files[i]), FileLink(sep, rel, files[i])))
  {
    assert files[..i + 1][..i] == files[..i];
    TextSnoc(FileLines(sep, rel, files[..i], depth), Link(depth, StripMd(files[i]), FileLink(sep, rel, files[i])));
  }

  /** One turn of the directory loop appends the directory's name line and
      its fragment to the text. */
  lemma DirLinesStep(sep: char, rel: seq<string>, parent: Listing, dirs: seq<Entry>, i: nat, depth: nat)
    requires parent.Listed? && i < |dirs|
    requires forall k :: 0 <= k < |dirs| ==> dirs[k].Dir? && dirs[k] in parent.items
    ensures Text(DirLines(sep, rel, parent, dirs[..i + 1], depth))
         == Text(DirLines(sep, rel, parent, dirs[..i], depth))
            + (LineText(Plain(depth, dirs[i].name))
               + Text(Render(sep, rel + [dirs[i].name], dirs[i].contents, depth + 1)))
  {
    var done := DirLines(sep, rel, parent, dirs[..i], depth);
    var line := Plain(depth, dirs[i].name);
    var sub := Render(sep, rel + [dirs[i].name], dirs[i].contents, depth + 1);
    assert dirs[..i + 1] == dirs[..i] + [dirs[i]];
    DirLinesSnoc(sep, rel, parent, dirs[..i], dirs[i], depth);
    TextAppend(done + [line], sub);
    TextSnoc(done, line);
    ConcatAssoc(Text(done), LineText(line), Text(sub));
  }

  /** The listed directories of a sorted listing are children of it. */
  lemma SubdirsAreChildren(children: seq<Entry>)
    ensures forall k :: 0 <= k < |Subdirs(SortByName(children))| ==> Subdirs(SortByName(children))[k] in children
  {
    var items := SortByName(children);
    forall k | 0 <= k < |Subdirs(items)| ensures Subdirs(items)[k] in children {
      assert Subdirs(items)[k] in multiset(items);
    }
  }

  lemma SubdirsSnoc(s: seq<Entry>, e: Entry)
    ensures Subdirs(s + [e]) == Subdirs(s) + if IsListedDir(e) then [e] else []
  {
    assert (s + [e])[..|s|] == s;
  }

  lemma MarkdownFilesSnoc(s: seq<Entry>, e: Entry)
    ensures MarkdownFiles(s + [e]) == MarkdownFiles(s) + if IsListedMarkdown(e) then [e.name] else []
  {
    assert (s + [e])[..|s|] == s;
  }

  lemma DirLinesSnoc(sep: char, rel: seq<string>, parent: Listing, dirs: seq<Entry>, dir: Entry, depth: nat)
    requires parent.Listed? && dir.Dir? && dir in parent.items
    requires forall k :: 0 <= k < |dirs| ==> dirs[k].Dir? && dirs[k] in parent.items
    ensures DirLines(sep, rel, parent, dirs + [dir], depth)
         == DirLines(sep, rel, parent, dirs, depth) + [Plain(depth, dir.name)] + Render(sep, rel + [dir.name], dir.contents, depth + 1)
  {
    assert (dirs + [dir])[..|dirs|] == dirs;
  }

  lemma TextSnoc(lines: seq<Line>, l: Line)
    ensures Text(lines + [l]) == Text(lines) + LineText(l)
  {
    assert (lines + [l])[..|lines|] == lines;
  }

  /** Rendering is compositional: the text of two runs of lines is the
      concatenation of their texts. */
  lemma {:induction false} TextAppend(a: seq<Line>, b: seq<Line>)
    ensures Text(a + b) == Text(a) + Text(b)
    decreases |b|
  {
    if b == [] {
      assert a + b == a;
    } else {
      var b', last := b[..|b| - 1], b[|b| - 1];
      assert a + b == (a + b') + [last];
      assert b == b' + [last];
      TextAppend(a, b');
      TextSnoc(a + b', last);
      TextSnoc(b', last);
      ConcatAssoc(Text(a), Text(b'), LineText(last));
    }
  }

  lemma ConcatAssoc<T>(x: seq<T>, y: seq<T>, z: seq<T>)
    ensures (x + y) + z == x + (y + z)
  {
  }

  /** Python's `str.isspace` for one character: the characters `str.strip()`
      removes. */
  predicate IsPythonSpace(c: char)
  {
    c == ' ' || ('\t' <= c <= '\r') || ('\U{1c}' <= c <= '\U{1f}') || c == '\U{85}' || c == '\U{a0}'
    || c == '\U{1680}' || ('\U{2000}' <= c <= '\U{200a}') || c == '\U{2028}' || c == '\U{2029}'
    || c == '\U{202f}' || c == '\U{205f}' || c == '\U{3000}'
  }

  /** `not s.strip()`: the string is empty or whitespace only. */
  predicate IsBlank(s: string)
  {
    forall k :: 0 <= k < |s| ==> IsPythonSpace(s[k])
  }

  const Placeholder: string := "* 暂无内容\n"

  /** The two headings at the top of every index page. */
  function Header(rootName: string): string
  {
    "# " + rootName + "\n\n" + "## 目录\n\n"
  }

  /** The text `generate_markdown_index` writes: the level-1 heading with the
      root's base name, the level-2 heading, and the nested list, or the
      placeholder bullet when the list is blank. */
  function IndexPage(rootName: string, nestedList: string): (page: string)
    ensures |page| > |Header(rootName)| && page[..|Header(rootName)|] == Header(rootName)
    ensures IsBlank(nestedList) ==> page[|Header(rootName)|..] == Placeholder
    ensures !IsBlank(nestedList) ==> page[|Header(rootName)|..] == nestedList
  {
    Header(rootName) + if IsBlank(nestedList) then Placeholder else nestedList
  }

  /** `generate_markdown_index(root_path)` without the file output: the page
      text for a scan root named `rootName` whose listing is `root`. */
  method GenerateMarkdownIndex(sep: char, rootName: string, root: Listing) returns (page: string)
    ensures page == IndexPage(rootName, Text(Render(sep, [], root, 0)))
  {
    var nestedList := GenerateNestedList(sep, [], root, 0);
    if !IsBlank(nestedList) {
      page := Header(rootName) + nestedList;
    } else {
      page := Header(rootName) + Placeholder;
    }
  }
}
