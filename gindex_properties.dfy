/** What the rendered index promises: the shape of every line, files before
    directories, each Markdown file and each directory listed once and in
    name order, ignored directories neither shown nor entered, permission
    errors contained to one line, portable links, and the placeholder page
    exactly for a directory with nothing to list. */
module GIndexProperties {
  import opened FileTree
  import opened GIndex

  // ---------------------------------------------------------------------
  // Lines and text

  /** Every line is `4 * depth` spaces, then `* `, then its payload, and
      ends with a newline. */
  lemma LineShape(l: Line)
    ensures |LineText(l)| >= 4 * l.depth + 3
    ensures forall k :: 0 <= k < 4 * l.depth ==> LineText(l)[k] == ' '
    ensures LineText(l)[4 * l.depth] == '*' && LineText(l)[4 * l.depth + 1] == ' '
    ensures LineText(l)[|LineText(l)| - 1] == '\n'
  {
    var indent := Indent(l.depth);
    assert LineText(l)[..4 * l.depth] == indent;
  }

  /** The rendered text is blank (what `str.strip()` would empty) exactly
      when no line was rendered. */
  lemma TextBlankIffEmpty(lines: seq<Line>)
    ensures IsBlank(Text(lines)) <==> lines == []
  {
    if lines != [] {
      var last := lines[|lines| - 1];
      var prefix := Text(lines[..|lines| - 1]);
      LineShape(last);
      assert Text(lines)[|prefix| + 4 * last.depth] == LineText(last)[4 * last.depth] == '*';
    }
  }

  // ---------------------------------------------------------------------
  // The shape of a fragment

  /** The file bullets of one level, element by element. */
  lemma {:induction false} FileLinesAt(sep: char, rel: seq<string>, files: seq<string>, depth: nat)
    ensures |FileLines(sep, rel, files, depth)| == |files|
    ensures forall k :: 0 <= k < |files| ==>
      FileLines(sep, rel, files, depth)[k] == Link(depth, StripMd(files[k]), FileLink(sep, rel, files[k]))
  {
    if files != [] {
      var init, last := files[..|files| - 1], files[|files| - 1];
      var lines := FileLines(sep, rel, init, depth);
      FileLinesAt(sep, rel, init, depth);
      assert FileLines(sep, rel, files, depth) == lines + [Link(depth, StripMd(last), FileLink(sep, rel, last))];
      forall k | 0 <= k < |init|
        ensures FileLines(sep, rel, files, depth)[k] == Link(depth, StripMd(files[k]), FileLink(sep, rel, files[k]))
      {
        assert init[k] == files[k];
        assert FileLines(sep, rel, files, depth)[k] == lines[k];
      }
    }
  }

  /** What holds of every line rendered at `depth` or deeper: it is not
      shallower, a directory bullet never names an ignored directory, and a
      file bullet shows a Markdown file's name without `.md` and links to
      that name through a directory part free of backslashes. */
  ghost predicate WellFormedLine(l: Line, depth: nat)
  {
    l.depth >= depth
    && (l.Plain? ==> !IsIgnoredDir(l.name))
    && (l.Link? ==>
          IsMarkdownName(l.display + ".md")
          && EndsWith(l.target, l.display + ".md")
          && forall k :: 0 <= k < |l.target| - |l.display + ".md"| ==> l.target[k] != '\\')
  }

  lemma {:induction false} RenderWellFormed(sep: char, rel: seq<string>, listing: Listing, depth: nat)
    ensures forall k :: 0 <= k < |Render(sep, rel, listing, depth)| ==> WellFormedLine(Render(sep, rel, listing, depth)[k], depth)
    decreases listing, 1
  {
    match listing
    case Denied =>
    case Listed(children) =>
      var items := SortByName(children);
      var files := MarkdownFiles(items);
      SubdirsAreChildren(children);
      FileLinesAt(sep, rel, files, depth);
      forall k | 0 <= k < |files| ensures WellFormedLine(FileLines(sep, rel, files, depth)[k], depth) {
        assert StripMd(files[k]) + ".md" == files[k];
        FileLinkShape(sep, rel, files[k]);
      }
      DirLinesWellFormed(sep, rel, listing, Subdirs(items), depth);
  }

  /** Besides being well formed, the lines at `depth` itself in the
      directory part are directory bullets. */
  lemma {:induction false} DirLinesWellFormed(sep: char, rel: seq<string>, parent: Listing, dirs: seq<Entry>, depth: nat)
    requires parent.Listed?
    requires forall k :: 0 <= k < |dirs| ==> dirs[k].Dir? && dirs[k] in parent.items && !IsIgnoredDir(dirs[k].name)
    ensures forall k :: 0 <= k < |DirLines(sep, rel, parent, dirs, depth)| ==>
      var l := DirLines(sep, rel, parent, dirs, depth)[k];
      WellFormedLine(l, depth) && (l.depth == depth ==> l.Plain?)
    decreases parent, 0, |dirs|
  {
    if dirs != [] {
      var dir := dirs[|dirs| - 1];
      DirLinesWellFormed(sep, rel, parent, dirs[..|dirs| - 1], depth);
      RenderWellFormed(sep, rel + [dir.name], dir.contents, depth + 1);
    }
  }

  /** At any one level, every file bullet comes before every directory
      bullet. */
  lemma FilesBeforeDirectories(sep: char, rel: seq<string>, children: seq<Entry>, depth: nat, i: nat, j: nat)
    requires i < |Render(sep, rel, Listed(children), depth)| && j < |Render(sep, rel, Listed(children), depth)|
    requires Render(sep, rel, Listed(children), depth)[i].Plain? && Render(sep, rel, Listed(children), depth)[i].depth == depth
    requires Render(sep, rel, Listed(children), depth)[j].Link? && Render(sep, rel, Listed(children), depth)[j].depth == depth
    ensures j < i
  {
    var items := SortByName(children);
    SubdirsAreChildren(children);
    FileLinesAt(sep, rel, MarkdownFiles(items), depth);
    DirLinesWellFormed(sep, rel, Listed(children), Subdirs(items), depth);
  }

  // ---------------------------------------------------------------------
  // Which entries are listed, how often, and in which order

  /** The lines rendered at exactly `depth`, in order. */
  ghost function AtDepth(lines: seq<Line>, depth: nat): seq<Line>
  {
    if lines == [] then []
    else AtDepth(lines[..|lines| - 1], depth)
         + if lines[|lines| - 1].depth == depth then [lines[|lines| - 1]] else []
  }

  lemma {:induction false} AtDepthAppend(a: seq<Line>, b: seq<Line>, depth: nat)
    ensures AtDepth(a + b, depth) == AtDepth(a, depth) + AtDepth(b, depth)
    decreases |b|
  {
    if b == [] {
      assert a + b == a;
    } else {
      assert (a + b)[..|a + b| - 1] == a + b[..|b| - 1];
      AtDepthAppend(a, b[..|b| - 1], depth);
    }
  }

  lemma {:induction false} AtDepthDeeper(lines: seq<Line>, depth: nat)
    requires forall k :: 0 <= k < |lines| ==> lines[k].depth > depth
    ensures AtDepth(lines, depth) == []
  {
    if lines != [] {
      AtDepthDeeper(lines[..|lines| - 1], depth);
    }
  }

  lemma {:induction false} AtDepthSame(lines: seq<Line>, depth: nat)
    requires forall k :: 0 <= k < |lines| ==> lines[k].depth == depth
    ensures AtDepth(lines, depth) == lines
  {
    if lines != [] {
      AtDepthSame(lines[..|lines| - 1], depth);
    }
  }

  /** The directory bullets `* name` of a level, one per directory. */
  function DirBullets(dirs: seq<Entry>, depth: nat): seq<Line>
  {
    seq(|dirs|, k requires 0 <= k < |dirs| => Plain(depth, dirs[k].name))
  }

  /** A fragment rendered one level deeper has no line at this level. */
  lemma RenderBelow(sep: char, rel: seq<string>, listing: Listing, depth: nat)
    ensures AtDepth(Render(sep, rel, listing, depth + 1), depth) == []
  {
    RenderWellFormed(sep, rel, listing, depth + 1);
    AtDepthDeeper(Render(sep, rel, listing, depth + 1), depth);
  }

  lemma AtDepthStep(before: seq<Line>, l: Line, sub: seq<Line>, depth: nat)
    requires l.depth == depth && AtDepth(sub, depth) == []
    ensures AtDepth(before + [l] + sub, depth) == AtDepth(before, depth) + [l]
  {
    AtDepthAppend(before + [l], sub, depth);
    AtDepthAppend(before, [l], depth);
    assert [l][..0] == [];
  }

  lemma DirBulletsSnoc(dirs: seq<Entry>, depth: nat)
    requires dirs != []
    ensures DirBullets(dirs, depth) == DirBullets(dirs[..|dirs| - 1], depth) + [Plain(depth, dirs[|dirs| - 1].name)]
  {
  }

  lemma {:induction false} DirLinesAtDepth(sep: char, rel: seq<string>, parent: Listing, dirs: seq<Entry>, depth: nat)
    requires parent.Listed?
    requires forall k :: 0 <= k < |dirs| ==> dirs[k].Dir? && dirs[k] in parent.items
    ensures AtDepth(DirLines(sep, rel, parent, dirs, depth), depth) == DirBullets(dirs, depth)
    decreases |dirs|
  {
    if dirs != [] {
      var init, dir := dirs[..|dirs| - 1], dirs[|dirs| - 1];
      var before := DirLines(sep, rel, parent, init, depth);
      var sub := Render(sep, rel + [dir.name], dir.contents, depth + 1);
      assert DirLines(sep, rel, parent, dirs, depth) == before + [Plain(depth, dir.name)] + sub;
      DirLinesAtDepth(sep, rel, parent, init, depth);
      RenderBelow(sep, rel + [dir.name], dir.contents, depth);
      AtDepthStep(before, Plain(depth, dir.name), sub, depth);
      DirBulletsSnoc(dirs, depth);
    }
  }

  /** The lines at the level of a readable directory are exactly its file
      bullets, one per Markdown file of the sorted listing, followed by its
      directory bullets, one per listed directory of the sorted listing. */
  lemma TopLevelLines(sep: char, rel: seq<string>, children: seq<Entry>, depth: nat)
    ensures AtDepth(Render(sep, rel, Listed(children), depth), depth)
         == FileLines(sep, rel, MarkdownFiles(SortByName(children)), depth)
            + DirBullets(Subdirs(SortByName(children)), depth)
  {
    var items := SortByName(children);
    var files := FileLines(sep, rel, MarkdownFiles(items), depth);
    SubdirsAreChildren(children);
    FileLinesAt(sep, rel, MarkdownFiles(items), depth);
    AtDepthSame(files, depth);
    DirLinesAtDepth(sep, rel, Listed(children), Subdirs(items), depth);
    AtDepthAppend(files, DirLines(sep, rel, Listed(children), Subdirs(items), depth), depth);
  }

  lemma {:induction false} MarkdownFilesCount(s: seq<Entry>, x: string)
    ensures multiset(MarkdownFiles(s))[x] == if IsMarkdownName(x) then multiset(s)[File(x)] else 0
  {
    if s != [] {
      var last := s[|s| - 1];
      MarkdownFilesCount(s[..|s| - 1], x);
      assert s == s[..|s| - 1] + [last];
    }
  }

  lemma {:induction false} SubdirsCount(s: seq<Entry>, e: Entry)
    ensures multiset(Subdirs(s))[e] == if IsListedDir(e) then multiset(s)[e] else 0
  {
    if s != [] {
      var last := s[|s| - 1];
      SubdirsCount(s[..|s| - 1], e);
      assert s == s[..|s| - 1] + [last];
    }
  }

  /** A file gets as many bullets as the directory has files of that name
      (on a file system, one) when it is a Markdown file other than
      `index.md`, and none otherwise. */
  lemma EachMarkdownFileListedOnce(children: seq<Entry>, x: string)
    ensures multiset(MarkdownFiles(SortByName(children)))[x]
         == if IsMarkdownName(x) then multiset(children)[File(x)] else 0
  {
    MarkdownFilesCount(SortByName(children), x);
  }

  /** A child directory gets as many bullets as it occurs in the listing
      (once) unless its name is ignored, when it gets none. */
  lemma EachSubdirectoryListedOnce(children: seq<Entry>, e: Entry)
    ensures multiset(Subdirs(SortByName(children)))[e]
         == if IsListedDir(e) then multiset(children)[e] else 0
  {
    SubdirsCount(SortByName(children), e);
  }

  /** The partition keeps the sorted order: the file bullets and the
      directory bullets of a level each appear in name order. */
  lemma {:induction false} PartitionKeepsOrder(s: seq<Entry>)
    requires SortedByName(s)
    ensures forall i, j :: 0 <= i < j < |MarkdownFiles(s)| ==> NameLe(MarkdownFiles(s)[i], MarkdownFiles(s)[j])
    ensures forall i, j :: 0 <= i < j < |Subdirs(s)| ==> NameLe(Subdirs(s)[i].name, Subdirs(s)[j].name)
  {
    if s != [] {
      var init, last := s[..|s| - 1], s[|s| - 1];
      PartitionKeepsOrder(init);
      assert s == init + [last];
      forall i | 0 <= i < |MarkdownFiles(init)| ensures NameLe(MarkdownFiles(init)[i], last.name) {
        var idx :| 0 <= idx < |init| && init[idx] == File(MarkdownFiles(init)[i]);
        assert s[idx] == init[idx];
      }
      forall i | 0 <= i < |Subdirs(init)| ensures NameLe(Subdirs(init)[i].name, last.name) {
        var idx :| 0 <= idx < |init| && init[idx] == Subdirs(init)[i];
        assert s[idx] == init[idx];
      }
    }
  }

  // ---------------------------------------------------------------------
  // Ignored directories are not entered

  /** `b` is `a`, or both are directories with the same ignored name,
      whatever they hold. */
  ghost predicate SameUpToIgnored(a: Entry, b: Entry)
  {
    a == b || (a.Dir? && b.Dir? && a.name == b.name && IsIgnoredDir(a.name))
  }

  ghost predicate AllSameUpToIgnored(s: seq<Entry>, t: seq<Entry>)
  {
    |s| == |t| && forall k :: 0 <= k < |s| ==> SameUpToIgnored(s[k], t[k])
  }

  lemma ConsUpToIgnored(a: Entry, b: Entry, x: seq<Entry>, y: seq<Entry>)
    requires SameUpToIgnored(a, b) && AllSameUpToIgnored(x, y)
    ensures AllSameUpToIgnored([a] + x, [b] + y)
  {
    forall k | 0 < k < |x| + 1 ensures SameUpToIgnored(([a] + x)[k], ([b] + y)[k]) {
      assert ([a] + x)[k] == x[k - 1] && ([b] + y)[k] == y[k - 1];
    }
  }

  lemma InsertFront(e: Entry, s: seq<Entry>)
    requires SortedByName(s) && s != [] && NameLe(e.name, s[0].name)
    ensures InsertByName(e, s) == [e] + s
  {
  }

  lemma InsertLater(e: Entry, s: seq<Entry>)
    requires SortedByName(s) && s != [] && !NameLe(e.name, s[0].name)
    ensures SortedByName(s[1..])
    ensures InsertByName(e, s) == [s[0]] + InsertByName(e, s[1..])
  {
  }

  lemma {:induction false} InsertUpToIgnored(e: Entry, f: Entry, s: seq<Entry>, t: seq<Entry>)
    requires SortedByName(s) && SortedByName(t)
    requires SameUpToIgnored(e, f) && AllSameUpToIgnored(s, t)
    ensures AllSameUpToIgnored(InsertByName(e, s), InsertByName(f, t))
    decreases |s|
  {
    if s != [] {
      assert SameUpToIgnored(s[0], t[0]);
      assert e.name == f.name && s[0].name == t[0].name;
      if NameLe(e.name, s[0].name) {
        InsertFront(e, s);
        InsertFront(f, t);
        ConsUpToIgnored(e, f, s, t);
      } else {
        InsertLater(e, s);
        InsertLater(f, t);
        var s', t' := s[1..], t[1..];
        assert AllSameUpToIgnored(s', t') by {
          forall k | 0 <= k < |s'| ensures SameUpToIgnored(s'[k], t'[k]) {
            assert s'[k] == s[k + 1] && t'[k] == t[k + 1];
          }
        }
        InsertUpToIgnored(e, f, s', t');
        ConsUpToIgnored(s[0], t[0], InsertByName(e, s'), InsertByName(f, t'));
      }
    }
  }

  lemma {:induction false} SortUpToIgnored(s: seq<Entry>, t: seq<Entry>)
    requires AllSameUpToIgnored(s, t)
    ensures AllSameUpToIgnored(SortByName(s), SortByName(t))
  {
    if s != [] {
      SortUpToIgnored(s[..|s| - 1], t[..|t| - 1]);
      InsertUpToIgnored(s[|s| - 1], t[|t| - 1], SortByName(s[..|s| - 1]), SortByName(t[..|t| - 1]));
    }
  }

  lemma {:induction false} PartitionUpToIgnored(s: seq<Entry>, t: seq<Entry>)
    requires AllSameUpToIgnored(s, t)
    ensures Subdirs(s) == Subdirs(t) && MarkdownFiles(s) == MarkdownFiles(t)
  {
    if s != [] {
      PartitionUpToIgnored(s[..|s| - 1], t[..|t| - 1]);
    }
  }

  lemma {:induction false} DirLinesAnyParent(sep: char, rel: seq<string>, p: Listing, q: Listing, dirs: seq<Entry>, depth: nat)
    requires p.Listed? && q.Listed?
    requires forall k :: 0 <= k < |dirs| ==> dirs[k].Dir? && dirs[k] in p.items && dirs[k] in q.items
    ensures DirLines(sep, rel, p, dirs, depth) == DirLines(sep, rel, q, dirs, depth)
    decreases |dirs|
  {
    if dirs != [] {
      DirLinesAnyParent(sep, rel, p, q, dirs[..|dirs| - 1], depth);
    }
  }

  /** What an ignored directory holds, or whether it can be listed at all,
      makes no difference to the rendered fragment: it is never entered. */
  lemma IgnoredDirectoryNotEntered(sep: char, rel: seq<string>, s: seq<Entry>, t: seq<Entry>, depth: nat)
    requires AllSameUpToIgnored(s, t)
    ensures Render(sep, rel, Listed(s), depth) == Render(sep, rel, Listed(t), depth)
  {
    SortUpToIgnored(s, t);
    PartitionUpToIgnored(SortByName(s), SortByName(t));
    SubdirsAreChildren(s);
    SubdirsAreChildren(t);
    DirLinesAnyParent(sep, rel, Listed(s), Listed(t), Subdirs(SortByName(s)), depth);
  }

  // ---------------------------------------------------------------------
  // Permission errors stay local

  lemma {:induction false} DirLinesConcat(sep: char, rel: seq<string>, parent: Listing, a: seq<Entry>, b: seq<Entry>, depth: nat)
    requires parent.Listed?
    requires forall k :: 0 <= k < |a| ==> a[k].Dir? && a[k] in parent.items
    requires forall k :: 0 <= k < |b| ==> b[k].Dir? && b[k] in parent.items
    ensures DirLines(sep, rel, parent, a + b, depth)
         == DirLines(sep, rel, parent, a, depth) + DirLines(sep, rel, parent, b, depth)
    decreases |b|
  {
    if b == [] {
      assert a + b == a;
    } else {
      var b', last := b[..|b| - 1], b[|b| - 1];
      var ab' := a + b';
      assert a + b == ab' + [last];
      assert b == b' + [last];
      DirLinesConcat(sep, rel, parent, a, b', depth);
      DirLinesSnoc(sep, rel, parent, ab', last, depth);
      DirLinesSnoc(sep, rel, parent, b', last, depth);
      var da, db' := DirLines(sep, rel, parent, a, depth), DirLines(sep, rel, parent, b', depth);
      var p, r := [Plain(depth, last.name)], Render(sep, rel + [last.name], last.contents, depth + 1);
      calc {
        DirLines(sep, rel, parent, a + b, depth);
        (DirLines(sep, rel, parent, ab', depth) + p) + r;
        ((da + db') + p) + r;
        { ConcatAssoc(da, db', p); }
        (da + (db' + p)) + r;
        { ConcatAssoc(da, db' + p, r); }
        da + ((db' + p) + r);
        da + DirLines(sep, rel, parent, b, depth);
      }
    }
  }

  /** Wherever a directory sits among its siblings, its block is its name
      bullet immediately followed by its own fragment one level deeper, and
      the siblings before and after it render as they would alone. */
  lemma DirectoryBlock(sep: char, rel: seq<string>, parent: Listing, before: seq<Entry>, dir: Entry, after: seq<Entry>, depth: nat)
    requires parent.Listed? && dir.Dir? && dir in parent.items
    requires forall k :: 0 <= k < |before| ==> before[k].Dir? && before[k] in parent.items
    requires forall k :: 0 <= k < |after| ==> after[k].Dir? && after[k] in parent.items
    ensures DirLines(sep, rel, parent, before + [dir] + after, depth)
         == DirLines(sep, rel, parent, before, depth)
            + ([Plain(depth, dir.name)] + Render(sep, rel + [dir.name], dir.contents, depth + 1))
            + DirLines(sep, rel, parent, after, depth)
  {
    var p, r := [Plain(depth, dir.name)], Render(sep, rel + [dir.name], dir.contents, depth + 1);
    DirLinesConcat(sep, rel, parent, before + [dir], after, depth);
    DirLinesSnoc(sep, rel, parent, before, dir, depth);
    ConcatAssoc(DirLines(sep, rel, parent, before, depth), p, r);
  }

  /** A directory that cannot be listed renders as its name followed by the
      single inaccessible-directory line one level deeper; its siblings are
      rendered all the same. */
  lemma UnreadableDirectoryIsLocal(sep: char, rel: seq<string>, parent: Listing, before: seq<Entry>, dir: Entry, after: seq<Entry>, depth: nat)
    requires parent.Listed? && dir.Dir? && dir.contents == Denied && dir in parent.items
    requires forall k :: 0 <= k < |before| ==> before[k].Dir? && before[k] in parent.items
    requires forall k :: 0 <= k < |after| ==> after[k].Dir? && after[k] in parent.items
    ensures DirLines(sep, rel, parent, before + [dir] + after, depth)
         == DirLines(sep, rel, parent, before, depth) + [Plain(depth, dir.name), NoAccess(depth + 1)]
            + DirLines(sep, rel, parent, after, depth)
  {
    DirectoryBlock(sep, rel, parent, before, dir, after, depth);
    assert [Plain(depth, dir.name)] + Render(sep, rel + [dir.name], dir.contents, depth + 1)
        == [Plain(depth, dir.name), NoAccess(depth + 1)];
  }

  /** The text of an unreadable directory's fragment is exactly one line. */
  lemma UnreadableText(sep: char, rel: seq<string>, depth: nat)
    ensures Text(Render(sep, rel, Denied, depth)) == Indent(depth) + "* [无法访问目录]\n"
  {
    assert Render(sep, rel, Denied, depth)[..0] == [];
  }

  // ---------------------------------------------------------------------
  // Links

  lemma {:induction false} SlashSeparatorsAppend(a: string, b: string)
    ensures SlashSeparators(a + b) == SlashSeparators(a) + SlashSeparators(b)
  {
    if a == [] {
      assert a + b == b;
    } else {
      assert (a + b)[1..] == a[1..] + b;
      SlashSeparatorsAppend(a[1..], b);
    }
  }

  /** When no directory name contains a backslash, the link is the same
      whether the host separator is `/` or `\`: the directories from the
      root joined by `/`, a `/`, and the file name. */
  lemma {:induction false} PortableLinks(sep: char, rel: seq<string>, file: string)
    requires sep == '/' || sep == '\\'
    requires forall k :: 0 <= k < |rel| ==> '\\' !in rel[k]
    ensures FileLink(sep, rel, file) == if rel == [] then file else JoinPath(rel, '/') + "/" + file
  {
    if rel != [] {
      JoinPathSlashed(rel, sep);
    }
  }

  lemma {:induction false} JoinPathSlashed(rel: seq<string>, sep: char)
    requires sep == '/' || sep == '\\'
    requires forall k :: 0 <= k < |rel| ==> '\\' !in rel[k]
    ensures SlashSeparators(JoinPath(rel, sep)) == JoinPath(rel, '/')
    decreases |rel|
  {
    if |rel| == 1 {
      assert SlashSeparators(rel[0]) == rel[0];
    } else if |rel| > 1 {
      var init, last := rel[..|rel| - 1], rel[|rel| - 1];
      JoinPathSlashed(init, sep);
      SlashSeparatorsAppend(JoinPath(init, sep) + [sep], last);
      SlashSeparatorsAppend(JoinPath(init, sep), [sep]);
      assert SlashSeparators(last) == last;
    }
  }

  /** A backslash in any directory name survives the join. */
  lemma {:induction false} BackslashSurvivesJoin(rel: seq<string>, sep: char, k: nat)
    requires k < |rel| && '\\' in rel[k]
    ensures '\\' in JoinPath(rel, sep)
    decreases |rel|
  {
    if |rel| > 1 {
      var init, last := rel[..|rel| - 1], rel[|rel| - 1];
      assert JoinPath(rel, sep) == JoinPath(init, sep) + [sep] + last;
      if k < |rel| - 1 {
        assert init[k] == rel[k];
        BackslashSurvivesJoin(init, sep, k);
      }
    }
  }

  /** On a host whose separator is `/`, a backslash inside a directory name
      is rewritten too, so the link no longer names that directory: it
      differs from the names joined by `/`, a `/`, and the file name. */
  lemma BackslashInNameRewritten(rel: seq<string>, file: string, k: nat)
    requires k < |rel| && '\\' in rel[k]
    ensures FileLink('/', rel, file) != JoinPath(rel, '/') + "/" + file
  {
    var joined := JoinPath(rel, '/');
    BackslashSurvivesJoin(rel, '/', k);
    var i :| 0 <= i < |joined| && joined[i] == '\\';
    var link := FileLink('/', rel, file);
    assert link == SlashSeparators(joined) + "/" + file;
    assert link[i] == '/';
    assert (joined + "/" + file)[i] == '\\';
  }

  // ---------------------------------------------------------------------
  // The page

  /** A directory with nothing to list: readable, and without Markdown
      files (other than the index) and without non-ignored directories. */
  ghost predicate NothingToList(listing: Listing)
  {
    listing.Listed? && forall e :: e in listing.items ==> !IsListedMarkdown(e) && !IsListedDir(e)
  }

  lemma {:induction false} PartitionEmpty(s: seq<Entry>)
    ensures (MarkdownFiles(s) == [] && Subdirs(s) == [])
        <==> forall k :: 0 <= k < |s| ==> !IsListedMarkdown(s[k]) && !IsListedDir(s[k])
  {
    if s != [] {
      PartitionEmpty(s[..|s| - 1]);
      assert forall k :: 0 <= k < |s| - 1 ==> s[..|s| - 1][k] == s[k];
    }
  }

  /** A fragment renders no line exactly when its directory has nothing to
      list. */
  lemma RenderEmptyIff(sep: char, rel: seq<string>, listing: Listing, depth: nat)
    ensures Render(sep, rel, listing, depth) == [] <==> NothingToList(listing)
  {
    if listing.Listed? {
      var items := SortByName(listing.items);
      SubdirsAreChildren(listing.items);
      FileLinesAt(sep, rel, MarkdownFiles(items), depth);
      DirLinesAtDepth(sep, rel, listing, Subdirs(items), depth);
      PartitionEmpty(items);
      var dirLines := DirLines(sep, rel, listing, Subdirs(items), depth);
      if Subdirs(items) != [] {
        assert AtDepth(dirLines, depth) != [];
      }
      assert forall e :: e in items <==> e in listing.items by {
        forall e ensures e in items <==> e in listing.items {
          assert e in items <==> e in multiset(items);
        }
      }
    }
  }

  /** The page `generate_markdown_index` writes for a scan root: the two
      headings, then the nested list, or the placeholder bullet exactly when
      the root has nothing to list. */
  lemma PageText(sep: char, rootName: string, root: Listing)
    ensures IndexPage(rootName, Text(Render(sep, [], root, 0)))
         == Header(rootName) + if NothingToList(root) then Placeholder else Text(Render(sep, [], root, 0))
  {
    TextBlankIffEmpty(Render(sep, [], root, 0));
    RenderEmptyIff(sep, [], root, 0);
  }
}
