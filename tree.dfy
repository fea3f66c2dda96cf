/** The directory tree that the index generator reads, and the order in which
    it reads each directory.

    The file system is an input value here: a directory either lists its
    entries or refuses to be listed (a permission error), and every entry is a
    regular file, a directory, or something that is neither (a socket, a
    dangling link) and is skipped by the generator. */
module FileTree {

  /** One child of a directory, as `os.listdir` names it and `os.path.isdir` /
      `os.path.isfile` classify it. */
  datatype Entry =
    | File(name: string)
    | Special(name: string)
    | Dir(name: string, contents: Listing)

  /** What listing a directory yields: its entries in the order the operating
      system returns them, or a permission error. */
  datatype Listing = Denied | Listed(items: seq<Entry>)

  /** Python's `<=` on `str`: lexicographic by code point, a proper prefix
      sorting first. */
  predicate NameLe(a: string, b: string)
  {
    |a| == 0 || (|b| > 0 && (a[0] < b[0] || (a[0] == b[0] && NameLe(a[1..], b[1..]))))
  }

  lemma {:induction false} NameLeTotal(a: string, b: string)
    ensures NameLe(a, b) || NameLe(b, a)
  {
    if |a| > 0 && |b| > 0 && a[0] == b[0] {
      NameLeTotal(a[1..], b[1..]);
    }
  }

  lemma {:induction false} NameLeTransitive(a: string, b: string, c: string)
    requires NameLe(a, b) && NameLe(b, c)
    ensures NameLe(a, c)
  {
    if |a| > 0 && a[0] == b[0] && b[0] == c[0] {
      NameLeTransitive(a[1..], b[1..], c[1..]);
    }
  }

  lemma {:induction false} NameLeAntisymmetric(a: string, b: string)
    requires NameLe(a, b) && NameLe(b, a)
    ensures a == b
  {
    if |a| > 0 {
      NameLeAntisymmetric(a[1..], b[1..]);
      assert a == [a[0]] + a[1..] && b == [b[0]] + b[1..];
    }
  }

  /** Every entry's name is at most every later entry's name. */
  ghost predicate SortedByName(s: seq<Entry>)
  {
    forall i, j :: 0 <= i < j < |s| ==> NameLe(s[i].name, s[j].name)
  }

  /** Places `e` in front of the first entry whose name is not smaller. */
  function InsertByName(e: Entry, s: seq<Entry>): (r: seq<Entry>)
    requires SortedByName(s)
    ensures SortedByName(r)
    ensures multiset(r) == multiset(s) + multiset{e}
    decreases |s|
  {
    if s == [] then [e]
    else if NameLe(e.name, s[0].name) then
      forall j | 0 <= j < |s| ensures NameLe(e.name, s[j].name) {
        if j > 0 {
          NameLeTransitive(e.name, s[0].name, s[j].name);
        }
      }
      ConsSorted(e, s);
      [e] + s
    else
      var rest := InsertByName(e, s[1..]);
      NameLeTotal(e.name, s[0].name);
      assert s == [s[0]] + s[1..];
      LowerBoundKept(s[0], s[1..], rest, e);
      ConsSorted(s[0], rest);
      [s[0]] + rest
  }

  /** A sorted sequence stays sorted behind an entry whose name is at most
      all of its names. */
  lemma ConsSorted(x: Entry, s: seq<Entry>)
    requires SortedByName(s)
    requires forall j :: 0 <= j < |s| ==> NameLe(x.name, s[j].name)
    ensures SortedByName([x] + s)
  {
    forall i, j | 0 <= i < j < |s| + 1 ensures NameLe(([x] + s)[i].name, ([x] + s)[j].name) {
      assert ([x] + s)[j] == s[j - 1];
      if i > 0 {
        assert ([x] + s)[i] == s[i - 1];
      }
    }
  }

  /** A lower bound of the names of `t` and of `e` bounds the names of any
      `u` that holds the entries of `t` and `e`. */
  lemma LowerBoundKept(x: Entry, t: seq<Entry>, u: seq<Entry>, e: Entry)
    requires multiset(u) == multiset(t) + multiset{e}
    requires NameLe(x.name, e.name)
    requires forall j :: 0 <= j < |t| ==> NameLe(x.name, t[j].name)
    ensures forall j :: 0 <= j < |u| ==> NameLe(x.name, u[j].name)
  {
    forall j | 0 <= j < |u| ensures NameLe(x.name, u[j].name) {
      assert u[j] in multiset(u);
      if u[j] != e {
        assert u[j] in multiset(t);
        var idx :| 0 <= idx < |t| && t[idx] == u[j];
      }
    }
  }

  /** `sorted(os.listdir(path))`: the listing in name order. */
  function SortByName(s: seq<Entry>): (r: seq<Entry>)
    ensures SortedByName(r)
    ensures multiset(r) == multiset(s)
  {
    if s == [] then []
    else
      assert s == s[..|s| - 1] + [s[|s| - 1]];
      InsertByName(s[|s| - 1], SortByName(s[..|s| - 1]))
  }
}
