/** Properties of the `tar-compressed.js` walk and archive. */
module TarCompressedProps {
  import opened Paths
  import opened FsTree
  import opened TarCompressed

  /** Walking two listings one after the other is walking their concatenation. */
  lemma WalkAppend(dirs: seq<string>, a: seq<Entry>, b: seq<Entry>)
    ensures Walk(dirs, a + b) == Walk(dirs, a) + Walk(dirs, b)
  {
    var f := es => Walk(dirs, es);
    var g := e => WalkEntry(dirs, e);
    forall es | es != []
      ensures f(es) == g(es[0]) + f(es[1..])
    {
    }
    HeadRecursiveAppend(f, g, a, b);
  }

  /** Pruning by name is only an optimisation: from a directory reached
      through non-excluded names, the walk emits exactly the files of the
      unpruned depth-first listing whose path has no excluded component and
      which pass the include test, in the same order. */
  lemma {:induction false} WalkIsFilteredListing(dirs: seq<string>, es: seq<Entry>)
    requires ClearBelow(dirs, 0)
    ensures Walk(dirs, es) == Filter(AllFiles(dirs, es), Selected)
    decreases es
  {
    if es != [] {
      WalkIsFilteredListing(dirs, es[1..]);
      EntryIsFiltered(dirs, es[0]);
      FilterAppend(EntryFiles(dirs, es[0]), AllFiles(dirs, es[1..]), Selected);
    }
  }

  lemma {:induction false} EntryIsFiltered(dirs: seq<string>, e: Entry)
    requires ClearBelow(dirs, 0)
    ensures WalkEntry(dirs, e) == Filter(EntryFiles(dirs, e), Selected)
    decreases e
  {
    match e {
      case File(n, st) =>
      case Other(_) =>
      case Dir(n, ch) =>
        var below := AllFiles(dirs + [n], ch);
        if n in EXCLUDED_DIRS {
          forall v | v in below
            ensures !Selected(v)
          {
            assert v.dirs[|dirs|] == n;
          }
          FilterNone(below, Selected);
        } else {
          WalkIsFilteredListing(dirs + [n], ch);
        }
    }
  }

  /** Every file the walk from the root hands over has no excluded name
      on its path and passes the include test. */
  lemma WalkEmitsSelected(es: seq<Entry>, v: Visit)
    requires v in Walk([], es)
    ensures ClearBelow(v.dirs, 0) && v.name !in EXCLUDED_DIRS && Allowed(v.name)
  {
    WalkIsFilteredListing([], es);
  }

  /** A file whose name is not excluded is handed to `processFile` exactly
      when its extension is listed or its name is `Dockerfile`; an excluded
      name never is. */
  lemma FileEmittedIff(dirs: seq<string>, name: string, st: Option<Stat>)
    ensures Walk(dirs, [File(name, st)]) != [] <==>
      name !in EXCLUDED_DIRS && (Extname(name) in FILE_EXTENSIONS || name == "Dockerfile")
  {
    assert [File(name, st)][1..] == [];
  }

  /** Exclusion is by exact name: `tmp` is skipped with everything in it,
      while `tmpdata` is walked into. */
  lemma ExactNameOnly(st: Option<Stat>, ch: seq<Entry>)
    ensures Walk([], [Dir("tmp", ch)]) == []
    ensures Walk([], [Dir("tmpdata", [File("a.js", st)])]) == [Visit(["tmpdata"], "a.js", st)]
  {
    assert LastDot("a.js") == 1 by {
      assert "a.js"[..3] == "a.j";
      assert "a.j"[..2] == "a.";
    }
    assert Extname("a.js") == ".js";
    var inner := [File("a.js", st)];
    var d := Dir("tmpdata", inner);
    assert [] + ["tmpdata"] == ["tmpdata"];
    assert "tmpdata" !in EXCLUDED_DIRS;
    assert Walk(["tmpdata"], inner) == [Visit(["tmpdata"], "a.js", st)] by {
      assert inner[1..] == [];
    }
    assert WalkEntry([], d) == [Visit(["tmpdata"], "a.js", st)];
    assert [d][1..] == [];
  }

  /** Markdown files are included. */
  lemma MarkdownIncluded(st: Option<Stat>)
    ensures Walk([], [File("README.md", st)]) == [Visit([], "README.md", st)]
  {
    assert LastDot("README.md") == 6 by {
      assert "README.md"[..8] == "README.m";
      assert "README.m"[..7] == "README.";
    }
    assert Extname("README.md") == ".md";
  }

  /** A dotfile such as `.gitignore` has no extension and is not
      `Dockerfile`, so it is never emitted. */
  lemma PlainDotfilesNeverEmitted(es: seq<Entry>, v: Visit)
    requires v in Walk([], es)
    ensures !IsPlainDotfile(v.name)
  {
    WalkEmitsSelected(es, v);
    if IsPlainDotfile(v.name) {
      PlainDotfileHasNoExtension(v.name);
      assert false;
    }
  }

  function RecordPaths(rs: seq<Record>): (r: seq<string>)
    ensures |r| == |rs|
    ensures forall j :: 0 <= j < |rs| ==> r[j] == rs[j].path
  {
    if rs == [] then [] else [rs[0].path] + RecordPaths(rs[1..])
  }

  /** The archive holds one entry per readable file and none for the
      others, in visiting order. */
  lemma {:induction false} ArchiveIsReadableVisits(vs: seq<Visit>, encode: string -> string)
    ensures RecordPaths(Archive(vs, encode)) == PathsOf(Filter(vs, Readable))
    decreases |vs|
  {
    if vs != [] {
      ArchiveIsReadableVisits(vs[1..], encode);
      var head := if Readable(vs[0]) then [vs[0]] else [];
      var rest := Filter(vs[1..], Readable);
      PathsOfAppend(head, rest);
      var rs := Entries(vs[0], encode);
      assert RecordPaths(rs + Archive(vs[1..], encode)) == RecordPaths(rs) + RecordPaths(Archive(vs[1..], encode));
    }
  }

  lemma UnreadableFileArchivesNothing(dirs: seq<string>, name: string, encode: string -> string)
    ensures Archive(Walk(dirs, [File(name, None)]), encode) == []
  {
    var failed := File(name, None);
    var w := WalkEntry(dirs, failed);
    assert Walk(dirs, [failed]) == w by {
      assert [failed][1..] == [];
      assert w + [] == w;
    }
    if w != [] {
      assert w == [Visit(dirs, name, None)];
      FlatMapSingle(w[0], v => Entries(v, encode));
    }
  }

  /** A file that cannot be read adds nothing and does not stop the walk:
      the entries of its later siblings still follow those of its earlier
      ones. */
  lemma UnreadableFileSkipped(dirs: seq<string>, before: seq<Entry>, name: string, after: seq<Entry>, encode: string -> string)
    ensures Archive(Walk(dirs, before + [File(name, None)] + after), encode)
         == Archive(Walk(dirs, before), encode) + Archive(Walk(dirs, after), encode)
  {
    var failed := [File(name, None)];
    WalkAppend(dirs, before + failed, after);
    WalkAppend(dirs, before, failed);
    UnreadableFileArchivesNothing(dirs, name, encode);
    FlatMapSkipsEmpty(Walk(dirs, before), Walk(dirs, failed), Walk(dirs, after), v => Entries(v, encode));
  }

  /** Which files are visited does not depend on whether they can be read. */
  lemma {:induction false} WalkIgnoresReadFailures(dirs: seq<string>, a: seq<Entry>, b: seq<Entry>)
    requires SameShape(a, b)
    ensures PathsOf(Walk(dirs, a)) == PathsOf(Walk(dirs, b))
    decreases a
  {
    if a != [] {
      WalkIgnoresReadFailures(dirs, a[1..], b[1..]);
      var ha, hb := WalkEntry(dirs, a[0]), WalkEntry(dirs, b[0]);
      match (a[0], b[0]) {
        case (Dir(n, c), Dir(_, d)) =>
          WalkIgnoresReadFailures(dirs + [n], c, d);
        case _ =>
      }
      assert PathsOf(ha) == PathsOf(hb);
      PathsOfAppend(ha, Walk(dirs, a[1..]));
      PathsOfAppend(hb, Walk(dirs, b[1..]));
    }
  }
}
