/** Properties of the `tar.cjs` walk and archive text. */
module TarProps {
  import opened Strings
  import opened Paths
  import opened FsTree
  import opened Numerals
  import opened Tar
  import opened TarEntry

  /** Walking two listings one after the other is walking their concatenation. */
  lemma WalkAppend(dirs: seq<string>, a: seq<Entry>, b: seq<Entry>)
    ensures Walk(dirs, a + b) == Walk(dirs, a) + Walk(dirs, b)
  {
    var f := es => Walk(dirs, es);
    var g := e => WalkEntry(dirs, e);
    forall es | es != []
      ensures f(es) == g(es[0]) + f(es[1..])
    {
    }
    HeadRecursiveAppend(f, g, a, b);
  }

  /** The prefix test holds of every path that extends an excluded path:
      a directory's exclusion is inherited by everything below it. */
  lemma ExcludedDirExtends(rel: string, p: string)
    requires ExcludedDir(rel) && StartsWith(p, rel)
    ensures ExcludedDir(p)
  {
    var k :| 0 <= k < |EXCLUDED_DIRS| && (StartsWith(rel, EXCLUDED_DIRS[k]) || rel == EXCLUDED_DIRS[k]);
    assert StartsWith(rel, EXCLUDED_DIRS[k]);
    StartsWithTransitive(p, rel, EXCLUDED_DIRS[k]);
  }

  /** Pruning is only an optimisation: the walk emits exactly the files of
      the unpruned depth-first listing that pass the per-file tests, in the
      same order. Entries that are neither files nor directories never
      appear. */
  lemma {:induction false} WalkIsFilteredListing(dirs: seq<string>, es: seq<Entry>)
    ensures Walk(dirs, es) == Filter(AllFiles(dirs, es), Selected)
    decreases es
  {
    if es != [] {
      WalkIsFilteredListing(dirs, es[1..]);
      EntryIsFiltered(dirs, es[0]);
      FilterAppend(EntryFiles(dirs, es[0]), AllFiles(dirs, es[1..]), Selected);
    }
  }

  lemma {:induction false} EntryIsFiltered(dirs: seq<string>, e: Entry)
    ensures WalkEntry(dirs, e) == Filter(EntryFiles(dirs, e), Selected)
    decreases e
  {
    match e {
      case File(n, st) =>
      case Other(_) =>
      case Dir(n, ch) =>
        var below := AllFiles(dirs + [n], ch);
        var rel := Join(JoinAll(dirs), n);
        assert JoinAll(dirs + [n]) == rel by {
          assert (dirs + [n])[..|dirs|] == dirs;
        }
        if ExcludedDir(rel) {
          forall v | v in below
            ensures !Selected(v)
          {
            VisitPathExtends(v, dirs + [n]);
            ExcludedDirExtends(rel, v.Path());
          }
          FilterNone(below, Selected);
        } else {
          WalkIsFilteredListing(dirs + [n], ch);
        }
    }
  }

  /** Every file the walk hands over passes the prefix test and the
      per-file tests on its own path. */
  lemma WalkEmitsSelected(dirs: seq<string>, es: seq<Entry>, v: Visit)
    requires v in Walk(dirs, es)
    ensures !ExcludedDir(v.Path()) && ShouldProcess(v.Path(), v.name)
  {
    WalkIsFilteredListing(dirs, es);
  }

  /** Every emitted file is allowed by extension or by exact name, and
      none is a Markdown file. */
  lemma EmittedFilesPassAllowList(dirs: seq<string>, es: seq<Entry>, v: Visit)
    requires v in Walk(dirs, es)
    ensures Extname(v.name) in FILE_EXTENSIONS || v.name in FILE_NAMES
    ensures Extname(v.name) != ".md"
  {
    WalkEmitsSelected(dirs, es, v);
  }

  /** A file in the directory reached through `dirs` is handed to
      `processFile` exactly when its relative path passes the prefix test
      and the per-file tests. */
  lemma FileEmittedIff(dirs: seq<string>, name: string, st: Option<Stat>)
    ensures Walk(dirs, [File(name, st)]) != [] <==>
      var rel := Join(JoinAll(dirs), name);
      !ExcludedDir(rel)
      && (Extname(name) in FILE_EXTENSIONS || name in FILE_NAMES)
      && Extname(name) != ".md"
      && !ExcludedByPattern(rel)
  {
    assert [File(name, st)][1..] == [];
  }

  /** Nothing below a directory whose relative path fails the prefix test
      is ever emitted. */
  lemma PrunedDirHidesSubtree(dirs: seq<string>, es: seq<Entry>, pruned: seq<string>, v: Visit)
    requires ExcludedDir(JoinAll(pruned))
    requires v in Walk(dirs, es)
    ensures !(pruned <= v.dirs)
  {
    WalkEmitsSelected(dirs, es, v);
    if pruned <= v.dirs {
      VisitPathExtends(v, pruned);
      ExcludedDirExtends(JoinAll(pruned), v.Path());
      assert false;
    }
  }

  /** The prefix test is on characters, not on path segments: a file
      `buildNotes.txt` and a directory `tmpx` at the root are both skipped. */
  lemma PrefixNotSegment(st: Option<Stat>, ch: seq<Entry>)
    ensures Walk([], [File("buildNotes.txt", st)]) == []
    ensures Walk([], [Dir("tmpx", ch)]) == []
  {
    assert StartsWith("buildNotes.txt", EXCLUDED_DIRS[7]);
    assert StartsWith("tmpx", EXCLUDED_DIRS[5]);
  }

  /** Build-runner output, the Firebase options file and the lock file are
      never emitted, whatever the tree. */
  lemma GeneratedFilesNeverEmitted(dirs: seq<string>, es: seq<Entry>, v: Visit)
    requires v in Walk(dirs, es)
    ensures !EndsWith(v.Path(), ".g.dart")
    ensures !EndsWith(v.Path(), ".freezed.dart")
    ensures !EndsWith(v.Path(), ".gr.dart")
    ensures !EndsWith(v.Path(), "lib/firebase_options.dart")
    ensures !EndsWith(v.Path(), "pubspec.lock")
  {
    WalkEmitsSelected(dirs, es, v);
    NotGeneratedSuffixes(v.Path());
  }

  lemma NotGeneratedSuffixes(p: string)
    requires !ExcludedByPattern(p)
    ensures !EndsWith(p, ".g.dart")
    ensures !EndsWith(p, ".freezed.dart")
    ensures !EndsWith(p, ".gr.dart")
    ensures !EndsWith(p, "lib/firebase_options.dart")
    ensures !EndsWith(p, "pubspec.lock")
  {
    assert !Matches(EXCLUDED_FILE_PATTERNS[7], p);
    assert !Matches(EXCLUDED_FILE_PATTERNS[8], p);
    assert !Matches(EXCLUDED_FILE_PATTERNS[9], p);
    assert !Matches(EXCLUDED_FILE_PATTERNS[2], p);
    assert !Matches(EXCLUDED_FILE_PATTERNS[10], p);
  }

  /** `lib/l10n/app_localizations_<anything>.dart` is excluded wherever it
      sits, provided the middle part holds no line terminator. */
  lemma LocalizationFilesExcluded(a: string, b: string)
    requires forall j :: 0 <= j < |b| ==> !IsLineTerminator(b[j])
    ensures ExcludedByPattern(a + "lib/l10n/app_localizations_" + b + ".dart")
  {
    var h, t := "lib/l10n/app_localizations_", ".dart";
    var s := a + h + b + t;
    assert s[|a|..|a| + |h|] == h;
    assert s[|s| - |t|..] == t;
    assert forall j :: |a| + |h| <= j < |s| - |t| ==> s[j] == b[j - |a| - |h|];
    assert OccursAt(s, h, |a|) && LineFree(s, |a| + |h|, |s| - |t|) && EndsWith(s, t);
    assert Matches(EXCLUDED_FILE_PATTERNS[1], s);
  }

  /** A dotfile such as `.gitignore` has no extension and is not in the
      name list, so it is never emitted: the `.gitignore` and `.npmignore`
      entries of the extension list never match a plain dotfile, only names
      such as `foo.gitignore`. */
  lemma PlainDotfilesNeverEmitted(dirs: seq<string>, es: seq<Entry>, v: Visit)
    requires v in Walk(dirs, es)
    ensures !IsPlainDotfile(v.name)
  {
    EmittedFilesPassAllowList(dirs, es, v);
    if IsPlainDotfile(v.name) {
      PlainDotfileNotAllowed(v.name);
      assert false;
    }
  }

  lemma PlainDotfileNotAllowed(name: string)
    requires IsPlainDotfile(name)
    ensures Extname(name) !in FILE_EXTENSIONS && name !in FILE_NAMES
  {
    PlainDotfileHasNoExtension(name);
  }

  /** A file that cannot be read adds nothing to the archive and does not
      stop the walk: the entries of its later siblings still follow those
      of its earlier ones. */
  lemma UnreadableFileSkipped(dirs: seq<string>, before: seq<Entry>, name: string, after: seq<Entry>)
    ensures ArchiveText(Walk(dirs, before + [File(name, None)] + after))
         == ArchiveText(Walk(dirs, before)) + ArchiveText(Walk(dirs, after))
  {
    var failed := [File(name, None)];
    WalkAppend(dirs, before + failed, after);
    WalkAppend(dirs, before, failed);
    UnreadableFileArchivesNothing(dirs, name);
    FlatMapSkipsEmpty(Walk(dirs, before), Walk(dirs, failed), Walk(dirs, after), RecordText);
  }

  lemma UnreadableFileArchivesNothing(dirs: seq<string>, name: string)
    ensures ArchiveText(Walk(dirs, [File(name, None)])) == ""
  {
    var failed := File(name, None);
    var w := WalkEntry(dirs, failed);
    assert Walk(dirs, [failed]) == w by {
      assert [failed][1..] == [];
      assert w + [] == w;
    }
    if w != [] {
      assert w == [Visit(dirs, name, None)];
      FlatMapSingle(w[0], RecordText);
    }
  }

  /** Which files are visited does not depend on whether they can be read. */
  lemma {:induction false} WalkIgnoresReadFailures(dirs: seq<string>, a: seq<Entry>, b: seq<Entry>)
    requires SameShape(a, b)
    ensures PathsOf(Walk(dirs, a)) == PathsOf(Walk(dirs, b))
    decreases a
  {
    if a != [] {
      WalkIgnoresReadFailures(dirs, a[1..], b[1..]);
      var ha, hb := WalkEntry(dirs, a[0]), WalkEntry(dirs, b[0]);
      match (a[0], b[0]) {
        case (Dir(n, c), Dir(_, d)) =>
          WalkIgnoresReadFailures(dirs + [n], c, d);
        case _ =>
      }
      assert PathsOf(ha) == PathsOf(hb);
      PathsOfAppend(ha, Walk(dirs, a[1..]));
      PathsOfAppend(hb, Walk(dirs, b[1..]));
    }
  }
}
