/** The directory tree both archivers walk, as `fs.readdirSync(dir,
    { withFileTypes: true })` presents it: each listing is a sequence of
    entries in the order the listing returns them, and an entry is a
    regular file, a directory, or anything else (a symbolic link, a socket,
    …). What `fs.statSync` and `fs.readFileSync` would report for a file is
    stored with it, or `None` when either of them throws. */
module FsTree {
  import opened Strings
  import opened Paths

  datatype Option<T> = None | Some(value: T)

  /** The metadata and content of a readable file. `mtime` is the date
      already rendered by `toUTCString()`. */
  datatype Stat = Stat(size: nat, mode: nat, uid: nat, gid: nat, mtime: string, content: string)

  datatype Entry =
    | File(name: string, stat: Option<Stat>)
    | Dir(name: string, children: seq<Entry>)
    | Other(name: string)

  /** A file met during a walk: the names of the directories leading to it
      from the root, its own name, and what reading it yields. */
  datatype Visit = Visit(dirs: seq<string>, name: string, stat: Option<Stat>) {
    /** The path relative to the walk root, built the way the walk builds
        it: `path.join(dir, entry.name)`. */
    function Path(): string {
      Join(JoinAll(dirs), name)
    }
  }

  /** Every regular file of the listing `es` found in the directory reached
      through `dirs`, depth first, each directory's files in listing order,
      nothing pruned and nothing filtered: the reference order both walks
      are measured against. */
  function AllFiles(dirs: seq<string>, es: seq<Entry>): (r: seq<Visit>)
    ensures forall v :: v in r ==> dirs <= v.dirs
    decreases es
  {
    if es == [] then [] else EntryFiles(dirs, es[0]) + AllFiles(dirs, es[1..])
  }

  /** The files of one entry: itself if it is a file, everything below it
      if it is a directory. */
  function EntryFiles(dirs: seq<string>, e: Entry): (r: seq<Visit>)
    ensures forall v :: v in r ==> dirs <= v.dirs
    decreases e
  {
    match e
    case File(n, st) => [Visit(dirs, n, st)]
    case Dir(n, ch) => AllFiles(dirs + [n], ch)
    case Other(_) => []
  }

  /** The visits of `s` that satisfy `keep`, in their original order. */
  function Filter(s: seq<Visit>, keep: Visit -> bool): (r: seq<Visit>)
    ensures |r| <= |s|
    ensures forall v :: v in r <==> v in s && keep(v)
  {
    if s == [] then []
    else (if keep(s[0]) then [s[0]] else []) + Filter(s[1..], keep)
  }

  lemma {:induction false} FilterAppend(a: seq<Visit>, b: seq<Visit>, keep: Visit -> bool)
    ensures Filter(a + b, keep) == Filter(a, keep) + Filter(b, keep)
    decreases |a|
  {
    if a != [] {
      assert (a + b)[1..] == a[1..] + b;
      FilterAppend(a[1..], b, keep);
    } else {
      assert a + b == b;
    }
  }

  lemma FilterNone(s: seq<Visit>, keep: Visit -> bool)
    requires forall v :: v in s ==> !keep(v)
    ensures Filter(s, keep) == []
  {
  }

  /** A file below a directory has a path that extends the directory's path. */
  lemma VisitPathExtends(v: Visit, dirs: seq<string>)
    requires dirs <= v.dirs
    ensures StartsWith(v.Path(), JoinAll(dirs))
  {
    var more := v.dirs[|dirs|..];
    assert v.dirs == dirs + more;
    JoinAllExtends(dirs, more);
    JoinExtends(JoinAll(v.dirs), v.name);
    StartsWithTransitive(v.Path(), JoinAll(v.dirs), JoinAll(dirs));
  }

  /** The relative paths of a sequence of visits, in order. */
  function PathsOf(vs: seq<Visit>): (r: seq<string>)
    ensures |r| == |vs|
    ensures forall j :: 0 <= j < |vs| ==> r[j] == vs[j].Path()
  {
    if vs == [] then [] else [vs[0].Path()] + PathsOf(vs[1..])
  }

  /** Two listings describe the same tree and differ at most in what
      reading their files yields. */
  predicate SameShape(a: seq<Entry>, b: seq<Entry>)
    decreases a
  {
    if a == [] then b == []
    else
      && b != []
      && (match (a[0], b[0])
          case (File(n, _), File(m, _)) => n == m
          case (Dir(n, c), Dir(m, d)) => n == m && SameShape(c, d)
          case (Other(n), Other(m)) => n == m
          case _ => false)
      && SameShape(a[1..], b[1..])
  }

  lemma {:induction false} PathsOfAppend(a: seq<Visit>, b: seq<Visit>)
    ensures PathsOf(a + b) == PathsOf(a) + PathsOf(b)
  {
  }

  /** What `f` yields for each visit, concatenated in visiting order. */
  function FlatMap<T>(vs: seq<Visit>, f: Visit -> seq<T>): seq<T> {
    if vs == [] then [] else f(vs[0]) + FlatMap(vs[1..], f)
  }

  lemma FlatMapSingle<T>(v: Visit, f: Visit -> seq<T>)
    ensures FlatMap([v], f) == f(v)
  {
    assert [v][1..] == [];
    assert f(v) + [] == f(v);
  }

  lemma {:induction false} FlatMapAppend<T>(a: seq<Visit>, b: seq<Visit>, f: Visit -> seq<T>)
    ensures FlatMap(a + b, f) == FlatMap(a, f) + FlatMap(b, f)
    decreases |a|
  {
    if a == [] {
      assert a + b == b;
    } else {
      assert (a + b)[0] == a[0];
      assert (a + b)[1..] == a[1..] + b;
      FlatMapAppend(a[1..], b, f);
    }
  }

  /** When each visit yields at most one item, there are at most as many
      items as visits. */
  lemma {:induction false} FlatMapAtMostOne<T>(vs: seq<Visit>, f: Visit -> seq<T>)
    requires forall v :: v in vs ==> |f(v)| <= 1
    ensures |FlatMap(vs, f)| <= |vs|
    decreases |vs|
  {
    if vs != [] {
      assert vs[0] in vs;
      assert forall v :: v in vs[1..] ==> v in vs;
      FlatMapAtMostOne(vs[1..], f);
    }
  }

  /** Every item comes from some visit. */
  lemma {:induction false} FlatMapMembers<T>(vs: seq<Visit>, f: Visit -> seq<T>)
    ensures forall x :: x in FlatMap(vs, f) ==> exists v :: v in vs && x in f(v)
    decreases |vs|
  {
    if vs != [] {
      FlatMapMembers(vs[1..], f);
      forall x | x in FlatMap(vs, f)
        ensures exists v :: v in vs && x in f(v)
      {
        if x in f(vs[0]) {
          assert vs[0] in vs;
        } else {
          assert FlatMap(vs, f) == f(vs[0]) + FlatMap(vs[1..], f);
          assert x in FlatMap(vs[1..], f);
          var w :| w in vs[1..] && x in f(w);
          assert w in vs;
        }
      }
    }
  }

  /** Visits that yield nothing can be dropped from the middle. */
  lemma FlatMapSkipsEmpty<T>(before: seq<Visit>, w: seq<Visit>, after: seq<Visit>, f: Visit -> seq<T>)
    requires FlatMap(w, f) == []
    ensures FlatMap(before + w + after, f) == FlatMap(before, f) + FlatMap(after, f)
  {
    FlatMapAppend(before + w, after, f);
    FlatMapAppend(before, w, f);
  }

  /** A function on listings that handles the head entry with `g` and
      the rest by itself distributes over concatenation. Both walks have
      this shape. */
  lemma {:induction false} HeadRecursiveAppend<E, V>(f: seq<E> -> seq<V>, g: E -> seq<V>, a: seq<E>, b: seq<E>)
    requires f([]) == []
    requires forall es :: es != [] ==> f(es) == g(es[0]) + f(es[1..])
    ensures f(a + b) == f(a) + f(b)
    decreases |a|
  {
    if a == [] {
      assert a + b == b;
    } else {
      assert (a + b)[0] == a[0];
      assert (a + b)[1..] == a[1..] + b;
      HeadRecursiveAppend(f, g, a[1..], b);
      assert f(a + b) == g(a[0]) + f(a[1..] + b);
    }
  }

  /** Reading the file succeeded. */
  predicate Readable(v: Visit) {
    v.stat.Some?
  }
}
