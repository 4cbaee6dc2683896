/** The compressed archiver `tar-compressed.js`: its own walk, which prunes
    by exact entry name at any depth and has no generated-file or Markdown
    denial, and the fields of the entry it writes for each file. */
module TarCompressed {
  import opened Paths
  import opened Numerals
  import opened FsTree

  /** Entry names skipped wherever they occur, files and directories alike. */
  const EXCLUDED_DIRS: set<string> := {".git", "node_modules", "tmp"}

  /** The extension list; the source repeats some entries, which a `Set`
      collapses. Markdown is allowed here. */
  const FILE_EXTENSIONS: set<string> := {
    ".txt", ".md", ".py", ".dart", ".js", ".ts", ".html", ".css", ".java", ".kt",
    ".swift", ".c", ".cpp", ".h", ".hpp", ".rs", ".go", ".rb", ".php", ".yml",
    ".yaml", ".json", ".xml", ".sh", ".ini", ".conf", ".properties",
    ".gitignore", ".npmignore", ".svg"
  }

  const FILE_NAMES: set<string> := {"Dockerfile"}

  /** The include test: extension or exact name in the lists. */
  predicate Allowed(name: string) {
    Extname(name) in FILE_EXTENSIONS || name in FILE_NAMES
  }

  /** No directory on the way from `dirs[from]` down is an excluded name. */
  predicate ClearBelow(dirs: seq<string>, from: nat) {
    forall j :: from <= j < |dirs| ==> dirs[j] !in EXCLUDED_DIRS
  }

  /** What the walk decides for a file, judged on its whole path: no
      component is an excluded name and the file passes the include test. */
  predicate Selected(v: Visit) {
    ClearBelow(v.dirs, 0) && v.name !in EXCLUDED_DIRS && Allowed(v.name)
  }

  /** `walkDir`: the files handed to `processFile`, in call order, for the
      listing `es` of the directory reached through `dirs`. */
  function Walk(dirs: seq<string>, es: seq<Entry>): seq<Visit>
    decreases es
  {
    if es == [] then [] else WalkEntry(dirs, es[0]) + Walk(dirs, es[1..])
  }

  /** One iteration of `walkDir`'s loop: skip an excluded name, recurse into
      a directory, hand an included file to `processFile`, ignore anything
      else. */
  function WalkEntry(dirs: seq<string>, e: Entry): seq<Visit>
    decreases e
  {
    if e.name in EXCLUDED_DIRS then []
    else match e
      case Dir(n, ch) => Walk(dirs + [n], ch)
      case File(n, st) => if Allowed(n) then [Visit(dirs, n, st)] else []
      case Other(_) => []
  }

  /** The fields of a compressed archive entry. `payload` is the content
      after gzip and base64, and `compressedSize` its length. */
  datatype Record = Record(
    path: string, size: nat, compressedSize: nat, mode: string,
    uid: nat, gid: nat, mtime: string, payload: string)

  /** `processFile`: the entry for a readable file, nothing when reading it
      throws. `encode` stands for `zlib.gzipSync` followed by base64. */
  function Process(v: Visit, encode: string -> string): (r: Option<Record>)
    ensures r.Some? <==> v.stat.Some?
    ensures r.Some? ==>
      && r.value.path == v.Path()
      && r.value.size == v.stat.value.size
      && r.value.payload == encode(v.stat.value.content)
      && r.value.compressedSize == |r.value.payload|
      && r.value.uid == v.stat.value.uid
      && r.value.gid == v.stat.value.gid
      && r.value.mtime == v.stat.value.mtime
      && |r.value.mode| == 3
      && (forall j :: 0 <= j < 3 ==> IsDigit(r.value.mode[j], 8))
      && Value(r.value.mode, 8) == v.stat.value.mode % 512
  {
    match v.stat
    case None => None
    case Some(st) =>
      var payload := encode(st.content);
      Some(Record(v.Path(), st.size, |payload|, Perms(st.mode), st.uid, st.gid, st.mtime, payload))
  }

  /** The records one visited file contributes: one, or none when it
      cannot be read. */
  function Entries(v: Visit, encode: string -> string): seq<Record> {
    match Process(v, encode)
    case Some(rec) => [rec]
    case None => []
  }

  /** The archive: one record per readable visited file, in visiting order. */
  function Archive(vs: seq<Visit>, encode: string -> string): (r: seq<Record>)
    ensures |r| <= |vs|
    ensures forall rec :: rec in r ==> exists v :: v in vs && Process(v, encode) == Some(rec)
  {
    var f := v => Entries(v, encode);
    FlatMapAtMostOne(vs, f);
    FlatMapMembers(vs, f);
    FlatMap(vs, f)
  }
}
