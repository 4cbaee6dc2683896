/** The plain-text archiver `tar.cjs`: which files of the tree go into the
    archive, in what order, and the text each contributes. */
module Tar {
  import opened Strings
  import opened Paths
  import opened Numerals
  import opened FsTree

  /** Relative-path prefixes that are skipped, in the `Set`'s insertion
      order. The test is a plain string prefix, not a path-segment match. */
  const EXCLUDED_DIRS: seq<string> := [
    ".venv", "venv", "Pods", ".git", "node_modules", "tmp", ".vscode", "build",
    ".dart_tool", "android/build", "android/.gradle", "ios/build", "ios/Pods",
    "ios/.symlinks", "web/build", "windows/build", "linux/build", "macos/build"
  ]

  const FILE_EXTENSIONS: set<string> := {
    ".txt", ".py", ".dart", ".js", ".ts", ".html", ".css", ".java", ".kt",
    ".swift", ".c", ".cpp", ".h", ".hpp", ".rs", ".go", ".rb", ".php", ".yml",
    ".yaml", ".json", ".xml", ".sh", ".ini", ".conf", ".properties",
    ".gitignore", ".npmignore", ".svg"
  }

  const FILE_NAMES: set<string> := {
    "Dockerfile", "pubspec.yaml", "firebase.json", "firestore.rules", "analysis_options.yaml"
  }

  /** An end-anchored, start-unanchored regular expression of the generated-file
      list: either a literal text at the end of the path, or `head.*tail$`,
      where `.` matches any character but a line terminator. */
  datatype Pattern =
    | EndsWithText(text: string)
    | SpanToEnd(head: string, tail: string)

  const EXCLUDED_FILE_PATTERNS: seq<Pattern> := [
    EndsWithText("lib/l10n/app_localizations.dart"),
    SpanToEnd("lib/l10n/app_localizations_", ".dart"),
    EndsWithText("lib/firebase_options.dart"),
    EndsWithText("lib/generated_plugin_registrant.dart"),
    EndsWithText("ios/Runner/GeneratedPluginRegistrant.swift"),
    EndsWithText("macos/Flutter/GeneratedPluginRegistrant.swift"),
    EndsWithText("windows/flutter/generated_plugin_registrant.h"),
    EndsWithText(".g.dart"),
    EndsWithText(".freezed.dart"),
    EndsWithText(".gr.dart"),
    EndsWithText("pubspec.lock")
  ]

  /** The literal text a pattern's `$` anchors at the end of the path. */
  function Anchor(p: Pattern): string {
    match p
    case EndsWithText(t) => t
    case SpanToEnd(_, t) => t
  }

  /** `pattern.test(s)`: a match ends with the anchored text, and a
      `head.*tail$` match also contains `head` somewhere before it. */
  predicate Matches(p: Pattern, s: string): (b: bool)
    ensures b ==> EndsWith(s, Anchor(p))
    ensures b && p.SpanToEnd? ==> |s| >= |p.head| + |p.tail|
  {
    match p
    case EndsWithText(t) => EndsWith(s, t)
    case SpanToEnd(h, t) =>
      exists i :: 0 <= i <= |s| - |h| - |t| && OccursAt(s, h, i) && LineFree(s, i + |h|, |s| - |t|) && EndsWith(s, t)
  }

  /** The relative path starts with (or is) one of the excluded directories. */
  predicate ExcludedDir(rel: string) {
    exists k :: 0 <= k < |EXCLUDED_DIRS| && (StartsWith(rel, EXCLUDED_DIRS[k]) || rel == EXCLUDED_DIRS[k])
  }

  /** Some generated-file pattern matches the path. */
  predicate ExcludedByPattern(path: string) {
    exists k :: 0 <= k < |EXCLUDED_FILE_PATTERNS| && Matches(EXCLUDED_FILE_PATTERNS[k], path)
  }

  /** The `shouldProcess` test for a file: allowed by extension or by exact
      name, not Markdown, not generated. */
  predicate ShouldProcess(rel: string, name: string) {
    && (Extname(name) in FILE_EXTENSIONS || name in FILE_NAMES)
    && Extname(name) != ".md"
    && !ExcludedByPattern(rel)
  }

  /** The loop that sets `isExcludedDir`, stopping at the first hit. */
  method IsExcludedDir(rel: string) returns (excluded: bool)
    ensures excluded <==> exists k :: 0 <= k < |EXCLUDED_DIRS| && StartsWith(rel, EXCLUDED_DIRS[k])
    ensures excluded == ExcludedDir(rel)
  {
    excluded := false;
    var k := 0;
    while k < |EXCLUDED_DIRS|
      invariant 0 <= k <= |EXCLUDED_DIRS|
      invariant !excluded
      invariant forall j :: 0 <= j < k ==> !StartsWith(rel, EXCLUDED_DIRS[j]) && rel != EXCLUDED_DIRS[j]
    {
      if StartsWith(rel, EXCLUDED_DIRS[k]) || rel == EXCLUDED_DIRS[k] {
        excluded := true;
        return;
      }
      k := k + 1;
    }
  }

  /** The loop of `shouldExcludeFile` over a list of patterns: true as
      soon as one matches, false when none does. */
  method AnyMatches(ps: seq<Pattern>, path: string) returns (found: bool)
    ensures found <==> exists k :: 0 <= k < |ps| && Matches(ps[k], path)
  {
    var k := 0;
    while k < |ps|
      invariant 0 <= k <= |ps|
      invariant forall j :: 0 <= j < k ==> !Matches(ps[j], path)
    {
      if Matches(ps[k], path) {
        return true;
      }
      k := k + 1;
    }
    return false;
  }

  /** `shouldExcludeFile`: true iff one of the generated-file patterns
      matches the path. */
  method ShouldExcludeFile(path: string) returns (excluded: bool)
    ensures excluded <==> ExcludedByPattern(path)
  {
    excluded := AnyMatches(EXCLUDED_FILE_PATTERNS, path);
  }

  /** What the walk decides for a file it reaches, judged on the file alone. */
  predicate Selected(v: Visit) {
    !ExcludedDir(v.Path()) && ShouldProcess(v.Path(), v.name)
  }

  /** `walkDir`: the files handed to `processFile`, in call order, for the
      listing `es` of the directory reached through `dirs`. */
  function Walk(dirs: seq<string>, es: seq<Entry>): seq<Visit>
    decreases es
  {
    if es == [] then [] else WalkEntry(dirs, es[0]) + Walk(dirs, es[1..])
  }

  /** One iteration of `walkDir`'s loop: skip an entry whose relative path
      fails the prefix test, recurse into a directory, hand a qualifying
      file to `processFile`, ignore anything else. */
  function WalkEntry(dirs: seq<string>, e: Entry): seq<Visit>
    decreases e
  {
    var rel := Join(JoinAll(dirs), e.name);
    if ExcludedDir(rel) then []
    else match e
      case Dir(n, ch) => Walk(dirs + [n], ch)
      case File(n, st) => if ShouldProcess(rel, n) then [Visit(dirs, n, st)] else []
      case Other(_) => []
  }
}
