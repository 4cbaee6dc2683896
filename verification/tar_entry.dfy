/** The text `tar.cjs` appends for each file it hands to `processFile`:
    the header lines, the content, the footer; and the archive text, the
    entries of the visited files in visiting order. */
module TarEntry {
  import opened Strings
  import opened Paths
  import opened Numerals
  import opened FsTree

  /** What precedes the displayed path in the header, and what follows it
      in the footer. */
  const PATH_LABEL := "--- START HEADER ---\npath: "
  const FOOTER_TAIL := " ---\n\n"

  /** The first two header lines: the start marker, then `path: ` and
      the displayed path. */
  function HeaderOpening(rel: string): string {
    PATH_LABEL + DisplayPath(rel) + "\n"
  }

  /** The displayed path follows `path: ` in the header. */
  lemma OpeningShowsPath(rel: string)
    ensures OccursAt(HeaderOpening(rel), DisplayPath(rel), |PATH_LABEL|)
  {
    OccursInMiddle(PATH_LABEL, DisplayPath(rel), "\n");
  }

  /** The header lines after the path line, each ending in a newline. */
  function SizeLine(st: Stat): string { "size: " + Digits(st.size, 10) + " bytes\n" }
  function ModeLine(st: Stat): string { MODE_LABEL + Perms(st.mode) + "\n" }
  function UidLine(st: Stat): string { "uid: " + Digits(st.uid, 10) + "\n" }
  function GidLine(st: Stat): string { "gid: " + Digits(st.gid, 10) + "\n" }
  function MtimeLine(st: Stat): string { "mtime: " + st.mtime + "\n" }
  const END_HEADER := "--- END HEADER ---\n"
  const MODE_LABEL := "mode: "

  /** The permission string follows `mode: ` on the mode line. */
  lemma ModeLineShowsPerms(st: Stat)
    ensures OccursAt(ModeLine(st), Perms(st.mode), |MODE_LABEL|)
  {
    OccursInMiddle(MODE_LABEL, Perms(st.mode), "\n");
  }

  /** The remaining header lines: size, mode, owner, group and
      modification time, in that order, then the end marker. */
  function HeaderFields(st: Stat): string {
    SizeLine(st) + ModeLine(st) + UidLine(st) + GidLine(st) + MtimeLine(st) + END_HEADER
  }

  /** The mode line sits right after the size line: the one fact of
      `HeaderFieldsInOrder` that placing the mode in the entry needs. */
  lemma ModeFollowsSize(st: Stat)
    ensures OccursAt(HeaderFields(st), ModeLine(st), |SizeLine(st)|)
  {
    SixLines(SizeLine(st), ModeLine(st), UidLine(st), GidLine(st), MtimeLine(st), END_HEADER);
  }

  /** The header lines come in the order `tar.cjs` writes them: size,
      mode, owner, group, modification time, end marker. */
  lemma HeaderFieldsInOrder(st: Stat)
    ensures var f := HeaderFields(st);
      && StartsWith(f, SizeLine(st))
      && OccursAt(f, ModeLine(st), |SizeLine(st)|)
      && OccursAt(f, UidLine(st), |SizeLine(st)| + |ModeLine(st)|)
      && OccursAt(f, GidLine(st), |SizeLine(st)| + |ModeLine(st)| + |UidLine(st)|)
      && OccursAt(f, MtimeLine(st), |SizeLine(st)| + |ModeLine(st)| + |UidLine(st)| + |GidLine(st)|)
      && EndsWith(f, END_HEADER)
  {
    SixLines(SizeLine(st), ModeLine(st), UidLine(st), GidLine(st), MtimeLine(st), END_HEADER);
  }

  /** What follows the content: a newline, the footer line
      `--- END: <displayed path> ---`, a blank line. */
  function Closing(rel: string): string {
    "\n--- END: " + DisplayPath(rel) + FOOTER_TAIL
  }

  /** The displayed path is followed by ` ---` and a blank line in the
      footer. */
  lemma ClosingShowsPath(rel: string)
    ensures var z := Closing(rel);
      OccursAt(z, DisplayPath(rel), |z| - |DisplayPath(rel)| - |FOOTER_TAIL|)
  {
    OccursInMiddle("\n--- END: ", DisplayPath(rel), FOOTER_TAIL);
  }

  /** `processFile`'s text for a file at relative path `p`: nothing when
      its stat or read throws; otherwise header, content, footer and a
      blank line. The header lines open the entry, the content and the
      footer close it, and the content is exactly what lies between. */
  function Record(p: string, stat: Option<Stat>): (r: string)
    ensures stat.None? ==> r == ""
    ensures stat.Some? ==> |r| == |HeaderOpening(p)| + |HeaderFields(stat.value)| + |stat.value.content| + |Closing(p)|
    ensures stat.Some? ==> StartsWith(r, HeaderOpening(p) + HeaderFields(stat.value))
    ensures stat.Some? ==> EndsWith(r, stat.value.content + Closing(p))
    ensures stat.Some? ==> r[|HeaderOpening(p)| + |HeaderFields(stat.value)|..|r| - |Closing(p)|] == stat.value.content
  {
    if stat.None? then "" else
      var h, f, c, z := HeaderOpening(p), HeaderFields(stat.value), stat.value.content, Closing(p);
      Layout(h, f, c, z);
      h + f + c + z
  }

  /** The header's path line shows the displayed path right after
      `path: `. */
  lemma HeaderShowsPath(p: string, st: Stat)
    ensures OccursAt(Record(p, Some(st)), DisplayPath(p), |PATH_LABEL|)
  {
    OpeningShowsPath(p);
    InHead(Record(p, Some(st)), HeaderOpening(p), HeaderFields(st), DisplayPath(p), |PATH_LABEL|);
  }

  /** The footer shows the displayed path right before ` ---` and the
      blank line. */
  lemma FooterShowsPath(p: string, st: Stat)
    ensures var r := Record(p, Some(st));
      OccursAt(r, DisplayPath(p), |r| - |DisplayPath(p)| - |FOOTER_TAIL|)
  {
    var r, d, z := Record(p, Some(st)), DisplayPath(p), Closing(p);
    ClosingShowsPath(p);
    InTail(r, st.content, z, d, |z| - |d| - |FOOTER_TAIL|, |r| - |d| - |FOOTER_TAIL|);
  }

  /** The mode line follows the size line in the header. */
  lemma RecordShowsMode(p: string, st: Stat)
    ensures OccursAt(Record(p, Some(st)), ModeLine(st), |HeaderOpening(p)| + |SizeLine(st)|)
  {
    ModeFollowsSize(st);
    InFields(Record(p, Some(st)), HeaderOpening(p), HeaderFields(st), ModeLine(st),
      |SizeLine(st)|, |HeaderOpening(p)| + |SizeLine(st)|);
  }

  /** The permission string sits right after `mode: ` in the entry: three
      octal digits that read back as `mode mod 512` (see `Perms`). */
  lemma RecordShowsPerms(p: string, st: Stat)
    ensures OccursAt(Record(p, Some(st)), Perms(st.mode), |HeaderOpening(p)| + |SizeLine(st)| + |MODE_LABEL|)
  {
    RecordShowsMode(p, st);
    ModeLineShowsPerms(st);
    OccursWithin(Record(p, Some(st)), ModeLine(st), |HeaderOpening(p)| + |SizeLine(st)|, Perms(st.mode), |MODE_LABEL|);
  }

  /** The text for a visited file, under its path relative to the walk
      root: empty exactly when reading the file fails. */
  function RecordText(v: Visit): (r: string)
    ensures r == "" <==> v.stat.None?
  {
    Record(v.Path(), v.stat)
  }

  /** The archive text: the entries of the visited files, in visiting order. */
  function ArchiveText(vs: seq<Visit>): (r: string)
    ensures r == "" <==> forall v :: v in vs ==> v.stat.None?
  {
    ArchiveEmptyIff(vs);
    FlatMap(vs, RecordText)
  }

  /** The archive text is empty exactly when no visited file is readable. */
  lemma {:induction false} ArchiveEmptyIff(vs: seq<Visit>)
    ensures FlatMap(vs, RecordText) == "" <==> forall v :: v in vs ==> v.stat.None?
    decreases |vs|
  {
    if vs != [] {
      ArchiveEmptyIff(vs[1..]);
      assert RecordText(vs[0]) == "" <==> vs[0].stat.None?;
      assert forall v :: v in vs <==> v == vs[0] || v in vs[1..];
    }
  }
}
