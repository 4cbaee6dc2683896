/** Small string vocabulary shared by the two archivers: prefix and suffix
    tests (JavaScript's `startsWith` and regex `…$` anchors), character
    repetition, and the line terminators a JavaScript regex `.` refuses. */
module Strings {

  /** `s.startsWith(p)` */
  predicate StartsWith(s: string, p: string) {
    |p| <= |s| && s[..|p|] == p
  }

  /** `s` ends with `p`: what an end-anchored literal regex tests. */
  predicate EndsWith(s: string, p: string) {
    |p| <= |s| && s[|s| - |p|..] == p
  }

  /** `p` occurs in `s` starting at index `i`. */
  predicate OccursAt(s: string, p: string, i: int) {
    0 <= i && i + |p| <= |s| && s[i..i + |p|] == p
  }

  /** The characters a JavaScript regex `.` does not match (without the `s` flag). */
  predicate IsLineTerminator(c: char) {
    c == '\n' || c == '\r' || c == '\U{2028}' || c == '\U{2029}'
  }

  /** No line terminator in `s[lo..hi]`: `.*` can consume exactly this span. */
  predicate LineFree(s: string, lo: int, hi: int)
    requires 0 <= lo <= hi <= |s|
  {
    forall j :: lo <= j < hi ==> !IsLineTerminator(s[j])
  }

  /** `c` repeated `n` times (`c.repeat(n)`). */
  function Repeat(c: char, n: nat): (r: string)
    ensures |r| == n
    ensures forall j :: 0 <= j < n ==> r[j] == c
  {
    if n == 0 then [] else Repeat(c, n - 1) + [c]
  }

  lemma StartsWithTransitive(a: string, b: string, c: string)
    requires StartsWith(a, b) && StartsWith(b, c)
    ensures StartsWith(a, c)
  {
    assert a[..|c|] == a[..|b|][..|c|];
  }

  lemma StartsWithAppend(a: string, b: string)
    ensures StartsWith(a + b, a)
  {
    assert (a + b)[..|a|] == a;
  }

  lemma EndsWithAppend(a: string, b: string)
    ensures EndsWith(a + b, b)
  {
    assert (a + b)[|a|..] == b;
  }

  lemma OccursInMiddle(x: string, p: string, y: string)
    ensures OccursAt(x + p + y, p, |x|)
  {
    assert (x + p + y)[|x|..|x| + |p|] == p;
  }

  /** An occurrence inside a prefix is an occurrence in the whole text. */
  lemma OccursInPrefix(s: string, pre: string, p: string, i: int)
    requires StartsWith(s, pre) && OccursAt(pre, p, i)
    ensures OccursAt(s, p, i)
  {
    assert s[i..i + |p|] == s[..|pre|][i..i + |p|];
  }

  /** An occurrence inside a suffix is an occurrence in the whole text,
      shifted by the length of what precedes the suffix. */
  lemma OccursInSuffix(s: string, suf: string, p: string, i: int)
    requires EndsWith(s, suf) && OccursAt(suf, p, i)
    ensures OccursAt(s, p, |s| - |suf| + i)
  {
    var k := |s| - |suf|;
    assert s[k + i..k + i + |p|] == s[k..][i..i + |p|];
  }

  /** A text laid out as a head, its fields, a body and a tail: head and
      fields open it, body and tail close it, and the body is exactly what
      lies between the fields and the tail. */
  lemma Layout(h: string, f: string, c: string, z: string)
    ensures var s := h + f + c + z;
      && |s| == |h| + |f| + |c| + |z|
      && StartsWith(s, h + f)
      && EndsWith(s, c + z)
      && s[|h| + |f|..|s| - |z|] == c
  {
    var s := h + f + c + z;
    assert s[..|h + f|] == h + f;
    assert s[|s| - |c + z|..] == c + z;
    assert s[|h| + |f|..|s| - |z|] == c;
  }

  /** Six lines written one after another: each sits right after the
      ones before it. */
  lemma SixLines(a: string, b: string, c: string, d: string, e: string, f: string)
    ensures var s := a + b + c + d + e + f;
      && |s| == |a| + |b| + |c| + |d| + |e| + |f|
      && StartsWith(s, a)
      && OccursAt(s, b, |a|)
      && OccursAt(s, c, |a| + |b|)
      && OccursAt(s, d, |a| + |b| + |c|)
      && OccursAt(s, e, |a| + |b| + |c| + |d|)
      && EndsWith(s, f)
  {
    var s := a + b + c + d + e + f;
    var i := |a| + |b| + |c| + |d|;
    assert s[..|a|] == a;
    assert s[|a|..|a| + |b|] == b;
    assert s[|a| + |b|..|a| + |b| + |c|] == c;
    assert s[|a| + |b| + |c|..i] == d;
    assert s[i..i + |e|] == e;
    assert s[|s| - |f|..] == f;
  }
  /** An occurrence of `p` inside an occurrence of `q` is an occurrence of
      `p` in the whole text. */
  lemma OccursWithin(s: string, q: string, i: int, p: string, j: int)
    requires OccursAt(s, q, i) && OccursAt(q, p, j)
    ensures OccursAt(s, p, i + j)
  {
    var w := s[i + j..i + j + |p|];
    assert forall t :: 0 <= t < |p| ==> w[t] == s[i..i + |q|][j + t] == q[j..j + |p|][t];
    assert w == p;
  }

  /** Something that occurs at `i` in the head of a text that starts
      with `h + f` occurs at `i` in the text. */
  lemma InHead(s: string, h: string, f: string, p: string, i: int)
    requires StartsWith(s, h + f) && OccursAt(h, p, i)
    ensures OccursAt(s, p, i)
  {
    assert s[i..i + |p|] == (h + f)[i..i + |p|] == h[i..i + |p|];
  }

  /** Something that occurs at `k` in the fields of a text that starts
      with `h + f` occurs at `at`, the same place shifted by the head. */
  lemma InFields(s: string, h: string, f: string, p: string, k: int, at: int)
    requires StartsWith(s, h + f) && OccursAt(f, p, k) && at == |h| + k
    ensures OccursAt(s, p, at)
  {
    assert s[at..at + |p|] == (h + f)[at..at + |p|] == f[k..k + |p|];
  }

  /** Something that occurs at `j` in the tail of a text that ends with
      `c + z` occurs at `at`, the same place shifted by everything before
      the tail. */
  lemma InTail(s: string, c: string, z: string, p: string, j: int, at: int)
    requires EndsWith(s, c + z) && OccursAt(z, p, j) && at == |s| - |z| + j
    ensures OccursAt(s, p, at)
  {
    var k := |s| - |c + z|;
    assert s[at..at + |p|] == s[k..][|c| + j..|c| + j + |p|] == (c + z)[|c| + j..|c| + j + |p|] == z[j..j + |p|];
  }
}
