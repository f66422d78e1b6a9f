/**
  Field extraction from the HTML table held in a GeoJSON feature's `Description`
  property. Both importers look a field up with the regular expression
      <th>FIELD</th>\s*<td>([^<]*)</td>
  and `re.search`: the leftmost position where the pattern matches wins, and the
  captured group is the value; no match gives the empty string.

  The regex is modelled in two independent ways:
  - `Occurrence` says declaratively what a match is: a header cell, some
    whitespace `w`, an opening data cell, a text `v` without `<`, and a closing cell;
  - `CaptureAt` computes the group the way the backtracking engine ends up with
    it: both `\s*` and `[^<]*` are greedy and are followed by a literal `<`, which
    neither class contains, so only their longest runs can lead to a match.
  `CaptureAtIsOccurrence` proves the two agree, and `Extract` is then stated
  against `Occurrence`. Field names are plain upper-case words and underscores,
  so they are matched literally.
*/
module HtmlExtract {
  import opened Wrappers
  import opened Chars

  /** The character class `[^<]`. */
  predicate IsCellText(c: char) {
    c != '<'
  }

  function HeaderCell(field: string): string {
    "<th>" + field + "</th>"
  }

  const CellOpen: string := "<td>"
  const CellClose: string := "</td>"

  /** `p` occurs in `s` starting at index `i`. */
  predicate HasAt(s: string, p: string, i: int) {
    0 <= i && i + |p| <= |s| && s[i..i + |p|] == p
  }

  predicate AllSpace(w: string) {
    forall k :: 0 <= k < |w| ==> IsSpace(w[k])
  }

  predicate AllCellText(v: string) {
    forall k :: 0 <= k < |v| ==> IsCellText(v[k])
  }

  /** The pattern for `field` matches at index `i` of `s`, with `w` matched by `\s*` and `v` captured. */
  predicate Occurrence(s: string, field: string, i: int, w: string, v: string) {
    && AllSpace(w)
    && AllCellText(v)
    && HasAt(s, HeaderCell(field) + w + CellOpen + v + CellClose, i)
  }

  /** A match at `i` with no match at any index to its left: the one `re.search` reports. */
  ghost predicate LeftmostOccurrence(s: string, field: string, i: int, w: string, v: string) {
    && Occurrence(s, field, i, w, v)
    && forall j, w', v' :: 0 <= j < i ==> !Occurrence(s, field, j, w', v')
  }

  /** Length of the longest run of `member` characters in `s` from index `i` on. */
  function Span(s: string, i: nat, member: char -> bool): (n: nat)
    requires i <= |s|
    ensures i + n <= |s|
    ensures forall k :: i <= k < i + n ==> member(s[k])
    ensures i + n == |s| || !member(s[i + n])
    decreases |s| - i
  {
    if i == |s| || !member(s[i]) then 0 else 1 + Span(s, i + 1, member)
  }

  /** Index just past the greedy `\s*` started at index `j`. */
  function SkipSpace(s: string, j: nat): (k: nat)
    requires j <= |s|
    ensures j <= k <= |s|
  {
    j + Span(s, j, IsSpace)
  }

  /** `<td>([^<]*)</td>` tried at index `k`: the group, if the cell is there. */
  function CellAt(s: string, k: nat): Option<string>
    requires k <= |s|
  {
    if !HasAt(s, CellOpen, k) then None
    else
      var start := k + |CellOpen|;
      var end := start + Span(s, start, IsCellText);
      if HasAt(s, CellClose, end) then Some(s[start..end]) else None
  }

  /** The group the pattern captures when matching is attempted at index `i`, if it matches there. */
  function CaptureAt(s: string, field: string, i: nat): Option<string>
    requires i <= |s|
  {
    var h := HeaderCell(field);
    if !HasAt(s, h, i) then None else CellAt(s, SkipSpace(s, i + |h|))
  }

  /** `re.search`: the leftmost index from `i` on at which the pattern matches. */
  function SearchFrom(s: string, field: string, i: nat): (r: Option<nat>)
    requires i <= |s|
    ensures r.Some? ==> i <= r.value <= |s| && CaptureAt(s, field, r.value).Some?
    ensures r.Some? ==> forall j :: i <= j < r.value ==> CaptureAt(s, field, j).None?
    ensures r.None? ==> forall j :: i <= j <= |s| ==> CaptureAt(s, field, j).None?
    decreases |s| - i
  {
    if CaptureAt(s, field, i).Some? then Some(i)
    else if i == |s| then None
    else SearchFrom(s, field, i + 1)
  }

  /** `extract_from_description(desc_html, field_name)`: the captured value of the leftmost match, or `''`. */
  function Extract(desc: string, field: string): string {
    match SearchFrom(desc, field, 0)
    case Some(i) => CaptureAt(desc, field, i).value
    case None => ""
  }

  lemma HasAtConcat(s: string, a: string, b: string, i: int)
    ensures HasAt(s, a + b, i) <==> HasAt(s, a, i) && HasAt(s, b, i + |a|)
  {
    if 0 <= i && i + |a| + |b| <= |s| {
      assert s[i..i + |a| + |b|] == s[i..i + |a|] + s[i + |a|..i + |a| + |b|];
      if s[i..i + |a| + |b|] == a + b {
        assert s[i..i + |a|] == (a + b)[..|a|] == a;
        assert s[i + |a|..i + |a| + |b|] == (a + b)[|a|..] == b;
      }
    }
  }

  lemma HasAtConcat3(s: string, a: string, b: string, c: string, i: int)
    ensures HasAt(s, a + b + c, i) <==> HasAt(s, a, i) && HasAt(s, b, i + |a|) && HasAt(s, c, i + |a| + |b|)
  {
    HasAtConcat(s, a + b, c, i);
    HasAtConcat(s, a, b, i);
  }

  /** A match of the whole pattern is a header cell, then `w`, then the data cell. */
  lemma HasAtPattern(s: string, field: string, w: string, v: string, i: int)
    ensures var h := HeaderCell(field);
      HasAt(s, h + w + CellOpen + v + CellClose, i) <==>
        HasAt(s, h, i) && HasAt(s, w, i + |h|) && HasAt(s, CellOpen + v + CellClose, i + |h| + |w|)
  {
    var h := HeaderCell(field);
    assert h + w + CellOpen + v + CellClose == h + w + (CellOpen + v + CellClose);
    HasAtConcat3(s, h, w, CellOpen + v + CellClose, i);
  }

  lemma HasAtIndex(s: string, p: string, i: int, k: int)
    requires HasAt(s, p, i) && 0 <= k < |p|
    ensures s[i + k] == p[k]
  {
    assert s[i..i + |p|][k] == s[i + k];
  }

  /** A run whose end is not a `member` character is the longest run. */
  lemma SpanUnique(s: string, i: nat, member: char -> bool, n: nat)
    requires i + n <= |s|
    requires forall k :: i <= k < i + n ==> member(s[k])
    requires i + n == |s| || !member(s[i + n])
    ensures Span(s, i, member) == n
  {
  }

  /** The skipped characters are whitespace, and the next one is not. */
  lemma SkipSpaceSound(s: string, j: nat)
    requires j <= |s|
    ensures var w := s[j..SkipSpace(s, j)]; AllSpace(w) && HasAt(s, w, j)
  {
    var w := s[j..SkipSpace(s, j)];
    forall k | 0 <= k < |w| ensures IsSpace(w[k]) {
      assert w[k] == s[j + k];
    }
  }

  /** A whitespace run followed by a non-whitespace character is what `\s*` skips. */
  lemma SkipSpaceComplete(s: string, j: nat, w: string)
    requires HasAt(s, w, j) && AllSpace(w)
    requires j + |w| == |s| || !IsSpace(s[j + |w|])
    ensures SkipSpace(s, j) == j + |w|
  {
    forall k | j <= k < j + |w| ensures IsSpace(s[k]) {
      HasAtIndex(s, w, j, k - j);
    }
    SpanUnique(s, j, IsSpace, |w|);
  }

  lemma CellAtSound(s: string, k: nat, v: string)
    requires k <= |s| && CellAt(s, k) == Some(v)
    ensures AllCellText(v) && HasAt(s, CellOpen + v + CellClose, k)
  {
    var start := k + |CellOpen|;
    assert s[start..start + |v|] == v;
    forall m | 0 <= m < |v| ensures IsCellText(v[m]) {
      assert v[m] == s[start + m];
    }
    HasAtConcat3(s, CellOpen, v, CellClose, k);
  }

  lemma CellAtComplete(s: string, k: int, v: string)
    requires HasAt(s, CellOpen + v + CellClose, k) && AllCellText(v)
    ensures k <= |s| && CellAt(s, k) == Some(v)
  {
    HasAtConcat3(s, CellOpen, v, CellClose, k);
    var start := k + |CellOpen|;
    forall m | start <= m < start + |v| ensures IsCellText(s[m]) {
      HasAtIndex(s, v, start, m - start);
    }
    HasAtIndex(s, CellClose, start + |v|, 0);
    SpanUnique(s, start, IsCellText, |v|);
  }

  /** A computed capture is the group of a declarative match. */
  lemma CaptureAtSound(s: string, field: string, i: nat, v: string)
    requires i <= |s| && CaptureAt(s, field, i) == Some(v)
    ensures exists w :: Occurrence(s, field, i, w, v)
  {
    var h := HeaderCell(field);
    var j := i + |h|;
    var w := s[j..SkipSpace(s, j)];
    SkipSpaceSound(s, j);
    CellAtSound(s, SkipSpace(s, j), v);
    HasAtPattern(s, field, w, v, i);
    assert Occurrence(s, field, i, w, v);
  }

  /** A declarative match is found by the computation, with the same group. */
  lemma CaptureAtComplete(s: string, field: string, i: int, w: string, v: string)
    requires Occurrence(s, field, i, w, v)
    ensures i <= |s| && CaptureAt(s, field, i) == Some(v)
  {
    var h := HeaderCell(field);
    var j := i + |h|;
    HasAtPattern(s, field, w, v, i);
    HasAtIndex(s, CellOpen + v + CellClose, j + |w|, 0);
    SkipSpaceComplete(s, j, w);
    CellAtComplete(s, j + |w|, v);
  }

  /** The computed capture and the declarative match agree, in both directions. */
  lemma CaptureAtIsOccurrence(s: string, field: string, i: nat, v: string)
    requires i <= |s|
    ensures CaptureAt(s, field, i) == Some(v) <==> exists w :: Occurrence(s, field, i, w, v)
  {
    if CaptureAt(s, field, i) == Some(v) {
      CaptureAtSound(s, field, i, v);
    }
    if w :| Occurrence(s, field, i, w, v) {
      CaptureAtComplete(s, field, i, w, v);
    }
  }

  /** When nothing matches anywhere, the extracted value is `''`. */
  lemma ExtractNoMatch(desc: string, field: string)
    requires forall i, w, v :: !Occurrence(desc, field, i, w, v)
    ensures Extract(desc, field) == ""
  {
    match SearchFrom(desc, field, 0)
    case None =>
    case Some(i) =>
      CaptureAtIsOccurrence(desc, field, i, CaptureAt(desc, field, i).value);
  }

  /** The value of the leftmost match is the one returned, even when later matches exist. */
  lemma ExtractLeftmost(desc: string, field: string, i: int, w: string, v: string)
    requires LeftmostOccurrence(desc, field, i, w, v)
    ensures Extract(desc, field) == v
  {
    CaptureAtComplete(desc, field, i, w, v);
    match SearchFrom(desc, field, 0)
    case None =>
    case Some(k) =>
      if k < i {
        CaptureAtSound(desc, field, k, CaptureAt(desc, field, k).value);
      }
  }

  /**
    The returned value contains no `<`, and when it is not empty it stands
    between `<td>` and `</td>` in the input.
  */
  lemma ExtractIsCellText(desc: string, field: string)
    ensures AllCellText(Extract(desc, field))
    ensures Extract(desc, field) != "" ==> exists k :: HasAt(desc, CellOpen + Extract(desc, field) + CellClose, k)
  {
    match SearchFrom(desc, field, 0)
    case None =>
    case Some(i) =>
      var v := CaptureAt(desc, field, i).value;
      CaptureAtSound(desc, field, i, v);
      var w :| Occurrence(desc, field, i, w, v);
      var h := HeaderCell(field);
      HasAtPattern(desc, field, w, v, i);
      assert Extract(desc, field) == v;
      assert HasAt(desc, CellOpen + v + CellClose, i + |h| + |w|);
  }

  /** A non-empty returned value is the capture of the leftmost match. */
  lemma ExtractIsLeftmostCapture(desc: string, field: string)
    ensures Extract(desc, field) != "" ==> exists i, w :: LeftmostOccurrence(desc, field, i, w, Extract(desc, field))
  {
    match SearchFrom(desc, field, 0)
    case None =>
    case Some(i) =>
      var v := CaptureAt(desc, field, i).value;
      CaptureAtSound(desc, field, i, v);
      var w :| Occurrence(desc, field, i, w, v);
      forall j, w', v' | 0 <= j < i ensures !Occurrence(desc, field, j, w', v') {
        if Occurrence(desc, field, j, w', v') {
          CaptureAtComplete(desc, field, j, w', v');
        }
      }
      assert LeftmostOccurrence(desc, field, i, w, v);
  }
}
