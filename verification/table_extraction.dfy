/**
 * `extract_and_mark_html_tables`: every HTML table that starts on a new
 * line (after optional whitespace) is cut out of the Markdown, replaced by a
 * numbered marker, and collected into a side text of its own.
 *
 * The search is the regular expression `\n(\s*?)(<table>.*?</table>)` with
 * DOTALL, run by `finditer`; the replacement walks the matches backwards
 * and uses `str.replace`, so it acts on every occurrence of a match's text,
 * not just on the match itself.
 */
module TableExtraction {
  import opened Wrappers
  import opened Text

  const Open: string := "<table>"
  const Close: string := "</table>"
  /** The marker text up to the index: `TABLE_MARKER_TEMPLATE` without its `{}`. */
  const MarkerPrefix: string := "TIDOCS_REPLACE_TABLE_"

  /** `TABLE_MARKER_TEMPLATE.format(i)`. */
  function Marker(i: nat): (r: string)
    ensures |r| > |MarkerPrefix| && OccursAt(r, MarkerPrefix, 0)
  {
    MarkerPrefix + NatToString(i)
  }

  /**
   * One `finditer` match: where the `\n` is, group 1 (the whitespace),
   * group 2 (the table) and where the match ends.
   */
  datatype TableMatch = TableMatch(start: nat, ws: string, table: string, end: nat)

  /** Index of group 2 in the content. */
  function TableStart(m: TableMatch): int {
    m.end - |m.table|
  }

  /** The text `str.replace` looks for: `f"\n{whitespace}{table}"`. */
  function Needle(m: TableMatch): string {
    "\n" + m.ws + m.table
  }

  /** What it puts in its place: `f"\n{whitespace}{marker}"`. */
  function Replacement(m: TableMatch, i: nat): string {
    "\n" + m.ws + Marker(i)
  }

  /** One piece of the side text: `f"{marker}\n\n{table}\n\n"`. */
  function Entry(i: nat, table: string): string {
    Marker(i) + "\n\n" + table + "\n\n"
  }

  predicate AllSpace(s: string, i: nat, j: nat)
    requires i <= j <= |s|
  {
    forall k :: i <= k < j ==> IsSpace(s[k])
  }

  // --------------------------------------------------------------- scanner

  /**
   * Group 2 tried at index `q`: `<table>`, then `.*?` (DOTALL) up to the
   * first `</table>` after it. The result is where the match would end.
   */
  function TableAt(s: string, q: nat): (r: Option<nat>)
    ensures r.Some? ==> q + 15 <= r.value <= |s| && OccursAt(s, Open, q) && OccursAt(s, Close, r.value - 8)
  {
    if OccursAt(s, Open, q) then
      match Find(s, Close, q + 7)
      case None => None
      case Some(c) => Some(c + 8)
    else None
  }

  /**
   * The lazy group 1 from index `q`: group 2 is tried first; only when it
   * fails is one more whitespace character taken. The result is where
   * group 2 starts and where the match ends.
   */
  function WsTable(s: string, q: nat): (r: Option<(nat, nat)>)
    ensures r.Some? ==> q <= r.value.0 && TableAt(s, r.value.0) == Some(r.value.1)
    decreases |s| - q
  {
    match TableAt(s, q)
    case Some(e) => Some((q, e))
    case None => if q < |s| && IsSpace(s[q]) then WsTable(s, q + 1) else None
  }

  /** The whole pattern tried at index `p`. */
  function MatchAt(s: string, p: nat): (r: Option<TableMatch>)
    ensures r.Some? ==> r.value.start == p && p < r.value.end <= |s|
  {
    if p < |s| && s[p] == '\n' then
      match WsTable(s, p + 1)
      case None => None
      case Some(pos) => Some(TableMatch(p, s[p + 1..pos.0], s[pos.0..pos.1], pos.1))
    else None
  }

  /**
   * `finditer` from index `i`: a match resumes the search where it ends,
   * a failure at one index moves on to the next.
   */
  function FindIter(s: string, i: nat): seq<TableMatch>
    decreases |s| - i
  {
    if i >= |s| then []
    else
      match MatchAt(s, i)
      case Some(m) => [m] + FindIter(s, m.end)
      case None => FindIter(s, i + 1)
  }

  // ------------------------------------------------------ the marking loop

  /**
   * The loop over `reversed(tables)` with `j` tables still to go: table
   * `j - 1` gets marker `j - 1`, its entry is inserted at the front of the
   * side text, and every occurrence of its text is replaced.
   */
  function MarkLoop(tables: seq<TableMatch>, j: nat, extracted: seq<string>, modified: string): (seq<string>, string)
    requires j <= |tables|
  {
    if j == 0 then (extracted, modified)
    else
      var m := tables[j - 1];
      MarkLoop(tables, j - 1, [Entry(j - 1, m.table)] + extracted, ReplaceAll(modified, Needle(m), Replacement(m, j - 1)))
  }

  /** Python's `"".join(parts)`. */
  function Join(parts: seq<string>): string {
    if |parts| == 0 then "" else parts[0] + Join(parts[1..])
  }

  /** `extract_and_mark_html_tables(content)`: the marked content and the side text. */
  function ExtractAndMarkHtmlTables(content: string): (r: (string, string))
    ensures FindIter(content, 0) == [] ==> r == (content, "")
  {
    var tables := FindIter(content, 0);
    var (extracted, modified) := MarkLoop(tables, |tables|, [], content);
    (modified, Join(extracted))
  }

  // ------------------------------------------------- what a match looks like

  /**
   * The regular expression matches at `p` with group 2 at `a` and the
   * match ending at `e`, in any of the ways its quantifiers allow.
   */
  predicate IsTableMatch(s: string, p: nat, a: nat, e: nat) {
    && p < a <= e <= |s|
    && s[p] == '\n'
    && AllSpace(s, p + 1, a)
    && OccursAt(s, Open, a)
    && a + 7 <= e - 8
    && OccursAt(s, Close, e - 8)
  }

  /** A table as group 2 captures it: it opens and closes, and its only `</table>` is the last one. */
  predicate TableShape(t: string) {
    && |t| >= 15
    && OccursAt(t, Open, 0)
    && OccursAt(t, Close, |t| - 8)
    && forall k :: 0 <= k < |t| - 8 ==> !OccursAt(t, Close, k)
  }

  /** Group 2 at `q` ends at the first `</table>` after the opening tag. */
  lemma TableAtFirst(s: string, q: nat)
    ensures TableAt(s, q).Some? ==> forall k :: q + 7 <= k < TableAt(s, q).value - 8 ==> !OccursAt(s, Close, k)
    ensures TableAt(s, q).None? ==> forall e :: !IsCloseAfter(s, q, e)
  {
    FindFirst(s, Close, q + 7);
  }

  /** An opening tag at `q` and a closing tag ending at `e` after it. */
  predicate IsCloseAfter(s: string, q: nat, e: nat) {
    OccursAt(s, Open, q) && q + 7 <= e - 8 && OccursAt(s, Close, e - 8)
  }

  /** Where the lazy whitespace group stops: group 2 failed at every earlier index, all of them whitespace. */
  lemma WsTableFirst(s: string, q: nat)
    requires q <= |s|
    ensures WsTable(s, q).Some? ==>
              var a := WsTable(s, q).value.0;
              a <= |s| && AllSpace(s, q, a) && forall k :: q <= k < a ==> TableAt(s, k).None?
    ensures WsTable(s, q).None? ==> forall a :: q <= a <= |s| && AllSpace(s, q, a) ==> TableAt(s, a).None?
  {
    if WsTable(s, q).Some? {
      WsTableFound(s, q, WsTable(s, q).value.0);
    } else {
      WsTableNone(s, q);
    }
  }

  lemma {:induction false} WsTableFound(s: string, q: nat, a: nat)
    requires q <= |s| && WsTable(s, q).Some? && WsTable(s, q).value.0 == a
    ensures a <= |s| && AllSpace(s, q, a) && forall k :: q <= k < a ==> TableAt(s, k).None?
    decreases |s| - q
  {
    if q < a {
      assert TableAt(s, q).None? && IsSpace(s[q]);
      WsTableFound(s, q + 1, a);
    }
  }

  lemma {:induction false} WsTableNone(s: string, q: nat)
    requires q <= |s| && WsTable(s, q).None?
    ensures forall a :: q <= a <= |s| && AllSpace(s, q, a) ==> TableAt(s, a).None?
    decreases |s| - q
  {
    if q < |s| && IsSpace(s[q]) {
      WsTableNone(s, q + 1);
      forall a | q < a <= |s| && AllSpace(s, q, a) ensures AllSpace(s, q + 1, a) {}
    }
  }

  /** `<table>` cannot start at a whitespace character. */
  lemma OpenNotAtSpace(s: string, a: nat)
    requires a < |s|
    ensures OccursAt(s, Open, a) ==> !IsSpace(s[a])
  {
    if OccursAt(s, Open, a) {
      assert s[a] == s[a..a + 7][0];
    }
  }

  /**
   * `MatchAt` is the regular expression's own match at `p`: a way the
   * pattern matches there, with group 1 the whole whitespace run before
   * the tag and group 2 ending at the first `</table>`; and when it finds
   * none, the pattern has no match at `p`.
   */
  lemma MatchAtIsTheMatch(s: string, p: nat)
    ensures MatchAt(s, p).Some? ==>
              var m := MatchAt(s, p).value;
              && IsTableMatch(s, p, TableStart(m), m.end)
              && m.ws == s[p + 1..TableStart(m)] && m.table == s[TableStart(m)..m.end]
              && forall a, e :: IsTableMatch(s, p, a, e) ==> a == TableStart(m) && m.end <= e
    ensures MatchAt(s, p).None? ==> forall a, e :: !IsTableMatch(s, p, a, e)
  {
    if MatchAt(s, p).Some? {
      MatchAtFound(s, p);
    } else {
      MatchAtNone(s, p);
    }
  }

  lemma MatchAtFound(s: string, p: nat)
    requires MatchAt(s, p).Some?
    ensures var m := MatchAt(s, p).value;
            && IsTableMatch(s, p, TableStart(m), m.end)
            && m.ws == s[p + 1..TableStart(m)] && m.table == s[TableStart(m)..m.end]
            && forall a, e :: IsTableMatch(s, p, a, e) ==> a == TableStart(m) && m.end <= e
  {
    var m := MatchAt(s, p).value;
    var pos := WsTable(s, p + 1).value;
    assert TableStart(m) == pos.0;
    WsTableFirst(s, p + 1);
    TableAtFirst(s, pos.0);
    forall a, e | IsTableMatch(s, p, a, e) ensures a == pos.0 && m.end <= e {
      CandidateIsFirst(s, p, pos.0, m.end, a, e);
    }
  }

  lemma MatchAtNone(s: string, p: nat)
    requires MatchAt(s, p).None?
    ensures forall a, e :: !IsTableMatch(s, p, a, e)
  {
    if p < |s| && s[p] == '\n' {
      WsTableFirst(s, p + 1);
      assert WsTable(s, p + 1).None?;
      forall a, e | IsTableMatch(s, p, a, e) ensures false {
        assert TableAt(s, a).None?;
        TableAtFirst(s, a);
        assert IsCloseAfter(s, a, e);
      }
    }
  }

  /** Any candidate match has group 2 where the lazy scan puts it, and ends no earlier. */
  lemma CandidateIsFirst(s: string, p: nat, a: nat, e: nat, a': nat, e': nat)
    requires p + 1 <= a <= |s| && AllSpace(s, p + 1, a)
    requires forall k :: p + 1 <= k < a ==> TableAt(s, k).None?
    requires TableAt(s, a) == Some(e)
    requires forall k :: a + 7 <= k < e - 8 ==> !OccursAt(s, Close, k)
    requires IsTableMatch(s, p, a', e')
    ensures a' == a && e <= e'
  {
    TableAtFirst(s, a');
    assert IsCloseAfter(s, a', e');
    OpenNotAtSpace(s, a);
  }
}

/** Where the matches sit in the content, and what the backwards loop does with them. */
module TableLayout {
  import opened Wrappers
  import opened Text
  import opened TableExtraction

  /** A match as `finditer` reports it: its text is `\n`, whitespace, then a table. */
  predicate WellPlaced(s: string, m: TableMatch) {
    && m.start + 1 + |m.ws| + |m.table| == m.end <= |s|
    && s[m.start..m.end] == Needle(m)
    && (forall k :: 0 <= k < |m.ws| ==> IsSpace(m.ws[k]))
    && TableShape(m.table)
  }

  /** Every match well placed, each one ending before the next begins. */
  predicate Layout(s: string, tables: seq<TableMatch>) {
    && (forall i :: 0 <= i < |tables| ==> WellPlaced(s, tables[i]))
    && (forall i :: 0 < i < |tables| ==> tables[i - 1].end <= tables[i].start)
  }

  /** A match found at `p` is well placed. */
  lemma MatchAtPlaced(s: string, p: nat)
    requires MatchAt(s, p).Some?
    ensures WellPlaced(s, MatchAt(s, p).value)
  {
    var m := MatchAt(s, p).value;
    MatchAtParts(s, p, m);
    var a := TableStart(m);
    NeedleSlices(s, p, a, m.end);
    TableAtFirst(s, a);
    TableShapeOf(s, a, m.end);
  }

  lemma SpaceSlice(s: string, i: nat, j: nat)
    requires i <= j <= |s| && AllSpace(s, i, j)
    ensures forall k :: 0 <= k < |s[i..j]| ==> IsSpace(s[i..j][k])
  {
  }

  lemma MatchAtParts(s: string, p: nat, m: TableMatch)
    requires MatchAt(s, p) == Some(m)
    ensures p < TableStart(m) && s[p] == '\n'
    ensures TableAt(s, TableStart(m)) == Some(m.end)
    ensures m.ws == s[p + 1..TableStart(m)] && m.table == s[TableStart(m)..m.end]
    ensures forall k :: 0 <= k < |m.ws| ==> IsSpace(m.ws[k])
  {
    var pos := WsTable(s, p + 1).value;
    assert m.ws == s[p + 1..pos.0] && m.table == s[pos.0..pos.1] && m.end == pos.1;
    assert TableStart(m) == pos.0;
    WsTableFound(s, p + 1, pos.0);
    SpaceSlice(s, p + 1, pos.0);
  }

  lemma NeedleSlices(s: string, p: nat, a: nat, e: nat)
    requires p < a <= e <= |s| && s[p] == '\n'
    ensures s[p..e] == "\n" + s[p + 1..a] + s[a..e]
  {
    assert s[p..e] == s[p..p + 1] + s[p + 1..a] + s[a..e];
  }

  /** The window `s[a..e]` between an opening tag and the first closing tag after it is a table. */
  lemma TableShapeOf(s: string, a: nat, e: nat)
    requires a + 15 <= e <= |s| && OccursAt(s, Open, a) && OccursAt(s, Close, e - 8)
    requires forall k :: a + 7 <= k < e - 8 ==> !OccursAt(s, Close, k)
    ensures TableShape(s[a..e])
  {
    var t := s[a..e];
    OccursAtSlice(s, Open, a, e, 0);
    OccursAtSlice(s, Close, a, e, |t| - 8);
    forall k | 0 <= k < |t| - 8 ensures !OccursAt(t, Close, k) {
      OccursAtSlice(s, Close, a, e, k);
      if k < 7 {
        OpenIsNotClose(s, a, a + k);
      }
    }
  }

  /** A closing tag cannot begin inside an opening tag. */
  lemma OpenIsNotClose(s: string, a: nat, k: nat)
    requires OccursAt(s, Open, a) && a <= k < a + 7
    ensures !OccursAt(s, Close, k)
  {
    assert s[k] == s[a..a + 7][k - a];
    assert k == a ==> s[k + 1] == s[a..a + 7][1];
  }

  /** The matches of `finditer` from `i` lie, in order, at or after `i`. */
  lemma {:induction false} FindIterLayout(s: string, i: nat)
    ensures Layout(s, FindIter(s, i))
    ensures forall k :: 0 <= k < |FindIter(s, i)| ==> i <= FindIter(s, i)[k].start
    decreases |s| - i
  {
    if i < |s| {
      match MatchAt(s, i)
      case Some(m) =>
        FindIterLayout(s, m.end);
        MatchAtPlaced(s, i);
        LayoutCons(s, m, FindIter(s, m.end));
      case None =>
        FindIterLayout(s, i + 1);
    }
  }

  lemma LayoutCons(s: string, m: TableMatch, rest: seq<TableMatch>)
    requires WellPlaced(s, m) && Layout(s, rest)
    requires forall k :: 0 <= k < |rest| ==> m.end <= rest[k].start
    ensures Layout(s, [m] + rest)
  {
    var t := [m] + rest;
    forall i | 0 < i < |t| ensures t[i - 1].end <= t[i].start {
      if i > 1 {
        assert t[i - 1] == rest[i - 2] && t[i] == rest[i - 1];
      }
    }
  }

  // ------------------------------------------------------------ side text

  /** The side text's pieces in table order: entry `k` for table `k`. */
  function Entries(tables: seq<TableMatch>, j: nat): seq<string>
    requires j <= |tables|
  {
    if j == 0 then [] else Entries(tables, j - 1) + [Entry(j - 1, tables[j - 1].table)]
  }

  lemma {:induction false} EntriesAt(tables: seq<TableMatch>, j: nat)
    requires j <= |tables|
    ensures |Entries(tables, j)| == j
    ensures forall k :: 0 <= k < j ==> Entries(tables, j)[k] == Entry(k, tables[k].table)
  {
    if j > 0 {
      EntriesAt(tables, j - 1);
    }
  }

  /** Inserting at the front while walking backwards lays the entries out forwards. */
  lemma {:induction false} MarkLoopEntries(tables: seq<TableMatch>, j: nat, acc: seq<string>, modified: string)
    requires j <= |tables|
    ensures MarkLoop(tables, j, acc, modified).0 == Entries(tables, j) + acc
  {
    if j > 0 {
      var m := tables[j - 1];
      var next := ReplaceAll(modified, Needle(m), Replacement(m, j - 1));
      MarkLoopEntries(tables, j - 1, [Entry(j - 1, m.table)] + acc, next);
      assert Entries(tables, j - 1) + ([Entry(j - 1, m.table)] + acc) == Entries(tables, j) + acc;
    }
  }

  /**
   * The side text is entry 0, then entry 1, and so on: each table under
   * its own marker, in the order the tables appear.
   */
  lemma SideTextInOrder(content: string)
    ensures var tables := FindIter(content, 0);
            ExtractAndMarkHtmlTables(content).1 == Join(Entries(tables, |tables|))
  {
    var tables := FindIter(content, 0);
    MarkLoopEntries(tables, |tables|, [], content);
    assert Entries(tables, |tables|) + [] == Entries(tables, |tables|);
  }
}

/**
 * What the backwards loop of `str.replace` calls amounts to when each
 * match's text occurs in the content only at that match and the content
 * never contains the marker text: every table is replaced in place by its
 * own marker, and putting the tables back gives the content again.
 */
module TableRoundTrip {
  import opened Wrappers
  import opened Text
  import opened TableExtraction
  import opened TableLayout

  /** The content never contains the marker text. */
  ghost predicate NoMarkerText(content: string) {
    forall i :: !OccursAt(content, MarkerPrefix, i)
  }

  /** The text of match `m` occurs in the content only at `m` itself. */
  ghost predicate OccursOnlyAtMatch(content: string, m: TableMatch) {
    forall q :: OccursAt(content, Needle(m), q) ==> q == m.start
  }

  /** Where group 2 of table `j` starts, or the end of the content past the last table. */
  function Bound(content: string, tables: seq<TableMatch>, j: nat): int
    requires j <= |tables|
  {
    if j < |tables| then TableStart(tables[j]) else |content|
  }

  /**
   * The content from index `from` on, with each of tables `j..` replaced by
   * its marker (or, with `putBack`, by the table itself) at its own place.
   */
  function Splice(content: string, tables: seq<TableMatch>, j: nat, from: nat, putBack: bool): string
    requires Layout(content, tables) && j <= |tables| && from <= Bound(content, tables, j)
    decreases |tables| - j
  {
    if j == |tables| then content[from..]
    else
      var m := tables[j];
      assert WellPlaced(content, m);
      assert j + 1 < |tables| ==> m.end <= tables[j + 1].start;
      content[from..TableStart(m)] + (if putBack then m.table else Marker(j)) + Splice(content, tables, j + 1, m.end, putBack)
  }

  /** The content with every table `finditer` finds replaced in place by its marker, or put back. */
  function InPlace(content: string, putBack: bool): string {
    FindIterLayout(content, 0);
    Splice(content, FindIter(content, 0), 0, 0, putBack)
  }

  /** The two halves of a match's text in the content. */
  lemma NeedleParts(content: string, m: TableMatch)
    requires WellPlaced(content, m)
    ensures content[m.start..TableStart(m)] == "\n" + m.ws
    ensures content[TableStart(m)..m.end] == m.table
  {
    var a := TableStart(m);
    assert content[m.start..m.end][..a - m.start] == content[m.start..a];
    assert content[m.start..m.end][a - m.start..] == content[a..m.end];
  }

  /** `Splice` from `from` is the content up to `mid` followed by `Splice` from `mid`. */
  lemma SpliceSplit(content: string, tables: seq<TableMatch>, j: nat, from: nat, mid: nat, putBack: bool)
    requires Layout(content, tables) && j <= |tables| && from <= mid <= Bound(content, tables, j)
    ensures Splice(content, tables, j, from, putBack) == content[from..mid] + Splice(content, tables, j, mid, putBack)
  {
    if j == |tables| {
      assert content[from..] == content[from..mid] + content[mid..];
    } else {
      SpliceSplitAt(content, tables, j, from, mid, putBack);
    }
  }

  lemma SpliceSplitAt(content: string, tables: seq<TableMatch>, j: nat, from: nat, mid: nat, putBack: bool)
    requires Layout(content, tables) && j < |tables| && from <= mid <= TableStart(tables[j])
    ensures Splice(content, tables, j, from, putBack) == content[from..mid] + Splice(content, tables, j, mid, putBack)
  {
    var m := tables[j];
    var a := TableStart(m);
    assert WellPlaced(content, m);
    assert j + 1 < |tables| ==> m.end <= tables[j + 1].start;
    var piece := if putBack then m.table else Marker(j);
    var rest := Splice(content, tables, j + 1, m.end, putBack);
    assert content[from..a] == content[from..mid] + content[mid..a];
    Assoc4(content[from..mid], content[mid..a], piece, rest);
  }

  lemma Assoc4<T>(p: seq<T>, q: seq<T>, r: seq<T>, s: seq<T>)
    ensures p + q + r + s == p + (q + r + s)
  {
  }

  /** Putting every table back where its marker went gives the content again. */
  lemma {:induction false} SplicePutBack(content: string, tables: seq<TableMatch>, j: nat, from: nat)
    requires Layout(content, tables) && j <= |tables| && from <= Bound(content, tables, j)
    ensures Splice(content, tables, j, from, true) == content[from..]
    decreases |tables| - j
  {
    if j < |tables| {
      var m := tables[j];
      assert WellPlaced(content, m);
      assert j + 1 < |tables| ==> m.end <= tables[j + 1].start;
      SplicePutBack(content, tables, j + 1, m.end);
      NeedleParts(content, m);
      assert content[from..TableStart(m)] + content[TableStart(m)..m.end] + content[m.end..] == content[from..];
    }
  }

  /** A marker holds neither a line break nor a `>`. */
  lemma MarkerChars(i: nat)
    ensures forall k :: 0 <= k < |Marker(i)| ==> Marker(i)[k] != '\n' && Marker(i)[k] != '>'
  {
    var d := NatToString(i);
    forall k | 0 <= k < |Marker(i)| ensures Marker(i)[k] != '\n' && Marker(i)[k] != '>' {
      if k >= |MarkerPrefix| {
        assert Marker(i)[k] == d[k - |MarkerPrefix|];
      }
    }
  }

  /** What the loop looks for: a line break first, a `>` last, and no marker text inside. */
  ghost predicate NeedleLike(n: string) {
    && |n| > 0 && n[0] == '\n' && n[|n| - 1] == '>'
    && forall d :: !OccursAt(n, MarkerPrefix, d)
  }

  lemma NeedleIsNeedleLike(content: string, m: TableMatch)
    requires WellPlaced(content, m) && NoMarkerText(content)
    ensures NeedleLike(Needle(m))
  {
    var n := Needle(m);
    assert m.table[|m.table| - 1] == m.table[|m.table| - 8..][7];
    assert n[|n| - 1] == m.table[|m.table| - 1];
    forall d ensures !OccursAt(n, MarkerPrefix, d) {
      OccursAtTransIf(content, n, MarkerPrefix, m.start, d);
    }
  }

  /** The part of a marked-up text that is a marker is all marker, so it cannot hold marker text. */
  lemma NotInsideMarker(n: string, mk: string, d: int)
    requires OccursAt(mk, MarkerPrefix, 0) && forall e :: !OccursAt(n, MarkerPrefix, e)
    ensures !OccursAt(n, mk, d)
  {
    OccursAtTransIf(n, mk, MarkerPrefix, d, 0);
  }

  /** An occurrence that reaches over all of `mk` contains it. */
  lemma Spans(c: string, mk: string, y: string, n: string, q: int)
    requires OccursAt(c + mk + y, n, q)
    ensures q <= |c| && |c| + |mk| <= q + |n| ==> OccursAt(n, mk, |c| - q)
  {
    if q <= |c| && |c| + |mk| <= q + |n| {
      var x := c + mk + y;
      var d := |c| - q;
      forall k | 0 <= k < |mk| ensures n[d + k] == mk[k] {
        assert n[d + k] == x[q..q + |n|][d + k];
      }
      assert n[d..d + |mk|] == mk;
    }
  }

  /**
   * A needle-like text found in `c + mk + y`, with `mk` a marker, lies
   * wholly inside `c` or wholly inside `y`.
   */
  lemma Straddle(c: string, mk: string, y: string, n: string, q: int)
    requires OccursAt(c + mk + y, n, q) && NeedleLike(n)
    requires OccursAt(mk, MarkerPrefix, 0)
    requires forall k :: 0 <= k < |mk| ==> mk[k] != '\n' && mk[k] != '>'
    ensures q + |n| <= |c| || |c| + |mk| <= q
  {
    var x := c + mk + y;
    assert x[q] == x[q..q + |n|][0];
    assert x[q + |n| - 1] == x[q..q + |n|][|n| - 1];
    Spans(c, mk, y, n, q);
    NotInsideMarker(n, mk, |c| - q);
  }

  /**
   * A needle-like text found in the content up to `from` followed by the
   * marked-up rest is found in the content itself: at the same place, or
   * somewhere from `from` on.
   */
  lemma {:induction false} FoundInContent(content: string, tables: seq<TableMatch>, j: nat, lo: nat, from: nat, n: string, q: int)
    requires Layout(content, tables) && j <= |tables| && lo <= from <= Bound(content, tables, j)
    requires NeedleLike(n)
    requires OccursAt(content[lo..from] + Splice(content, tables, j, from, false), n, q)
    ensures exists q' :: OccursAt(content, n, q') && (q' == lo + q || from <= q')
    decreases |tables| - j, 1
  {
    if j == |tables| {
      assert content[lo..from] + content[from..] == content[lo..];
      OccursAtShift(content, n, lo, q);
      assert OccursAt(content, n, lo + q);
    } else {
      FoundAroundTable(content, tables, j, lo, from, n, q);
    }
  }

  /** The marked-up text around table `j`: the content up to it, its marker, the marked-up rest. */
  lemma SpliceAtTable(content: string, tables: seq<TableMatch>, j: nat, lo: nat, from: nat) returns (y: string)
    requires Layout(content, tables) && j < |tables| && lo <= from <= TableStart(tables[j])
    ensures tables[j].end <= Bound(content, tables, j + 1) && 0 <= TableStart(tables[j]) <= |content|
    ensures y == Splice(content, tables, j + 1, tables[j].end, false)
    ensures content[lo..from] + Splice(content, tables, j, from, false) == content[lo..TableStart(tables[j])] + Marker(j) + y
  {
    var m := tables[j];
    var a := TableStart(m);
    assert WellPlaced(content, m);
    assert j + 1 < |tables| ==> m.end <= tables[j + 1].start;
    y := Splice(content, tables, j + 1, m.end, false);
    assert content[lo..from] + content[from..a] == content[lo..a];
    Assoc4(content[lo..from], content[from..a], Marker(j), y);
  }

  /** The case of `FoundInContent` with table `j` still ahead: the occurrence is before its marker or after it. */
  lemma {:induction false} FoundAroundTable(content: string, tables: seq<TableMatch>, j: nat, lo: nat, from: nat, n: string, q: int)
    requires Layout(content, tables) && j < |tables| && lo <= from <= TableStart(tables[j])
    requires NeedleLike(n)
    requires OccursAt(content[lo..from] + Splice(content, tables, j, from, false), n, q)
    ensures exists q' :: OccursAt(content, n, q') && (q' == lo + q || from <= q')
    decreases |tables| - j, 0
  {
    var m := tables[j];
    var a := TableStart(m);
    var mk := Marker(j);
    var y := SpliceAtTable(content, tables, j, lo, from);
    var c := content[lo..a];
    MarkerChars(j);
    Straddle(c, mk, y, n, q);
    if q + |n| <= |c| {
      OccursInLeft(c, mk + y, n, q);
      OccursAtSlice(content, n, lo, a, q);
      assert OccursAt(content, n, lo + q);
    } else {
      InMarkedRest(content, tables, j, c, mk, y, n, q);
    }
  }

  /** The case of `FoundInContent` where the occurrence lies after table `j`'s marker. */
  lemma {:induction false} InMarkedRest(content: string, tables: seq<TableMatch>, j: nat, c: string, mk: string, y: string, n: string, q: int)
    requires Layout(content, tables) && j < |tables| && NeedleLike(n)
    requires tables[j].end <= Bound(content, tables, j + 1)
    requires y == Splice(content, tables, j + 1, tables[j].end, false)
    requires OccursAt(c + mk + y, n, q) && |c| + |mk| <= q
    ensures exists q' :: OccursAt(content, n, q') && tables[j].end <= q'
    decreases |tables| - j - 1, 2
  {
    var e := tables[j].end;
    OccursInRight(c + mk, y, n, q);
    assert content[e..e] + y == y;
    FoundInContent(content, tables, j + 1, e, e, n, q - |c + mk|);
  }

  // ------------------------------------------------------------ the loop

  /** Before one step of the loop for table `j - 1`: its needle sits between `pre` and `post`. */
  lemma StepBefore(content: string, tables: seq<TableMatch>, j: nat) returns (pre: string, post: string)
    requires Layout(content, tables) && 0 < j <= |tables|
    ensures 0 <= Bound(content, tables, j) && tables[j - 1].end <= Bound(content, tables, j)
    ensures pre == content[..tables[j - 1].start]
    ensures post == Splice(content, tables, j, tables[j - 1].end, false)
    ensures content[0..tables[j - 1].end] + post == pre + Needle(tables[j - 1]) + post
    ensures Splice(content, tables, j, 0, false) == pre + Needle(tables[j - 1]) + post
  {
    var m := tables[j - 1];
    assert WellPlaced(content, m);
    assert j < |tables| ==> m.end <= tables[j].start && WellPlaced(content, tables[j]);
    post := Splice(content, tables, j, m.end, false);
    SpliceSplit(content, tables, j, 0, m.end, false);
    pre := content[..m.start];
    PrefixThroughMatch(content, m);
  }

  /** The content up to a match's end is the content up to its start followed by its text. */
  lemma PrefixThroughMatch(content: string, m: TableMatch)
    requires WellPlaced(content, m)
    ensures content[0..m.end] == content[..m.start] + Needle(m)
  {
    assert content[0..m.end] == content[..m.start] + content[m.start..m.end];
  }

  /** After that step: its replacement sits between the same `pre` and `post`. */
  lemma StepAfter(content: string, tables: seq<TableMatch>, j: nat, pre: string, post: string)
    requires Layout(content, tables) && 0 < j <= |tables|
    requires tables[j - 1].end <= Bound(content, tables, j)
    requires pre == content[..tables[j - 1].start]
    requires post == Splice(content, tables, j, tables[j - 1].end, false)
    ensures 0 <= Bound(content, tables, j - 1)
    ensures Splice(content, tables, j - 1, 0, false) == pre + Replacement(tables[j - 1], j - 1) + post
  {
    var m := tables[j - 1];
    assert WellPlaced(content, m);
    var y := SpliceAtTable(content, tables, j - 1, 0, 0);
    var whole := Splice(content, tables, j - 1, 0, false);
    assert content[0..0] + whole == whole;
    PrefixBeforeTable(content, m);
    Assoc4(pre, "\n" + m.ws, Marker(j - 1), y);
  }

  /** The content up to a match's table is the content up to the match, a line break and its whitespace. */
  lemma PrefixBeforeTable(content: string, m: TableMatch)
    requires WellPlaced(content, m)
    ensures content[0..TableStart(m)] == content[..m.start] + ("\n" + m.ws)
  {
    NeedleParts(content, m);
    assert content[0..TableStart(m)] == content[..m.start] + content[m.start..TableStart(m)];
  }

  /** One step of the loop replaces table `j - 1` in place when its text occurs nowhere else. */
  lemma MarkStep(content: string, tables: seq<TableMatch>, j: nat)
    requires Layout(content, tables) && 0 < j <= |tables|
    requires NoMarkerText(content) && OccursOnlyAtMatch(content, tables[j - 1])
    ensures 0 <= Bound(content, tables, j) && 0 <= Bound(content, tables, j - 1)
    ensures ReplaceAll(Splice(content, tables, j, 0, false), Needle(tables[j - 1]), Replacement(tables[j - 1], j - 1))
            == Splice(content, tables, j - 1, 0, false)
  {
    var m := tables[j - 1];
    var n := Needle(m);
    var pre, post := StepBefore(content, tables, j);
    StepAfter(content, tables, j, pre, post);
    NeedleIsNeedleLike(content, m);
    forall q | OccursAt(pre + n + post, n, q) ensures q == m.start {
      FoundInContent(content, tables, j, 0, m.end, n, q);
    }
    OccursInMiddle(pre, n, post);
    ReplaceAllUnique(pre + n + post, n, Replacement(m, j - 1), m.start);
    SpliceInMiddle(pre, n, post, Replacement(m, j - 1));
  }

  /** The loop, run from the point where tables `j..` are already marked, marks them all in place. */
  lemma {:induction false} MarkLoopInPlace(content: string, tables: seq<TableMatch>, j: nat, acc: seq<string>)
    requires Layout(content, tables) && j <= |tables| && NoMarkerText(content)
    requires forall i :: 0 <= i < j ==> OccursOnlyAtMatch(content, tables[i])
    requires 0 <= Bound(content, tables, j)
    ensures MarkLoop(tables, j, acc, Splice(content, tables, j, 0, false)).1 == Splice(content, tables, 0, 0, false)
    decreases j
  {
    if j > 0 {
      var m := tables[j - 1];
      MarkStep(content, tables, j);
      MarkLoopInPlace(content, tables, j - 1, [Entry(j - 1, m.table)] + acc);
    }
  }

  /**
   * When no match's text occurs anywhere but at that match and the content
   * never contains the marker text, the marked content is the content with
   * each table replaced in place by its own marker; `PutBackRestores`
   * completes the round trip.
   */
  lemma ExtractMarksInPlace(content: string)
    requires NoMarkerText(content)
    requires forall m :: m in FindIter(content, 0) ==> OccursOnlyAtMatch(content, m)
    ensures ExtractAndMarkHtmlTables(content).0 == InPlace(content, false)
  {
    var tables := FindIter(content, 0);
    FindIterLayout(content, 0);
    assert Splice(content, tables, |tables|, 0, false) == content;
    forall i | 0 <= i < |tables| ensures OccursOnlyAtMatch(content, tables[i]) {
      assert tables[i] in tables;
    }
    MarkLoopInPlace(content, tables, |tables|, []);
  }

  /** Putting each table back in place of its marker gives the original content. */
  lemma PutBackRestores(content: string)
    ensures InPlace(content, true) == content
  {
    FindIterLayout(content, 0);
    SplicePutBack(content, FindIter(content, 0), 0, 0);
  }

  // ------------------------------------------- distinct, unnested matches

  /** Every match `finditer` reports is the pattern's match at its own start. */
  lemma {:induction false} FindIterMembers(s: string, i: nat)
    ensures forall k :: 0 <= k < |FindIter(s, i)| ==> MatchAt(s, FindIter(s, i)[k].start) == Some(FindIter(s, i)[k])
    decreases |s| - i
  {
    if i < |s| {
      match MatchAt(s, i)
      case Some(m) =>
        FindIterMembers(s, m.end);
        var r := FindIter(s, m.end);
        assert FindIter(s, i) == [m] + r;
      case None =>
        FindIterMembers(s, i + 1);
    }
  }

  /** Index `q` lies inside one of the matches. */
  ghost predicate Covered(f: seq<TableMatch>, q: int) {
    exists k :: 0 <= k < |f| && f[k].start <= q < f[k].end
  }

  lemma CoveredCons(m: TableMatch, r: seq<TableMatch>, q: int)
    requires (m.start <= q < m.end) || Covered(r, q)
    ensures Covered([m] + r, q)
  {
    var f := [m] + r;
    if m.start <= q < m.end {
      assert f[0].start <= q < f[0].end;
    } else {
      var k :| 0 <= k < |r| && r[k].start <= q < r[k].end;
      assert f[k + 1] == r[k];
    }
  }

  /**
   * `finditer` misses no match: wherever the pattern matches from `i` on,
   * that index is the start of a reported match or lies inside one.
   */
  lemma FindIterComplete(s: string, i: nat)
    ensures forall q :: i <= q && MatchAt(s, q).Some? ==> Covered(FindIter(s, i), q)
  {
    forall q | i <= q && MatchAt(s, q).Some? ensures Covered(FindIter(s, i), q) {
      FindIterCovers(s, i, q);
    }
  }

  lemma {:induction false} FindIterCovers(s: string, i: nat, q: nat)
    requires i <= q && MatchAt(s, q).Some?
    ensures Covered(FindIter(s, i), q)
    decreases |s| - i
  {
    if MatchAt(s, i).Some? {
      var m := MatchAt(s, i).value;
      assert FindIter(s, i) == [m] + FindIter(s, m.end);
      if m.end <= q {
        FindIterCovers(s, m.end, q);
      }
      CoveredCons(m, FindIter(s, m.end), q);
    } else {
      assert q < |s|;
      FindIterCovers(s, i + 1, q);
    }
  }

  /** No two matches share both their whitespace and their table. */
  predicate Distinct(tables: seq<TableMatch>) {
    forall i, k :: 0 <= i < k < |tables| ==> tables[i].ws != tables[k].ws || tables[i].table != tables[k].table
  }

  /** No match of the pattern starts inside a match `finditer` reported. */
  predicate NoNested(s: string) {
    var f := FindIter(s, 0);
    forall k, q :: 0 <= k < |f| && f[k].start < q < f[k].end ==> MatchAt(s, q).None?
  }

  /** Wherever a match's text occurs, the pattern matches there with at least that much. */
  lemma NeedleOccurrenceMatches(s: string, m: TableMatch, q: nat)
    requires OccursAt(s, Needle(m), q) && TableShape(m.table)
    requires forall k :: 0 <= k < |m.ws| ==> IsSpace(m.ws[k])
    ensures IsTableMatch(s, q, q + 1 + |m.ws|, q + |Needle(m)|)
    ensures s[q + 1..q + 1 + |m.ws|] == m.ws && s[q + 1 + |m.ws|..q + |Needle(m)|] == m.table
  {
    var a := q + 1 + |m.ws|;
    var e := q + |Needle(m)|;
    NeedleWindows(s, m, q);
    SpaceWindow(s, q + 1, a, m.ws);
    TableWindow(s, a, e, m.table);
  }

  lemma SpaceWindow(s: string, i: nat, j: nat, w: string)
    requires i <= j <= |s| && s[i..j] == w && forall k :: 0 <= k < |w| ==> IsSpace(w[k])
    ensures AllSpace(s, i, j)
  {
    forall k | i <= k < j ensures IsSpace(s[k]) {
      assert s[k] == w[k - i];
    }
  }

  lemma TableWindow(s: string, a: nat, e: nat, t: string)
    requires a <= e <= |s| && s[a..e] == t && TableShape(t)
    ensures OccursAt(s, Open, a) && OccursAt(s, Close, e - 8) && a + 7 <= e - 8
  {
    OccursAtSlice(s, Open, a, e, 0);
    OccursAtSlice(s, Close, a, e, |t| - 8);
  }

  /** The three parts of a match's text, found at `q`. */
  lemma NeedleWindows(s: string, m: TableMatch, q: nat)
    requires OccursAt(s, Needle(m), q)
    ensures q + |Needle(m)| <= |s| && |Needle(m)| == 1 + |m.ws| + |m.table| && s[q] == '\n'
    ensures s[q + 1..q + 1 + |m.ws|] == m.ws && s[q + 1 + |m.ws|..q + |Needle(m)|] == m.table
  {
    var n := Needle(m);
    NeedleSplit(m);
    OccursAtWindow(s, n, q, 0, 1);
    OccursAtWindow(s, n, q, 1, 1 + |m.ws|);
    OccursAtWindow(s, n, q, 1 + |m.ws|, |n|);
    assert s[q] == s[q..q + 1][0];
  }

  lemma NeedleSplit(m: TableMatch)
    ensures Needle(m)[..1] == "\n" && Needle(m)[1..1 + |m.ws|] == m.ws && Needle(m)[1 + |m.ws|..] == m.table
  {
  }

  /** A match's table, found again at an index where the pattern matches, is that match's table. */
  lemma SameTable(s: string, t: string, a: nat, e: nat, e': nat)
    requires TableShape(t) && a <= e <= |s| && s[a..e] == t
    requires a + 7 <= e' - 8 && e' <= e && OccursAt(s, Close, e' - 8)
    ensures e' == e
  {
    OccursAtSlice(s, Close, a, e, e' - 8 - a);
  }

  /** The match that `finditer` reports at an occurrence of a well-formed match's text. */
  lemma ReportedAt(s: string, m: TableMatch, q: nat) returns (k: nat)
    requires NoNested(s) && TableShape(m.table) && (forall j :: 0 <= j < |m.ws| ==> IsSpace(m.ws[j]))
    requires OccursAt(s, Needle(m), q)
    ensures k < |FindIter(s, 0)| && FindIter(s, 0)[k].start == q
    ensures FindIter(s, 0)[k].ws == m.ws && FindIter(s, 0)[k].table == m.table
  {
    NeedleAt(s, m, q);
    k := ReportedFrom(s, q, q + 1 + |m.ws|, q + |Needle(m)|);
  }

  /** At a place where the pattern matches with a well-formed table, `finditer` reports exactly it. */
  lemma ReportedFrom(s: string, q: nat, a: nat, e: nat) returns (k: nat)
    requires NoNested(s) && IsTableMatch(s, q, a, e) && TableShape(s[a..e])
    ensures k < |FindIter(s, 0)| && FindIter(s, 0)[k].start == q
    ensures FindIter(s, 0)[k].ws == s[q + 1..a] && FindIter(s, 0)[k].table == s[a..e]
  {
    var r;
    k, r := StartsThere(s, q, a, e);
    SameTable(s, s[a..e], a, e, r.end);
  }

  /** An occurrence of a well-formed match's text is a place where the pattern matches. */
  lemma NeedleAt(s: string, m: TableMatch, q: nat)
    requires TableShape(m.table) && (forall j :: 0 <= j < |m.ws| ==> IsSpace(m.ws[j]))
    requires OccursAt(s, Needle(m), q)
    ensures IsTableMatch(s, q, q + 1 + |m.ws|, q + |Needle(m)|)
    ensures s[q + 1..q + 1 + |m.ws|] == m.ws && s[q + 1 + |m.ws|..q + |Needle(m)|] == m.table
  {
    NeedleOccurrenceMatches(s, m, q);
  }

  lemma FindIterPlaced(s: string, i: nat)
    requires i < |FindIter(s, 0)|
    ensures WellPlaced(s, FindIter(s, 0)[i])
  {
    FindIterLayout(s, 0);
  }

  /** Where the pattern can match, `finditer` reports a match starting right there, unless nested. */
  lemma StartsThere(s: string, q: nat, a: nat, e: nat) returns (k: nat, r: TableMatch)
    requires NoNested(s) && IsTableMatch(s, q, a, e)
    ensures k < |FindIter(s, 0)| && FindIter(s, 0)[k] == r
    ensures r.start == q && TableStart(r) == a && r.end <= e
    ensures a + 7 <= r.end - 8 && OccursAt(s, Close, r.end - 8)
    ensures r.ws == s[q + 1..a] && r.table == s[a..r.end]
  {
    r := MatchFoundAt(s, q, a, e);
    k := ReportedStart(s, q, r);
  }

  /** Where the pattern can match, `MatchAt` finds its preferred match. */
  lemma MatchFoundAt(s: string, q: nat, a: nat, e: nat) returns (m: TableMatch)
    requires IsTableMatch(s, q, a, e)
    ensures MatchAt(s, q) == Some(m)
    ensures TableStart(m) == a && m.end <= e && IsTableMatch(s, q, a, m.end)
    ensures m.ws == s[q + 1..a] && m.table == s[a..m.end]
  {
    MatchAtIsTheMatch(s, q);
    m := MatchAt(s, q).value;
  }

  /** A match at `q` that nothing reported encloses is reported itself. */
  lemma ReportedStart(s: string, q: nat, m: TableMatch) returns (k: nat)
    requires NoNested(s) && MatchAt(s, q) == Some(m)
    ensures k < |FindIter(s, 0)| && FindIter(s, 0)[k] == m
  {
    var f := FindIter(s, 0);
    FindIterCovers(s, 0, q);
    k :| 0 <= k < |f| && f[k].start <= q < f[k].end;
    FindIterMembers(s, 0);
    assert MatchAt(s, f[k].start) == Some(f[k]);
  }

  /** With distinct, unnested matches, each match's text occurs only at that match. */
  lemma DistinctOccurOnce(s: string)
    requires Distinct(FindIter(s, 0)) && NoNested(s)
    ensures forall m :: m in FindIter(s, 0) ==> OccursOnlyAtMatch(s, m)
  {
    var f := FindIter(s, 0);
    FindIterLayout(s, 0);
    forall m | m in f ensures OccursOnlyAtMatch(s, m) {
      var i :| 0 <= i < |f| && f[i] == m;
      forall q | OccursAt(s, Needle(m), q) ensures q == m.start {
        FindIterPlaced(s, i);
        var k := ReportedAt(s, m, q);
        assert k == i;
      }
    }
  }

  /**
   * The round trip under conditions on the matches alone: distinct
   * (whitespace, table) pairs, no match starting inside another, and no
   * marker text in the content.
   */
  lemma ExtractMarksInPlaceDistinct(content: string)
    requires NoMarkerText(content) && Distinct(FindIter(content, 0)) && NoNested(content)
    ensures ExtractAndMarkHtmlTables(content).0 == InPlace(content, false)
  {
    DistinctOccurOnce(content);
    ExtractMarksInPlace(content);
  }
}
