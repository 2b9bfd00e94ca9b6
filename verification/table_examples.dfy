/**
 * The table extraction on text without a newline: the pattern starts with
 * one, so such text comes back as it was (the second docstring example);
 * and two identical tables, which `str.replace` gives the same marker.
 */
module TableExamples {
  import opened Wrappers
  import opened Text
  import opened TableExtraction

  // ------------------------------------------------------ no newline at all

  /** The pattern begins with a newline, so without one nothing is found. */
  lemma {:induction false} NoNewlineNoMatches(s: string, i: nat)
    requires '\n' !in s
    ensures FindIter(s, i) == []
    decreases |s| - i
  {
    if i < |s| {
      assert MatchAt(s, i).None?;
      NoNewlineNoMatches(s, i + 1);
    }
  }

  /** A text without a newline comes back unchanged, with an empty side text. */
  lemma WithoutNewlineUnchanged(content: string)
    requires '\n' !in content
    ensures ExtractAndMarkHtmlTables(content) == (content, "")
  {
    NoNewlineNoMatches(content, 0);
  }

  /** The docstring's `"Content <table> </table>"`: no table on a new line, nothing changes. */
  lemma DocstringInline()
    ensures ExtractAndMarkHtmlTables("Content <table> </table>") == ("Content <table> </table>", "")
  {
    WithoutNewlineUnchanged("Content <table> </table>");
  }

  // ------------------------------------------------- two identical tables

  /** The smallest table: `<table></table>`. */
  const EmptyTable: string := "<table></table>"

  /** That table on a line of its own. */
  const Row: string := "\n" + EmptyTable

  /** Where `Row` sits in a text, the pattern matches with no whitespace and ends after it. */
  lemma RowMatches(s: string, k: nat)
    requires k + |Row| <= |s| && s[k..k + |Row|] == Row
    ensures MatchAt(s, k) == Some(TableMatch(k, "", EmptyTable, k + |Row|))
  {
    assert |Row| == 16 && |Open| == 7 && |Close| == 8;
    assert s[k] == Row[0] == '\n';
    assert s[k + 1..k + 8] == Row[1..8] == Open;
    assert OccursAt(s, Open, k + 1);
    assert s[k + 8..k + 16] == Row[8..16] == Close;
    assert Find(s, Close, k + 8) == Some(k + 8);
    assert TableAt(s, k + 1) == Some(k + 16);
    assert WsTable(s, k + 1) == Some((k + 1, k + 16));
    assert s[k + 1..k + 16] == Row[1..] == EmptyTable;
    assert s[k + 1..k + 1] == "";
  }

  /** The two matches of `Row + Row`. */
  const First: TableMatch := TableMatch(0, "", EmptyTable, |Row|)
  const Second: TableMatch := TableMatch(|Row|, "", EmptyTable, 2 * |Row|)

  /** A match at `k` is the first one `finditer` reports from `k`, and the search resumes at its end. */
  lemma FindIterStep(s: string, k: nat, m: TableMatch)
    requires k < |s| && MatchAt(s, k) == Some(m)
    ensures FindIter(s, k) == [m] + FindIter(s, m.end)
  {
  }

  /** Where the two rows sit in `Row + Row`. */
  lemma RowsAt()
    ensures |Row + Row| == 2 * |Row|
    ensures (Row + Row)[0..|Row|] == Row && (Row + Row)[|Row|..2 * |Row|] == Row
  {
  }

  /** `finditer` reports both rows, each with empty whitespace. */
  lemma TwoRowsFound()
    ensures FindIter(Row + Row, 0) == [First, Second]
  {
    var s := Row + Row;
    RowsAt();
    RowMatches(s, 0);
    RowMatches(s, |Row|);
    FindIterStep(s, |Row|, Second);
    FindIterStep(s, 0, First);
    assert FindIter(s, 2 * |Row|) == [];
  }

  /** One `str.replace` of the row replaces both copies. */
  lemma ReplaceBothRows(r: string)
    ensures ReplaceAll(Row + Row, Row, r) == r + r
  {
    var s := Row + Row;
    assert |Row| == 16;
    assert s[..|Row|] == Row && s[|Row|..] == Row;
    assert Row[..|Row|] == Row && Row[|Row|..] == [];
    assert ReplaceAll(Row, Row, r) == r + ReplaceAll([], Row, r);
    assert ReplaceAll(s, Row, r) == r + ReplaceAll(Row, Row, r);
    assert r + [] == r;
  }

  /** The marked text of two rows both given marker 1. */
  function SharedMarked(): string {
    "\n" + Marker(1) + "\n" + Marker(1)
  }

  /** Every character of that text other than a newline is one of a marker's. */
  lemma SharedMarkedChars(k: nat)
    requires k < |SharedMarked()|
    ensures SharedMarked()[k] == '\n' || SharedMarked()[k] in MarkerPrefix || IsDigit(SharedMarked()[k])
  {
    var t := SharedMarked();
    var m := Marker(1);
    assert m == MarkerPrefix + NatToString(1);
    if 1 <= k < 1 + |m| {
      assert t[k] == m[k - 1];
    } else if 2 + |m| <= k {
      assert t[k] == m[k - 2 - |m|];
    }
  }

  /** A marker text holds no `<`, so the row cannot occur in it. */
  lemma NoRowIn()
    ensures forall i :: !OccursAt(SharedMarked(), Row, i)
  {
    var t := SharedMarked();
    assert '<' !in MarkerPrefix;
    forall k | 0 <= k < |t| ensures t[k] != '<' {
      SharedMarkedChars(k);
    }
    assert Row[1] == '<';
    AbsentByElem(t, Row, 1);
  }

  /** Marker 0 ends in `0`, which neither the marker prefix nor marker 1 contains. */
  lemma MarkerZeroAbsent()
    ensures forall i :: !OccursAt(SharedMarked(), Marker(0), i)
  {
    var t := SharedMarked();
    assert '0' !in MarkerPrefix;
    assert NatToString(1) == ['1'];
    forall k | 0 <= k < |t| ensures t[k] != '0' {
      SharedMarkedChars(k);
      assert Marker(1) == MarkerPrefix + ['1'];
    }
    var z := Marker(0);
    assert NatToString(0) == ['0'];
    assert z[|z| - 1] == '0';
    AbsentByElem(t, z, |z| - 1);
  }

  /** The loop's first step (table 1): both rows become marker 1. */
  lemma MarkSecond()
    ensures MarkLoop([First, Second], 2, [], Row + Row)
         == MarkLoop([First, Second], 1, [Entry(1, EmptyTable)], SharedMarked())
  {
    assert Needle(Second) == Row;
    assert Replacement(Second, 1) == "\n" + Marker(1);
    ReplaceBothRows("\n" + Marker(1));
    assert ("\n" + Marker(1)) + ("\n" + Marker(1)) == SharedMarked();
    assert [Entry(1, EmptyTable)] + [] == [Entry(1, EmptyTable)];
  }

  /** The loop's second step (table 0): its text is gone, so only its entry is added. */
  lemma MarkFirst()
    ensures MarkLoop([First, Second], 1, [Entry(1, EmptyTable)], SharedMarked())
         == ([Entry(0, EmptyTable), Entry(1, EmptyTable)], SharedMarked())
  {
    assert Needle(First) == Row;
    NoRowIn();
    ReplaceAllAbsent(SharedMarked(), Row, Replacement(First, 0));
    assert [Entry(0, EmptyTable)] + [Entry(1, EmptyTable)] == [Entry(0, EmptyTable), Entry(1, EmptyTable)];
  }

  lemma JoinTwo(a: string, b: string)
    ensures Join([a, b]) == a + b
  {
    assert [a, b][1..] == [b];
    assert Join([b]) == b + Join([]);
  }

  /**
   * Two identical tables (the same whitespace and table text) both end up
   * with marker 1: the reversed loop first replaces every occurrence of
   * the shared text with marker 1, so marker 0 has nothing left to
   * replace. The side text still holds both entries, while marker 0 is
   * nowhere in the marked content.
   */
  lemma IdenticalTablesShareMarker()
    ensures var (marked, side) := ExtractAndMarkHtmlTables(Row + Row);
            && marked == "\n" + Marker(1) + "\n" + Marker(1)
            && side == Entry(0, EmptyTable) + Entry(1, EmptyTable)
            && forall i :: !OccursAt(marked, Marker(0), i)
  {
    TwoRowsFound();
    MarkSecond();
    MarkFirst();
    JoinTwo(Entry(0, EmptyTable), Entry(1, EmptyTable));
    MarkerZeroAbsent();
  }
}
