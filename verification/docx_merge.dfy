/**
 * `merge_word_docs_with_tables`: copy the side document's hyperlink
 * relationships into the main part, file each side table under the heading
 * paragraph that precedes it (rewriting its hyperlink ids and numbering),
 * and replace every main-body paragraph that carries the marker and names a
 * filed heading by that table. `merge_documents` is the same merge with the
 * default marker, re-raising any error.
 */
module DocxMerge {
  import opened Wrappers
  import opened Text
  import opened Docx
  import opened Relationships

  /** The marker `merge_documents` looks for. */
  const DefaultMarker: string := "TIDOCS_REPLACE_TABLE"

  // ------------------------------------------------------- table rewrite

  /** `xs[0].set(qn("w:val"), v)` when the query found anything. */
  function SetFirst(vals: seq<string>, v: string): (r: seq<string>)
    ensures |r| == |vals| && (|r| > 0 ==> r[0] == v)
    ensures forall k :: 0 < k < |r| ==> r[k] == vals[k]
  {
    if |vals| == 0 then vals else [v] + vals[1..]
  }

  /** The list-level fix: first `w:ilvl` to `"0"`, first `w:numId` to `"1"`. */
  function FixNumPr(n: NumPr): NumPr {
    NumPr(SetFirst(n.ilvl, "0"), SetFirst(n.numId, "1"))
  }

  /** A hyperlink whose `r:id` is a key of `relMap` takes the mapped id; any other stays as it is. */
  function RemapLink(relMap: map<string, string>, h: Hyperlink): Hyperlink {
    if h.rId.Some? && h.rId.value in relMap then Hyperlink(Some(relMap[h.rId.value]), h.text) else h
  }

  function RewritePara(relMap: map<string, string>, p: TablePara): TablePara {
    TablePara(p.text,
              seq(|p.links|, k requires 0 <= k < |p.links| => RemapLink(relMap, p.links[k])),
              seq(|p.numPrs|, k requires 0 <= k < |p.numPrs| => FixNumPr(p.numPrs[k])))
  }

  /** The copied table with its hyperlink ids remapped and its numbering fixed. */
  function RewriteTable(relMap: map<string, string>, t: Table): (r: Table)
    ensures |r.paras| == |t.paras|
  {
    Table(seq(|t.paras|, k requires 0 <= k < |t.paras| => RewritePara(relMap, t.paras[k])))
  }

  /**
   * Hyperlinks survive the copy: with the map built from the side part's
   * relationships, a link naming a side hyperlink relationship gets an id
   * that resolves to the same relationship in the grown main part, and any
   * other link, or one without an id, is left as it was. Paragraph texts and
   * link texts are kept.
   */
  lemma RewriteLinksResolve(side: seq<RelEntry>, main: seq<RelEntry>, t: Table, k: nat, j: nat)
    requires UniqueIds(side) && UniqueIds(main)
    requires k < |t.paras| && j < |t.paras[k].links|
    ensures var (main', relMap) := CopyHyperlinkRels(side, main, map[]);
            var h := t.paras[k].links[j];
            var r := RewriteTable(relMap, t).paras[k];
            && r.text == t.paras[k].text && |r.links| == |t.paras[k].links|
            && r.links[j].text == h.text
            && (h.rId.Some? && h.rId.value in HyperlinkIds(side) ==>
                  r.links[j].rId.Some? && Lookup(main', r.links[j].rId.value) == Lookup(side, h.rId.value))
            && (h.rId.None? || h.rId.value !in HyperlinkIds(side) ==> r.links[j] == h)
  {
    RelMapSpec(side, main);
  }

  /** Every numbering property of a rewritten table starts at level 0 of list 1; the rest is kept. */
  lemma RewriteNumbering(relMap: map<string, string>, t: Table, k: nat, j: nat)
    requires k < |t.paras| && j < |t.paras[k].numPrs|
    ensures var n := t.paras[k].numPrs[j];
            var n' := RewriteTable(relMap, t).paras[k].numPrs[j];
            && |n'.ilvl| == |n.ilvl| && |n'.numId| == |n.numId|
            && (|n.ilvl| > 0 ==> n'.ilvl[0] == "0" && n'.ilvl[1..] == n.ilvl[1..])
            && (|n.numId| > 0 ==> n'.numId[0] == "1" && n'.numId[1..] == n.numId[1..])
  {
  }

  /**
   * The numbering fix is idempotent and independent of the link remap:
   * rewriting an already numbered-fixed copy gives the one-step rewrite.
   */
  lemma RewriteAfterFix(relMap: map<string, string>, t: Table)
    ensures RewriteTable(relMap, RewriteTable(map[], t)) == RewriteTable(relMap, t)
  {
    var once := RewriteTable(map[], t);
    forall k | 0 <= k < |t.paras|
      ensures RewritePara(relMap, once.paras[k]) == RewritePara(relMap, t.paras[k])
    {
      var p := t.paras[k];
      assert once.paras[k].links == p.links;
      var a := RewritePara(relMap, once.paras[k]);
      var b := RewritePara(relMap, p);
      forall j | 0 <= j < |p.numPrs| ensures a.numPrs[j] == b.numPrs[j] {
        var n := p.numPrs[j];
        assert FixNumPr(FixNumPr(n)) == FixNumPr(n);
      }
    }
  }

  // ------------------------------------------------- heading association

  /** A body paragraph whose stripped text is non-empty becomes the current heading; nothing else does. */
  function HeadingOf(n: Node): Option<string> {
    if n.Para? && Strip(n.text) != "" then Some(Strip(n.text)) else None
  }

  /** A node is a heading exactly when it is a paragraph whose text is not all whitespace; the heading text is trimmed. */
  lemma HeadingOfText(n: Node)
    ensures HeadingOf(n).None? <==> !n.Para? || forall i :: 0 <= i < |n.text| ==> IsSpace(n.text[i])
    ensures HeadingOf(n).Some? ==> var h := HeadingOf(n).value; !IsSpace(h[0]) && !IsSpace(h[|h| - 1])
  {
  }

  function Headings(body: seq<Node>): (hs: seq<Option<string>>)
    ensures |hs| == |body|
  {
    seq(|body|, i requires 0 <= i < |body| => HeadingOf(body[i]))
  }

  /** `current_heading` when the loop reaches position `i`, from the headings `hs` of the nodes. */
  function HeadingBefore(hs: seq<Option<string>>, i: nat): Option<string>
    requires i <= |hs|
  {
    if i == 0 then None
    else if hs[i - 1].Some? then hs[i - 1]
    else HeadingBefore(hs, i - 1)
  }

  /** No heading is in force before `i` exactly when no node before `i` is a heading. */
  lemma {:induction false} HeadingBeforeNone(hs: seq<Option<string>>, i: nat)
    requires i <= |hs|
    ensures HeadingBefore(hs, i).None? <==> forall j :: 0 <= j < i ==> hs[j].None?
  {
    if i > 0 && hs[i - 1].None? {
      HeadingBeforeNone(hs, i - 1);
    }
  }

  /** The heading in force before `i` comes from node `j`, the last heading before `i`. */
  ghost predicate LastHeading(hs: seq<Option<string>>, i: nat, j: int)
    requires i <= |hs|
  {
    && 0 <= j < i && hs[j].Some? && hs[j] == HeadingBefore(hs, i)
    && forall j' :: j < j' < i ==> hs[j'].None?
  }

  /** A heading in force is the heading text of the last heading paragraph before `i`. */
  lemma {:induction false} HeadingBeforeIsLast(hs: seq<Option<string>>, i: nat)
    requires i <= |hs| && HeadingBefore(hs, i).Some?
    ensures exists j :: LastHeading(hs, i, j)
  {
    if hs[i - 1].Some? {
      assert LastHeading(hs, i, i - 1);
    } else {
      HeadingBeforeIsLast(hs, i - 1);
      var j :| LastHeading(hs, i - 1, j);
      assert LastHeading(hs, i, j);
    }
  }

  /** `tables_to_insert` after the loop has seen `body[..n]`; `hs` are the nodes' headings. */
  function TablesUpTo(body: seq<Node>, hs: seq<Option<string>>, relMap: map<string, string>, n: nat): map<string, Table>
    requires |hs| == |body| && n <= |body|
  {
    if n == 0 then map[]
    else
      var m := TablesUpTo(body, hs, relMap, n - 1);
      var h := HeadingBefore(hs, n - 1);
      if body[n - 1].Tbl? && h.Some? then m[h.value := RewriteTable(relMap, body[n - 1].table)] else m
  }

  function TablesToInsert(body: seq<Node>, relMap: map<string, string>): map<string, Table> {
    TablesUpTo(body, Headings(body), relMap, |body|)
  }

  /** Table `i` is the last one before `n` filed under heading `key`. */
  ghost predicate LastUnder(body: seq<Node>, hs: seq<Option<string>>, n: nat, key: string, i: int)
    requires |hs| == |body| && n <= |body|
  {
    && 0 <= i < n && body[i].Tbl? && HeadingBefore(hs, i) == Some(key)
    && forall j :: i < j < n && body[j].Tbl? ==> HeadingBefore(hs, j) != Some(key)
  }

  /**
   * A heading is a key exactly when some table follows it before the next
   * heading: tables before the first heading are dropped.
   */
  lemma {:induction false} TablesUpToKeys(body: seq<Node>, hs: seq<Option<string>>, relMap: map<string, string>, n: nat, key: string)
    requires |hs| == |body| && n <= |body|
    ensures key in TablesUpTo(body, hs, relMap, n) <==>
              exists i :: 0 <= i < n && body[i].Tbl? && HeadingBefore(hs, i) == Some(key)
  {
    if n > 0 {
      TablesUpToKeys(body, hs, relMap, n - 1, key);
    }
  }

  /** The value under a heading is the rewritten copy of the last table filed under it: later tables win. */
  lemma {:induction false} TablesUpToLast(body: seq<Node>, hs: seq<Option<string>>, relMap: map<string, string>, n: nat, key: string)
    requires |hs| == |body| && n <= |body| && key in TablesUpTo(body, hs, relMap, n)
    ensures exists i :: LastUnder(body, hs, n, key, i) && TablesUpTo(body, hs, relMap, n)[key] == RewriteTable(relMap, body[i].table)
  {
    if body[n - 1].Tbl? && HeadingBefore(hs, n - 1) == Some(key) {
      assert LastUnder(body, hs, n, key, n - 1);
    } else {
      TablesUpToLast(body, hs, relMap, n - 1, key);
      var i :| LastUnder(body, hs, n - 1, key, i) && TablesUpTo(body, hs, relMap, n - 1)[key] == RewriteTable(relMap, body[i].table);
      assert LastUnder(body, hs, n, key, i);
    }
  }

  // ------------------------------------------------- marker replacement

  /** A main-body paragraph that carries the marker and whose full text is a filed heading. */
  predicate Keyed(n: Node, marker: string, tables: map<string, Table>) {
    n.Para? && Contains(n.text, marker) && n.text in tables
  }

  /** A later node before `k` equals `body[i]`. */
  predicate Superseded(body: seq<Node>, i: nat, k: nat)
    requires i < |body| && k <= |body|
  {
    exists j :: i < j < k && body[j] == body[i]
  }

  /**
   * Where node `i` stands once the paragraphs before `k` were processed: a
   * keyed paragraph holds its table unless a later equal paragraph before
   * `k` took the table away (lxml moves an element that is already in the
   * tree), every other node stays.
   */
  function Slot(body: seq<Node>, marker: string, tables: map<string, Table>, k: nat, i: nat): Option<Node>
    requires i < |body| && k <= |body|
  {
    if i >= k || !Keyed(body[i], marker, tables) then Some(body[i])
    else if Superseded(body, i, k) then None
    else Some(Tbl(tables[body[i].text]))
  }

  function Slots(body: seq<Node>, marker: string, tables: map<string, Table>, k: nat): (r: seq<Option<Node>>)
    requires k <= |body|
    ensures |r| == |body|
  {
    seq(|body|, i requires 0 <= i < |body| => Slot(body, marker, tables, k, i))
  }

  /** The nodes left in the slots, in order. */
  function Somes(slots: seq<Option<Node>>): (r: seq<Node>)
    ensures |r| <= |slots|
  {
    if |slots| == 0 then []
    else (if slots[0].Some? then [slots[0].value] else []) + Somes(slots[1..])
  }

  /** The main body after the replacement loop. */
  function Replaced(body: seq<Node>, marker: string, tables: map<string, Table>): seq<Node> {
    Somes(Slots(body, marker, tables, |body|))
  }

  /**
   * The loop of `merge_word_docs_with_tables` over the main body's
   * paragraphs, replacing each keyed one by its table; `placed` records
   * where each table currently sits so that a second replacement with the
   * same table vacates the first place. The result is `Replaced`.
   */
  method ReplaceMarkers(body: seq<Node>, marker: string, tables: map<string, Table>) returns (out: seq<Node>)
    ensures out == Replaced(body, marker, tables)
  {
    var slots := seq(|body|, i requires 0 <= i < |body| => Some(body[i]));
    var placed: map<string, nat> := map[];
    var k := 0;
    assert slots == Slots(body, marker, tables, 0);
    while k < |body|
      invariant k <= |body|
      invariant slots == Slots(body, marker, tables, k)
      invariant forall key :: key in placed ==> PlacedAt(body, marker, tables, k, key, placed[key])
      invariant forall i :: 0 <= i < k && Keyed(body[i], marker, tables) ==> body[i].text in placed
    {
      if Keyed(body[k], marker, tables) {
        var t := body[k].text;
        if t in placed {
          var p := placed[t];
          StepMove(body, marker, tables, k, p);
          slots := slots[p := None][k := Some(Tbl(tables[t]))];
        } else {
          StepFresh(body, marker, tables, k);
          slots := slots[k := Some(Tbl(tables[t]))];
        }
        PlacedStep(body, marker, tables, k, placed, placed[t := k]);
        placed := placed[t := k];
      } else {
        StepPlain(body, marker, tables, k);
        PlacedPlain(body, marker, tables, k, placed);
      }
      k := k + 1;
    }
    out := Somes(slots);
  }

  /** The table filed under `key` currently replaces paragraph `p`. */
  ghost predicate PlacedAt(body: seq<Node>, marker: string, tables: map<string, Table>, k: nat, key: string, p: nat)
    requires k <= |body|
  {
    p < k && body[p] == Para(key) && Keyed(body[p], marker, tables) && !Superseded(body, p, k)
  }

  lemma PlacedStep(body: seq<Node>, marker: string, tables: map<string, Table>, k: nat,
                   placed: map<string, nat>, placed': map<string, nat>)
    requires k < |body| && Keyed(body[k], marker, tables) && placed' == placed[body[k].text := k]
    requires forall key :: key in placed ==> PlacedAt(body, marker, tables, k, key, placed[key])
    ensures forall key :: key in placed' ==> PlacedAt(body, marker, tables, k + 1, key, placed'[key])
  {
    forall key | key in placed' ensures PlacedAt(body, marker, tables, k + 1, key, placed'[key]) {
      if key != body[k].text {
        assert body[placed[key]] != body[k];
      }
    }
  }

  lemma PlacedPlain(body: seq<Node>, marker: string, tables: map<string, Table>, k: nat, placed: map<string, nat>)
    requires k < |body| && !Keyed(body[k], marker, tables)
    requires forall key :: key in placed ==> PlacedAt(body, marker, tables, k, key, placed[key])
    ensures forall key :: key in placed ==> PlacedAt(body, marker, tables, k + 1, key, placed[key])
  {
    forall key | key in placed ensures PlacedAt(body, marker, tables, k + 1, key, placed[key]) {
      assert body[placed[key]] != body[k];
    }
  }

  /** A node that is not keyed changes no slot. */
  lemma StepPlain(body: seq<Node>, marker: string, tables: map<string, Table>, k: nat)
    requires k < |body| && !Keyed(body[k], marker, tables)
    ensures Slots(body, marker, tables, k + 1) == Slots(body, marker, tables, k)
  {
    forall i | 0 <= i < |body|
      ensures Slot(body, marker, tables, k + 1, i) == Slot(body, marker, tables, k, i)
    {
      if i < k && Keyed(body[i], marker, tables) {
        assert body[k] != body[i];
      }
    }
  }

  /** The first keyed paragraph with its text takes its table in place. */
  lemma StepFresh(body: seq<Node>, marker: string, tables: map<string, Table>, k: nat)
    requires k < |body| && Keyed(body[k], marker, tables)
    requires forall i :: 0 <= i < k && Keyed(body[i], marker, tables) ==> body[i] != body[k]
    ensures Slots(body, marker, tables, k + 1) ==
            Slots(body, marker, tables, k)[k := Some(Tbl(tables[body[k].text]))]
  {
    forall i | 0 <= i < |body| && i != k
      ensures Slot(body, marker, tables, k + 1, i) == Slot(body, marker, tables, k, i)
    {
      if i < k && Keyed(body[i], marker, tables) {
        assert body[k] != body[i];
      }
    }
  }

  /** A later keyed paragraph with the same text moves the table from where it was placed. */
  lemma StepMove(body: seq<Node>, marker: string, tables: map<string, Table>, k: nat, p: nat)
    requires k < |body| && Keyed(body[k], marker, tables)
    requires PlacedAt(body, marker, tables, k, body[k].text, p)
    ensures Slots(body, marker, tables, k + 1) ==
            Slots(body, marker, tables, k)[p := None][k := Some(Tbl(tables[body[k].text]))]
  {
    forall i | 0 <= i < |body| && i != k && i != p
      ensures Slot(body, marker, tables, k + 1, i) == Slot(body, marker, tables, k, i)
    {
      if i < k && Keyed(body[i], marker, tables) && body[i] == body[k] {
        if i < p {
          assert body[p] == body[i];
        }
      }
    }
    assert body[k] == body[p];
  }

  // ---------------------------------------------- replacement properties

  lemma {:induction false} SomesAllSome(slots: seq<Option<Node>>)
    requires forall i :: 0 <= i < |slots| ==> slots[i].Some?
    ensures Somes(slots) == seq(|slots|, i requires 0 <= i < |slots| => slots[i].value)
  {
    if |slots| > 0 {
      SomesAllSome(slots[1..]);
    }
  }

  /** Keyed paragraphs with pairwise distinct texts. */
  predicate DistinctKeyed(body: seq<Node>, marker: string, tables: map<string, Table>) {
    forall i, j :: 0 <= i < j < |body| && Keyed(body[i], marker, tables) ==> body[j] != body[i]
  }

  /**
   * When no two keyed paragraphs share a text, the replacement is in place:
   * the body keeps its length, each keyed paragraph becomes the table filed
   * under its text, and every other node stays where it was.
   */
  lemma ReplacedInPlace(body: seq<Node>, marker: string, tables: map<string, Table>)
    requires DistinctKeyed(body, marker, tables)
    ensures var r := Replaced(body, marker, tables);
            && |r| == |body|
            && forall i :: 0 <= i < |body| ==>
                 r[i] == if Keyed(body[i], marker, tables) then Tbl(tables[body[i].text]) else body[i]
  {
    var s := Slots(body, marker, tables, |body|);
    assert forall i :: 0 <= i < |body| ==> s[i].Some?;
    SomesAllSome(s);
  }

  /** A body without a keyed paragraph comes back unchanged. */
  lemma ReplacedNothingKeyed(body: seq<Node>, marker: string, tables: map<string, Table>)
    requires forall i :: 0 <= i < |body| ==> !Keyed(body[i], marker, tables)
    ensures Replaced(body, marker, tables) == body
  {
    ReplacedInPlace(body, marker, tables);
  }

  /**
   * Two keyed paragraphs with the same text: the earlier one disappears
   * from the body, and the table ends at the last of them.
   */
  lemma ReplacedMoves(body: seq<Node>, marker: string, tables: map<string, Table>, i: nat, j: nat)
    requires i < j < |body| && body[i] == body[j] && Keyed(body[i], marker, tables)
    ensures Slots(body, marker, tables, |body|)[i].None?
    ensures (forall j' :: j < j' < |body| ==> body[j'] != body[j]) ==>
              Slots(body, marker, tables, |body|)[j] == Some(Tbl(tables[body[j].text]))
  {
    assert body[j] == body[i];
  }

  // --------------------------------------------------------------- merge

  /** The merge of two parsed documents: the main document with its grown relationship table and replaced body. */
  function Merge(main: Document, side: Document, marker: string): (r: Document)
    requires UniqueIds(main.rels)
  {
    var (rels, relMap) := CopyHyperlinkRels(side.rels, main.rels, map[]);
    Document(Replaced(main.body, marker, TablesToInsert(side.body, relMap)), rels)
  }

  /**
   * The merged document keeps the main part's relationships, adds only
   * hyperlink ones, and keeps every node of the main body when no
   * paragraph there both carries the marker and names a filed heading.
   */
  lemma MergeKeeps(main: Document, side: Document, marker: string)
    requires UniqueIds(main.rels) && UniqueIds(side.rels)
    ensures var r := Merge(main, side, marker);
            && main.rels <= r.rels && UniqueIds(r.rels)
            && (forall k :: |main.rels| <= k < |r.rels| ==> r.rels[k].rel.relType == HyperlinkType)
            && ((forall i :: 0 <= i < |main.body| ==> !Keyed(main.body[i], marker, TablesToInsert(side.body, CopyHyperlinkRels(side.rels, main.rels, map[]).1)))
                ==> r.body == main.body)
  {
    var tables := TablesToInsert(side.body, CopyHyperlinkRels(side.rels, main.rels, map[]).1);
    if forall i :: 0 <= i < |main.body| ==> !Keyed(main.body[i], marker, tables) {
      ReplacedNothingKeyed(main.body, marker, tables);
    }
  }

  /** Both documents parse with relationship tables keyed uniquely, as python-docx reads them into dictionaries. */
  ghost predicate ParsesUniquely<E>(parse: Bytes -> Result<Document, E>) {
    forall b :: parse(b).Success? ==> UniqueIds(parse(b).value.rels)
  }

  /**
   * `merge_word_docs_with_tables` with parsing and saving as parameters: a
   * parse error of the main document, else of the table document, is the
   * result; otherwise the saved merge.
   */
  function MergeWordDocsWithTables<E>(parse: Bytes -> Result<Document, E>, serialize: Document -> Bytes,
                                      mainData: Bytes, tableData: Bytes, marker: string): (r: Result<Bytes, E>)
    requires ParsesUniquely(parse)
    ensures parse(mainData).Failure? ==> r == Failure(parse(mainData).error)
    ensures parse(mainData).Success? && parse(tableData).Failure? ==> r == Failure(parse(tableData).error)
    ensures r.Success? <==> parse(mainData).Success? && parse(tableData).Success?
    ensures r.Success? ==> r.value == serialize(Merge(parse(mainData).value, parse(tableData).value, marker))
  {
    var main :- parse(mainData);
    var side :- parse(tableData);
    Success(serialize(Merge(main, side, marker)))
  }

  /** `merge_documents`: the merge with the default marker; an error propagates unchanged. */
  function MergeDocuments<E>(parse: Bytes -> Result<Document, E>, serialize: Document -> Bytes,
                             docData: Bytes, tableData: Bytes): (r: Result<Bytes, E>)
    requires ParsesUniquely(parse)
    ensures r.Failure? <==> parse(docData).Failure? || parse(tableData).Failure?
    ensures parse(docData).Failure? ==> r == Failure(parse(docData).error)
    ensures parse(docData).Success? && parse(tableData).Failure? ==> r == Failure(parse(tableData).error)
    ensures r.Success? ==> r.value == serialize(Merge(parse(docData).value, parse(tableData).value, DefaultMarker))
  {
    MergeWordDocsWithTables(parse, serialize, docData, tableData, DefaultMarker)
  }
}
