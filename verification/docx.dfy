/**
 * The part of a Word document the table merge looks at: the body as a
 * sequence of top-level nodes, the tables' paragraphs with their hyperlinks
 * and numbering properties, and the relationship table of the main part.
 *
 * XML parsing, deep copies and serialisation belong to python-docx and lxml
 * and are not part of this model; a node here is already the parsed value.
 */
module Docx {
  import opened Wrappers
  import opened Text

  /** The relationship type `merge_word_docs_with_tables` copies. */
  const HyperlinkType: string := "http://schemas.openxmlformats.org/officeDocument/2006/relationships/hyperlink"

  /** A relationship: its type, its target (a URL for external ones) and whether it is external. */
  datatype Rel = Rel(relType: string, target: string, isExternal: bool)

  /** One entry of a part's relationship table, keyed by its `rId`. */
  datatype RelEntry = RelEntry(id: string, rel: Rel)

  /** A relationship table keeps its keys unique, as the dictionary it is. */
  predicate UniqueIds(rels: seq<RelEntry>) {
    forall i, j :: 0 <= i < j < |rels| ==> rels[i].id != rels[j].id
  }

  function IdsOf(rels: seq<RelEntry>): set<string> {
    set e | e in rels :: e.id
  }

  /** `rels[id]`, or `None` for a missing key. */
  function Lookup(rels: seq<RelEntry>, id: string): (r: Option<Rel>)
    ensures r.None? <==> id !in IdsOf(rels)
    ensures r.Some? ==> RelEntry(id, r.value) in rels
  {
    if |rels| == 0 then None
    else if rels[0].id == id then Some(rels[0].rel)
    else Lookup(rels[1..], id)
  }

  /**
   * A `w:numPr` in a table paragraph: the `w:val` of each `w:ilvl` and
   * each `w:numId` found under it, in document order.
   */
  datatype NumPr = NumPr(ilvl: seq<string>, numId: seq<string>)

  /** A `w:hyperlink`: its `r:id` attribute, if it has one, and its text. */
  datatype Hyperlink = Hyperlink(rId: Option<string>, text: string)

  /** A `w:p` inside a table, with the hyperlinks and numbering properties under it. */
  datatype TablePara = TablePara(text: string, links: seq<Hyperlink>, numPrs: seq<NumPr>)

  /** A `w:tbl`, as the paragraphs in its cells, in document order. */
  datatype Table = Table(paras: seq<TablePara>)

  /** A child of `w:body`: a paragraph (tag ending in `p`), a table (tag ending in `tbl`), or anything else. */
  datatype Node = Para(text: string) | Tbl(table: Table) | Other

  /** A document: its body and the relationship table of its main part. */
  datatype Document = Document(body: seq<Node>, rels: seq<RelEntry>)

  /** A lookup into a table with unique keys finds the entry holding that key. */
  lemma LookupEntry(rels: seq<RelEntry>, k: nat)
    requires UniqueIds(rels) && k < |rels|
    ensures Lookup(rels, rels[k].id) == Some(rels[k].rel)
  {
    if k > 0 {
      assert rels[0].id != rels[k].id;
      LookupEntry(rels[1..], k - 1);
    }
  }

  /** Appending entries does not change what an existing key resolves to. */
  lemma {:induction false} LookupExtend(rels: seq<RelEntry>, more: seq<RelEntry>, id: string)
    requires id in IdsOf(rels)
    ensures Lookup(rels + more, id) == Lookup(rels, id)
  {
    if rels[0].id != id {
      assert (rels + more)[1..] == rels[1..] + more;
      assert id in IdsOf(rels[1..]) by {
        var e :| e in rels && e.id == id;
        var k :| 0 <= k < |rels| && rels[k] == e;
        assert rels[1..][k - 1] == e;
      }
      LookupExtend(rels[1..], more, id);
    }
  }
}

/**
 * python-docx's `Part.relate_to(target, reltype, is_external)`: return the
 * id of an existing relationship with the same type, target and
 * externality, or add one under the first unused id `rId1`, `rId2`, ...
 */
module Relationships {
  import opened Wrappers
  import opened Text
  import opened Docx

  /** The `n`-th candidate id, `"rId%d" % n`. */
  function Candidate(n: nat): string {
    "rId" + NatToString(n)
  }

  lemma CandidateInjective(a: nat, b: nat)
    requires Candidate(a) == Candidate(b)
    ensures a == b
  {
    assert NatToString(a) == Candidate(a)[3..];
    assert NatToString(b) == Candidate(b)[3..];
    NatToStringInjective(a, b);
  }

  /** The candidates `1..n`. */
  function Candidates(n: nat): set<string> {
    set k | 1 <= k <= n :: Candidate(k)
  }

  lemma {:induction false} CandidatesSize(n: nat)
    ensures |Candidates(n)| == n
  {
    if n > 0 {
      CandidatesSize(n - 1);
      assert Candidates(n) == Candidates(n - 1) + {Candidate(n)};
      forall k | 1 <= k <= n - 1 ensures Candidate(k) != Candidate(n) {
        if Candidate(k) == Candidate(n) {
          CandidateInjective(k, n);
        }
      }
      assert Candidate(n) !in Candidates(n - 1);
    }
  }

  lemma {:induction false} IdsSize(rels: seq<RelEntry>)
    ensures |IdsOf(rels)| <= |rels|
  {
    if |rels| > 0 {
      IdsSize(rels[1..]);
      assert IdsOf(rels) == IdsOf(rels[1..]) + {rels[0].id};
    }
  }

  lemma SubsetSize(a: set<string>, b: set<string>)
    requires a <= b
    ensures |a| <= |b|
  {
    assert b == a + (b - a);
  }

  /** A table of `n` entries cannot hold all of the first `n + 1` candidates. */
  lemma Pigeonhole(rels: seq<RelEntry>)
    ensures exists k :: 1 <= k <= |rels| + 1 && Candidate(k) !in IdsOf(rels)
  {
    var n := |rels| + 1;
    if forall k :: 1 <= k <= n ==> Candidate(k) in IdsOf(rels) {
      assert Candidates(n) <= IdsOf(rels);
      SubsetSize(Candidates(n), IdsOf(rels));
      CandidatesSize(n);
      IdsSize(rels);
    }
  }

  /** The first unused candidate from `n` on. */
  function FirstFree(rels: seq<RelEntry>, n: nat): (r: nat)
    requires 1 <= n <= |rels| + 1
    requires forall k :: 1 <= k < n ==> Candidate(k) in IdsOf(rels)
    ensures n <= r <= |rels| + 1 && Candidate(r) !in IdsOf(rels)
    ensures forall k :: 1 <= k < r ==> Candidate(k) in IdsOf(rels)
    decreases |rels| + 1 - n
  {
    if Candidate(n) !in IdsOf(rels) then n
    else if n == |rels| + 1 then
      Pigeonhole(rels);
      assert false;
      n
    else FirstFree(rels, n + 1)
  }

  /** `_next_rId`: the smallest `n >= 1` whose `rId<n>` is unused. */
  function NextRId(rels: seq<RelEntry>): (r: string)
    ensures r !in IdsOf(rels)
    ensures exists n :: 1 <= n <= |rels| + 1 && r == Candidate(n) && forall k :: 1 <= k < n ==> Candidate(k) in IdsOf(rels)
  {
    Candidate(FirstFree(rels, 1))
  }

  /** `_get_matching`: the id of the first entry with this type, externality and target. */
  function Matching(rels: seq<RelEntry>, rel: Rel): (r: Option<string>)
    ensures r.None? <==> forall e :: e in rels ==> e.rel != rel
    ensures r.Some? ==> RelEntry(r.value, rel) in rels
  {
    if |rels| == 0 then None
    else if rels[0].rel == rel then Some(rels[0].id)
    else Matching(rels[1..], rel)
  }

  /**
   * `relate_to`: the new relationship table and the returned id. The id
   * resolves to the requested relationship; the table keeps unique keys and
   * its existing entries, and grows by at most one entry, `rel` under a
   * fresh id.
   */
  function RelateTo(rels: seq<RelEntry>, rel: Rel): (r: (seq<RelEntry>, string))
    requires UniqueIds(rels)
    ensures Lookup(r.0, r.1) == Some(rel) && UniqueIds(r.0)
    ensures r.0 == rels || (r.0 == rels + [RelEntry(r.1, rel)] && r.1 !in IdsOf(rels))
  {
    match Matching(rels, rel)
    case Some(id) =>
      MatchingResolves(rels, rel, id);
      (rels, id)
    case None =>
      var id := NextRId(rels);
      AppendFresh(rels, RelEntry(id, rel));
      (rels + [RelEntry(id, rel)], id)
  }

  lemma MatchingResolves(rels: seq<RelEntry>, rel: Rel, id: string)
    requires UniqueIds(rels) && RelEntry(id, rel) in rels
    ensures Lookup(rels, id) == Some(rel)
  {
    var k :| 0 <= k < |rels| && rels[k] == RelEntry(id, rel);
    LookupEntry(rels, k);
  }

  /** An entry under a fresh id keeps the keys unique and resolves. */
  lemma AppendFresh(rels: seq<RelEntry>, e: RelEntry)
    requires UniqueIds(rels) && e.id !in IdsOf(rels)
    ensures UniqueIds(rels + [e]) && Lookup(rels + [e], e.id) == Some(e.rel)
  {
    var rels' := rels + [e];
    forall i, j | 0 <= i < j < |rels'| ensures rels'[i].id != rels'[j].id {
      if j == |rels| {
        assert rels[i] in rels;
      }
    }
    LookupEntry(rels', |rels|);
  }

  /** The hyperlink entries of a relationship table. */
  function HyperlinkIds(rels: seq<RelEntry>): set<string> {
    set e | e in rels && e.rel.relType == HyperlinkType :: e.id
  }

  /**
   * The first loop of `merge_word_docs_with_tables`: each hyperlink
   * relationship of the side document, in order, is related to the main
   * part, and its side id is mapped to the id `relate_to` returns.
   */
  function CopyHyperlinkRels(side: seq<RelEntry>, main: seq<RelEntry>, relMap: map<string, string>): (r: (seq<RelEntry>, map<string, string>))
    requires UniqueIds(main)
    ensures UniqueIds(r.0) && main <= r.0
    ensures forall k :: |main| <= k < |r.0| ==> r.0[k].rel.relType == HyperlinkType
    decreases |side|
  {
    if |side| == 0 then (main, relMap)
    else if side[0].rel.relType == HyperlinkType then
      var r := RelateTo(main, side[0].rel);
      CopyHyperlinkRels(side[1..], r.0, relMap[side[0].id := r.1])
    else CopyHyperlinkRels(side[1..], main, relMap)
  }

  /** The map's keys are the ones it had plus exactly the side's hyperlink ids. */
  lemma {:induction false} CopyKeys(side: seq<RelEntry>, main: seq<RelEntry>, relMap: map<string, string>)
    requires UniqueIds(main)
    ensures CopyHyperlinkRels(side, main, relMap).1.Keys == relMap.Keys + HyperlinkIds(side)
    decreases |side|
  {
    if |side| > 0 {
      assert HyperlinkIds(side) == HyperlinkIds(side[1..]) + (if side[0].rel.relType == HyperlinkType then {side[0].id} else {}) by {
        assert side == [side[0]] + side[1..];
      }
      if side[0].rel.relType == HyperlinkType {
        var r := RelateTo(main, side[0].rel);
        CopyKeys(side[1..], r.0, relMap[side[0].id := r.1]);
      } else {
        CopyKeys(side[1..], main, relMap);
      }
    }
  }

  /** Every mapped id resolves, in the grown main table, to the side relationship it came from. */
  /** Every key of `relMap` names a relationship of `src` that its value names in `main`. */
  ghost predicate MapResolves(relMap: map<string, string>, main: seq<RelEntry>, src: seq<RelEntry>) {
    forall id :: id in relMap ==> Lookup(src, id).Some? && Lookup(main, relMap[id]) == Lookup(src, id)
  }

  lemma {:induction false} CopyResolves(side: seq<RelEntry>, main: seq<RelEntry>, relMap: map<string, string>, src: seq<RelEntry>)
    requires UniqueIds(main) && UniqueIds(src) && forall e :: e in side ==> e in src
    requires MapResolves(relMap, main, src)
    ensures var r := CopyHyperlinkRels(side, main, relMap);
            MapResolves(r.1, r.0, src)
    decreases |side|
  {
    if |side| > 0 {
      var e := side[0];
      if e.rel.relType == HyperlinkType {
        var r := RelateTo(main, e.rel);
        assert e in side;
        StepResolves(main, relMap, src, e);
        CopyResolves(side[1..], r.0, relMap[e.id := r.1], src);
      } else {
        CopyResolves(side[1..], main, relMap, src);
      }
    }
  }

  /** One copied entry extends the invariant of `CopyResolves` to its own id. */
  lemma StepResolves(main: seq<RelEntry>, relMap: map<string, string>, src: seq<RelEntry>, e: RelEntry)
    requires UniqueIds(main) && UniqueIds(src) && e in src
    requires MapResolves(relMap, main, src)
    ensures var r := RelateTo(main, e.rel);
            MapResolves(relMap[e.id := r.1], r.0, src)
  {
    var r := RelateTo(main, e.rel);
    var k :| 0 <= k < |src| && src[k] == e;
    LookupEntry(src, k);
    forall x | x in relMap && x != e.id ensures Lookup(r.0, relMap[x]) == Lookup(src, x) {
      KeepsResolving(main, r.0, relMap[x]);
    }
  }

  /** An id that resolves keeps resolving the same way once a table grows at its end. */
  lemma KeepsResolving(main: seq<RelEntry>, main': seq<RelEntry>, id: string)
    requires main <= main' && Lookup(main, id).Some?
    ensures Lookup(main', id) == Lookup(main, id)
  {
    assert main' == main + main'[|main|..];
    LookupExtend(main, main'[|main|..], id);
  }

  /**
   * `rel_map` as the merge builds it: keyed by exactly the side document's
   * hyperlink ids, each resolving in the main part to the relationship it
   * named in the side document; the main part keeps its relationships and
   * gains only hyperlink ones.
   */
  lemma RelMapSpec(side: seq<RelEntry>, main: seq<RelEntry>)
    requires UniqueIds(side) && UniqueIds(main)
    ensures var (main', relMap) := CopyHyperlinkRels(side, main, map[]);
            && relMap.Keys == HyperlinkIds(side)
            && (forall id :: id in relMap ==> Lookup(main', relMap[id]) == Lookup(side, id))
            && main <= main'
            && (forall k :: |main| <= k < |main'| ==> main'[k].rel.relType == HyperlinkType)
  {
    CopyKeys(side, main, map[]);
    CopyResolves(side, main, map[], side);
  }
}
