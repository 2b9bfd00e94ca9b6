/**
 * `process_internal_links`: `re.sub` of `\(/.*?([^/]*?)\.md(#(?:.*?))?\)` by
 * `(<base_url>/\1\2)`, with the regular expression written out as a
 * backtracking scanner that tries alternatives in the engine's order: the lazy
 * `.*?` and `[^/]*?` grow one character at a time, shortest first, and the
 * optional group 2 is tried before it is skipped. Without DOTALL, `.` never
 * crosses a newline, but the class `[^/]` does.
 */
module InternalLinks {
  import opened Wrappers
  import opened Text

  /** A match: group 1 is `s[nameStart..nameEnd]`, group 2 is `fragment`, the match ends before `end`. */
  datatype LinkMatch = LinkMatch(nameStart: nat, nameEnd: nat, fragment: string, end: nat)

  /** Lazy `.*?` followed by `\)` from index `k`: the first `)`, provided no newline comes before it. */
  function CloseParen(s: string, k: nat): (r: Option<nat>)
    ensures r.Some? ==> k <= r.value < |s| && s[r.value] == ')'
    decreases |s| - k
  {
    if k >= |s| then None
    else if s[k] == ')' then Some(k)
    else if s[k] == '\n' then None
    else CloseParen(s, k + 1)
  }

  /** The `)` that `CloseParen` finds has neither `)` nor a newline before it. */
  lemma {:induction false} CloseParenFirst(s: string, k: nat)
    requires CloseParen(s, k).Some?
    ensures forall i :: k <= i < CloseParen(s, k).value ==> s[i] != ')' && s[i] != '\n'
    decreases |s| - k
  {
    if s[k] != ')' {
      CloseParenFirst(s, k + 1);
    }
  }

  /** When `CloseParen` fails, a newline stands before every later `)`. */
  lemma {:induction false} CloseParenNone(s: string, k: nat)
    requires CloseParen(s, k).None?
    ensures forall c :: k <= c < |s| && s[c] == ')' ==> exists i :: k <= i < c && s[i] == '\n'
    decreases |s| - k
  {
    if k < |s| && s[k] != '\n' {
      CloseParenNone(s, k + 1);
      forall c | k <= c < |s| && s[c] == ')' ensures exists i :: k <= i < c && s[i] == '\n' {
        assert c != k;
        var i :| k + 1 <= i < c && s[i] == '\n';
      }
    } else if k < |s| {
      forall c | k <= c < |s| && s[c] == ')' ensures exists i :: k <= i < c && s[i] == '\n' {
        assert s[k] == '\n';
      }
    }
  }

  /**
   * `\.md(#(?:.*?))?\)` at index `q`: group 2 is attempted first and, when it
   * cannot close, skipped. Yields group 2's text ("" when skipped) and the
   * index after `)`.
   */
  function TailAt(s: string, q: nat): Option<(string, nat)> {
    if !OccursAt(s, ".md", q) then None
    else
      var r := q + 3;
      if r < |s| && s[r] == '#' && CloseParen(s, r + 1).Some? then
        var c := CloseParen(s, r + 1).value;
        Some((s[r..c], c + 1))
      else if r < |s| && s[r] == ')' then Some(([], r + 1))
      else None
  }

  /** Group 1 `[^/]*?` from index `j`: the first end, not past a slash, where the tail matches. */
  function NameEnd(s: string, j: nat): (r: Option<(nat, string, nat)>)
    ensures r.Some? ==> j <= r.value.0 && TailAt(s, r.value.0) == Some((r.value.1, r.value.2))
    decreases |s| - j
  {
    match TailAt(s, j)
    case Some(t) => Some((j, t.0, t.1))
    case None => if j < |s| && s[j] != '/' then NameEnd(s, j + 1) else None
  }

  /** Before the end `NameEnd` finds there is no slash and no index where the tail matches. */
  lemma {:induction false} NameEndFirst(s: string, j: nat)
    requires NameEnd(s, j).Some?
    ensures forall i :: j <= i < NameEnd(s, j).value.0 ==> s[i] != '/' && TailAt(s, i).None?
    decreases |s| - j
  {
    if TailAt(s, j).None? {
      NameEndFirst(s, j + 1);
    }
  }

  /** When `NameEnd` fails, a slash stands before every later index where the tail matches. */
  lemma {:induction false} NameEndNone(s: string, j: nat)
    requires NameEnd(s, j).None?
    ensures forall b :: j <= b && TailAt(s, b).Some? ==> exists i :: j <= i < b && s[i] == '/'
    decreases |s| - j
  {
    if j < |s| && s[j] != '/' {
      NameEndNone(s, j + 1);
      forall b | j <= b && TailAt(s, b).Some? ensures exists i :: j <= i < b && s[i] == '/' {
        assert b != j;
        var i :| j + 1 <= i < b && s[i] == '/';
      }
    } else {
      forall b | j <= b && TailAt(s, b).Some? ensures exists i :: j <= i < b && s[i] == '/' {
        assert OccursAt(s, ".md", b);
        assert s[j] == '/';
      }
    }
  }

  /** The `.*?` after `(/`, from index `g`: the first group-1 start, not past a newline, that leads to a match. */
  function PathSearch(s: string, g: nat): (r: Option<LinkMatch>)
    ensures r.Some? ==> g <= r.value.nameStart
    ensures r.Some? ==> NameEnd(s, r.value.nameStart) == Some((r.value.nameEnd, r.value.fragment, r.value.end))
    decreases |s| - g
  {
    match NameEnd(s, g)
    case Some(n) => Some(LinkMatch(g, n.0, n.1, n.2))
    case None => if g < |s| && s[g] != '\n' then PathSearch(s, g + 1) else None
  }

  /** Before the start `PathSearch` finds there is no newline and no index where group 1 can match. */
  lemma {:induction false} PathSearchFirst(s: string, g: nat)
    requires PathSearch(s, g).Some?
    ensures forall i :: g <= i < PathSearch(s, g).value.nameStart ==> s[i] != '\n' && NameEnd(s, i).None?
    decreases |s| - g
  {
    if NameEnd(s, g).None? {
      PathSearchFirst(s, g + 1);
    }
  }

  /** When the path search fails, every later group-1 start that could match lies past a newline. */
  lemma {:induction false} PathSearchExhaustive(s: string, g: nat)
    requires PathSearch(s, g).None?
    ensures forall a :: g <= a && NameEnd(s, a).Some? ==> exists i :: g <= i < a && s[i] == '\n'
    decreases |s| - g
  {
    if g < |s| && s[g] != '\n' {
      PathSearchExhaustive(s, g + 1);
      forall a | g <= a && NameEnd(s, a).Some? ensures exists i :: g <= i < a && s[i] == '\n' {
        assert a != g;
        var i :| g + 1 <= i < a && s[i] == '\n';
      }
    } else {
      forall a | g <= a && NameEnd(s, a).Some? ensures exists i :: g <= i < a && s[i] == '\n' {
        var n := NameEnd(s, a).value;
        assert OccursAt(s, ".md", n.0);
        assert s[g] == '\n';
      }
    }
  }

  /** The regular expression tried at index `p`. */
  function MatchAt(s: string, p: nat): (r: Option<LinkMatch>)
    ensures r.Some? ==> p + 2 <= r.value.nameStart <= r.value.nameEnd
    ensures r.Some? ==> r.value.nameEnd + 4 <= r.value.end <= |s|
  {
    if OccursAt(s, "(/", p) then
      var r := PathSearch(s, p + 2);
      if r.Some? then
        var m := r.value;
        assert OccursAt(s, ".md", m.nameEnd);
        r
      else r
    else None
  }

  /** The replacement text `(<base>/\1\2)` for one match. */
  function Replacement(s: string, base: string, m: LinkMatch): string
    requires m.nameStart <= m.nameEnd <= |s|
  {
    "(" + base + "/" + s[m.nameStart..m.nameEnd] + m.fragment + ")"
  }

  /** `re.sub` from index `i`: a match is replaced and scanning resumes after it; otherwise one character is copied. */
  function Substitute(s: string, base: string, i: nat): string
    decreases |s| - i
  {
    if i >= |s| then []
    else
      match MatchAt(s, i)
      case Some(m) => Replacement(s, base, m) + Substitute(s, base, m.end)
      case None => [s[i]] + Substitute(s, base, i + 1)
  }

  /**
   * `process_internal_links(content, base_url)`: trailing slashes are
   * stripped from the base URL, then every match is rewritten. Text without
   * `(/` is returned unchanged.
   */
  function ProcessInternalLinks(content: string, baseUrl: string): (r: string)
    requires '\\' !in baseUrl
    ensures (forall i :: !OccursAt(content, "(/", i)) ==> r == content
  {
    assert (forall i :: !OccursAt(content, "(/", i)) ==> Substitute(content, TrimEndChar(baseUrl, '/'), 0) == content by {
      if forall i :: !OccursAt(content, "(/", i) {
        NoLinkUnchanged(content, TrimEndChar(baseUrl, '/'), 0);
        assert content[0..] == content;
      }
    }
    Substitute(content, TrimEndChar(baseUrl, '/'), 0)
  }

  /** Without `(/` from index `i` on, substitution copies the rest of the text. */
  lemma {:induction false} NoLinkUnchanged(s: string, base: string, i: nat)
    requires forall k :: !OccursAt(s, "(/", k)
    ensures i <= |s| ==> Substitute(s, base, i) == s[i..]
    decreases |s| - i
  {
    if i < |s| {
      CopyStep(s, base, i);
      NoLinkUnchanged(s, base, i + 1);
      assert [s[i]] + s[i + 1..] == s[i..];
    }
  }

  /** Where no `(/` starts, substitution copies one character. */
  lemma CopyStep(s: string, base: string, i: nat)
    requires i < |s| && !OccursAt(s, "(/", i)
    ensures Substitute(s, base, i) == [s[i]] + Substitute(s, base, i + 1)
  {
    assert MatchAt(s, i) == None;
  }

  /** No `(/` starts in `s[i..k]`. */
  predicate NoLinkStart(s: string, i: nat, k: nat) {
    forall j :: i <= j < k ==> !OccursAt(s, "(/", j)
  }

  lemma ConsSlice(s: string, i: nat, k: nat, x: string)
    requires i < k <= |s|
    ensures [s[i]] + (s[i + 1..k] + x) == s[i..k] + x
  {
    assert [s[i]] + s[i + 1..k] == s[i..k];
  }

  /** Where the pattern matches, substitution emits the replacement and resumes after the match. */
  lemma MatchStep(s: string, base: string, p: nat, m: LinkMatch)
    requires MatchAt(s, p) == Some(m)
    ensures Substitute(s, base, p) == Replacement(s, base, m) + Substitute(s, base, m.end)
  {
  }

  /** Where the pattern does not match, substitution copies one character. */
  lemma NoMatchStep(s: string, base: string, i: nat)
    requires i < |s| && MatchAt(s, i).None?
    ensures Substitute(s, base, i) == [s[i]] + Substitute(s, base, i + 1)
  {
  }

  /** Text before the first `(/` is copied unchanged. */
  lemma {:induction false} SubstituteSkips(s: string, base: string, i: nat, k: nat)
    requires i <= k <= |s| && NoLinkStart(s, i, k)
    ensures Substitute(s, base, i) == s[i..k] + Substitute(s, base, k)
    decreases k - i
  {
    if i < k {
      CopyStep(s, base, i);
      SubstituteSkips(s, base, i + 1, k);
      ConsSlice(s, i, k, Substitute(s, base, k));
    }
  }

  // ------------------------------------------------------- regex semantics

  /** No newline in `s[lo..hi]`. */
  predicate NoNewline(s: string, lo: nat, hi: nat) {
    forall i :: lo <= i < hi && i < |s| ==> s[i] != '\n'
  }

  /** No slash in `s[lo..hi]`. */
  predicate NoSlash(s: string, lo: nat, hi: nat) {
    forall i :: lo <= i < hi && i < |s| ==> s[i] != '/'
  }

  /**
   * `m` is SOME way the pattern can match at `p`, ignoring which one the
   * engine prefers: `(/`, a newline-free path, a slash-free group 1, `.md`,
   * then either `)` (group 2 skipped) or `#`, newline-free text and `)`.
   */
  predicate IsMatch(s: string, p: nat, m: LinkMatch) {
    && OccursAt(s, "(/", p)
    && p + 2 <= m.nameStart <= m.nameEnd
    && NoNewline(s, p + 2, m.nameStart)
    && NoSlash(s, m.nameStart, m.nameEnd)
    && OccursAt(s, ".md", m.nameEnd)
    && m.end == m.nameEnd + 3 + |m.fragment| + 1 <= |s|
    && s[m.end - 1] == ')'
    && s[m.nameEnd + 3..m.end - 1] == m.fragment
    && (m.fragment == [] || (m.fragment[0] == '#' && NoNewline(s, m.nameEnd + 4, m.end - 1)))
  }

  /**
   * The engine's preference between two matches at one index: a shorter
   * path first, then a shorter group 1, then group 2 taken over skipped,
   * then a shorter group 2.
   */
  predicate Prefers(a: LinkMatch, b: LinkMatch) {
    || a.nameStart < b.nameStart
    || (a.nameStart == b.nameStart && a.nameEnd < b.nameEnd)
    || (a.nameStart == b.nameStart && a.nameEnd == b.nameEnd && a.fragment != [] && b.fragment == [])
    || (a.nameStart == b.nameStart && a.nameEnd == b.nameEnd && a.fragment != [] && b.fragment != []
        && |a.fragment| < |b.fragment|)
  }

  /** The tail found by `TailAt` is a way the tail can match. */
  lemma TailAtSound(s: string, q: nat, m: LinkMatch)
    requires m.nameEnd == q && TailAt(s, q) == Some((m.fragment, m.end))
    ensures OccursAt(s, ".md", q) && m.end == q + 3 + |m.fragment| + 1 <= |s|
    ensures s[m.end - 1] == ')' && s[q + 3..m.end - 1] == m.fragment
    ensures m.fragment == [] || (m.fragment[0] == '#' && NoNewline(s, q + 4, m.end - 1))
  {
    if m.fragment != [] {
      CloseParenFirst(s, q + 4);
    }
  }

  /** Every way the tail can match at `q` is found by `TailAt` or is less preferred than what it finds. */
  lemma TailAtComplete(s: string, p: nat, m: LinkMatch)
    requires IsMatch(s, p, m)
    ensures TailAt(s, m.nameEnd).Some?
    ensures var t := TailAt(s, m.nameEnd).value;
            t.0 == m.fragment || (t.0 != [] && (m.fragment == [] || |t.0| < |m.fragment|))
  {
    var r := m.nameEnd + 3;
    if m.fragment != [] {
      assert s[r] == '#' by { assert s[r] == s[r..m.end - 1][0]; }
      var close := m.end - 1;
      forall i | r + 1 <= i < close ensures s[i] != '\n' {
      }
      if CloseParen(s, r + 1).None? {
        CloseParenNone(s, r + 1);
      } else {
        CloseParenFirst(s, r + 1);
      }
    }
  }

  /** A slash-free stretch ending where the tail matches is found by the group-1 search. */
  lemma NameEndFinds(s: string, j: nat, b: nat)
    requires j <= b && NoSlash(s, j, b) && TailAt(s, b).Some?
    ensures NameEnd(s, j).Some?
  {
    if NameEnd(s, j).None? {
      NameEndNone(s, j);
    }
  }

  /** A newline-free stretch ending where group 1 can match is found by the path search. */
  lemma PathSearchFinds(s: string, g: nat, a: nat)
    requires g <= a && NoNewline(s, g, a) && NameEnd(s, a).Some?
    ensures PathSearch(s, g).Some?
  {
    if PathSearch(s, g).None? {
      PathSearchExhaustive(s, g);
    }
  }

  /**
   * `MatchAt` implements the regular expression: what it returns is a match
   * and no match at that index is preferred to it; when it returns nothing,
   * the pattern cannot match there at all.
   */
  lemma MatchAtIsPreferredMatch(s: string, p: nat)
    ensures MatchAt(s, p).Some? ==> IsMatch(s, p, MatchAt(s, p).value)
    ensures MatchAt(s, p).Some? ==>
              forall m :: IsMatch(s, p, m) ==> m == MatchAt(s, p).value || !Prefers(m, MatchAt(s, p).value)
    ensures MatchAt(s, p).None? ==> forall m :: !IsMatch(s, p, m)
  {
    var r := MatchAt(s, p);
    if r.Some? {
      var w := r.value;
      MatchAtSound(s, p, w);
      forall m | IsMatch(s, p, m) ensures m == w || !Prefers(m, w) {
        PreferredOver(s, p, m, w);
      }
    } else {
      forall m | IsMatch(s, p, m) ensures false {
        TailAtComplete(s, p, m);
        NameEndFinds(s, m.nameStart, m.nameEnd);
        PathSearchFinds(s, p + 2, m.nameStart);
      }
    }
  }

  /** What `MatchAt` returns is a match. */
  lemma MatchAtSound(s: string, p: nat, w: LinkMatch)
    requires MatchAt(s, p) == Some(w)
    ensures IsMatch(s, p, w)
  {
    TailAtSound(s, w.nameEnd, w);
    PathSearchFirst(s, p + 2);
    NameEndFirst(s, w.nameStart);
  }

  /** The match `MatchAt` returns is preferred to every other match at that index. */
  lemma PreferredOver(s: string, p: nat, m: LinkMatch, w: LinkMatch)
    requires IsMatch(s, p, m) && MatchAt(s, p) == Some(w)
    ensures m == w || !Prefers(m, w)
  {
    TailAtComplete(s, p, m);
    TailAtSound(s, w.nameEnd, w);
    PathSearchFirst(s, p + 2);
    NameEndFirst(s, w.nameStart);
    if m.nameStart < w.nameStart {
      NameEndFinds(s, m.nameStart, m.nameEnd);
    }
  }

  // ------------------------------------------------------ well-formed links

  /** The group-1 search stops at the first index where the tail matches, if no slash comes before it. */
  lemma {:induction false} NameEndIs(s: string, j: nat, b: nat)
    requires j <= b && NoSlash(s, j, b) && TailAt(s, b).Some?
    requires forall i :: j <= i < b ==> TailAt(s, i).None?
    ensures NameEnd(s, j) == Some((b, TailAt(s, b).value.0, TailAt(s, b).value.1))
    decreases b - j
  {
    if j < b {
      assert OccursAt(s, ".md", b);
      assert TailAt(s, j).None?;
      NameEndIs(s, j + 1, b);
    }
  }

  /** The path search stops at the first index where group 1 can match, if no newline comes before it. */
  lemma {:induction false} PathSearchIs(s: string, g: nat, a: nat)
    requires g <= a && NoNewline(s, g, a) && NameEnd(s, a).Some?
    requires forall i :: g <= i < a ==> NameEnd(s, i).None?
    ensures PathSearch(s, g) == Some(LinkMatch(a, NameEnd(s, a).value.0, NameEnd(s, a).value.1, NameEnd(s, a).value.2))
    decreases a - g
  {
    if g < a {
      assert OccursAt(s, ".md", NameEnd(s, a).value.0);
      assert NameEnd(s, g).None?;
      PathSearchIs(s, g + 1, a);
    }
  }

  /** `CloseParen` finds a `)` with neither `)` nor a newline before it. */
  lemma {:induction false} CloseParenIs(s: string, k: nat, c: nat)
    requires k <= c < |s| && s[c] == ')'
    requires forall i :: k <= i < c ==> s[i] != ')' && s[i] != '\n'
    ensures CloseParen(s, k) == Some(c)
    decreases c - k
  {
    if k < c {
      CloseParenIs(s, k + 1, c);
    }
  }

  /**
   * A well-formed internal link `(/dir/name.md)` or `(/dir/name.md#frag)`:
   * the path before the name has no newline, the name has no slash, `.md`
   * does not occur before the name's end, and the fragment has neither `)`
   * nor a newline. The pattern then matches it with group 1 the name and
   * group 2 the fragment, up to the closing `)`.
   */
  predicate WellFormedAt(s: string, p: nat, nameStart: nat, nameEnd: nat, close: nat) {
    && OccursAt(s, "(/", p) && p + 2 <= nameStart <= nameEnd
    && nameEnd + 3 <= close < |s| && s[close] == ')'
    && s[nameStart - 1] == '/'
    && NoNewline(s, p + 2, nameStart) && NoSlash(s, nameStart, nameEnd)
    && (forall i :: p + 2 <= i < nameEnd ==> !OccursAt(s, ".md", i))
    && OccursAt(s, ".md", nameEnd)
    && (close == nameEnd + 3 || (s[nameEnd + 3] == '#' && forall i :: nameEnd + 4 <= i < close ==> s[i] != ')' && s[i] != '\n'))
  }

  /** The tail of a well-formed link is matched up to its closing `)`. */
  lemma WellFormedTail(s: string, p: nat, nameStart: nat, nameEnd: nat, close: nat)
    requires WellFormedAt(s, p, nameStart, nameEnd, close)
    ensures TailAt(s, nameEnd) == Some((s[nameEnd + 3..close], close + 1))
  {
    var r := nameEnd + 3;
    if close == r {
      assert s[r..close] == [];
    } else {
      CloseParenIs(s, r + 1, close);
    }
  }

  /** Group 1 of a well-formed link is its name. */
  lemma WellFormedName(s: string, p: nat, nameStart: nat, nameEnd: nat, close: nat)
    requires WellFormedAt(s, p, nameStart, nameEnd, close)
    ensures NameEnd(s, nameStart) == Some((nameEnd, s[nameEnd + 3..close], close + 1))
  {
    WellFormedTail(s, p, nameStart, nameEnd, close);
    forall i | nameStart <= i < nameEnd ensures TailAt(s, i).None? {
      assert !OccursAt(s, ".md", i);
    }
    NameEndIs(s, nameStart, nameEnd);
  }

  /** No earlier start of group 1 can match: a slash stands between it and every `.md`. */
  lemma WellFormedPath(s: string, p: nat, nameStart: nat, nameEnd: nat, close: nat, i: nat)
    requires WellFormedAt(s, p, nameStart, nameEnd, close)
    requires p + 2 <= i < nameStart
    ensures NameEnd(s, i).None?
  {
    if NameEnd(s, i).Some? {
      NameEndFirst(s, i);
    }
  }

  lemma WellFormedLinkWith(s: string, p: nat, nameStart: nat, nameEnd: nat, close: nat, frag: string)
    requires WellFormedAt(s, p, nameStart, nameEnd, close) && s[nameEnd + 3..close] == frag
    ensures MatchAt(s, p) == Some(LinkMatch(nameStart, nameEnd, frag, close + 1))
  {
    WellFormedLink(s, p, nameStart, nameEnd, close);
  }

  lemma WellFormedLink(s: string, p: nat, nameStart: nat, nameEnd: nat, close: nat)
    requires WellFormedAt(s, p, nameStart, nameEnd, close)
    ensures MatchAt(s, p) == Some(LinkMatch(nameStart, nameEnd, s[nameEnd + 3..close], close + 1))
  {
    WellFormedSearch(s, p, nameStart, nameEnd, close);
    MatchAtIsSearch(s, p);
  }

  /** The path search of a well-formed link starts group 1 at the name. */
  lemma WellFormedSearch(s: string, p: nat, nameStart: nat, nameEnd: nat, close: nat)
    requires WellFormedAt(s, p, nameStart, nameEnd, close)
    ensures PathSearch(s, p + 2) == Some(LinkMatch(nameStart, nameEnd, s[nameEnd + 3..close], close + 1))
  {
    WellFormedName(s, p, nameStart, nameEnd, close);
    WellFormedPathAll(s, p, nameStart, nameEnd, close);
    PathSearchIs(s, p + 2, nameStart);
  }

  lemma WellFormedPathAll(s: string, p: nat, nameStart: nat, nameEnd: nat, close: nat)
    requires WellFormedAt(s, p, nameStart, nameEnd, close)
    ensures forall i :: p + 2 <= i < nameStart ==> NameEnd(s, i).None?
  {
    forall i | p + 2 <= i < nameStart ensures NameEnd(s, i).None? {
      WellFormedPath(s, p, nameStart, nameEnd, close, i);
    }
  }

  /** At an opening `(/` the match is whatever the path search finds. */
  lemma MatchAtIsSearch(s: string, p: nat)
    requires OccursAt(s, "(/", p)
    ensures MatchAt(s, p) == PathSearch(s, p + 2)
  {
  }

  // ------------------------------------------------------ one link in text

  /** No occurrence of `t` in `s` at all. */
  predicate Absent(s: string, t: string) {
    forall i :: 0 <= i < |s| ==> !OccursAt(s, t, i)
  }

  /** A string without `t`'s first character has no occurrence of `t`. */
  lemma AbsentByFirst(s: string, t: string)
    requires |t| > 0 && t[0] !in s
    ensures Absent(s, t)
  {
  }

  /** The text `pre(/dir name.md frag)post`. */
  function LinkText(pre: string, dir: string, name: string, frag: string, post: string): string {
    pre + "(/" + dir + name + ".md" + frag + ")" + post
  }

  /** The conditions under which `(/dir name.md frag)` is one well-formed link. */
  predicate LinkParts(dir: string, name: string, frag: string) {
    && (dir == [] || dir[|dir| - 1] == '/')
    && '\n' !in dir && '/' !in name
    && Absent(dir + name, ".md")
    && (frag == [] || (frag[0] == '#' && ')' !in frag && '\n' !in frag))
  }

  lemma LinkTextIsWellFormed(pre: string, dir: string, name: string, frag: string, post: string)
    requires LinkParts(dir, name, frag)
    ensures var p := |pre|;
            var ns := p + 2 + |dir|;
            var ne := ns + |name|;
            var s := LinkText(pre, dir, name, frag, post);
            WellFormedAt(s, p, ns, ne, ne + 3 + |frag|) && s[ne + 3..ne + 3 + |frag|] == frag
  {
    LinkTextHead(pre, dir, name, frag, post);
    LinkTextExtension(pre, dir, name, frag, post);
    LinkTextTail(pre, dir, name, frag, post);
    LinkTextSlices(pre, dir, name, frag, post);
  }

  lemma LinkTextMatches(pre: string, dir: string, name: string, frag: string, post: string)
    requires LinkParts(dir, name, frag)
    ensures var s := LinkText(pre, dir, name, frag, post);
            var ns := |pre| + 2 + |dir|;
            var ne := ns + |name|;
            MatchAt(s, |pre|) == Some(LinkMatch(ns, ne, frag, ne + 3 + |frag| + 1))
  {
    var s := LinkText(pre, dir, name, frag, post);
    var ns := |pre| + 2 + |dir|;
    var ne := ns + |name|;
    LinkTextIsWellFormed(pre, dir, name, frag, post);
    WellFormedLinkWith(s, |pre|, ns, ne, ne + 3 + |frag|, frag);
  }

  lemma LinkTextHead(pre: string, dir: string, name: string, frag: string, post: string)
    requires LinkParts(dir, name, frag)
    ensures var s := LinkText(pre, dir, name, frag, post);
            var p := |pre|;
            var ns := p + 2 + |dir|;
            var ne := ns + |name|;
            && ne + 3 + |frag| < |s|
            && OccursAt(s, "(/", p) && s[ns - 1] == '/' && NoNewline(s, p + 2, ns) && NoSlash(s, ns, ne)
  {
    var s := LinkText(pre, dir, name, frag, post);
    var p := |pre|;
    var ns := p + 2 + |dir|;
    var ne := ns + |name|;
    assert s[p..p + 2] == "(/";
    assert s[ns - 1] == '/' by {
      if dir != [] {
        assert s[ns - 1] == dir[|dir| - 1];
      }
    }
    forall i | p + 2 <= i < ns ensures s[i] != '\n' {
      assert s[i] == dir[i - p - 2];
    }
    forall i | ns <= i < ne ensures s[i] != '/' {
      assert s[i] == name[i - ns];
    }
  }

  lemma LinkTextExtension(pre: string, dir: string, name: string, frag: string, post: string)
    requires LinkParts(dir, name, frag)
    ensures var s := LinkText(pre, dir, name, frag, post);
            var p := |pre|;
            var ne := p + 2 + |dir| + |name|;
            && OccursAt(s, ".md", ne)
            && forall i :: p + 2 <= i < ne ==> !OccursAt(s, ".md", i)
  {
    var s := LinkText(pre, dir, name, frag, post);
    var p := |pre|;
    var ne := p + 2 + |dir| + |name|;
    var mid := dir + name;
    var head := pre + "(/";
    var rest := ".md" + frag + ")" + post;
    assert s == head + mid + rest;
    SliceInMiddle(head, mid, rest, |mid|, |mid| + 3);
    forall i | p + 2 <= i < ne ensures !OccursAt(s, ".md", i) {
      if i + 3 <= ne {
        SliceInMiddle(head, mid, rest, i - p - 2, i - p + 1);
        assert !OccursAt(mid, ".md", i - p - 2);
      } else {
        assert s[ne] == '.';
      }
    }
  }

  /** A slice of `a + m + b` that starts inside `m`, read off `m + b`. */
  lemma SliceInMiddle(a: string, m: string, b: string, i: nat, j: nat)
    requires i <= j <= |m + b|
    ensures (a + m + b)[|a| + i..|a| + j] == (m + b)[i..j]
  {
    assert a + m + b == a + (m + b);
  }

  lemma LinkTextTail(pre: string, dir: string, name: string, frag: string, post: string)
    requires LinkParts(dir, name, frag)
    ensures var s := LinkText(pre, dir, name, frag, post);
            var ne := |pre| + 2 + |dir| + |name|;
            var close := ne + 3 + |frag|;
            && close < |s| && s[close] == ')'
            && (close == ne + 3 || (s[ne + 3] == '#' && forall i :: ne + 4 <= i < close ==> s[i] != ')' && s[i] != '\n'))
  {
    var s := LinkText(pre, dir, name, frag, post);
    var ne := |pre| + 2 + |dir| + |name|;
    var close := ne + 3 + |frag|;
    assert s[close] == ')';
    if frag != [] {
      assert s[ne + 3] == frag[0];
      forall i | ne + 4 <= i < close ensures s[i] != ')' && s[i] != '\n' {
        assert s[i] == frag[i - ne - 3];
      }
    }
  }

  /**
   * In text holding one well-formed link and no other `(/`, substitution
   * rewrites exactly that link to `(<base>/name frag)` and copies the rest.
   */
  lemma RewritesOneLink(pre: string, dir: string, name: string, frag: string, post: string, base: string)
    requires LinkParts(dir, name, frag)
    requires Absent(pre, "(/") && Absent(post, "(/")
    ensures Substitute(LinkText(pre, dir, name, frag, post), base, 0)
         == pre + "(" + base + "/" + name + frag + ")" + post
  {
    var s := LinkText(pre, dir, name, frag, post);
    var m := OneLinkMatch(pre, dir, name, frag, post);
    NoOtherLink(pre, dir, name, frag, post);
    var rep := Replacement(s, base, m);
    ReplacementOf(s, base, m, name, frag);
    SubstituteAroundMatch(s, base, |pre|, m);
    assert s[..|pre|] + rep + s[m.end..] == pre + rep + post;
    Regroup(pre, "(", base, "/", name, frag, ")", post);
  }

  /** The one link in `pre(/dir name.md frag)post` is matched, with group 1 `name` and group 2 `frag`. */
  lemma OneLinkMatch(pre: string, dir: string, name: string, frag: string, post: string) returns (m: LinkMatch)
    requires LinkParts(dir, name, frag)
    ensures var s := LinkText(pre, dir, name, frag, post);
            && MatchAt(s, |pre|) == Some(m) && m.end == |s| - |post|
            && s[m.nameStart..m.nameEnd] == name && m.fragment == frag
  {
    var s := LinkText(pre, dir, name, frag, post);
    var p := |pre|;
    var ns := p + 2 + |dir|;
    var ne := ns + |name|;
    var close := ne + 3 + |frag|;
    LinkTextSlices(pre, dir, name, frag, post);
    LinkTextMatches(pre, dir, name, frag, post);
    m := LinkMatch(ns, ne, frag, close + 1);
  }

  /** Around the one link there is no other `(/`. */
  lemma NoOtherLink(pre: string, dir: string, name: string, frag: string, post: string)
    requires Absent(pre, "(/") && Absent(post, "(/")
    ensures var s := LinkText(pre, dir, name, frag, post);
            && NoLinkStart(s, 0, |pre|) && NoLinkStart(s, |s| - |post|, |s|)
            && s[..|pre|] == pre && s[|s| - |post|..] == post
  {
    var s := LinkText(pre, dir, name, frag, post);
    LinkTextSlices(pre, dir, name, frag, post);
    NoLinkInPrefix(s, pre);
    NoLinkInSuffix(s, |s| - |post|);
  }

  lemma ReplacementOf(s: string, base: string, m: LinkMatch, name: string, frag: string)
    requires m.nameStart <= m.nameEnd <= |s| && s[m.nameStart..m.nameEnd] == name && m.fragment == frag
    ensures Replacement(s, base, m) == "(" + base + "/" + name + frag + ")"
  {
  }

  lemma Regroup(pre: string, a: string, b: string, c: string, d: string, e: string, f: string, post: string)
    ensures pre + (a + b + c + d + e + f) + post == pre + a + b + c + d + e + f + post
  {
  }

  /** With one match and no other `(/`, substitution splices the replacement in place of the match. */
  lemma SubstituteAroundMatch(s: string, base: string, p: nat, m: LinkMatch)
    requires p <= |s| && NoLinkStart(s, 0, p) && MatchAt(s, p) == Some(m) && NoLinkStart(s, m.end, |s|)
    ensures Substitute(s, base, 0) == s[..p] + Replacement(s, base, m) + s[m.end..]
  {
    SubstituteSkips(s, base, 0, p);
    MatchStep(s, base, p, m);
    SubstituteRest(s, base, m.end);
    assert s[0..p] == s[..p];
  }

  /** From `k` on, text without any `(/` is copied unchanged. */
  lemma SubstituteRest(s: string, base: string, k: nat)
    requires k <= |s| && NoLinkStart(s, k, |s|)
    ensures Substitute(s, base, k) == s[k..]
  {
    SubstituteSkips(s, base, k, |s|);
    assert Substitute(s, base, |s|) == [];
    assert s[k..|s|] + [] == s[k..];
  }

  lemma LinkTextSlices(pre: string, dir: string, name: string, frag: string, post: string)
    ensures var s := LinkText(pre, dir, name, frag, post);
            var ns := |pre| + 2 + |dir|;
            var ne := ns + |name|;
            var close := ne + 3 + |frag|;
            && close < |s| && s[|pre|] == '(' && s[..|pre|] == pre
            && s[ns..ne] == name && s[ne + 3..close] == frag && s[close + 1..] == post
  {
    var ns := |pre| + 2 + |dir|;
    var ne := ns + |name|;
    var a := pre + "(/" + dir;
    var c := ".md" + frag + ")" + post;
    assert LinkText(pre, dir, name, frag, post) == a + name + c;
    var d := pre + "(/" + dir + name + ".md";
    assert LinkText(pre, dir, name, frag, post) == d + frag + (")" + post);
  }

  /** No `(/` starts inside a prefix without one that is followed by `(`. */
  lemma NoLinkInPrefix(s: string, pre: string)
    requires |pre| < |s| && s[..|pre|] == pre && s[|pre|] == '(' && Absent(pre, "(/")
    ensures NoLinkStart(s, 0, |pre|)
  {
    forall j | 0 <= j < |pre| ensures !OccursAt(s, "(/", j) {
      if j + 2 <= |pre| {
        assert s[j..j + 2] == pre[j..j + 2];
        assert !OccursAt(pre, "(/", j);
      } else {
        assert j + 1 == |pre|;
        assert s[j + 1] == '(';
      }
    }
  }

  /** No `(/` starts inside a suffix without one. */
  lemma NoLinkInSuffix(s: string, k: nat)
    requires k <= |s| && Absent(s[k..], "(/")
    ensures NoLinkStart(s, k, |s|)
  {
    forall j | k <= j < |s| ensures !OccursAt(s, "(/", j) {
      OccursAtShift(s, "(/", k, j - k);
    }
  }

  // --------------------------------------------------------- the base URL

  /** Any number of trailing slashes on the base URL makes no difference. */
  lemma {:induction false} TrailingSlashesIgnored(content: string, baseUrl: string, n: nat)
    requires '\\' !in baseUrl
    ensures ProcessInternalLinks(content, baseUrl + seq(n, _ => '/')) == ProcessInternalLinks(content, baseUrl)
  {
    TrimSlashes(baseUrl, n);
  }

  lemma {:induction false} TrimSlashes(b: string, n: nat)
    ensures TrimEndChar(b + seq(n, _ => '/'), '/') == TrimEndChar(b, '/')
  {
    if n > 0 {
      var t := b + seq(n, _ => '/');
      assert t[..|t| - 1] == b + seq(n - 1, _ => '/');
      TrimSlashes(b, n - 1);
    } else {
      assert b + seq(n, _ => '/') == b;
    }
  }
}

/** The documented examples of `process_internal_links`, and the newline quirk of its pattern. */
module InternalLinksExamples {
  import opened Text
  import opened InternalLinks

  const Base: string := "https://www.test.com/v1"

  lemma DoctestLinkParts()
    ensures LinkParts("test1/test2/", "a", "#b")
  {
    var dir, name, frag := "test1/test2/", "a", "#b";
    assert dir + name == "test1/test2/a";
    AbsentByFirst(dir + name, ".md");
    assert '\n' !in dir;
    assert ')' !in frag && '\n' !in frag;
  }

  lemma DoctestText()
    ensures "[Test](/test1/test2/a.md#b)" == LinkText("[Test]", "test1/test2/", "a", "#b", "")
  {
    assert "[Test]" + "(/" + "test1/test2/" + "a" + ".md" + "#b" + ")" == "[Test](/test1/test2/a.md#b)";
  }

  lemma DoctestResult()
    ensures "[Test]" + "(" + Base + "/" + "a" + "#b" + ")" + "" == "[Test](https://www.test.com/v1/a#b)"
  {
    assert "[Test]" + "(" + Base + "/" + "a" + "#b" + ")" == "[Test](https://www.test.com/v1/a#b)";
  }

  /** `[Test](/test1/test2/a.md#b)` under `https://www.test.com/v1` becomes `[Test](https://www.test.com/v1/a#b)`. */
  lemma DoctestPlainBase()
    ensures ProcessInternalLinks("[Test](/test1/test2/a.md#b)", Base) == "[Test](https://www.test.com/v1/a#b)"
  {
    DoctestText();
    assert TrimEndChar(Base, '/') == Base;
    DoctestLinkParts();
    AbsentByFirst("[Test]", "(/");
    AbsentByFirst("", "(/");
    RewritesOneLink("[Test]", "test1/test2/", "a", "#b", "", Base);
    DoctestResult();
  }

  /** The same link under `https://www.test.com/v1/`: the trailing slash is dropped. */
  lemma DoctestSlashedBase()
    ensures ProcessInternalLinks("[Test](/test1/test2/a.md#b)", "https://www.test.com/v1/") == "[Test](https://www.test.com/v1/a#b)"
  {
    assert "https://www.test.com/v1/" == Base + seq(1, _ => '/');
    TrailingSlashesIgnored("[Test](/test1/test2/a.md#b)", Base, 1);
    DoctestPlainBase();
  }

  /**
   * Group 1 is `[^/]*?`, which crosses newlines: a link name may span one.
   * `(/a<newline>b.md)` is rewritten with the name `a<newline>b`.
   */
  lemma NewlineInNameAccepted(baseUrl: string)
    requires '\\' !in baseUrl
    ensures ProcessInternalLinks("(/a\nb.md)", baseUrl) == "(" + TrimEndChar(baseUrl, '/') + "/" + "a\nb" + ")"
  {
    var base := TrimEndChar(baseUrl, '/');
    NewlineNameText();
    AbsentByFirst("", "(/");
    RewritesOneLink("", "", "a\nb", "", "", base);
    var x := "(" + base + "/" + "a\nb";
    assert "" + "(" == "(";
    assert x + "" == x;
    assert x + ")" + "" == x + ")";
  }

  lemma NewlinePathNoMatch()
    ensures MatchAt("(/a\n/b.md)", 0).None?
  {
    var s := "(/a\n/b.md)";
    forall m ensures !IsMatch(s, 0, m) {
      NewlinePathNotMatch(m);
    }
    MatchAtIsPreferredMatch(s, 0);
  }

  lemma NewlinePathNotMatch(m: LinkMatch)
    ensures !IsMatch("(/a\n/b.md)", 0, m)
  {
    var s := "(/a\n/b.md)";
    if m.nameStart > 3 {
      assert s[3] == '\n';
    } else if m.nameEnd > 4 {
      assert s[4] == '/';
    } else if m.nameEnd < |s| {
      assert s[m.nameEnd] != '.';
    }
  }

  lemma NewlineNameText()
    ensures "(/a\nb.md)" == LinkText("", "", "a\nb", "", "")
    ensures Absent("a\nb", ".md") && "" + "a\nb" == "a\nb"
  {
    AbsentByFirst("a\nb", ".md");
  }

  /**
   * The path `.*?` does not cross a newline: `(/a<newline>/b.md)` is left as
   * it is, since a slash-free name ending at `.md` would have to start after
   * the newline.
   */
  lemma NewlineInPathRejected(baseUrl: string)
    requires '\\' !in baseUrl
    ensures ProcessInternalLinks("(/a\n/b.md)", baseUrl) == "(/a\n/b.md)"
  {
    NewlinePathKept(TrimEndChar(baseUrl, '/'));
  }

  lemma NewlinePathKept(base: string)
    ensures Substitute("(/a\n/b.md)", base, 0) == "(/a\n/b.md)"
  {
    var s := "(/a\n/b.md)";
    NewlinePathNoMatch();
    NoMatchStep(s, base, 0);
    NewlinePathRest(base);
    assert [s[0]] + s[1..] == s;
  }

  lemma NewlinePathRest(base: string)
    ensures var s := "(/a\n/b.md)";
            Substitute(s, base, 1) == s[1..]
  {
    var s := "(/a\n/b.md)";
    assert s[1..] == "/a\n/b.md)";
    AbsentByFirst(s[1..], "(/");
    NoLinkInSuffix(s, 1);
    SubstituteRest(s, base, 1);
  }
}
