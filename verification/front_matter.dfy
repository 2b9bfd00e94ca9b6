/** `remove_front_matter`: the find-and-splice loop over raw Markdown bytes. */
module FrontMatter {
  import opened Wrappers
  import opened Text

  /** `b"---\n"`. It is searched for anywhere in the bytes, not only at a line start. */
  const Delimiter: Bytes := [0x2D, 0x2D, 0x2D, 0x0A]

  /** The four bytes of `b"---\n"` start at index `i`. */
  predicate DelimiterAt(s: Bytes, i: int) {
    0 <= i && i + 4 <= |s| && s[i] == 0x2D && s[i + 1] == 0x2D && s[i + 2] == 0x2D && s[i + 3] == 0x0A
  }

  lemma DelimiterAtIsOccurrence(s: Bytes, i: int)
    ensures DelimiterAt(s, i) <==> OccursAt(s, Delimiter, i)
  {
    if 0 <= i && i + 4 <= |s| {
      var w := s[i..i + 4];
      assert w[0] == s[i] && w[1] == s[i + 1] && w[2] == s[i + 2] && w[3] == s[i + 3];
      if DelimiterAt(s, i) {
        assert w == Delimiter;
      }
    }
  }

  /**
   * `result.find(b"---\n", start)` with `None` for -1, written as a scan for
   * the four bytes; `FindDelimiterIsFind` shows it is Python's `find`.
   */
  function FindDelimiter(s: Bytes, start: nat): (r: Option<nat>)
    ensures r.Some? ==> start <= r.value && DelimiterAt(s, r.value)
    decreases |s| - start
  {
    if start + 4 > |s| then None
    else if DelimiterAt(s, start) then Some(start)
    else FindDelimiter(s, start + 1)
  }

  lemma {:induction false} FindDelimiterIsFind(s: Bytes, start: nat)
    ensures FindDelimiter(s, start) == Find(s, Delimiter, start)
    decreases |s| - start
  {
    if start + 4 <= |s| {
      DelimiterAtIsOccurrence(s, start);
      if !DelimiterAt(s, start) {
        FindDelimiterIsFind(s, start + 1);
      }
    }
  }

  /** The scan returns the first delimiter at or after `start`; `None` means there is none. */
  lemma {:induction false} FindDelimiterFirst(s: Bytes, start: nat)
    ensures FindDelimiter(s, start).Some? ==>
              forall j :: start <= j < FindDelimiter(s, start).value ==> !DelimiterAt(s, j)
    ensures FindDelimiter(s, start).None? ==> forall j :: start <= j ==> !DelimiterAt(s, j)
    decreases |s| - start
  {
    if start + 4 <= |s| && !DelimiterAt(s, start) {
      FindDelimiterFirst(s, start + 1);
    }
  }

  /** A delimiter with none before it (from `start`) is the one the scan returns. */
  lemma {:induction false} FindDelimiterIs(s: Bytes, start: nat, k: nat)
    requires start <= k && DelimiterAt(s, k)
    requires forall j :: start <= j < k ==> !DelimiterAt(s, j)
    ensures FindDelimiter(s, start) == Some(k)
    decreases k - start
  {
    if start < k {
      assert !DelimiterAt(s, start);
      FindDelimiterIs(s, start + 1, k);
    }
  }

  /** With no delimiter at or after `start` the scan returns `None`. */
  lemma {:induction false} FindDelimiterAbsent(s: Bytes, start: nat)
    requires forall j :: start <= j ==> !DelimiterAt(s, j)
    ensures FindDelimiter(s, start).None?
    decreases |s| - start
  {
    if start + 4 <= |s| {
      assert !DelimiterAt(s, start);
      FindDelimiterAbsent(s, start + 1);
    }
  }

  /** The loop's variables `result` and `position` when it breaks. */
  datatype Stop = Stop(result: Bytes, position: nat)

  /** `a` is a suffix of `b`. */
  predicate IsSuffix(a: Bytes, b: Bytes) {
    |a| <= |b| && b[|b| - |a|..] == a
  }

  /**
   * The loop's exit condition holds at `position`: no delimiter at or after it,
   * or one with no second delimiter after it.
   */
  predicate NoPairFrom(s: Bytes, position: nat) {
    match FindDelimiter(s, position)
    case None => true
    case Some(start) => FindDelimiter(s, start + |Delimiter|).None?
  }

  /** The `while True` loop entered with `result` and `position`. */
  function RunLoop(result: Bytes, position: nat): (stop: Stop)
    requires position <= |result|
    ensures position <= stop.position <= |stop.result| <= |result|
    decreases |result|
  {
    match FindDelimiter(result, position)
    case None => Stop(result, position)
    case Some(start) =>
      match FindDelimiter(result, start + |Delimiter|)
      case None => Stop(result, position)
      case Some(end) => RunLoop(Cut(result, start, end), start)
  }

  /** One iteration's splice: `result[:start_index] + result[end_index + len(front_matter):]`. */
  function Cut(result: Bytes, start: nat, end: nat): (next: Bytes)
    requires start + |Delimiter| <= end && end + |Delimiter| <= |result|
    ensures |next| == start + (|result| - (end + |Delimiter|))
  {
    result[..start] + result[end + |Delimiter|..]
  }

  /** The splice keeps what precedes the opening delimiter and what follows the closing one. */
  lemma CutParts(result: Bytes, start: nat, end: nat)
    requires start + |Delimiter| <= end && end + |Delimiter| <= |result|
    ensures Cut(result, start, end)[..start] == result[..start]
    ensures Cut(result, start, end)[start..] == result[end + |Delimiter|..]
  {
  }

  /** From `k` the loop finds an opening delimiter at `start` and its closing one at `end`. */
  predicate PairAt(c: Bytes, k: nat, start: nat, end: nat) {
    k <= |c| && FindDelimiter(c, k) == Some(start) && FindDelimiter(c, start + |Delimiter|) == Some(end)
  }

  /** One iteration of the loop that finds a pair. */
  lemma RunLoopCuts(c: Bytes, k: nat, start: nat, end: nat)
    requires PairAt(c, k, start, end)
    ensures start + |Delimiter| <= end && end + |Delimiter| <= |c|
    ensures RunLoop(c, k) == RunLoop(Cut(c, start, end), start)
  {
    assert DelimiterAt(c, end);
  }

  /**
   * One iteration of the loop body in terms of `bytes.find`: when the opening
   * delimiter is found at `start` and the closing one at `end`, the block from
   * the opening delimiter through the closing one is spliced out (`Cut`) and
   * the loop goes on from `start`.
   */
  lemma LoopBodyCuts(c: Bytes, k: nat, start: nat, end: nat)
    requires k <= |c|
    requires Find(c, Delimiter, k) == Some(start) && Find(c, Delimiter, start + |Delimiter|) == Some(end)
    ensures start + |Delimiter| <= end && end + |Delimiter| <= |c|
    ensures RunLoop(c, k) == RunLoop(Cut(c, start, end), start)
  {
    FoundPair(c, k, start, end);
    RunLoopCuts(c, k, start, end);
  }

  /** The two `find` calls of one iteration are the two delimiter scans. */
  lemma FoundPair(c: Bytes, k: nat, start: nat, end: nat)
    requires k <= |c|
    requires Find(c, Delimiter, k) == Some(start) && Find(c, Delimiter, start + |Delimiter|) == Some(end)
    ensures PairAt(c, k, start, end)
  {
    FindDelimiterIsFind(c, k);
    FindDelimiterIsFind(c, start + |Delimiter|);
  }

  /** Where no pair starts the loop breaks at once. */
  lemma RunLoopStopsHere(result: Bytes, position: nat)
    requires position <= |result| && NoPairFrom(result, position)
    ensures RunLoop(result, position) == Stop(result, position)
  {
  }

  /** Each iteration shortens `result` by at least 8 bytes, so the loop either changes nothing or shrinks it by 8 or more. */
  lemma {:induction false} RunLoopShrinks(result: Bytes, position: nat)
    requires position <= |result|
    ensures var stop := RunLoop(result, position);
            stop.result == result || |stop.result| + 2 * |Delimiter| <= |result|
    decreases |result|
  {
    if NoPairFrom(result, position) {
      RunLoopStopsHere(result, position);
    } else {
      var start := FindDelimiter(result, position).value;
      var end := FindDelimiter(result, start + |Delimiter|).value;
      RunLoopCuts(result, position, start, end);
      RunLoopShrinks(Cut(result, start, end), start);
    }
  }

  /** Bytes before `position` are never touched. */
  lemma {:induction false} RunLoopKeepsPrefix(result: Bytes, position: nat)
    requires position <= |result|
    ensures var stop := RunLoop(result, position);
            stop.result[..position] == result[..position]
    decreases |result|
  {
    if NoPairFrom(result, position) {
      RunLoopStopsHere(result, position);
    } else {
      var start := FindDelimiter(result, position).value;
      var end := FindDelimiter(result, start + |Delimiter|).value;
      var next := Cut(result, start, end);
      RunLoopCuts(result, position, start, end);
      CutParts(result, start, end);
      RunLoopKeepsPrefix(next, start);
      SamePrefix(RunLoop(next, start).result, result, position, start);
    }
  }

  /** Sequences that agree up to `j` agree up to any `i <= j`. */
  lemma SamePrefix(a: Bytes, b: Bytes, i: nat, j: nat)
    requires i <= j <= |a| && j <= |b| && a[..j] == b[..j]
    ensures a[..i] == b[..i]
  {
    assert a[..i] == a[..j][..i];
    assert b[..i] == b[..j][..i];
  }

  /**
   * The bytes before the first delimiter found from `position` are never
   * touched; with no delimiter there the loop changes nothing.
   */
  lemma RunLoopKeepsBeforeFirst(result: Bytes, position: nat)
    requires position <= |result|
    ensures FindDelimiter(result, position).None? ==> RunLoop(result, position).result == result
    ensures FindDelimiter(result, position).Some? ==>
              var first := FindDelimiter(result, position).value;
              var stop := RunLoop(result, position);
              first <= |stop.result| && stop.result[..first] == result[..first]
  {
    if NoPairFrom(result, position) {
      RunLoopStopsHere(result, position);
    } else {
      var start := FindDelimiter(result, position).value;
      var end := FindDelimiter(result, start + |Delimiter|).value;
      RunLoopCuts(result, position, start, end);
      CutParts(result, start, end);
      RunLoopKeepsPrefix(Cut(result, start, end), start);
    }
  }

  lemma IsSuffixTrans(a: Bytes, b: Bytes, c: Bytes)
    requires IsSuffix(a, b) && IsSuffix(b, c)
    ensures IsSuffix(a, c)
  {
    assert c[|c| - |a|..] == c[|c| - |b|..][|b| - |a|..];
  }

  lemma LaterSliceIsSuffix(s: Bytes, a: nat, b: nat)
    requires a <= b <= |s|
    ensures IsSuffix(s[b..], s[a..])
  {
    assert s[a..][b - a..] == s[b..];
  }

  /** When the loop stops, no complete delimiter pair starts at or after its final position. */
  lemma {:induction false} RunLoopStopsAtUnmatched(result: Bytes, position: nat)
    requires position <= |result|
    ensures var stop := RunLoop(result, position);
            NoPairFrom(stop.result, stop.position)
    decreases |result|
  {
    if NoPairFrom(result, position) {
      RunLoopStopsHere(result, position);
    } else {
      var start := FindDelimiter(result, position).value;
      var end := FindDelimiter(result, start + |Delimiter|).value;
      RunLoopCuts(result, position, start, end);
      RunLoopStopsAtUnmatched(Cut(result, start, end), start);
    }
  }

  /**
   * Everything from the loop's final position on is an untouched suffix of the
   * loop's input: an unmatched opening delimiter is kept together with all that
   * follows it.
   */
  lemma {:induction false} RunLoopKeepsTail(result: Bytes, position: nat)
    requires position <= |result|
    ensures var stop := RunLoop(result, position);
            IsSuffix(stop.result[stop.position..], result[position..])
    decreases |result|
  {
    if NoPairFrom(result, position) {
      RunLoopStopsHere(result, position);
      assert result[position..][0..] == result[position..];
    } else {
      var start := FindDelimiter(result, position).value;
      var end := FindDelimiter(result, start + |Delimiter|).value;
      var next := Cut(result, start, end);
      RunLoopCuts(result, position, start, end);
      RunLoopKeepsTail(next, start);
      var stop := RunLoop(next, start);
      SuffixThroughCut(result, position, start, end, stop.result[stop.position..]);
    }
  }

  /** A suffix of what follows the splice point is a suffix of what followed `position`. */
  lemma SuffixThroughCut(result: Bytes, position: nat, start: nat, end: nat, tail: Bytes)
    requires position <= start && start + |Delimiter| <= end && end + |Delimiter| <= |result|
    requires IsSuffix(tail, Cut(result, start, end)[start..])
    ensures IsSuffix(tail, result[position..])
  {
    CutParts(result, start, end);
    LaterSliceIsSuffix(result, position, end + |Delimiter|);
    IsSuffixTrans(tail, result[end + |Delimiter|..], result[position..]);
  }

  /**
   * `remove_front_matter(content)`: every delimited block found by the loop is
   * removed; input without a delimiter comes back unchanged; the bytes before
   * the first delimiter survive as a prefix; the output is never longer; and
   * from the position where the loop breaks the output is an untouched suffix
   * of the input in which no complete pair starts.
   */
  function RemoveFrontMatter(content: Bytes): (r: Bytes)
    ensures Find(content, Delimiter, 0).None? ==> r == content
    ensures |r| <= |content|
    ensures r == content || |r| + 8 <= |content|
    ensures Find(content, Delimiter, 0).Some? ==>
              var first := Find(content, Delimiter, 0).value;
              first <= |r| && r[..first] == content[..first]
    ensures var stop := RunLoop(content, 0);
            stop.position <= |r| && NoPairFrom(r, stop.position) && IsSuffix(r[stop.position..], content)
  {
    FindDelimiterIsFind(content, 0);
    RunLoopShrinks(content, 0);
    RunLoopKeepsBeforeFirst(content, 0);
    RunLoopStopsAtUnmatched(content, 0);
    RunLoopKeepsTail(content, 0);
    var stop := RunLoop(content, 0);
    assert content[0..] == content;
    stop.result
  }

  /** The function is the loop run from the start. */
  lemma RemoveIsRunLoop(content: Bytes)
    ensures RemoveFrontMatter(content) == RunLoop(content, 0).result
  {
  }
}

/** The documented examples of `remove_front_matter`, and why it is not idempotent. */
module FrontMatterExamples {
  import opened Wrappers
  import opened Text
  import opened FrontMatter

  /** No byte is `-`, so no delimiter can start there. */
  predicate DashFree(x: Bytes) {
    forall i :: 0 <= i < |x| ==> x[i] != 0x2D
  }

  /** No dash is followed by another dash, so no delimiter occurs at all. */
  predicate NoDoubleDash(x: Bytes) {
    forall i :: 0 <= i < |x| - 1 && x[i] == 0x2D ==> x[i + 1] != 0x2D
  }

  lemma NoDoubleDashNoDelimiter(z: Bytes)
    requires NoDoubleDash(z)
    ensures RunLoop(z, 0) == Stop(z, 0)
  {
    forall j | 0 <= j ensures !DelimiterAt(z, j) {
      if j + 1 < |z| && z[j] == 0x2D {
        assert z[j + 1] != 0x2D;
      }
    }
    FindDelimiterAbsent(z, 0);
  }

  /** From a dash-free stretch the loop finds nothing and stops at once. */
  lemma DashFreeStops(z: Bytes, k: nat)
    requires k <= |z| && DashFree(z[k..])
    ensures RunLoop(z, k) == Stop(z, k)
  {
    forall j | k <= j ensures !DelimiterAt(z, j) {
      if j < |z| {
        assert z[j] == z[k..][j - k];
      }
    }
    FindDelimiterAbsent(z, k);
  }

  /**
   * A block `---\n x ---\n` whose content `x` has no dash, reached from a
   * dash-free stretch of `p`, is cut out and the loop resumes where it began.
   */
  lemma CutsBlock(p: Bytes, x: Bytes, y: Bytes, k: nat)
    requires k <= |p| && DashFree(p[k..]) && DashFree(x)
    ensures RunLoop(p + Delimiter + x + Delimiter + y, k) == RunLoop(p + y, |p|)
  {
    BlockStep(p + Delimiter + x + Delimiter + y, p, x, y, k);
    CutBlock(p, x, y);
  }

  /** The loop's first iteration from `k` cuts exactly the block. */
  lemma BlockStep(c: Bytes, p: Bytes, x: Bytes, y: Bytes, k: nat)
    requires c == p + Delimiter + x + Delimiter + y
    requires k <= |p| && DashFree(p[k..]) && DashFree(x)
    ensures RunLoop(c, k) == RunLoop(Cut(c, |p|, |p| + |Delimiter| + |x|), |p|)
  {
    BlockFound(c, p, x, y, k);
    RunLoopCuts(c, k, |p|, |p| + |Delimiter| + |x|);
  }

  lemma BlockFound(c: Bytes, p: Bytes, x: Bytes, y: Bytes, k: nat)
    requires c == p + Delimiter + x + Delimiter + y
    requires k <= |p| && DashFree(p[k..]) && DashFree(x)
    ensures PairAt(c, k, |p|, |p| + |Delimiter| + |x|)
  {
    BlockOpens(c, p, x, y, k);
    BlockCloses(c, p, x, y);
  }

  /** The block's opening delimiter is the first one found from `k`. */
  lemma BlockOpens(c: Bytes, p: Bytes, x: Bytes, y: Bytes, k: nat)
    requires c == p + Delimiter + x + Delimiter + y
    requires k <= |p| && DashFree(p[k..])
    ensures FindDelimiter(c, k) == Some(|p|)
  {
    var v := Delimiter + x + Delimiter + y;
    assert v[..|Delimiter|] == Delimiter;
    assert c == p + v;
    FindAfterDashFree(p, v, k);
  }

  /** The block's closing delimiter is the first one found after the opening one. */
  lemma BlockCloses(c: Bytes, p: Bytes, x: Bytes, y: Bytes)
    requires c == p + Delimiter + x + Delimiter + y
    requires DashFree(x)
    ensures FindDelimiter(c, |p| + |Delimiter|) == Some(|p| + |Delimiter| + |x|)
  {
    var u := p + Delimiter + x;
    var v := Delimiter + y;
    assert u[|p| + |Delimiter|..] == x;
    assert v[..|Delimiter|] == Delimiter;
    assert c == u + v;
    FindAfterDashFree(u, v, |p| + |Delimiter|);
  }

  /** Searching from a dash-free stretch of `u` finds the delimiter that starts `v`. */
  lemma FindAfterDashFree(u: Bytes, v: Bytes, k: nat)
    requires k <= |u| && DashFree(u[k..])
    requires |Delimiter| <= |v| && v[..|Delimiter|] == Delimiter
    ensures FindDelimiter(u + v, k) == Some(|u|)
  {
    var c := u + v;
    forall j | k <= j < |u| ensures !DelimiterAt(c, j) {
      assert c[j] == u[k..][j - k];
    }
    assert c[|u|..|u| + |Delimiter|] == v[..|Delimiter|];
    DelimiterAtIsOccurrence(c, |u|);
    FindDelimiterIs(c, k, |u|);
  }

  /** Cutting the block out leaves what surrounded it. */
  lemma CutBlock(p: Bytes, x: Bytes, y: Bytes)
    ensures Cut(p + Delimiter + x + Delimiter + y, |p|, |p| + |Delimiter| + |x|) == p + y
  {
    var c := p + Delimiter + x + Delimiter + y;
    assert c[..|p|] == p;
    assert c[|p| + |Delimiter| + |x| + |Delimiter|..] == y;
  }

  /** One block between dash-free text `t` and dash-free text `l` is removed. */
  lemma OneBlock(t: Bytes, y: Bytes, l: Bytes)
    requires DashFree(t) && DashFree(y) && DashFree(l)
    ensures RunLoop(t + Delimiter + y + Delimiter + l, 0).result == t + l
  {
    assert t[0..] == t;
    CutsBlock(t, y, l, 0);
    assert (t + l)[|t|..] == l;
    DashFreeStops(t + l, |t|);
  }

  /** Two blocks, separated by dash-free text `lb`, are both removed. */
  lemma TwoBlocks(t: Bytes, y: Bytes, lb: Bytes, l: Bytes)
    requires DashFree(t) && DashFree(y) && DashFree(lb) && DashFree(l)
    ensures RunLoop(t + Delimiter + y + Delimiter + lb + Delimiter + y + Delimiter + l, 0).result == t + lb + l
  {
    TwoBlocksRegroup(t, y, lb, l);
    TwoBlocksRest(t, y, lb, l);
  }

  lemma TwoBlocksRegroup(t: Bytes, y: Bytes, lb: Bytes, l: Bytes)
    ensures t + Delimiter + y + Delimiter + lb + Delimiter + y + Delimiter + l
         == t + Delimiter + y + Delimiter + (lb + Delimiter + y + Delimiter + l)
  {
  }

  lemma TwoBlocksRest(t: Bytes, y: Bytes, lb: Bytes, l: Bytes)
    requires DashFree(t) && DashFree(y) && DashFree(lb) && DashFree(l)
    ensures RunLoop(t + Delimiter + y + Delimiter + (lb + Delimiter + y + Delimiter + l), 0).result == t + lb + l
  {
    TwoBlocksFirst(t, y, lb + Delimiter + y + Delimiter + l);
    TwoBlocksSecond(t, y, lb, l);
    var q := t + lb;
    assert (q + l)[|q|..] == l;
    DashFreeStops(q + l, |q|);
  }

  lemma TwoBlocksFirst(t: Bytes, y: Bytes, rest: Bytes)
    requires DashFree(t) && DashFree(y)
    ensures RunLoop(t + Delimiter + y + Delimiter + rest, 0) == RunLoop(t + rest, |t|)
  {
    assert t[0..] == t;
    CutsBlock(t, y, rest, 0);
  }

  lemma TwoBlocksSecond(t: Bytes, y: Bytes, lb: Bytes, l: Bytes)
    requires DashFree(y) && DashFree(lb)
    ensures RunLoop(t + (lb + Delimiter + y + Delimiter + l), |t|) == RunLoop(t + lb + l, |t + lb|)
  {
    var q := t + lb;
    assert t + (lb + Delimiter + y + Delimiter + l) == q + Delimiter + y + Delimiter + l;
    assert q[|t|..] == lb;
    CutsBlock(q, y, l, |t|);
  }

  // Pieces of the documented examples.
  const Test: Bytes := AsciiBytes("Test\n")
  const Yaml: Bytes := AsciiBytes("title:Test\nsummary:Test\n")
  const Line: Bytes := AsciiBytes("Line")
  const LineBreak: Bytes := AsciiBytes("Line\n")

  lemma PiecesDashFree()
    ensures DashFree(Test) && DashFree(Yaml) && DashFree(Line) && DashFree(LineBreak)
  {
  }

  /** `b"Test\n-\ntitle\nTest"` has a dash but no delimiter and comes back unchanged. */
  lemma DoctestNoDelimiter()
    ensures var c := Test + [0x2D] + AsciiBytes("\ntitle\nTest");
            RemoveFrontMatter(c) == c
  {
    var c := Test + [0x2D] + AsciiBytes("\ntitle\nTest");
    assert NoDoubleDash(c);
    NoDoubleDashNoDelimiter(c);
    RemoveIsRunLoop(c);
  }

  /** `b"---\ntitle:Test\nsummary:Test\n---\nLine"` becomes `b"Line"`. */
  lemma DoctestLeadingBlock()
    ensures RemoveFrontMatter(Delimiter + Yaml + Delimiter + Line) == Line
  {
    PiecesDashFree();
    OneBlock([], Yaml, Line);
    assert [] + Delimiter == Delimiter;
    assert [] + Line == Line;
    RemoveIsRunLoop(Delimiter + Yaml + Delimiter + Line);
  }

  /** `b"Test\n---\ntitle:Test\nsummary:Test\n---\nLine"` becomes `b"Test\nLine"`. */
  lemma DoctestBlockAfterText()
    ensures RemoveFrontMatter(Test + Delimiter + Yaml + Delimiter + Line) == Test + Line
  {
    PiecesDashFree();
    OneBlock(Test, Yaml, Line);
    RemoveIsRunLoop(Test + Delimiter + Yaml + Delimiter + Line);
  }

  /** Two blocks, `b"Test\n---\n...---\nLine\n---\n...---\nLine"`, leave `b"Test\nLine\nLine"`. */
  lemma DoctestTwoBlocks()
    ensures RemoveFrontMatter(Test + Delimiter + Yaml + Delimiter + LineBreak + Delimiter + Yaml + Delimiter + Line)
         == Test + LineBreak + Line
  {
    PiecesDashFree();
    TwoBlocks(Test, Yaml, LineBreak, Line);
    RemoveIsRunLoop(Test + Delimiter + Yaml + Delimiter + LineBreak + Delimiter + Yaml + Delimiter + Line);
  }

  /**
   * Stripping is not idempotent. In `-----\nA---\n-\nB---\nC` the delimiter is
   * matched inside `-----`; the splice joins its two leading dashes to the
   * dash after the closing delimiter, forming `---\nB---\nC`, whose new opening
   * delimiter is left alone by the first pass (the loop resumes after the two
   * dashes) and removed by a second pass, leaving `C`.
   */
  lemma NotIdempotent()
    ensures var c := [0x2D, 0x2D] + Delimiter + [0x41] + Delimiter + [0x2D, 0x0A, 0x42] + Delimiter + [0x43];
            var once := Delimiter + [0x42] + Delimiter + [0x43];
            RemoveFrontMatter(c) == once && RemoveFrontMatter(once) == [0x43]
  {
    var c: Bytes := [0x2D, 0x2D] + Delimiter + [0x41] + Delimiter + [0x2D, 0x0A, 0x42] + Delimiter + [0x43];
    var once: Bytes := Delimiter + [0x42] + Delimiter + [0x43];
    FirstPass(c, once);
    SecondPass(once);
    RemoveIsRunLoop(c);
    RemoveIsRunLoop(once);
  }

  lemma FirstPass(c: Bytes, once: Bytes)
    requires c == [0x2D, 0x2D] + Delimiter + [0x41] + Delimiter + [0x2D, 0x0A, 0x42] + Delimiter + [0x43]
    requires once == Delimiter + [0x42] + Delimiter + [0x43]
    ensures RunLoop(c, 0) == Stop(once, 2)
  {
    FirstPassFinds(c);
    RunLoopCuts(c, 0, 2, 7);
    assert Cut(c, 2, 7) == once;
    FirstPassStops(once);
  }

  lemma FirstPassFinds(c: Bytes)
    requires c == [0x2D, 0x2D] + Delimiter + [0x41] + Delimiter + [0x2D, 0x0A, 0x42] + Delimiter + [0x43]
    ensures PairAt(c, 0, 2, 7)
  {
    assert c[2] == 0x2D && c[3] == 0x2D && c[4] == 0x2D && c[5] == 0x0A;
    assert c[0] == 0x2D && c[1] == 0x2D && c[3] == 0x2D && c[4] == 0x2D;
    FindDelimiterIs(c, 0, 2);
    assert c[6] == 0x41 && c[7] == 0x2D && c[8] == 0x2D && c[9] == 0x2D && c[10] == 0x0A;
    FindDelimiterIs(c, 6, 7);
  }

  lemma FirstPassStops(once: Bytes)
    requires once == Delimiter + [0x42] + Delimiter + [0x43]
    ensures RunLoop(once, 2) == Stop(once, 2)
  {
    assert once[2] == 0x2D && once[3] == 0x0A && once[4] == 0x42;
    assert once[5] == 0x2D && once[6] == 0x2D && once[7] == 0x2D && once[8] == 0x0A;
    FindDelimiterIs(once, 2, 5);
    FindDelimiterAbsent(once, 9);
  }

  lemma SecondPass(once: Bytes)
    requires once == Delimiter + [0x42] + Delimiter + [0x43]
    ensures RunLoop(once, 0) == Stop([0x43], 0)
  {
    assert [] + Delimiter == Delimiter;
    CutsBlock([], [0x42], [0x43], 0);
    assert [] + [0x43] == [0x43];
    DashFreeStops([0x43], 0);
  }
}
