/**
 * Python string and bytes primitives the model relies on: substring search
 * (`find`, `in`), `str.replace`, `str.strip`/`rstrip`, `str(int)` and the
 * Unicode whitespace class that `\s` and `str.strip()` use.
 */
module Text {
  import opened Wrappers

  /** A byte of a Python `bytes` object. */
  newtype Byte = x: int | 0 <= x < 256
  type Bytes = seq<Byte>

  /** The bytes of an ASCII literal, as Python's `b"..."` denotes them. */
  function AsciiBytes(s: string): (r: Bytes)
    requires forall i :: 0 <= i < |s| ==> s[i] as int < 128
    ensures |r| == |s|
    ensures forall i :: 0 <= i < |s| ==> r[i] as int == s[i] as int
  {
    seq(|s|, i requires 0 <= i < |s| => s[i] as int as Byte)
  }

  /**
   * Python's `str.isspace()` characters: what `\s` matches in a str pattern
   * and what `str.strip()` removes.
   */
  predicate IsSpace(c: char) {
    || c == ' '
    || ('\t' <= c <= '\r')
    || ('\U{1C}' <= c <= '\U{1F}')
    || c == '\U{85}' || c == '\U{A0}' || c == '\U{1680}'
    || ('\U{2000}' <= c <= '\U{200A}')
    || c == '\U{2028}' || c == '\U{2029}' || c == '\U{202F}' || c == '\U{205F}' || c == '\U{3000}'
  }

  // ---------------------------------------------------------------- search

  /** `t` occurs in `s` starting at index `i`. */
  predicate OccursAt<T(==)>(s: seq<T>, t: seq<T>, i: int) {
    0 <= i && i + |t| <= |s| && s[i..i + |t|] == t
  }

  /** Python's `s.find(t, start)`, with `None` for -1: the first occurrence at or after `start`. */
  function Find<T(==)>(s: seq<T>, t: seq<T>, start: nat): (r: Option<nat>)
    ensures r.Some? ==> start <= r.value && OccursAt(s, t, r.value)
    decreases |s| - start
  {
    if start + |t| > |s| then None
    else if s[start..start + |t|] == t then Some(start)
    else Find(s, t, start + 1)
  }

  /** What `Find` returns is the first occurrence; `None` means there is none. */
  lemma {:induction false} FindFirst<T>(s: seq<T>, t: seq<T>, start: nat)
    ensures Find(s, t, start).Some? ==> forall j :: start <= j < Find(s, t, start).value ==> !OccursAt(s, t, j)
    ensures Find(s, t, start).None? ==> forall j :: start <= j ==> !OccursAt(s, t, j)
    decreases |s| - start
  {
    if start + |t| <= |s| && s[start..start + |t|] != t {
      FindFirst(s, t, start + 1);
    }
  }

  /** `Find` returns the first occurrence: any occurrence with none before it is what it finds. */
  lemma {:induction false} FindIs<T>(s: seq<T>, t: seq<T>, start: nat, k: nat)
    requires start <= k && OccursAt(s, t, k)
    requires forall j :: start <= j < k ==> !OccursAt(s, t, j)
    ensures Find(s, t, start) == Some(k)
    decreases k - start
  {
    if start < k {
      assert !OccursAt(s, t, start);
      FindIs(s, t, start + 1, k);
    }
  }

  /** Python's `t in s` for strings. */
  predicate Contains<T(==)>(s: seq<T>, t: seq<T>) {
    Find(s, t, 0).Some?
  }

  lemma ContainsIff<T>(s: seq<T>, t: seq<T>)
    ensures Contains(s, t) <==> exists i :: OccursAt(s, t, i)
  {
    FindFirst(s, t, 0);
    if Contains(s, t) {
      assert OccursAt(s, t, Find(s, t, 0).value);
    }
  }

  /** An occurrence inside a slice is an occurrence in the whole sequence. */
  lemma OccursAtShift<T>(s: seq<T>, t: seq<T>, j: nat, i: int)
    requires j <= |s|
    ensures OccursAt(s[j..], t, i) <==> (0 <= i && OccursAt(s, t, i + j))
  {
    if 0 <= i && i + |t| <= |s| - j {
      assert s[j..][i..i + |t|] == s[i + j..i + j + |t|];
    }
  }

  /** An occurrence inside a window `s[a..e]` is an occurrence in the whole sequence. */
  lemma OccursAtSlice<T>(s: seq<T>, t: seq<T>, a: nat, e: nat, i: int)
    requires a <= e <= |s|
    ensures OccursAt(s[a..e], t, i) <==> (0 <= i && i + |t| <= e - a && OccursAt(s, t, a + i))
  {
    if 0 <= i && i + |t| <= e - a {
      var x, y := s[a..e][i..i + |t|], s[a + i..a + i + |t|];
      forall j | 0 <= j < |t| ensures x[j] == y[j] {
        assert s[a..e][i + j] == s[a + i + j];
      }
      assert x == y;
    }
  }

  /** Each window of an occurrence is the matching window of what occurs. */
  lemma OccursAtWindow<T>(s: seq<T>, t: seq<T>, i: int, x: nat, y: nat)
    requires OccursAt(s, t, i) && x <= y <= |t|
    ensures s[i + x..i + y] == t[x..y]
  {
    var u, v := s[i + x..i + y], t[x..y];
    forall j | 0 <= j < y - x ensures u[j] == v[j] {
      assert s[i..i + |t|][x + j] == s[i + x + j];
    }
    assert u == v;
  }

  /** An occurrence of an occurrence is an occurrence. */
  lemma OccursAtTrans<T>(a: seq<T>, b: seq<T>, c: seq<T>, i: int, j: int)
    requires OccursAt(a, b, i) && OccursAt(b, c, j)
    ensures OccursAt(a, c, i + j)
  {
    forall k | 0 <= k < |c| ensures a[i + j + k] == c[k] {
      assert a[i + j + k] == a[i..i + |b|][j + k];
      assert b[j + k] == b[j..j + |c|][k];
    }
  }

  /** `OccursAtTrans` as an implication, for use where its premises may fail. */
  lemma OccursAtTransIf<T>(a: seq<T>, b: seq<T>, c: seq<T>, i: int, j: int)
    ensures OccursAt(a, b, i) && OccursAt(b, c, j) ==> OccursAt(a, c, i + j)
  {
    if OccursAt(a, b, i) && OccursAt(b, c, j) {
      OccursAtTrans(a, b, c, i, j);
    }
  }

  /** An occurrence in `a + b` that ends inside `a` is an occurrence in `a`. */
  lemma OccursInLeft<T>(a: seq<T>, b: seq<T>, t: seq<T>, i: int)
    requires OccursAt(a + b, t, i) && i + |t| <= |a|
    ensures OccursAt(a, t, i)
  {
    assert (a + b)[i..i + |t|] == a[i..i + |t|];
  }

  /** An occurrence in `a + b` that starts inside `b` is an occurrence in `b`. */
  lemma OccursInRight<T>(a: seq<T>, b: seq<T>, t: seq<T>, i: int)
    requires OccursAt(a + b, t, i) && |a| <= i
    ensures OccursAt(b, t, i - |a|)
  {
    assert (a + b)[i..i + |t|] == b[i - |a|..i - |a| + |t|];
  }

  /** Each element of an occurrence, as an implication usable where the occurrence may fail. */
  lemma OccursAtElem<T>(s: seq<T>, t: seq<T>, i: int, x: int)
    ensures OccursAt(s, t, i) && 0 <= x < |t| ==> s[i + x] == t[x]
  {
    if OccursAt(s, t, i) && 0 <= x < |t| {
      assert s[i + x] == s[i..i + |t|][x];
    }
  }

  /** A sequence lacking one of `t`'s elements has no occurrence of `t`. */
  lemma AbsentByElem<T>(s: seq<T>, t: seq<T>, x: nat)
    requires x < |t| && t[x] !in s
    ensures forall i :: !OccursAt(s, t, i)
  {
    forall i ensures !OccursAt(s, t, i) {
      OccursAtElem(s, t, i, x);
    }
  }

  /** `OccursInLeft` as an implication. */
  lemma OccursInLeftIf<T>(a: seq<T>, b: seq<T>, t: seq<T>, i: int)
    ensures OccursAt(a + b, t, i) && i + |t| <= |a| ==> OccursAt(a, t, i)
  {
    if OccursAt(a + b, t, i) && i + |t| <= |a| {
      OccursInLeft(a, b, t, i);
    }
  }

  /** `OccursInRight` as an implication. */
  lemma OccursInRightIf<T>(a: seq<T>, b: seq<T>, t: seq<T>, i: int)
    ensures OccursAt(a + b, t, i) && |a| <= i ==> OccursAt(b, t, i - |a|)
  {
    if OccursAt(a + b, t, i) && |a| <= i {
      OccursInRight(a, b, t, i);
    }
  }

  /** `b` occurs in `a + b + c` right after `a`. */
  lemma OccursInMiddle<T>(a: seq<T>, b: seq<T>, c: seq<T>)
    ensures OccursAt(a + b + c, b, |a|)
  {
    assert (a + b + c)[|a|..|a| + |b|] == b;
  }

  // --------------------------------------------------------------- replace

  /**
   * Python's `s.replace(old, new)` for a non-empty needle: every occurrence,
   * found left to right without overlap, is replaced.
   */
  function ReplaceAll<T(==)>(s: seq<T>, needle: seq<T>, repl: seq<T>): (r: seq<T>)
    requires |needle| > 0
    decreases |s|
  {
    if |s| < |needle| then s
    else if s[..|needle|] == needle then repl + ReplaceAll(s[|needle|..], needle, repl)
    else [s[0]] + ReplaceAll(s[1..], needle, repl)
  }

  /** Replacing a needle that does not occur changes nothing. */
  lemma {:induction false} ReplaceAllAbsent<T>(s: seq<T>, needle: seq<T>, repl: seq<T>)
    requires |needle| > 0
    requires forall i :: !OccursAt(s, needle, i)
    ensures ReplaceAll(s, needle, repl) == s
    decreases |s|
  {
    if |s| >= |needle| {
      assert !OccursAt(s, needle, 0);
      forall i ensures !OccursAt(s[1..], needle, i) {
        OccursAtShift(s, needle, 1, i);
      }
      ReplaceAllAbsent(s[1..], needle, repl);
      assert [s[0]] + s[1..] == s;
    }
  }

  /** A unique occurrence past the first element stays unique once that element is dropped. */
  lemma UniqueOccurrenceTail<T>(s: seq<T>, needle: seq<T>, k: nat)
    requires 0 < k && OccursAt(s, needle, k)
    requires forall i :: OccursAt(s, needle, i) ==> i == k
    ensures OccursAt(s[1..], needle, k - 1)
    ensures forall i :: OccursAt(s[1..], needle, i) ==> i == k - 1
  {
    OccursAtShift(s, needle, 1, k - 1);
    forall i | OccursAt(s[1..], needle, i) ensures i == k - 1 {
      OccursAtShift(s, needle, 1, i);
    }
  }

  /** Replacing a needle that occurs exactly once splices the replacement in at that place. */
  lemma {:induction false} ReplaceAllUnique<T>(s: seq<T>, needle: seq<T>, repl: seq<T>, k: nat)
    requires |needle| > 0
    requires OccursAt(s, needle, k)
    requires forall i :: OccursAt(s, needle, i) ==> i == k
    ensures ReplaceAll(s, needle, repl) == s[..k] + repl + s[k + |needle|..]
    decreases k
  {
    if k == 0 {
      forall i ensures !OccursAt(s[|needle|..], needle, i) {
        OccursAtShift(s, needle, |needle|, i);
      }
      ReplaceAllAbsent(s[|needle|..], needle, repl);
    } else {
      assert !OccursAt(s, needle, 0);
      assert ReplaceAll(s, needle, repl) == [s[0]] + ReplaceAll(s[1..], needle, repl);
      UniqueOccurrenceTail(s, needle, k);
      ReplaceAllUnique(s[1..], needle, repl, k - 1);
      ConsSplice(s, repl, k, k + |needle|);
    }
  }

  /** Cutting `b` out of `a + b + c` and putting `r` in its place. */
  lemma SpliceInMiddle<T>(a: seq<T>, b: seq<T>, c: seq<T>, r: seq<T>)
    ensures (a + b + c)[..|a|] + r + (a + b + c)[|a| + |b|..] == a + r + c
  {
    assert (a + b + c)[..|a|] == a;
    assert (a + b + c)[|a| + |b|..] == c;
  }

  /** Putting the first element back in front of a splice into the rest. */
  lemma ConsSplice<T>(s: seq<T>, repl: seq<T>, k: nat, e: nat)
    requires 0 < k <= e <= |s|
    ensures [s[0]] + (s[1..][..k - 1] + repl + s[1..][e - 1..]) == s[..k] + repl + s[e..]
  {
    assert s[1..][..k - 1] == s[1..k];
    assert s[1..][e - 1..] == s[e..];
    assert [s[0]] + s[1..k] == s[..k];
  }

  // ----------------------------------------------------------------- strip

  /** Python's `s.lstrip()`. */
  function TrimStart(s: string): (r: string)
    ensures |r| <= |s| && r == s[|s| - |r|..]
    ensures forall i :: 0 <= i < |s| - |r| ==> IsSpace(s[i])
    ensures |r| > 0 ==> !IsSpace(r[0])
  {
    if |s| > 0 && IsSpace(s[0]) then TrimStart(s[1..]) else s
  }

  /** Python's `s.rstrip()`. */
  function TrimEnd(s: string): (r: string)
    ensures |r| <= |s| && r == s[..|r|]
    ensures forall i :: |r| <= i < |s| ==> IsSpace(s[i])
    ensures |r| > 0 ==> !IsSpace(r[|r| - 1])
  {
    if |s| > 0 && IsSpace(s[|s| - 1]) then TrimEnd(s[..|s| - 1]) else s
  }

  /** Python's `s.strip()`: empty exactly when `s` is all whitespace. */
  function Strip(s: string): (r: string)
    ensures |r| > 0 ==> !IsSpace(r[0]) && !IsSpace(r[|r| - 1])
    ensures r == [] <==> forall i :: 0 <= i < |s| ==> IsSpace(s[i])
  {
    var t := TrimStart(s);
    var r := TrimEnd(t);
    assert |r| > 0 ==> r[0] == t[0];
    r
  }

  /** Python's `s.rstrip(c)`: drops every trailing `c`. */
  function TrimEndChar(s: string, c: char): (r: string)
    ensures |r| <= |s| && r == s[..|r|]
    ensures forall i :: |r| <= i < |s| ==> s[i] == c
    ensures |r| > 0 ==> r[|r| - 1] != c
  {
    if |s| > 0 && s[|s| - 1] == c then TrimEndChar(s[..|s| - 1], c) else s
  }

  // -------------------------------------------------------------- decimals

  predicate IsDigit(c: char) {
    '0' <= c <= '9'
  }

  function DigitChar(d: nat): (c: char)
    requires d < 10
    ensures IsDigit(c)
  {
    (('0' as int) + d) as char
  }

  /** The value of a string of decimal digits. */
  function ParseNat(s: string): nat
    requires forall i :: 0 <= i < |s| ==> IsDigit(s[i])
  {
    if |s| == 0 then 0
    else
      assert IsDigit(s[|s| - 1]);
      10 * ParseNat(s[..|s| - 1]) + (s[|s| - 1] as int - '0' as int)
  }

  /** Python's `str(n)` for a non-negative integer; `ParseNat` reads it back. */
  function NatToString(n: nat): (r: string)
    ensures |r| > 0
    ensures forall i :: 0 <= i < |r| ==> IsDigit(r[i])
    ensures ParseNat(r) == n
  {
    if n < 10 then [DigitChar(n)]
    else
      var prefix := NatToString(n / 10);
      var r := prefix + [DigitChar(n % 10)];
      assert r[..|r| - 1] == prefix;
      r
  }

  lemma NatToStringInjective(a: nat, b: nat)
    requires NatToString(a) == NatToString(b)
    ensures a == b
  {
  }

  /** Python's `str(i)` for any integer. */
  function IntToString(i: int): string {
    if i < 0 then "-" + NatToString(-i) else NatToString(i)
  }
}
