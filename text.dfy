/** Text operations the catalogue uses when it compares names: the .NET
    `ToLower().Trim()` normalisation, `string.IsNullOrWhiteSpace`,
    `string.Contains` and an ordinal ordering for `OrderBy(Name)`. */
module Text {
  import opened Tables

  /** .NET `char.IsWhiteSpace`: U+0009..U+000D, U+0085, and the Unicode
      space, line and paragraph separators. */
  predicate IsWhiteSpace(c: char) {
    var n := c as int;
    (9 <= n <= 13) || n == 0x20 || n == 0x85 || n == 0xA0 || n == 0x1680
    || (0x2000 <= n <= 0x200A) || n == 0x2028 || n == 0x2029
    || n == 0x202F || n == 0x205F || n == 0x3000
  }

  predicate IsAsciiUpper(c: char) { 'A' <= c <= 'Z' }

  /** `string.IsNullOrWhiteSpace` (a model string is never null). */
  predicate IsBlank(s: string) {
    forall i :: 0 <= i < |s| ==> IsWhiteSpace(s[i])
  }

  /** `char.ToLower` restricted to ASCII letters. */
  function LowerChar(c: char): (r: char)
    ensures !IsAsciiUpper(r)
    ensures IsWhiteSpace(r) <==> IsWhiteSpace(c)
    ensures !IsAsciiUpper(c) ==> r == c
  {
    if IsAsciiUpper(c) then (c as int + 32) as char else c
  }

  /** `string.ToLower` over ASCII: each character through `LowerChar`. */
  function Lower(s: string): (r: string)
    ensures |r| == |s|
  {
    if s == [] then [] else [LowerChar(s[0])] + Lower(s[1..])
  }

  lemma {:induction false} LowerAt(s: string, i: nat)
    requires i < |s|
    ensures Lower(s)[i] == LowerChar(s[i])
  {
    if i > 0 {
      LowerAt(s[1..], i - 1);
    }
  }

  /** `ToLower` leaves no upper-case letter, keeps whitespace whitespace, and
      changes nothing in a string without upper-case letters. */
  lemma LowerFacts(s: string)
    ensures forall i :: 0 <= i < |s| ==> !IsAsciiUpper(Lower(s)[i])
    ensures forall i :: 0 <= i < |s| ==> (IsWhiteSpace(Lower(s)[i]) <==> IsWhiteSpace(s[i]))
    ensures (forall i :: 0 <= i < |s| ==> !IsAsciiUpper(s[i])) ==> Lower(s) == s
  {
    forall i | 0 <= i < |s| ensures Lower(s)[i] == LowerChar(s[i]) {
      LowerAt(s, i);
    }
  }

  /** How many whitespace characters `s` starts with. */
  function LeadingBlanks(s: string): (n: nat)
    ensures n <= |s|
  {
    if s != [] && IsWhiteSpace(s[0]) then 1 + LeadingBlanks(s[1..]) else 0
  }

  /** How many whitespace characters `s` ends with. */
  function TrailingBlanks(s: string): (n: nat)
    ensures n <= |s|
  {
    if s != [] && IsWhiteSpace(s[|s| - 1]) then 1 + TrailingBlanks(s[..|s| - 1]) else 0
  }

  /** The leading run counted is whitespace, and what follows it is not. */
  lemma {:induction false} LeadingBlanksFacts(s: string)
    ensures IsBlank(s[..LeadingBlanks(s)])
    ensures LeadingBlanks(s) < |s| ==> !IsWhiteSpace(s[LeadingBlanks(s)])
  {
    if s != [] && IsWhiteSpace(s[0]) {
      LeadingBlanksFacts(s[1..]);
      var k := LeadingBlanks(s);
      forall i | 0 <= i < k ensures IsWhiteSpace(s[..k][i]) {
        if i > 0 {
          assert s[..k][i] == s[1..][..k - 1][i - 1];
        }
      }
    }
  }

  /** The trailing run counted is whitespace, and what precedes it is not. */
  lemma {:induction false} TrailingBlanksFacts(s: string)
    ensures IsBlank(s[|s| - TrailingBlanks(s)..])
    ensures TrailingBlanks(s) < |s| ==> !IsWhiteSpace(s[|s| - 1 - TrailingBlanks(s)])
  {
    if s != [] && IsWhiteSpace(s[|s| - 1]) {
      var t := s[..|s| - 1];
      TrailingBlanksFacts(t);
      var k := |s| - TrailingBlanks(s);
      forall i | 0 <= i < |s| - k ensures IsWhiteSpace(s[k..][i]) {
        if k + i < |s| - 1 {
          assert s[k..][i] == t[k..][i];
        }
      }
    }
  }

  /** `string.TrimStart()`. */
  function TrimStart(s: string): string {
    s[LeadingBlanks(s)..]
  }

  /** `string.TrimEnd()`. */
  function TrimEnd(s: string): string {
    s[..|s| - TrailingBlanks(s)]
  }

  /** `string.Trim()`. */
  function Trim(s: string): string {
    TrimEnd(TrimStart(s))
  }

  /** `Trim` returns a contiguous piece of `s` with no whitespace at either
      end, and what it drops on either side is whitespace. */
  lemma TrimShape(s: string)
    ensures var r := Trim(s); var k := LeadingBlanks(s);
            && k + |r| <= |s| && r == s[k..k + |r|]
            && IsBlank(s[..k]) && IsBlank(s[k + |r|..])
            && (r == [] || (!IsWhiteSpace(r[0]) && !IsWhiteSpace(r[|r| - 1])))
  {
    var k := LeadingBlanks(s);
    var t := s[k..];
    var m := TrailingBlanks(t);
    var r := t[..|t| - m];
    assert r == Trim(s);
    LeadingBlanksFacts(s);
    TrailingBlanksFacts(t);
    assert r == s[k..k + |r|];
    assert s[k + |r|..] == t[|t| - m..];
    if r != [] {
      assert r[0] == s[k];
      assert r[|r| - 1] == t[|t| - 1 - m];
    }
  }

  /** `Trim` leaves nothing exactly when the string is blank. */
  lemma TrimEmptyIffBlank(s: string)
    ensures Trim(s) == [] <==> IsBlank(s)
  {
    TrimShape(s);
    var k := LeadingBlanks(s);
    if Trim(s) == [] {
      forall i | 0 <= i < |s| ensures IsWhiteSpace(s[i]) {
        if i < k {
          assert s[i] == s[..k][i];
        } else {
          assert s[i] == s[k..][i - k];
        }
      }
    }
  }

  /** The key the repositories compare names by: `x.ToLower().Trim()`; it is
      never longer than `x` (`NormalizeShape` gives its shape). */
  function Normalize(s: string): (r: string)
    ensures |r| <= |s|
  {
    Trim(Lower(s))
  }

  /** A normalised name has no upper-case letter and no whitespace at either
      end. */
  lemma NormalizeShape(s: string)
    ensures forall i :: 0 <= i < |Normalize(s)| ==> !IsAsciiUpper(Normalize(s)[i])
    ensures var n := Normalize(s); n == [] || (!IsWhiteSpace(n[0]) && !IsWhiteSpace(n[|n| - 1]))
  {
    LowerFacts(s);
    TrimKeepsLower(Lower(s));
  }

  /** Trimming a string without upper-case letters leaves none. */
  lemma TrimKeepsLower(l: string)
    requires forall i :: 0 <= i < |l| ==> !IsAsciiUpper(l[i])
    ensures forall i :: 0 <= i < |Trim(l)| ==> !IsAsciiUpper(Trim(l)[i])
    ensures var r := Trim(l); r == [] || (!IsWhiteSpace(r[0]) && !IsWhiteSpace(r[|r| - 1]))
  {
    TrimShape(l);
    var r := Trim(l);
    var k := LeadingBlanks(l);
    forall i | 0 <= i < |r| ensures !IsAsciiUpper(r[i]) {
      assert r[i] == l[k + i];
    }
  }

  /** Normalising twice is normalising once, so a stored name that is
      already normalised matches itself. */
  lemma NormalizeIdempotent(s: string)
    ensures Normalize(Normalize(s)) == Normalize(s)
  {
    var n := Normalize(s);
    NormalizeShape(s);
    LowerFacts(n);
    assert Lower(n) == n;
    assert LeadingBlanks(n) == 0;
    assert TrimStart(n) == n;
    assert TrailingBlanks(n) == 0;
    assert TrimEnd(n) == n;
  }

  /** `IsNullOrWhiteSpace(s)` holds exactly when `s` normalises to the empty
      string. */
  lemma BlankIffNormalizesEmpty(s: string)
    ensures IsBlank(s) <==> Normalize(s) == []
  {
    var l := Lower(s);
    LowerFacts(s);
    TrimEmptyIffBlank(l);
    assert IsBlank(s) <==> IsBlank(l);
  }

  predicate StartsWith(s: string, prefix: string) {
    |prefix| <= |s| && s[..|prefix|] == prefix
  }

  /** `string.Contains`: `t` occurs somewhere in `s` (the empty string
      occurs in every string), so it is never longer than `s`. */
  predicate Contains(s: string, t: string): (r: bool)
    ensures r ==> |t| <= |s|
    decreases |s|
  {
    StartsWith(s, t) || (s != [] && Contains(s[1..], t))
  }

  /** An occurrence of `t` at some position of `s` makes `Contains` hold;
      `ContainsWitness` is the converse. */
  lemma {:induction false} ContainsAt(s: string, t: string, k: nat)
    requires k + |t| <= |s| && s[k..k + |t|] == t
    ensures Contains(s, t)
    decreases k
  {
    if k > 0 {
      assert s[1..][k - 1..k - 1 + |t|] == t;
      ContainsAt(s[1..], t, k - 1);
    } else {
      assert s[..|t|] == t;
    }
  }

  /** When `Contains` holds, `t` occurs in `s` at the position returned. */
  lemma {:induction false} ContainsWitness(s: string, t: string) returns (k: nat)
    requires Contains(s, t)
    ensures k + |t| <= |s| && s[k..k + |t|] == t
    decreases |s|
  {
    if StartsWith(s, t) {
      k := 0;
    } else {
      var k' := ContainsWitness(s[1..], t);
      k := k' + 1;
      assert s[1..][k'..k' + |t|] == s[k..k + |t|];
    }
  }

  /** Ordinal string order: `a` comes no later than `b`. */
  predicate StrLeq(a: string, b: string)
    decreases |a|
  {
    a == [] || (b != [] && (a[0] < b[0] || (a[0] == b[0] && StrLeq(a[1..], b[1..]))))
  }

  lemma {:induction false} StrLeqTotal(a: string, b: string)
    ensures StrLeq(a, b) || StrLeq(b, a)
    decreases |a|
  {
    if a != [] && b != [] && a[0] == b[0] {
      StrLeqTotal(a[1..], b[1..]);
    }
  }

  lemma {:induction false} StrLeqTransitive(a: string, b: string, c: string)
    requires StrLeq(a, b) && StrLeq(b, c)
    ensures StrLeq(a, c)
    decreases |a|
  {
    if a != [] && b != [] && c != [] && a[0] == b[0] == c[0] {
      StrLeqTransitive(a[1..], b[1..], c[1..]);
    }
  }

  /** Ordering records by the ordinal order of a string key is a total
      preorder, whatever the key. */
  lemma KeyedStrLeqTotalPreorder<T(!new)>(leq: (T, T) -> bool, key: T -> string)
    requires forall a, b :: leq(a, b) == StrLeq(key(a), key(b))
    ensures TotalPreorder(leq)
  {
    forall a, b ensures leq(a, b) || leq(b, a) {
      StrLeqTotal(key(a), key(b));
    }
    forall a, b, c | leq(a, b) && leq(b, c) ensures leq(a, c) {
      StrLeqTransitive(key(a), key(b), key(c));
    }
  }
}
