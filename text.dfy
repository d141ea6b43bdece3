/**
  The string primitives the time analyser relies on, restricted to ASCII:
  whitespace as JavaScript's `trim` and the regular-expression class `\s` see it,
  decimal digits as `\d` sees them, `toLowerCase`, `includes`/`indexOf`,
  `replace` with a string pattern, `trim` and `split` on one character.
 */
module Text {
  import opened Wrappers

  /** ASCII whitespace: space, tab, line feed, vertical tab, form feed, carriage return. */
  predicate IsSpace(c: char) {
    c == ' ' || 9 <= c as int <= 13
  }

  predicate IsDigit(c: char) {
    '0' <= c <= '9'
  }

  predicate IsUpper(c: char) {
    'A' <= c <= 'Z'
  }

  predicate AllSpace(s: string) {
    forall i :: 0 <= i < |s| ==> IsSpace(s[i])
  }

  function LowerChar(c: char): (r: char)
    ensures !IsUpper(r)
    ensures IsUpper(c) ==> r as int == c as int + 32
    ensures !IsUpper(c) ==> r == c
  {
    if IsUpper(c) then (c as int + 32) as char else c
  }

  /** `toLowerCase` on ASCII text. */
  function Lower(s: string): (r: string)
    ensures |r| == |s|
    ensures forall i :: 0 <= i < |s| ==> r[i] == LowerChar(s[i])
  {
    seq(|s|, i requires 0 <= i < |s| => LowerChar(s[i]))
  }

  /** Lowering twice is lowering once, so lowering a lowered text changes nothing. */
  lemma LowerIdempotent(s: string)
    ensures Lower(Lower(s)) == Lower(s)
  {
  }

  /** `k` occurs in `s` starting at index `i`. */
  predicate OccursAt(s: string, k: string, i: nat) {
    i + |k| <= |s| && s[i..i + |k|] == k
  }

  /** `s.indexOf(k, i)`: the leftmost occurrence of `k` in `s` at or after `i`. */
  function IndexFrom(s: string, k: string, i: nat): (r: Option<nat>)
    requires i <= |s|
    ensures r.Some? ==> i <= r.value && OccursAt(s, k, r.value)
    decreases |s| - i
  {
    if i + |k| > |s| then None
    else if s[i..i + |k|] == k then Some(i)
    else IndexFrom(s, k, i + 1)
  }

  /** No occurrence of `k` lies between `i` and the one `IndexFrom` returns, and there is none
      at all from `i` on when it returns nothing. */
  lemma {:induction false} IndexFromSpec(s: string, k: string, i: nat)
    requires i <= |s|
    ensures IndexFrom(s, k, i).Some? ==> forall j :: i <= j < IndexFrom(s, k, i).value ==> !OccursAt(s, k, j)
    ensures IndexFrom(s, k, i).None? ==> forall j :: i <= j ==> !OccursAt(s, k, j)
    decreases |s| - i
  {
    if i + |k| <= |s| && s[i..i + |k|] != k {
      IndexFromSpec(s, k, i + 1);
    }
  }

  /** `s.indexOf(k)`. */
  function IndexOf(s: string, k: string): Option<nat> {
    IndexFrom(s, k, 0)
  }

  /** `indexOf` finds an occurrence at or before any occurrence there is. */
  lemma IndexOfAtMost(s: string, k: string, i: nat)
    requires OccursAt(s, k, i)
    ensures IndexOf(s, k).Some? && IndexOf(s, k).value <= i
  {
    IndexFromSpec(s, k, 0);
  }

  /** `s.includes(k)`. */
  predicate Contains(s: string, k: string) {
    IndexOf(s, k).Some?
  }

  /** `includes` holds exactly when there is an occurrence somewhere. */
  lemma ContainsIff(s: string, k: string)
    ensures Contains(s, k) <==> exists i :: OccursAt(s, k, i)
  {
    IndexFromSpec(s, k, 0);
    if Contains(s, k) {
      assert OccursAt(s, k, IndexOf(s, k).value);
    }
  }

  /** A witness occurrence is enough to establish `includes`. */
  lemma ContainsAt(s: string, k: string, i: nat)
    requires OccursAt(s, k, i)
    ensures Contains(s, k)
  {
    IndexOfAtMost(s, k, i);
  }

  /** An occurrence of `k` inside `s[lo..hi]` is an occurrence of `k` in `s`. */
  lemma ContainsWiden(s: string, k: string, lo: nat, hi: nat)
    requires lo <= hi <= |s|
    requires Contains(s[lo..hi], k)
    ensures Contains(s, k)
  {
    var i := IndexOf(s[lo..hi], k).value;
    forall j | 0 <= j < |k| ensures s[lo + i + j] == k[j] {
      assert s[lo..hi][i..i + |k|][j] == k[j];
    }
    assert s[lo + i..lo + i + |k|] == k;
    ContainsAt(s, k, lo + i);
  }

  /** `includes` is transitive: a text that contains `k` contains everything `k` contains. */
  lemma ContainsTrans(s: string, k: string, k2: string)
    requires Contains(s, k) && Contains(k, k2)
    ensures Contains(s, k2)
  {
    var i := IndexOf(s, k).value;
    ContainsWiden(s, k2, i, i + |k|);
  }

  /** `s.replace(pat, "")` with a string pattern: only the first occurrence is removed. */
  function RemoveFirst(s: string, pat: string): (r: string)
    ensures IndexOf(s, pat).None? ==> r == s
    ensures IndexOf(s, pat).Some? ==>
      var i := IndexOf(s, pat).value;
      i + |pat| <= |s| && r == s[..i] + s[i + |pat|..]
  {
    match IndexOf(s, pat)
    case None => s
    case Some(i) => s[..i] + s[i + |pat|..]
  }

  /** The length of the run of characters satisfying `p` that starts at index `j`. */
  function Run(s: string, j: nat, p: char -> bool): (n: nat)
    requires j <= |s|
    ensures j + n <= |s|
    decreases |s| - j
  {
    if j < |s| && p(s[j]) then 1 + Run(s, j + 1, p) else 0
  }

  /** Every character of the run satisfies `p`, and the run stops at the end or at a character that does not. */
  lemma {:induction false} RunSpec(s: string, j: nat, p: char -> bool)
    requires j <= |s|
    ensures forall i :: j <= i < j + Run(s, j, p) ==> p(s[i])
    ensures j + Run(s, j, p) == |s| || !p(s[j + Run(s, j, p)])
    decreases |s| - j
  {
    if j < |s| && p(s[j]) {
      RunSpec(s, j + 1, p);
    }
  }

  /** A run is determined by where it stops: any stretch of `p` characters ended by a non-`p` (or the end) is the run. */
  lemma {:induction false} RunExact(s: string, j: nat, p: char -> bool, n: nat)
    requires j + n <= |s|
    requires forall i :: j <= i < j + n ==> p(s[i])
    requires j + n == |s| || !p(s[j + n])
    ensures Run(s, j, p) == n
    decreases n
  {
    if n > 0 {
      RunExact(s, j + 1, p, n - 1);
    }
  }

  /** The number of whitespace characters just before index `b`, not going below `lo`. */
  function SpaceBefore(s: string, lo: nat, b: nat): (n: nat)
    requires lo <= b <= |s|
    ensures n <= b - lo
    decreases b
  {
    if b > lo && IsSpace(s[b - 1]) then 1 + SpaceBefore(s, lo, b - 1) else 0
  }

  /** The characters `SpaceBefore` counts are whitespace, and the one before them is not. */
  lemma {:induction false} SpaceBeforeSpec(s: string, lo: nat, b: nat)
    requires lo <= b <= |s|
    ensures forall i :: b - SpaceBefore(s, lo, b) <= i < b ==> IsSpace(s[i])
    ensures b - SpaceBefore(s, lo, b) == lo || !IsSpace(s[b - SpaceBefore(s, lo, b) - 1])
    decreases b
  {
    if b > lo && IsSpace(s[b - 1]) {
      SpaceBeforeSpec(s, lo, b - 1);
    }
  }

  /** How many characters `trim` drops from the front of `s`. */
  function TrimmedFront(s: string): nat
    ensures TrimmedFront(s) <= |s|
  {
    Run(s, 0, IsSpace)
  }

  /** `s.trim()`: the text between the leading and the trailing whitespace. */
  function Trim(s: string): (r: string)
    ensures TrimmedFront(s) + |r| <= |s|
    ensures r == s[TrimmedFront(s)..TrimmedFront(s) + |r|]
  {
    var a := TrimmedFront(s);
    s[a..|s| - SpaceBefore(s, a, |s|)]
  }

  /** What `trim` drops is whitespace, and what it keeps neither starts nor ends with whitespace. */
  lemma TrimSpec(s: string)
    ensures forall i :: 0 <= i < TrimmedFront(s) ==> IsSpace(s[i])
    ensures forall i :: TrimmedFront(s) + |Trim(s)| <= i < |s| ==> IsSpace(s[i])
    ensures Trim(s) == [] || (!IsSpace(Trim(s)[0]) && !IsSpace(Trim(s)[|Trim(s)| - 1]))
  {
    RunSpec(s, 0, IsSpace);
    SpaceBeforeSpec(s, TrimmedFront(s), |s|);
  }

  /** Trimming leaves nothing exactly when the text is all whitespace. */
  lemma TrimEmptyIff(s: string)
    ensures Trim(s) == [] <==> AllSpace(s)
  {
    TrimSpec(s);
    RunSpec(s, 0, IsSpace);
  }

  /** A stretch of `s` that starts and ends with non-white characters survives trimming,
      shifted left by the amount trimmed from the front. */
  lemma TrimKeeps(s: string, lo: nat, hi: nat)
    requires lo < hi <= |s|
    requires !IsSpace(s[lo]) && !IsSpace(s[hi - 1])
    ensures TrimmedFront(s) <= lo && hi - TrimmedFront(s) <= |Trim(s)|
    ensures Trim(s)[lo - TrimmedFront(s)..hi - TrimmedFront(s)] == s[lo..hi]
  {
    TrimSpec(s);
    var a := TrimmedFront(s);
    var t := Trim(s);
    assert a <= lo;
    assert hi <= a + |t|;
    forall k | 0 <= k < hi - lo ensures t[lo - a..hi - a][k] == s[lo..hi][k] {
      assert t[lo - a + k] == s[lo + k];
    }
  }

  /** The pieces of a `split(sep)` glued back together with `sep`. */
  function Join(pieces: seq<string>, sep: char): string
    requires |pieces| >= 1
  {
    if |pieces| == 1 then pieces[0] else pieces[0] + [sep] + Join(pieces[1..], sep)
  }

  /** Every character of a piece is a character of the joined text. */
  lemma {:induction false} JoinHasPieces(pieces: seq<string>, sep: char, k: nat)
    requires k < |pieces|
    ensures forall c :: c in pieces[k] ==> c in Join(pieces, sep)
  {
    if |pieces| > 1 {
      if k > 0 {
        JoinHasPieces(pieces[1..], sep, k - 1);
      }
    }
  }

  /** `s.split(sep)` for a one-character separator: joining the pieces gives `s` back and no piece holds `sep`. */
  function Split(s: string, sep: char): (r: seq<string>)
    ensures |r| >= 1
    ensures forall k :: 0 <= k < |r| ==> sep !in r[k]
    ensures Join(r, sep) == s
  {
    if s == [] then [[]]
    else
      var rest := Split(s[1..], sep);
      if s[0] == sep then
        assert ([[]] + rest)[1..] == rest;
        [[]] + rest
      else
        var r := [[s[0]] + rest[0]] + rest[1..];
        assert r[1..] == rest[1..];
        assert |rest| == 1 ==> Join(r, sep) == [s[0]] + rest[0];
        assert |rest| > 1 ==> Join(r, sep) == [s[0]] + (rest[0] + [sep] + Join(rest[1..], sep));
        assert s == [s[0]] + s[1..];
        r
  }

  /** The two properties of `Split` determine it: it is the only such decomposition. */
  lemma {:induction false} SplitUnique(s: string, sep: char, pieces: seq<string>)
    requires |pieces| >= 1
    requires forall k :: 0 <= k < |pieces| ==> sep !in pieces[k]
    requires Join(pieces, sep) == s
    ensures pieces == Split(s, sep)
    decreases |s|, |pieces[0]|
  {
    if s == [] {
    } else if pieces[0] == [] {
      assert s[0] == sep;
      assert s[1..] == Join(pieces[1..], sep);
      SplitUnique(s[1..], sep, pieces[1..]);
      assert pieces == [[]] + pieces[1..];
    } else {
      var first := pieces[0];
      var shorter := [first[1..]] + pieces[1..];
      assert shorter[1..] == pieces[1..];
      assert s[0] == first[0];
      assert forall k :: 0 <= k < |shorter| ==> sep !in shorter[k] by {
        assert forall c :: c in first[1..] ==> c in first;
      }
      if |pieces| == 1 {
        assert Join(shorter, sep) == s[1..];
      } else {
        assert s == first + ([sep] + Join(pieces[1..], sep));
        assert Join(shorter, sep) == first[1..] + [sep] + Join(pieces[1..], sep);
        assert s[1..] == first[1..] + ([sep] + Join(pieces[1..], sep));
      }
      SplitUnique(s[1..], sep, shorter);
      assert first == [first[0]] + first[1..];
      assert pieces == [[first[0]] + shorter[0]] + shorter[1..];
    }
  }
}
