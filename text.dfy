/** Text primitives the components rely on: ASCII lower-casing (for
    `toLowerCase`), substring search (for `includes`), whitespace trimming
    (for `trim`) and the piece count of `split(/\s+/)`. */
module Text {

  /** The ECMAScript WhiteSpace and LineTerminator code points: the set that
      both `String.prototype.trim` and the regular-expression class `\s` use. */
  predicate IsSpace(c: char) {
    var n := c as int;
    n == 0x09 || n == 0x0A || n == 0x0B || n == 0x0C || n == 0x0D || n == 0x20 ||
    n == 0xA0 || n == 0x1680 || (0x2000 <= n <= 0x200A) || n == 0x2028 ||
    n == 0x2029 || n == 0x202F || n == 0x205F || n == 0x3000 || n == 0xFEFF
  }

  predicate AllSpace(s: string) {
    forall i :: 0 <= i < |s| ==> IsSpace(s[i])
  }

  function LowerChar(c: char): (r: char)
    ensures 'A' <= c <= 'Z' ==> r as int == c as int + 32
    ensures !('A' <= c <= 'Z') ==> r == c
    ensures !('A' <= r <= 'Z')
  {
    if 'A' <= c <= 'Z' then (c as int + 32) as char else c
  }

  /** `toLowerCase`, restricted to the ASCII letters. */
  function Lower(s: string): (r: string)
    ensures |r| == |s|
    ensures forall i :: 0 <= i < |s| ==> r[i] == LowerChar(s[i])
  {
    if s == [] then [] else [LowerChar(s[0])] + Lower(s[1..])
  }

  predicate IsPrefix(p: string, s: string) {
    |p| <= |s| && s[..|p|] == p
  }

  /** `haystack.includes(needle)`, searched left to right. */
  function Contains(haystack: string, needle: string): bool
    decreases |haystack|
  {
    if IsPrefix(needle, haystack) then true
    else if haystack == [] then false
    else Contains(haystack[1..], needle)
  }

  /** Independent definition: the needle occurs at some offset. */
  ghost predicate OccursAt(haystack: string, needle: string, k: int) {
    0 <= k && k + |needle| <= |haystack| && haystack[k..k + |needle|] == needle
  }

  lemma {:induction false} ContainsIffOccurs(haystack: string, needle: string)
    ensures Contains(haystack, needle) <==> exists k :: OccursAt(haystack, needle, k)
    decreases |haystack|
  {
    if IsPrefix(needle, haystack) {
      assert OccursAt(haystack, needle, 0);
    } else if haystack == [] {
      assert |needle| > 0;
    } else {
      var tail := haystack[1..];
      ContainsIffOccurs(tail, needle);
      if exists k :: OccursAt(tail, needle, k) {
        var k :| OccursAt(tail, needle, k);
        assert haystack[k + 1..k + 1 + |needle|] == tail[k..k + |needle|];
        assert OccursAt(haystack, needle, k + 1);
      }
      if exists k :: OccursAt(haystack, needle, k) {
        var k :| OccursAt(haystack, needle, k);
        assert k != 0;
        assert tail[k - 1..k - 1 + |needle|] == haystack[k..k + |needle|];
        assert OccursAt(tail, needle, k - 1);
      }
    }
  }

  /** Every string contains the empty string, so an empty search matches. */
  lemma ContainsEmpty(haystack: string)
    ensures Contains(haystack, "")
  {
    assert IsPrefix("", haystack);
  }

  /** `trimStart`: drop leading whitespace. */
  function TrimStart(s: string): (r: string)
    ensures |r| <= |s| && r == s[|s| - |r|..]
    ensures r == [] || !IsSpace(r[0])
    ensures AllSpace(s[..|s| - |r|])
  {
    if s != [] && IsSpace(s[0]) then
      var t := s[1..];
      var r := TrimStart(t);
      assert |t| - |r| == |s| - |r| - 1;
      SpaceRunFront(s, |s| - |r|);
      assert t[|t| - |r|..] == s[|s| - |r|..];
      r
    else s
  }

  /** A whitespace run after a leading space is a longer whitespace run. */
  lemma SpaceRunFront(s: string, k: nat)
    requires 1 <= k <= |s| && IsSpace(s[0]) && AllSpace(s[1..][..k - 1])
    ensures AllSpace(s[..k])
  {
    forall i | 0 <= i < k ensures IsSpace(s[..k][i]) {
      if i > 0 {
        assert s[..k][i] == s[1..][..k - 1][i - 1];
      }
    }
  }

  /** A whitespace run before a trailing space is a longer whitespace run. */
  lemma SpaceRunBack(s: string, k: nat)
    requires k < |s| && IsSpace(s[|s| - 1]) && AllSpace(s[..|s| - 1][k..])
    ensures AllSpace(s[k..])
  {
    forall i | 0 <= i < |s| - k ensures IsSpace(s[k..][i]) {
      if i < |s| - 1 - k {
        assert s[k..][i] == s[..|s| - 1][k..][i];
      }
    }
  }

  /** `trimEnd`: drop trailing whitespace. */
  function TrimEnd(s: string): (r: string)
    ensures |r| <= |s| && r == s[..|r|]
    ensures r == [] || !IsSpace(r[|r| - 1])
    ensures AllSpace(s[|r|..])
  {
    if s != [] && IsSpace(s[|s| - 1]) then
      var t := s[..|s| - 1];
      var r := TrimEnd(t);
      SpaceRunBack(s, |r|);
      assert t[..|r|] == s[..|r|];
      r
    else s
  }

  /** `trim`: a slice of `s` that starts and ends with a non-space, and is
      empty exactly when `s` is all whitespace. */
  function Trim(s: string): (r: string)
    ensures |r| <= |s|
    ensures r == [] || (!IsSpace(r[0]) && !IsSpace(r[|r| - 1]))
    ensures r == [] <==> AllSpace(s)
  {
    var t := TrimStart(s);
    TrimEmptyIff(s, t);
    TrimEnd(t)
  }

  /** `trim` returns a slice of its input with only whitespace cut off at
      either end. */
  lemma TrimIsSlice(s: string)
    ensures exists a, b :: 0 <= a <= b <= |s| && Trim(s) == s[a..b] && AllSpace(s[..a]) && AllSpace(s[b..])
  {
    var t := TrimStart(s);
    var r := TrimEnd(t);
    var a := |s| - |t|;
    assert r == s[a..a + |r|];
    assert t[|r|..] == s[a + |r|..];
  }

  lemma TrimEmptyIff(s: string, t: string)
    requires t == TrimStart(s)
    ensures TrimEnd(t) == [] <==> AllSpace(s)
    ensures TrimEnd(t) != [] ==> !IsSpace(TrimEnd(t)[0])
  {
    var r := TrimEnd(t);
    var k := |s| - |t|;
    if t == [] {
      assert s[..k] == s;
    } else {
      assert s[k] == t[0];
      assert !AllSpace(s);
      assert t[0..] == t;
      assert r[0] == t[0];
    }
  }

  /** Number of maximal whitespace runs in `s`. */
  function SpaceRuns(s: string): nat
  {
    if s == [] then 0
    else
      var n := |s|;
      SpaceRuns(s[..n - 1]) + if IsSpace(s[n - 1]) && (n == 1 || !IsSpace(s[n - 2])) then 1 else 0
  }

  /** `s.split(/\s+/).length`: the regular expression is greedy, so every
      maximal run of whitespace is one separator, and there is one piece more
      than there are separators (the empty string splits into one piece). */
  function SplitPieces(s: string): (r: nat)
    ensures r >= 1
  {
    1 + SpaceRuns(s)
  }

  /** Independent count of words: positions where a non-space follows a
      space or the start of the string. */
  function WordStarts(s: string): nat
  {
    if s == [] then 0
    else
      var n := |s|;
      WordStarts(s[..n - 1]) + if !IsSpace(s[n - 1]) && (n == 1 || IsSpace(s[n - 2])) then 1 else 0
  }

  lemma {:induction false} WordStartsFromRuns(s: string)
    requires s != [] && !IsSpace(s[0])
    ensures WordStarts(s) == SpaceRuns(s) + if IsSpace(s[|s| - 1]) then 0 else 1
    decreases |s|
  {
    if |s| > 1 {
      var t := s[..|s| - 1];
      assert t[0] == s[0];
      WordStartsFromRuns(t);
      assert t[|t| - 1] == s[|s| - 2];
    }
  }

  /** On a trimmed, non-empty string the pieces of `split(/\s+/)` are exactly
      the words. */
  lemma SplitPiecesCountsWords(s: string)
    requires Trim(s) != []
    ensures SplitPieces(Trim(s)) == WordStarts(Trim(s))
  {
    WordStartsFromRuns(Trim(s));
  }

  function DigitChar(d: nat): (c: char)
    requires d < 10
    ensures '0' <= c <= '9'
  {
    ('0' as int + d) as char
  }

  /** Decimal rendering of a natural number, as template interpolation
      `${n}` renders an integer. */
  function NatToString(n: nat): (r: string)
    ensures r != []
    ensures forall i :: 0 <= i < |r| ==> '0' <= r[i] <= '9'
  {
    if n < 10 then [DigitChar(n)] else NatToString(n / 10) + [DigitChar(n % 10)]
  }

  function ParseNat(s: string): nat
    requires forall i :: 0 <= i < |s| ==> '0' <= s[i] <= '9'
  {
    if s == [] then 0 else 10 * ParseNat(s[..|s| - 1]) + (s[|s| - 1] as int - '0' as int)
  }

  lemma {:induction false} ParseNatToString(n: nat)
    ensures ParseNat(NatToString(n)) == n
  {
    if n >= 10 {
      var r := NatToString(n);
      assert r[..|r| - 1] == NatToString(n / 10);
      ParseNatToString(n / 10);
    }
  }
}
