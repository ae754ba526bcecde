/** The handful of Python string operations the retrieval path relies on:
    `str.isspace`, `str.strip`, `str.split(sep)`, `sep.join(parts)` and
    `str.count(sub)`, over strings of code points. */
module Text {
  import opened Wrappers

  type String = seq<char>

  /** Python's `str.isspace` on one character: the code points whose
      Unicode bidirectional class is WS, B or S, or whose category is Zs. */
  predicate IsSpace(c: char)
    ensures c == ' ' || c == '\t' || c == '\n' || c == '\r' ==> IsSpace(c)
    ensures IsSpace(c) ==> !('0' <= c <= '9' || 'A' <= c <= 'Z' || 'a' <= c <= 'z' || c == '-')
  {
    || ('\t' <= c <= '\r')
    || ('\U{1C}' <= c <= ' ')
    || c == '\U{85}' || c == '\U{A0}' || c == '\U{1680}'
    || ('\U{2000}' <= c <= '\U{200A}')
    || c == '\U{2028}' || c == '\U{2029}' || c == '\U{202F}'
    || c == '\U{205F}' || c == '\U{3000}'
  }

  predicate AllSpace(s: String) {
    forall k :: 0 <= k < |s| ==> IsSpace(s[k])
  }

  /** Where `s.strip()` starts: the number of leading whitespace
      characters. */
  function SpanStart(s: String): (n: nat)
    ensures n <= |s|
    ensures forall k :: 0 <= k < n ==> IsSpace(s[k])
    ensures n < |s| ==> !IsSpace(s[n])
  {
    if s != [] && IsSpace(s[0]) then 1 + SpanStart(s[1..]) else 0
  }

  /** Where `s.strip()` ends: the length of `s` without its trailing
      whitespace. */
  function SpanEnd(s: String): (n: nat)
    ensures n <= |s|
    ensures forall k :: n <= k < |s| ==> IsSpace(s[k])
    ensures n > 0 ==> !IsSpace(s[n - 1])
  {
    if s != [] && IsSpace(s[|s| - 1]) then SpanEnd(s[..|s| - 1]) else |s|
  }

  /** `s.strip()`: the text between the leading and the trailing run of
      whitespace. The stripped text neither starts nor ends with
      whitespace, and it is empty exactly when `s` is all whitespace. */
  function Strip(s: String): (r: String)
    ensures r != [] ==> !IsSpace(r[0]) && !IsSpace(r[|r| - 1])
    ensures r == [] <==> AllSpace(s)
  {
    var lo := SpanStart(s);
    if lo == |s| then []
    else
      assert lo < SpanEnd(s) by { assert !IsSpace(s[lo]); }
      s[lo..SpanEnd(s)]
  }

  /** `s` is the stripped text with a run of whitespace on each side. */
  lemma StripIsSlice(s: String)
    ensures var lo, r := SpanStart(s), Strip(s);
      && lo + |r| <= |s|
      && r == s[lo..lo + |r|]
      && AllSpace(s[..lo]) && AllSpace(s[lo + |r|..])
  {
    var lo, r := SpanStart(s), Strip(s);
    if r != [] {
      assert lo + |r| == SpanEnd(s);
    }
  }

  /** Stripping a stripped string changes nothing. */
  lemma StripIdempotent(s: String)
    ensures Strip(Strip(s)) == Strip(s)
  {
    var r := Strip(s);
    if r != [] {
      assert SpanStart(r) == 0;
      assert SpanEnd(r) == |r|;
    }
  }

  /** `sub` starts at position `i` of `s`. */
  predicate OccursAt(s: String, sub: String, i: int) {
    0 <= i && i + |sub| <= |s| && s[i..i + |sub|] == sub
  }

  /** Python's `sub in s`. */
  predicate Contains(s: String, sub: String) {
    exists i | 0 <= i <= |s| :: OccursAt(s, sub, i)
  }

  /** An occurrence inside a slice is an occurrence in the whole string. */
  lemma OccursInSlice(s: String, lo: nat, hi: nat, sub: String, k: int)
    requires lo <= hi <= |s| && OccursAt(s[lo..hi], sub, k)
    ensures OccursAt(s, sub, lo + k)
  {
    var t := s[lo..hi];
    forall j | 0 <= j < |sub| ensures s[lo + k..lo + k + |sub|][j] == sub[j] {
      assert sub[j] == t[k..k + |sub|][j] == t[k + j];
    }
  }

  lemma ContainsInSlice(s: String, lo: nat, hi: nat, sub: String)
    requires lo <= hi <= |s| && Contains(s[lo..hi], sub)
    ensures Contains(s, sub)
  {
    var k :| OccursAt(s[lo..hi], sub, k);
    OccursInSlice(s, lo, hi, sub, k);
  }

  /** `s.find(sub, i)`: the leftmost occurrence of `sub` at or after `i`. */
  function FindFrom(s: String, sub: String, i: nat): (r: Option<nat>)
    decreases |s| - i
    ensures r.Some? ==> i <= r.value && OccursAt(s, sub, r.value)
    ensures r.Some? ==> forall k :: i <= k < r.value ==> !OccursAt(s, sub, k)
    ensures r.None? ==> forall k :: i <= k ==> !OccursAt(s, sub, k)
  {
    if i + |sub| > |s| then None
    else if s[i..i + |sub|] == sub then Some(i)
    else FindFrom(s, sub, i + 1)
  }

  function Find(s: String, sub: String): Option<nat> {
    FindFrom(s, sub, 0)
  }

  /** The first occurrence is the one that nothing earlier precedes. */
  lemma FindIs(s: String, sub: String, i: nat)
    requires OccursAt(s, sub, i)
    requires forall k :: 0 <= k < i ==> !OccursAt(s, sub, k)
    ensures Find(s, sub) == Some(i)
  {
  }

  lemma FindNone(s: String, sub: String)
    requires !Contains(s, sub)
    ensures Find(s, sub) == None
  {
  }

  /** `s.split(sep)`: scan left to right, cut at each leftmost occurrence
      of `sep` and continue after it. Python refuses an empty separator. */
  function Split(s: String, sep: String): (parts: seq<String>)
    requires |sep| > 0
    decreases |s|
    ensures |parts| >= 1
  {
    match Find(s, sep)
    case None => [s]
    case Some(i) => [s[..i]] + Split(s[i + |sep|..], sep)
  }

  /** `sep.join(parts)`: nothing for no pieces; otherwise the first piece
      opens the result, followed by the separator when there is a second
      piece. */
  function Join(parts: seq<String>, sep: String): (s: String)
    ensures parts == [] ==> s == []
    ensures |parts| >= 1 ==> parts[0] <= s
    ensures |parts| >= 2 ==> parts[0] + sep <= s
  {
    if |parts| == 0 then []
    else if |parts| == 1 then parts[0]
    else parts[0] + sep + Join(parts[1..], sep)
  }

  /** `s.count(sub)`: the number of non-overlapping occurrences of `sub`,
      counted left to right. It is zero exactly when `sub` does not occur,
      and the occurrences fit in `s`. */
  function Count(s: String, sub: String): (n: nat)
    requires |sub| > 0
    decreases |s|
    ensures n == 0 <==> !Contains(s, sub)
  {
    match Find(s, sub)
    case None => 0
    case Some(i) =>
      var n := 1 + Count(s[i + |sub|..], sub);
      assert OccursAt(s, sub, i);
      n
  }

  /** Joining the pieces of a split gives the string back. */
  lemma {:induction false} SplitJoin(s: String, sep: String)
    requires |sep| > 0
    ensures Join(Split(s, sep), sep) == s
    decreases |s|
  {
    match Find(s, sep)
    case None =>
    case Some(i) =>
      var rest := s[i + |sep|..];
      var tail := Split(rest, sep);
      SplitJoin(rest, sep);
      var parts := [s[..i]] + tail;
      assert Split(s, sep) == parts;
      assert parts[1..] == tail;
      assert Join(parts, sep) == s[..i] + sep + rest;
      assert OccursAt(s, sep, i);
      assert s == s[..i] + s[i..i + |sep|] + rest;
  }

  /** No piece of a split contains the separator. */
  lemma {:induction false} SplitPiecesFree(s: String, sep: String)
    requires |sep| > 0
    ensures forall j :: 0 <= j < |Split(s, sep)| ==> !Contains(Split(s, sep)[j], sep)
    decreases |s|
  {
    match Find(s, sep)
    case None =>
      assert Split(s, sep) == [s];
    case Some(i) =>
      var rest := s[i + |sep|..];
      SplitPiecesFree(rest, sep);
      assert !Contains(s[..i], sep) by {
        if Contains(s[..i], sep) {
          var k :| OccursAt(s[..i], sep, k);
          OccursInSlice(s, 0, i, sep, k);
        }
      }
  }

  /** A split has one more piece than there are separators. */
  lemma {:induction false} SplitLength(s: String, sep: String)
    requires |sep| > 0
    ensures |Split(s, sep)| == Count(s, sep) + 1
    decreases |s|
  {
    match Find(s, sep)
    case None =>
      assert Split(s, sep) == [s] && Count(s, sep) == 0;
    case Some(i) =>
      var rest := s[i + |sep|..];
      SplitLength(rest, sep);
      assert Split(s, sep) == [s[..i]] + Split(rest, sep);
      assert Count(s, sep) == 1 + Count(rest, sep);
  }

  /** Splitting all-whitespace text gives all-whitespace pieces. */
  lemma {:induction false} SplitAllSpace(s: String, sep: String)
    requires |sep| > 0 && AllSpace(s)
    ensures forall j :: 0 <= j < |Split(s, sep)| ==> AllSpace(Split(s, sep)[j])
    decreases |s|
  {
    match Find(s, sep)
    case None =>
    case Some(i) =>
      var rest := s[i + |sep|..];
      assert AllSpace(rest);
      SplitAllSpace(rest, sep);
  }

  /** Whitespace pieces joined with a whitespace separator are whitespace. */
  lemma {:induction false} JoinAllSpace(parts: seq<String>, sep: String)
    requires AllSpace(sep)
    requires forall j :: 0 <= j < |parts| ==> AllSpace(parts[j])
    ensures AllSpace(Join(parts, sep))
  {
    if |parts| >= 2 {
      JoinAllSpace(parts[1..], sep);
      var s := parts[0] + sep + Join(parts[1..], sep);
      forall k | 0 <= k < |s| ensures IsSpace(s[k]) {
        if k < |parts[0]| {
        } else if k < |parts[0]| + |sep| {
          assert s[k] == sep[k - |parts[0]|];
        } else {
          assert s[k] == Join(parts[1..], sep)[k - |parts[0]| - |sep|];
        }
      }
    }
  }

  /** `sep` placed right after `p` starts a match of itself at `k`. */
  predicate SepStartsAt(p: String, sep: String, k: int) {
    OccursAt(p + sep, sep, k)
  }

  /** Appending `sep` to `p` creates no occurrence of `sep` that begins
      inside `p`: neither a whole one nor one that straddles the border.
      This is what a piece needs for `split` to undo `join`. */
  predicate OverlapFree(p: String, sep: String) {
    forall k :: 0 <= k < |p| ==> !SepStartsAt(p, sep, k)
  }

  /** Whether `sub` occurs at `k` depends only on the characters there. */
  lemma OccursInPrefix(a: String, b: String, sub: String, k: int)
    requires 0 <= k && k + |sub| <= |a|
    ensures OccursAt(a + b, sub, k) <==> OccursAt(a, sub, k)
  {
    assert (a + b)[k..k + |sub|] == a[k..k + |sub|];
  }

  /** An overlap-free piece does not contain the separator. */
  lemma OverlapFreeExcludes(p: String, sep: String)
    requires |sep| > 0 && OverlapFree(p, sep)
    ensures !Contains(p, sep)
  {
    forall k | 0 <= k <= |p| ensures !OccursAt(p, sep, k) {
      if k + |sep| <= |p| {
        OccursInPrefix(p, sep, sep, k);
        assert !SepStartsAt(p, sep, k);
      }
    }
  }

  /** Splitting joined pieces gives the pieces back, when no piece runs
      into the separator that follows it. */
  lemma {:induction false} JoinSplit(parts: seq<String>, sep: String)
    requires |sep| > 0 && |parts| >= 1
    requires forall j :: 0 <= j < |parts| ==> OverlapFree(parts[j], sep)
    ensures Split(Join(parts, sep), sep) == parts
  {
    var p := parts[0];
    assert OverlapFree(p, sep);
    if |parts| == 1 {
      OverlapFreeExcludes(p, sep);
      FindNone(p, sep);
    } else {
      var rest := Join(parts[1..], sep);
      var s := p + sep + rest;
      assert Join(parts, sep) == s;
      assert OccursAt(s, sep, |p|) by {
        assert s[|p|..|p| + |sep|] == sep;
      }
      forall k | 0 <= k < |p| ensures !OccursAt(s, sep, k) {
        assert !SepStartsAt(p, sep, k);
        OccursInPrefix(p + sep, rest, sep, k);
      }
      FindIs(s, sep, |p|);
      assert s[..|p|] == p;
      assert s[|p| + |sep|..] == rest;
      JoinSplit(parts[1..], sep);
    }
  }
}
