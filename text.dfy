/** String helpers with the Python semantics the extraction code relies on:
    str.strip, str.split on one character, sep.join, the `in` substring test,
    str.find for one character, ASCII lower-casing and re.sub(r'\D', '', s).
    Scans carry an index instead of slicing off the first element. */
module Text {

  datatype Option<T> = None | Some(value: T)

  /** Python's str.isspace(), which is also what `\s` matches in a str regex. */
  predicate IsSpace(c: char) {
    ('\U{0009}' <= c <= '\U{000D}') || ('\U{001C}' <= c <= '\U{0020}') ||
    c == '\U{0085}' || c == '\U{00A0}' || c == '\U{1680}' ||
    ('\U{2000}' <= c <= '\U{200A}') || c == '\U{2028}' || c == '\U{2029}' ||
    c == '\U{202F}' || c == '\U{205F}' || c == '\U{3000}'
  }

  predicate IsDigit(c: char) { '0' <= c <= '9' }

  predicate AllDigits(s: string) { forall i :: 0 <= i < |s| ==> IsDigit(s[i]) }

  /** Value of one ASCII digit. */
  function DigitValue(c: char): (v: nat)
    requires IsDigit(c)
    ensures v < 10
  {
    (c as int) - ('0' as int)
  }

  /** A string with no whitespace at either end. */
  predicate IsStripped(s: string) {
    s == [] || (!IsSpace(s[0]) && !IsSpace(s[|s| - 1]))
  }

  /** The end of the whitespace run that starts at i. */
  function SpaceRunEnd(s: string, i: nat): (r: nat)
    requires i <= |s|
    ensures i <= r <= |s|
    ensures forall k :: i <= k < r ==> IsSpace(s[k])
    ensures r == |s| || !IsSpace(s[r])
    decreases |s| - i
  {
    if i < |s| && IsSpace(s[i]) then SpaceRunEnd(s, i + 1) else i
  }

  /** A whitespace run from i reaching e ends at e or later. */
  lemma RunEndIsMax(s: string, i: nat, e: nat)
    requires i <= e <= |s|
    requires forall k :: i <= k < e ==> IsSpace(s[k])
    ensures e <= SpaceRunEnd(s, i)
  {
  }

  /** A whitespace run from i up to a non-space at e ends at e. */
  lemma RunEndAt(s: string, i: nat, e: nat)
    requires i <= e < |s| && !IsSpace(s[e])
    requires forall k :: i <= k < e ==> IsSpace(s[k])
    ensures SpaceRunEnd(s, i) == e
  {
    RunEndIsMax(s, i, e);
  }

  /** The start of the whitespace run that ends at j, going no lower than lo. */
  function SpaceRunStart(s: string, lo: nat, j: nat): (r: nat)
    requires lo <= j <= |s|
    ensures lo <= r <= j
    ensures forall k :: r <= k < j ==> IsSpace(s[k])
    ensures r == lo || !IsSpace(s[r - 1])
    decreases j
  {
    if j > lo && IsSpace(s[j - 1]) then SpaceRunStart(s, lo, j - 1) else j
  }

  /** str.strip(): the text between the leading and the trailing whitespace. */
  function Strip(s: string): (r: string)
    ensures IsStripped(r)
    ensures |r| <= |s|
    ensures exists a, b ::
      && 0 <= a <= b <= |s| && r == s[a..b]
      && (forall k :: 0 <= k < a ==> IsSpace(s[k]))
      && (forall k :: b <= k < |s| ==> IsSpace(s[k]))
  {
    var a := SpaceRunEnd(s, 0);
    var b := SpaceRunStart(s, a, |s|);
    s[a..b]
  }

  /** A stripped string is its own strip. */
  lemma StripOfStripped(s: string)
    requires IsStripped(s)
    ensures Strip(s) == s
  {
    assert SpaceRunEnd(s, 0) == 0;
    assert SpaceRunStart(s, 0, |s|) == |s|;
    assert s[0..|s|] == s;
  }

  /** Stripping twice is stripping once. */
  lemma StripIdempotent(s: string)
    ensures Strip(Strip(s)) == Strip(s)
  {
    StripOfStripped(Strip(s));
  }

  /** Stripping adds no character: what the input lacks, the result lacks. */
  lemma StripKeepsAbsent(s: string, c: char)
    requires c !in s
    ensures c !in Strip(s)
  {
    var a := SpaceRunEnd(s, 0);
    var b := SpaceRunStart(s, a, |s|);
    assert forall k :: 0 <= k < b - a ==> s[a..b][k] == s[a + k];
  }

  /** `sub` starts at position i of `s`. */
  predicate OccursAt(s: string, sub: string, i: int) {
    0 <= i && i + |sub| <= |s| && forall j :: 0 <= j < |sub| ==> s[i + j] == sub[j]
  }

  /** Python's `sub in s`. */
  predicate Contains(s: string, sub: string) {
    exists i :: 0 <= i <= |s| - |sub| && OccursAt(s, sub, i)
  }

  /** A needle longer than the haystack never occurs. */
  lemma ContainsTooLong(s: string, sub: string)
    requires |sub| > |s|
    ensures !Contains(s, sub)
  {
  }

  /** A text that holds `sub` holds each of its characters. */
  lemma ContainsHolds(s: string, sub: string, j: nat)
    requires j < |sub|
    ensures Contains(s, sub) ==> sub[j] in s
  {
    if Contains(s, sub) {
      var i :| 0 <= i <= |s| - |sub| && OccursAt(s, sub, i);
      assert s[i + j] == sub[j];
    }
  }

  /** Position of the first `c` in `s` at or after i, or -1
      (s.find(c, i) for one character). */
  function IndexOfChar(s: string, c: char, i: nat): (r: int)
    requires i <= |s|
    ensures r == -1 || i <= r < |s|
    ensures r == -1 ==> forall k :: i <= k < |s| ==> s[k] != c
    ensures r >= 0 ==> s[r] == c && forall k :: i <= k < r ==> s[k] != c
    decreases |s| - i
  {
    if i == |s| then -1
    else if s[i] == c then i
    else IndexOfChar(s, c, i + 1)
  }

  /** The first occurrence of a character at or after i can be named. */
  lemma IndexOfCharAt(s: string, c: char, i: nat, k: nat)
    requires i <= k < |s| && s[k] == c && forall j :: i <= j < k ==> s[j] != c
    ensures IndexOfChar(s, c, i) == k
  {
  }

  /** Position of the first occurrence of `sub` at or after i, or -1
      (s.find(sub, i)). */
  function IndexOfText(s: string, sub: string, i: nat): (r: int)
    requires i <= |s|
    ensures r == -1 || (i <= r && OccursAt(s, sub, r))
    ensures r == -1 ==> forall k :: i <= k ==> !OccursAt(s, sub, k)
    ensures r >= 0 ==> forall k :: i <= k < r ==> !OccursAt(s, sub, k)
    decreases |s| - i
  {
    if OccursAt(s, sub, i) then i
    else if i + |sub| >= |s| then -1
    else IndexOfText(s, sub, i + 1)
  }

  /** The first occurrence at or after i can be named. */
  lemma IndexOfTextAt(s: string, sub: string, i: nat, k: nat)
    requires i <= k && OccursAt(s, sub, k) && forall j :: i <= j < k ==> !OccursAt(s, sub, j)
    ensures IndexOfText(s, sub, i) == k
  {
  }

  /** An occurrence of a text inside an occurrence of a longer text. */
  lemma OccursWithin(s: string, big: string, small: string, i: int, j: int)
    requires OccursAt(s, big, i) && OccursAt(big, small, j)
    ensures OccursAt(s, small, i + j)
  {
    forall m | 0 <= m < |small| ensures s[i + j + m] == small[m] {
      assert big[j + m] == small[m];
      assert s[i + (j + m)] == big[j + m];
    }
  }

  /** Two adjacent occurrences make one occurrence of the joined text. */
  lemma OccursConcat(s: string, a: string, b: string, i: int)
    requires OccursAt(s, a, i) && OccursAt(s, b, i + |a|)
    ensures OccursAt(s, a + b, i)
  {
    forall m | 0 <= m < |a + b| ensures s[i + m] == (a + b)[m] {
      if m < |a| {
        assert (a + b)[m] == a[m];
      } else {
        assert (a + b)[m] == b[m - |a|];
        assert s[i + |a| + (m - |a|)] == b[m - |a|];
      }
    }
  }

  /** A slice occurs where it was cut. */
  lemma SliceOccurs(s: string, i: nat, j: nat)
    requires i <= j <= |s|
    ensures OccursAt(s, s[i..j], i)
  {
  }

  /** `sub in s` is a successful find. */
  lemma ContainsIndexOf(s: string, sub: string)
    ensures Contains(s, sub) <==> IndexOfText(s, sub, 0) != -1
  {
    var r := IndexOfText(s, sub, 0);
    if r != -1 {
      assert 0 <= r <= |s| - |sub| && OccursAt(s, sub, r);
    }
  }

  /** A one-character needle occurs at k exactly when that character is there. */
  lemma OccursAtChar(s: string, c: char, k: int)
    ensures OccursAt(s, [c], k) <==> 0 <= k < |s| && s[k] == c
  {
    if 0 <= k < |s| && s[k] == c {
      assert s[k + 0] == [c][0];
    }
    if OccursAt(s, [c], k) {
      assert s[k + 0] == [c][0];
    }
  }

  /** The pieces of s[i..] cut at every occurrence of sep, left to right. */
  function SplitFrom(s: string, sep: string, i: nat): (r: seq<string>)
    requires |sep| > 0 && i <= |s|
    ensures |r| >= 1
    decreases |s| - i
  {
    var k := IndexOfText(s, sep, i);
    if k == -1 then [s[i..]] else [s[i..k]] + SplitFrom(s, sep, k + |sep|)
  }

  /** str.split(sep) for a non-empty separator. */
  function Split(s: string, sep: string): (r: seq<string>)
    requires |sep| > 0
    ensures |r| >= 1
  {
    SplitFrom(s, sep, 0)
  }

  /** Deleting c from a concatenation deletes it from each part: with the
      one-character cases this fixes the order of what stays. */
  lemma {:induction false} RemoveCharAppend(a: string, b: string, c: char)
    ensures RemoveChar(a + b, c) == RemoveChar(a, c) + RemoveChar(b, c)
    decreases |b|
  {
    if b != [] {
      var b0 := b[..|b| - 1];
      assert (a + b)[..|a + b| - 1] == a + b0;
      assert (a + b)[|a + b| - 1] == b[|b| - 1];
      RemoveCharAppend(a, b0, c);
    } else {
      assert a + b == a;
    }
  }

  /** sep.join(parts). */
  function Join(parts: seq<string>, sep: string): (r: string)
    ensures |parts| > 0 ==> parts[0] <= r
    ensures forall x :: x !in sep && (forall k :: 0 <= k < |parts| ==> x !in parts[k]) ==> x !in r
    decreases |parts|
  {
    if parts == [] then []
    else if |parts| == 1 then parts[0]
    else parts[0] + sep + Join(parts[1..], sep)
  }

  /** Joining the pieces of s[i..] with the separator gives s[i..] back. */
  lemma {:induction false} JoinSplitFrom(s: string, sep: string, i: nat)
    requires |sep| > 0 && i <= |s|
    ensures Join(SplitFrom(s, sep, i), sep) == s[i..]
    decreases |s| - i
  {
    var k := IndexOfText(s, sep, i);
    if k != -1 {
      JoinSplitFrom(s, sep, k + |sep|);
      var rest := SplitFrom(s, sep, k + |sep|);
      var r := SplitFrom(s, sep, i);
      assert r == [s[i..k]] + rest;
      assert r[1..] == rest;
      assert s[k..k + |sep|] == sep;
      assert s[i..] == s[i..k] + s[k..k + |sep|] + s[k + |sep|..];
    }
  }

  /** Splitting and joining back with the same separator is the identity. */
  lemma JoinSplit(s: string, sep: string)
    requires |sep| > 0
    ensures Join(Split(s, sep), sep) == s
  {
    JoinSplitFrom(s, sep, 0);
    assert s[0..] == s;
  }

  /** A text holding the separator splits into at least two pieces. */
  lemma SplitAtLeastTwo(s: string, sep: string)
    requires |sep| > 0 && Contains(s, sep)
    ensures |Split(s, sep)| >= 2
  {
    ContainsIndexOf(s, sep);
  }

  /** The second piece of s.split(sep) runs from the end of the first
      occurrence of sep to the start of the next one, or to the end. */
  lemma SplitSecondPiece(s: string, sep: string, p: nat, q: nat)
    requires |sep| > 0
    requires OccursAt(s, sep, p) && forall k :: 0 <= k < p ==> !OccursAt(s, sep, k)
    requires p + |sep| <= q <= |s| && (q == |s| || OccursAt(s, sep, q))
    requires forall k :: p + |sep| <= k < q ==> !OccursAt(s, sep, k)
    ensures |Split(s, sep)| >= 2 && Split(s, sep)[1] == s[p + |sep|..q]
  {
    IndexOfTextAt(s, sep, 0, p);
    if q < |s| {
      IndexOfTextAt(s, sep, p + |sep|, q);
    }
    assert Split(s, sep) == [s[0..p]] + SplitFrom(s, sep, p + |sep|);
  }

  /** No piece of a split on one character holds that character. */
  lemma {:induction false} SplitFromOneChar(s: string, c: char, i: nat)
    requires i <= |s|
    ensures forall j :: 0 <= j < |SplitFrom(s, [c], i)| ==> c !in SplitFrom(s, [c], i)[j]
    decreases |s| - i
  {
    var k := IndexOfText(s, [c], i);
    var r := SplitFrom(s, [c], i);
    var end := if k == -1 then |s| else k;
    forall m | i <= m < end ensures s[m] != c {
      OccursAtChar(s, c, m);
    }
    assert forall m :: 0 <= m < end - i ==> s[i..end][m] == s[i + m];
    if k == -1 {
      assert r == [s[i..]];
      assert s[i..] == s[i..end];
    } else {
      assert r == [s[i..k]] + SplitFrom(s, [c], k + 1);
      SplitFromOneChar(s, c, k + 1);
    }
  }

  lemma SplitOneChar(s: string, c: char)
    ensures forall j :: 0 <= j < |Split(s, [c])| ==> c !in Split(s, [c])[j]
  {
    SplitFromOneChar(s, c, 0);
  }

  /** A character absent from s[i..] is absent from every piece of it. */
  lemma {:induction false} SplitFromKeepsAbsent(s: string, sep: string, c: char, i: nat)
    requires |sep| > 0 && i <= |s| && forall k :: i <= k < |s| ==> s[k] != c
    ensures forall j :: 0 <= j < |SplitFrom(s, sep, i)| ==> c !in SplitFrom(s, sep, i)[j]
    decreases |s| - i
  {
    var k := IndexOfText(s, sep, i);
    if k == -1 {
      assert forall j :: 0 <= j < |s| - i ==> s[i..][j] == s[i + j];
    } else {
      SplitFromKeepsAbsent(s, sep, c, k + |sep|);
      assert forall j :: 0 <= j < k - i ==> s[i..k][j] == s[i + j];
    }
  }

  /** A character absent from the text is absent from every piece of it. */
  lemma SplitKeepsAbsent(s: string, sep: string, c: char)
    requires |sep| > 0 && c !in s
    ensures forall j :: 0 <= j < |Split(s, sep)| ==> c !in Split(s, sep)[j]
  {
    SplitFromKeepsAbsent(s, sep, c, 0);
  }

  /** s with every `c` deleted (str.replace(c, "")). */
  function RemoveChar(s: string, c: char): (r: string)
    ensures c !in r
    ensures |r| <= |s|
    ensures c !in s ==> r == s
    ensures forall x :: x != c ==> multiset(r)[x] == multiset(s)[x]
    decreases |s|
  {
    if s == [] then []
    else
      var init := RemoveChar(s[..|s| - 1], c);
      assert s == s[..|s| - 1] + [s[|s| - 1]];
      if s[|s| - 1] == c then init else init + [s[|s| - 1]]
  }

  function LowerChar(c: char): char {
    if 'A' <= c <= 'Z' then (c as int + 32) as char else c
  }

  function UpperChar(c: char): char {
    if 'a' <= c <= 'z' then (c as int - 32) as char else c
  }

  /** str.lower() on ASCII letters; every other character is kept. */
  function Lower(s: string): (r: string)
    ensures |r| == |s|
    ensures forall i :: 0 <= i < |s| ==> r[i] == LowerChar(s[i])
  {
    seq(|s|, i requires 0 <= i < |s| => LowerChar(s[i]))
  }

  /** str.capitalize() on ASCII letters: first character upper, rest lower. */
  function Capitalize(s: string): (r: string)
    ensures |r| == |s|
    ensures |s| > 0 ==> r[0] == UpperChar(s[0])
    ensures forall i :: 0 < i < |s| ==> r[i] == LowerChar(s[i])
  {
    if s == [] then [] else [UpperChar(s[0])] + Lower(s[1..])
  }

  /** re.sub(r'\D', '', s): keep the ASCII digits, in order. */
  function DigitsOnly(s: string): (r: string)
    ensures AllDigits(r)
    ensures |r| <= |s|
    ensures AllDigits(s) ==> r == s
    ensures forall c :: c in r <==> c in s && IsDigit(c)
    decreases |s|
  {
    if s == [] then []
    else
      var init := DigitsOnly(s[..|s| - 1]);
      assert s == s[..|s| - 1] + [s[|s| - 1]];
      if IsDigit(s[|s| - 1]) then init + [s[|s| - 1]] else init
  }

  /** Each digit is kept as often as it occurs, and nothing else is kept. */
  lemma {:induction false} DigitsOnlyCounts(s: string, c: char)
    ensures multiset(DigitsOnly(s))[c] == if IsDigit(c) then multiset(s)[c] else 0
    decreases |s|
  {
    if s != [] {
      var init := s[..|s| - 1];
      assert s == init + [s[|s| - 1]];
      DigitsOnlyCounts(init, c);
    }
  }

  /** The positions of the elements that satisfy p, in increasing order. */
  function Positions<T>(xs: seq<T>, p: T -> bool): seq<nat>
    decreases |xs|
  {
    if xs == [] then []
    else
      var init := Positions(xs[..|xs| - 1], p);
      if p(xs[|xs| - 1]) then init + [|xs| - 1] else init
  }

  /** Positions are below the length and strictly increase. */
  lemma {:induction false} PositionsIncrease<T>(xs: seq<T>, p: T -> bool)
    ensures forall k :: 0 <= k < |Positions(xs, p)| ==> Positions(xs, p)[k] < |xs|
    ensures forall k, l :: 0 <= k < l < |Positions(xs, p)| ==> Positions(xs, p)[k] < Positions(xs, p)[l]
    decreases |xs|
  {
    if xs != [] {
      PositionsIncrease(xs[..|xs| - 1], p);
    }
  }

  /** A position is listed exactly when its element satisfies p. */
  lemma {:induction false} PositionsExact<T>(xs: seq<T>, p: T -> bool)
    ensures forall j :: 0 <= j < |xs| ==> (p(xs[j]) <==> j in Positions(xs, p))
    decreases |xs|
  {
    if xs != [] {
      var n := |xs| - 1;
      var init := xs[..n];
      PositionsExact(init, p);
      PositionsIncrease(init, p);
      assert n !in Positions(init, p);
      forall j | 0 <= j < n ensures p(xs[j]) <==> j in Positions(xs, p) {
        assert init[j] == xs[j];
      }
    }
  }

  /** The k-th kept digit is the character at the k-th digit position:
      with PositionsIncrease and PositionsExact, DigitsOnly keeps every
      digit, drops everything else and keeps the order. */
  lemma {:induction false} DigitsOnlyPicks(s: string)
    ensures var r, idx := DigitsOnly(s), Positions(s, IsDigit);
      |r| == |idx| && forall k :: 0 <= k < |idx| ==> idx[k] < |s| && r[k] == s[idx[k]]
    decreases |s|
  {
    if s != [] {
      var n := |s| - 1;
      var init := s[..n];
      DigitsOnlyPicks(init);
      PositionsIncrease(init, IsDigit);
      var idx, r := Positions(s, IsDigit), DigitsOnly(s);
      var idx0, r0 := Positions(init, IsDigit), DigitsOnly(init);
      if IsDigit(s[n]) {
        assert idx == idx0 + [n] && r == r0 + [s[n]];
      } else {
        assert idx == idx0 && r == r0;
      }
      forall k | 0 <= k < |idx0|
        ensures idx[k] < |s| && r[k] == s[idx[k]]
      {
        assert idx[k] == idx0[k] && r[k] == r0[k];
        assert init[idx0[k]] == s[idx0[k]];
      }
    }
  }

  /** k is the position of the first element satisfying `p`. */
  predicate IsFirst(ws: seq<string>, p: string -> bool, k: int) {
    0 <= k < |ws| && p(ws[k]) && forall j :: 0 <= j < k ==> !p(ws[j])
  }

  /** Index of the first element at or after i satisfying `p`, or -1. */
  function FindFrom(ws: seq<string>, p: string -> bool, i: nat): (r: int)
    requires i <= |ws|
    ensures r == -1 || i <= r < |ws|
    ensures r >= 0 ==> p(ws[r]) && forall k :: i <= k < r ==> !p(ws[k])
    ensures r == -1 ==> forall k :: i <= k < |ws| ==> !p(ws[k])
    decreases |ws| - i
  {
    if i == |ws| then -1
    else if p(ws[i]) then i
    else FindFrom(ws, p, i + 1)
  }

  /** Index of the first element satisfying `p`, or -1: Python's
      next((i for i, w in enumerate(ws) if p(w)), -1). */
  function FindFirst(ws: seq<string>, p: string -> bool): (r: int)
    ensures -1 <= r < |ws|
    ensures r >= 0 ==> IsFirst(ws, p, r)
    ensures r == -1 ==> forall k :: 0 <= k < |ws| ==> !p(ws[k])
  {
    FindFrom(ws, p, 0)
  }

  /** The first element satisfying `p` is what FindFirst finds. */
  lemma FindFirstIs(ws: seq<string>, p: string -> bool, k: int)
    requires IsFirst(ws, p, k)
    ensures FindFirst(ws, p) == k
  {
  }

  /** Index of the last element below n satisfying `p`, or -1. */
  function LastBefore(ws: seq<string>, p: string -> bool, n: nat): (r: int)
    requires n <= |ws|
    ensures -1 <= r < n
    ensures r >= 0 ==> p(ws[r])
    ensures forall k :: r < k < n ==> !p(ws[k])
    decreases n
  {
    if n == 0 then -1
    else if p(ws[n - 1]) then n - 1
    else LastBefore(ws, p, n - 1)
  }

  /** Index of the last element satisfying `p`, or -1. */
  function FindLast(ws: seq<string>, p: string -> bool): (r: int)
    ensures -1 <= r < |ws|
    ensures r >= 0 ==> p(ws[r])
    ensures forall k :: r < k < |ws| ==> !p(ws[k])
  {
    LastBefore(ws, p, |ws|)
  }
}
