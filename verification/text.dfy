/** Character and string helpers shared by the content extractor, the HTML
    converter and the labeller: Python's notion of whitespace, case-insensitive
    comparison, and `str.split` / `str.join` on a one-character separator. */
module Text {

  /** Python's `str.isspace()`, which is also what `\s` matches in a `str` regex. */
  predicate IsSpace(c: char) {
    || c == ' '
    || ('\t' <= c <= '\r')
    || ('\U{1C}' <= c <= '\U{1F}')
    || c == '\U{85}' || c == '\U{A0}' || c == '\U{1680}'
    || ('\U{2000}' <= c <= '\U{200A}')
    || c == '\U{2028}' || c == '\U{2029}' || c == '\U{202F}'
    || c == '\U{205F}' || c == '\U{3000}'
  }

  /** Lower-casing of one character (ASCII letters only). */
  function LowerChar(c: char): char {
    if 'A' <= c <= 'Z' then (c as int + 32) as char else c
  }

  function Lower(s: string): (r: string)
    ensures |r| == |s|
    ensures forall i :: 0 <= i < |s| ==> r[i] == LowerChar(s[i])
  {
    seq(|s|, i requires 0 <= i < |s| => LowerChar(s[i]))
  }

  /** `a.lower() == b.lower()`. */
  predicate CiEq(a: string, b: string) {
    Lower(a) == Lower(b)
  }

  /** Strings of different lengths are never equal ignoring case. */
  lemma CiEqSameLength(a: string, b: string)
    requires CiEq(a, b)
    ensures |a| == |b|
  {
    assert |Lower(a)| == |Lower(b)|;
  }

  predicate StartsWith(s: string, prefix: string) {
    |prefix| <= |s| && s[..|prefix|] == prefix
  }

  /** Position of the first occurrence of `c` in `s`. */
  function IndexOf(s: string, c: char): (k: nat)
    requires c in s
    ensures k < |s| && s[k] == c
    ensures forall i :: 0 <= i < k ==> s[i] != c
  {
    if s[0] == c then 0
    else
      assert c in s[1..] by { assert s == [s[0]] + s[1..]; }
      1 + IndexOf(s[1..], c)
  }

  /** Any first occurrence is the one `IndexOf` finds. */
  lemma IndexOfUnique(s: string, c: char, k: nat)
    requires k < |s| && s[k] == c
    requires forall i :: 0 <= i < k ==> s[i] != c
    ensures IndexOf(s, c) == k
  {
  }

  /** `sep.join(xs)`. */
  function Join(xs: seq<string>, sep: string): string
  {
    if |xs| == 0 then ""
    else if |xs| == 1 then xs[0]
    else xs[0] + sep + Join(xs[1..], sep)
  }

  /** `s.split(d)` for a one-character separator `d`. */
  function Split(s: string, d: char): (parts: seq<string>)
    ensures |parts| >= 1
    ensures forall i :: 0 <= i < |parts| ==> d !in parts[i]
    decreases |s|
  {
    if d in s then
      var k := IndexOf(s, d);
      [s[..k]] + Split(s[k + 1..], d)
    else [s]
  }

  /** A join splits at the separator after its first `k` pieces. */
  lemma {:induction false} JoinAt(xs: seq<string>, k: nat, sep: string)
    requires 0 < k < |xs|
    ensures Join(xs, sep) == Join(xs[..k], sep) + sep + Join(xs[k..], sep)
    decreases k
  {
    if k > 1 {
      JoinAt(xs[1..], k - 1, sep);
      assert xs[..k][1..] == xs[1..][..k - 1];
      assert xs[1..][k - 1..] == xs[k..];
    }
  }

  /** Appending one more piece to a non-empty join. */
  lemma {:induction false} JoinSnoc(xs: seq<string>, x: string, sep: string)
    requires |xs| >= 1
    ensures Join(xs + [x], sep) == Join(xs, sep) + sep + x
    decreases |xs|
  {
    if |xs| == 1 {
      assert (xs + [x])[1..] == [x];
    } else {
      assert (xs + [x])[1..] == xs[1..] + [x];
      JoinSnoc(xs[1..], x, sep);
    }
  }

  /** Splitting and joining back with the same separator gives the input back. */
  lemma {:induction false} SplitJoin(s: string, d: char)
    ensures Join(Split(s, d), [d]) == s
    decreases |s|
  {
    if d in s {
      var k := IndexOf(s, d);
      var rest := Split(s[k + 1..], d);
      SplitJoin(s[k + 1..], d);
      assert ([s[..k]] + rest)[1..] == rest;
      assert s == s[..k] + [d] + s[k + 1..];
    }
  }

  /** Joining separator-free pieces and splitting again gives the pieces back. */
  lemma {:induction false} JoinSplit(xs: seq<string>, d: char)
    requires |xs| >= 1
    requires forall i :: 0 <= i < |xs| ==> d !in xs[i]
    ensures Split(Join(xs, [d]), d) == xs
    decreases |xs|
  {
    if |xs| > 1 {
      var tail := Join(xs[1..], [d]);
      assert Join(xs, [d]) == xs[0] + [d] + tail;
      SplitAtFirst(xs[0], tail, d);
      JoinSplit(xs[1..], d);
      assert xs == [xs[0]] + xs[1..];
    }
  }

  /** Splitting at a first separator that follows a separator-free piece. */
  lemma SplitAtFirst(head: string, tail: string, d: char)
    requires d !in head
    ensures Split(head + [d] + tail, d) == [head] + Split(tail, d)
  {
    var s := head + [d] + tail;
    var k := |head|;
    assert s[k] == d;
    assert forall i :: 0 <= i < k ==> s[i] == head[i];
    IndexOfUnique(s, d, k);
    assert s[..k] == head;
    assert s[k + 1..] == tail;
  }

  /** Python's `str.lstrip()`: drops leading whitespace, and nothing else. */
  function TrimLeft(s: string): (r: string)
    ensures |r| <= |s| && r == s[|s| - |r|..]
    ensures r == [] || !IsSpace(r[0])
    ensures forall i :: 0 <= i < |s| - |r| ==> IsSpace(s[i])
    decreases |s|
  {
    if |s| > 0 && IsSpace(s[0]) then TrimLeft(s[1..]) else s
  }

  /** Python's `str.rstrip()`: drops trailing whitespace, and nothing else. */
  function TrimRight(s: string): (r: string)
    ensures |r| <= |s| && r == s[..|r|]
    ensures r == [] || !IsSpace(r[|r| - 1])
    ensures forall i :: |r| <= i < |s| ==> IsSpace(s[i])
    decreases |s|
  {
    if |s| > 0 && IsSpace(s[|s| - 1]) then TrimRight(s[..|s| - 1]) else s
  }

  /** Python's `str.strip()`: the slice left after dropping whitespace at
      both ends, and nothing else. */
  function Strip(s: string): (r: string)
    ensures r == [] || (!IsSpace(r[0]) && !IsSpace(r[|r| - 1]))
    ensures exists a, b :: 0 <= a <= b <= |s| && r == s[a..b] && SpaceOutside(s, a, b)
  {
    var l := TrimLeft(s);
    var r := TrimRight(l);
    TrimBoth(s, l, r);
    r
  }

  /** Trimming both ends keeps the slice between the leading and the
      trailing whitespace. */
  lemma {:induction false} TrimBoth(s: string, l: string, r: string)
    requires |l| <= |s| && l == s[|s| - |l|..] && forall i :: 0 <= i < |s| - |l| ==> IsSpace(s[i])
    requires |r| <= |l| && r == l[..|r|] && forall i :: |r| <= i < |l| ==> IsSpace(l[i])
    ensures |s| - |l| + |r| <= |s| && r == s[|s| - |l|..|s| - |l| + |r|]
    ensures SpaceOutside(s, |s| - |l|, |s| - |l| + |r|)
  {
    var a := |s| - |l|;
    var b := a + |r|;
    SliceOfSuffix(s, a, |r|);
    forall i | b <= i < |s| ensures IsSpace(s[i]) {
      assert l[i - a] == s[i];
    }
  }

  lemma SliceOfSuffix<T>(s: seq<T>, a: nat, k: nat)
    requires a + k <= |s|
    ensures s[a..][..k] == s[a..a + k]
  {
  }

  /** Everything of `s` before `a` and from `b` on is whitespace. */
  predicate SpaceOutside(s: string, a: nat, b: nat)
    requires a <= b <= |s|
  {
    && (forall i :: 0 <= i < a ==> IsSpace(s[i]))
    && (forall i :: b <= i < |s| ==> IsSpace(s[i]))
  }

  /** Stripping twice is stripping once. */
  lemma StripIdempotent(s: string)
    ensures Strip(Strip(s)) == Strip(s)
  {
    StripKeepsTrimmed(Strip(s));
  }

  /** A string with no leading or trailing whitespace is its own strip. */
  lemma StripKeepsTrimmed(t: string)
    requires t == [] || (!IsSpace(t[0]) && !IsSpace(t[|t| - 1]))
    ensures Strip(t) == t
  {
    assert TrimLeft(t) == t;
    assert TrimRight(t) == t;
  }

  /** The characters of `s` other than whitespace, in order. */
  function NonSpace(s: string): (r: string)
    ensures |r| <= |s|
  {
    if s == [] then []
    else (if IsSpace(s[0]) then [] else [s[0]]) + NonSpace(s[1..])
  }

  /** `NonSpace` distributes over concatenation. */
  lemma {:induction false} NonSpaceAppend(a: string, b: string)
    ensures NonSpace(a + b) == NonSpace(a) + NonSpace(b)
    decreases |a|
  {
    if a != [] {
      var h: string := if IsSpace(a[0]) then [] else [a[0]];
      assert (a + b)[0] == a[0] && (a + b)[1..] == a[1..] + b;
      assert NonSpace(a + b) == h + NonSpace(a[1..] + b);
      NonSpaceAppend(a[1..], b);
      assert NonSpace(a) == h + NonSpace(a[1..]);
    } else {
      assert a + b == b;
    }
  }

  /** Whitespace alone has no text. */
  lemma {:induction false} AllSpaceNoText(s: string)
    requires forall i :: 0 <= i < |s| ==> IsSpace(s[i])
    ensures NonSpace(s) == []
    decreases |s|
  {
    if s != [] {
      AllSpaceNoText(s[1..]);
    }
  }

  /** Stripping removes whitespace only: the text is unchanged. */
  lemma StripKeepsText(s: string)
    ensures NonSpace(Strip(s)) == NonSpace(s)
  {
    var a, b :| 0 <= a <= b <= |s| && Strip(s) == s[a..b] && SpaceOutside(s, a, b);
    SpaceOutsideKeepsText(s, a, b);
  }

  /** Cutting whitespace from both ends keeps the text. */
  lemma SpaceOutsideKeepsText(s: string, a: nat, b: nat)
    requires a <= b <= |s| && SpaceOutside(s, a, b)
    ensures NonSpace(s[a..b]) == NonSpace(s)
  {
    EdgesNoText(s, a, b);
    SplitThree(s, a, b);
    TextBetween(s[..a], s[a..b], s[b..]);
  }

  /** A text is its front, middle and back, in that order. */
  lemma SplitThree(s: string, a: nat, b: nat)
    requires a <= b <= |s|
    ensures s == s[..a] + s[a..b] + s[b..]
  {
  }

  /** Text between two runs of whitespace is all the text there is. */
  lemma TextBetween(x: string, m: string, y: string)
    requires NonSpace(x) == [] && NonSpace(y) == []
    ensures NonSpace(x + m + y) == NonSpace(m)
  {
    NonSpaceAppend(x + m, y);
    NonSpaceAppend(x, m);
  }

  /** The whitespace cut from either end has no text. */
  lemma EdgesNoText(s: string, a: nat, b: nat)
    requires a <= b <= |s| && SpaceOutside(s, a, b)
    ensures NonSpace(s[..a]) == [] && NonSpace(s[b..]) == []
  {
    forall i | 0 <= i < a ensures IsSpace(s[..a][i]) {
      assert s[..a][i] == s[i];
    }
    AllSpaceNoText(s[..a]);
    forall i | 0 <= i < |s| - b ensures IsSpace(s[b..][i]) {
      assert s[b..][i] == s[b + i];
    }
    AllSpaceNoText(s[b..]);
  }
}
