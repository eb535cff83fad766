/**
 * The few Python string operations the recognition client relies on:
 * `str.strip()`, `str.isalnum()`, `str.split('\n')` and `"\n".join(...)`.
 * Characters are classified on their ASCII meaning only.
 */
module Text {

  /** A character `str.strip()` removes: the ASCII characters `str.isspace()` accepts. */
  predicate IsWhitespace(c: char) {
    var n := c as int;
    n == 32 || 9 <= n <= 13 || 28 <= n <= 31
  }

  /** A character `str.isalnum()` accepts: an ASCII letter or digit. */
  predicate IsAlnum(c: char) {
    'a' <= c <= 'z' || 'A' <= c <= 'Z' || '0' <= c <= '9'
  }

  /** `any(c.isalnum() for c in s)` */
  predicate HasAlnum(s: string) {
    exists i :: 0 <= i < |s| && IsAlnum(s[i])
  }

  /** What `str.strip()` returns: nothing to remove at either end. */
  predicate IsStripped(s: string) {
    s == [] || (!IsWhitespace(s[0]) && !IsWhitespace(s[|s| - 1]))
  }

  /** Drops leading whitespace (the left half of `str.strip()`). */
  function TrimStart(s: string): (r: string)
    ensures r == [] || !IsWhitespace(r[0])
  {
    if |s| > 0 && IsWhitespace(s[0]) then TrimStart(s[1..]) else s
  }

  /** Drops trailing whitespace (the right half of `str.strip()`). */
  function TrimEnd(s: string): (r: string)
    ensures |r| <= |s| && r == s[..|r|]
    ensures r == [] || !IsWhitespace(r[|r| - 1])
  {
    if |s| > 0 && IsWhitespace(s[|s| - 1]) then TrimEnd(s[..|s| - 1]) else s
  }

  /** `str.strip()` */
  function Strip(s: string): (r: string)
    ensures IsStripped(r)
    ensures IsStripped(s) ==> r == s
  {
    var t := TrimStart(s);
    var r := TrimEnd(t);
    assert r == [] || r[0] == t[0];
    r
  }

  /** TrimStart removes exactly the leading run of whitespace. */
  lemma {:induction false} TrimStartRemovesLeading(s: string)
    ensures |TrimStart(s)| <= |s| && TrimStart(s) == s[|s| - |TrimStart(s)|..]
    ensures forall k :: 0 <= k < |s| - |TrimStart(s)| ==> IsWhitespace(s[k])
  {
    if |s| > 0 && IsWhitespace(s[0]) {
      TrimStartRemovesLeading(s[1..]);
    }
  }

  /** TrimEnd removes exactly the trailing run of whitespace. */
  lemma {:induction false} TrimEndRemovesTrailing(s: string)
    ensures forall k :: |TrimEnd(s)| <= k < |s| ==> IsWhitespace(s[k])
  {
    if |s| > 0 && IsWhitespace(s[|s| - 1]) {
      TrimEndRemovesTrailing(s[..|s| - 1]);
    }
  }

  /** `str.strip()` keeps one contiguous slice, with only whitespace cut from either side. */
  lemma StripInfix(s: string)
    ensures exists i, j :: 0 <= i <= j <= |s| && Strip(s) == s[i..j] &&
              (forall k :: 0 <= k < i ==> IsWhitespace(s[k])) &&
              (forall k :: j <= k < |s| ==> IsWhitespace(s[k]))
  {
    var t, r := TrimStart(s), Strip(s);
    var i := |s| - |t|;
    var j := i + |r|;
    assert j <= |s| && t == s[i..] by {
      TrimStartRemovesLeading(s);
    }
    assert r == s[i..j] by {
      assert r == t[..|r|];
    }
    assert forall k :: 0 <= k < i ==> IsWhitespace(s[k]) by {
      TrimStartRemovesLeading(s);
    }
    assert forall k :: j <= k < |s| ==> IsWhitespace(s[k]) by {
      TrimEndRemovesTrailing(t);
      forall k | j <= k < |s| ensures IsWhitespace(s[k]) {
        assert s[k] == t[k - i];
      }
    }
  }

  /** Stripping only removes characters, and only whitespace ones. */
  lemma StripChars(s: string)
    ensures forall c :: c in Strip(s) ==> c in s
    ensures forall c :: c in s && !IsWhitespace(c) ==> c in Strip(s)
  {
    var t := TrimStart(s);
    var r := TrimEnd(t);
    TrimStartRemovesLeading(s);
    TrimEndRemovesTrailing(t);
    assert forall c :: c in r ==> c in t;
    assert forall c :: c in t ==> c in s;
    forall c | c in s && !IsWhitespace(c) ensures c in r {
      var i :| 0 <= i < |s| && s[i] == c;
      var j := i - (|s| - |t|);
      assert 0 <= j < |t| && t[j] == c;
      assert j < |r| && r[j] == c;
    }
  }

  /** `"\n".join(xs)` */
  function Join(xs: seq<string>): (r: string) {
    if |xs| == 0 then []
    else if |xs| == 1 then xs[0]
    else xs[0] + "\n" + Join(xs[1..])
  }

  /** A join starts with its first piece and ends with its last one. */
  lemma {:induction false} JoinEnds(xs: seq<string>)
    requires |xs| > 0
    ensures |xs[0]| <= |Join(xs)| && Join(xs)[..|xs[0]|] == xs[0]
    ensures |xs[|xs| - 1]| <= |Join(xs)| && Join(xs)[|Join(xs)| - |xs[|xs| - 1]|..] == xs[|xs| - 1]
  {
    if |xs| > 1 {
      JoinEnds(xs[1..]);
      var tail := Join(xs[1..]);
      var r := xs[0] + "\n" + tail;
      assert r[|r| - |tail|..] == tail;
    }
  }

  /** Joining a piece in front of a non-empty list puts it and a line break in front. */
  lemma JoinCons(x: string, xs: seq<string>)
    requires |xs| > 0
    ensures Join([x] + xs) == x + "\n" + Join(xs)
  {
    assert ([x] + xs)[1..] == xs;
  }

  /** The position of the first line break in `s`. */
  function FirstBreak(s: string): (i: nat)
    requires '\n' in s
    ensures i < |s| && s[i] == '\n' && '\n' !in s[..i]
  {
    if s[0] == '\n' then 0
    else
      var i := FirstBreak(s[1..]);
      assert s[..i + 1] == [s[0]] + s[1..][..i];
      i + 1
  }

  /** `s.split('\n')`: the pieces between line breaks, always at least one. */
  function Split(s: string): (r: seq<string>)
    ensures |r| >= 1
    ensures forall k :: 0 <= k < |r| ==> '\n' !in r[k]
    ensures Join(r) == s
    decreases |s|
  {
    if '\n' !in s then [s]
    else
      var i := FirstBreak(s);
      var rest := Split(s[i + 1..]);
      JoinCons(s[..i], rest);
      assert s == s[..i] + "\n" + s[i + 1..];
      [s[..i]] + rest
  }

  /** Splitting a join of line-free pieces gives the pieces back. */
  lemma {:induction false} SplitJoin(xs: seq<string>)
    requires |xs| >= 1
    requires forall k :: 0 <= k < |xs| ==> '\n' !in xs[k]
    ensures Split(Join(xs)) == xs
  {
    if |xs| > 1 {
      SplitJoin(xs[1..]);
      SplitPrefix(xs[0], Join(xs[1..]));
      assert [xs[0]] + xs[1..] == xs;
    }
  }

  /** Splitting `a + "\n" + b` with `a` line-free puts `a` in front of the pieces of `b`. */
  lemma SplitPrefix(a: string, b: string)
    requires '\n' !in a
    ensures Split(a + "\n" + b) == [a] + Split(b)
  {
    var s := a + "\n" + b;
    assert s[|a|] == '\n' && s[..|a|] == a && s[|a| + 1..] == b;
    assert FirstBreak(s) == |a|;
  }

  /** A join of stripped, non-empty pieces has nothing to strip at either end. */
  lemma JoinStripped(xs: seq<string>)
    requires forall k :: 0 <= k < |xs| ==> xs[k] != [] && IsStripped(xs[k])
    ensures IsStripped(Join(xs))
  {
    if |xs| > 0 {
      JoinEnds(xs);
      var r := Join(xs);
      var first, last := xs[0], xs[|xs| - 1];
      assert r[..|first|][0] == first[0];
      assert r[|r| - |last|..][|last| - 1] == last[|last| - 1];
    }
  }

  /** A character of one piece occurs in the join. */
  lemma {:induction false} JoinContains(xs: seq<string>, k: nat, c: char)
    requires k < |xs| && c in xs[k]
    ensures c in Join(xs)
  {
    if |xs| > 1 && k > 0 {
      JoinContains(xs[1..], k - 1, c);
    }
  }
}
