/** The Python string operations the legal-text core relies on, stated on
    `seq<char>`: `str.lower()` (ASCII letters only), `str.strip()`, the
    substring test `t in s`, `sep.join(xs)`, `s.split(sep)` and
    `s.replace(old, new)`.  Each is given by a small recursive definition and
    tied by lemmas to an independent description of what it means. */
module Text {

  // ---------------------------------------------------------------------
  // Case folding
  // ---------------------------------------------------------------------

  predicate IsAsciiUpper(c: char) { 'A' <= c <= 'Z' }

  function LowerChar(c: char): char
  {
    if IsAsciiUpper(c) then (c as int + 32) as char else c
  }

  /** `s.lower()` restricted to ASCII: every 'A'..'Z' becomes 'a'..'z',
      every other character is kept. */
  function Lower(s: string): (r: string)
    ensures |r| == |s|
    ensures forall i :: 0 <= i < |s| ==> r[i] == LowerChar(s[i])
  {
    seq(|s|, i requires 0 <= i < |s| => LowerChar(s[i]))
  }

  /** No ASCII upper-case letter occurs in `s`. */
  predicate NoUpper(s: string)
  {
    forall c :: c in s ==> !IsAsciiUpper(c)
  }

  /** Lower-casing leaves no upper-case letter behind and is idempotent. */
  lemma LowerIsLower(s: string)
    ensures NoUpper(Lower(s))
    ensures Lower(Lower(s)) == Lower(s)
  {
    forall c | c in Lower(s) ensures !IsAsciiUpper(c) {
      var i :| 0 <= i < |Lower(s)| && Lower(s)[i] == c;
    }
  }

  /** A string without upper-case letters is its own lower-case form. */
  lemma LowerOfLower(s: string)
    requires NoUpper(s)
    ensures Lower(s) == s
  {
    forall i | 0 <= i < |s| ensures Lower(s)[i] == s[i] {
      assert s[i] in s;
    }
  }

  lemma LowerAppend(a: string, b: string)
    ensures Lower(a + b) == Lower(a) + Lower(b)
  {
  }

  // ---------------------------------------------------------------------
  // Whitespace stripping
  // ---------------------------------------------------------------------

  /** The characters for which Python's `str.isspace()` holds, which are the
      ones `str.strip()` removes. */
  predicate IsSpace(c: char)
  {
    || c == ' '
    || '\t' <= c <= '\r'
    || '\U{1C}' <= c <= '\U{1F}'
    || c == '\U{85}' || c == '\U{A0}' || c == '\U{1680}'
    || '\U{2000}' <= c <= '\U{200A}'
    || c == '\U{2028}' || c == '\U{2029}' || c == '\U{202F}' || c == '\U{205F}'
    || c == '\U{3000}'
  }

  predicate AllSpace(s: string)
  {
    forall i :: 0 <= i < |s| ==> IsSpace(s[i])
  }

  /** The number of whitespace characters at the front of `s`. */
  function LeadingSpaces(s: string): (n: nat)
    ensures n <= |s|
    ensures AllSpace(s[..n])
    ensures n < |s| ==> !IsSpace(s[n])
    ensures n == |s| <==> AllSpace(s)
    decreases |s|
  {
    if s != [] && IsSpace(s[0]) then
      var n := LeadingSpaces(s[1..]);
      assert s == [s[0]] + s[1..];
      assert s[..1 + n] == [s[0]] + s[1..][..n];
      AllSpaceAppend([s[0]], s[1..][..n]);
      AllSpaceAppend([s[0]], s[1..]);
      1 + n
    else 0
  }

  /** The length of `s` once the whitespace at its end is cut off. */
  function WithoutTrailingSpaces(s: string): (n: nat)
    ensures n <= |s|
    ensures AllSpace(s[n..])
    ensures n > 0 ==> !IsSpace(s[n - 1])
    ensures n == 0 <==> AllSpace(s)
    decreases |s|
  {
    if s != [] && IsSpace(s[|s| - 1]) then
      var front, last := s[..|s| - 1], [s[|s| - 1]];
      var n := WithoutTrailingSpaces(front);
      assert s == front + last;
      assert s[n..] == front[n..] + last;
      AllSpaceAppend(front[n..], last);
      AllSpaceAppend(front, last);
      n
    else |s|
  }

  /** `s.strip()`: the slice of `s` left once whitespace is removed at both
      ends.  It is empty exactly when `s` is all whitespace, and it neither
      starts nor ends with whitespace. */
  function Strip(s: string): (r: string)
    ensures r == [] <==> AllSpace(s)
    ensures r != [] ==> !IsSpace(r[0]) && !IsSpace(r[|r| - 1])
    ensures exists lo, hi :: 0 <= lo <= hi <= |s| && r == s[lo..hi]
                             && AllSpace(s[..lo]) && AllSpace(s[hi..])
  {
    var lo := LeadingSpaces(s);
    var hi := lo + WithoutTrailingSpaces(s[lo..]);
    StripBounds(s, lo, hi);
    s[lo..hi]
  }

  /** The facts `Strip` promises, for the bounds it computes. */
  lemma StripBounds(s: string, lo: nat, hi: nat)
    requires lo == LeadingSpaces(s) && hi == lo + WithoutTrailingSpaces(s[lo..])
    ensures hi <= |s|
    ensures s[lo..hi] == [] <==> AllSpace(s)
    ensures s[lo..hi] != [] ==> !IsSpace(s[lo..hi][0]) && !IsSpace(s[lo..hi][hi - lo - 1])
    ensures AllSpace(s[..lo]) && AllSpace(s[hi..])
  {
    StripEmpty(s, lo, hi);
    StripEnds(s, lo, hi);
    StripRemovesSpaces(s, lo, hi);
  }

  lemma StripEnds(s: string, lo: nat, hi: nat)
    requires lo == LeadingSpaces(s) && hi == lo + WithoutTrailingSpaces(s[lo..])
    ensures hi <= |s|
    ensures s[lo..hi] != [] ==> !IsSpace(s[lo..hi][0]) && !IsSpace(s[lo..hi][hi - lo - 1])
  {
    var rest := s[lo..];
    if hi > lo {
      assert s[lo..hi][0] == s[lo];
      assert s[lo..hi][hi - lo - 1] == rest[hi - lo - 1];
    }
  }

  lemma StripRemovesSpaces(s: string, lo: nat, hi: nat)
    requires lo == LeadingSpaces(s) && hi == lo + WithoutTrailingSpaces(s[lo..])
    ensures hi <= |s|
    ensures AllSpace(s[..lo]) && AllSpace(s[hi..])
  {
    assert s[hi..] == s[lo..][hi - lo..];
  }

  lemma StripEmpty(s: string, lo: nat, hi: nat)
    requires lo == LeadingSpaces(s) && hi == lo + WithoutTrailingSpaces(s[lo..])
    ensures s[lo..hi] == [] <==> AllSpace(s)
  {
    assert s == s[..lo] + s[lo..];
    AllSpaceAppend(s[..lo], s[lo..]);
  }

  lemma AllSpaceAppend(a: string, b: string)
    ensures AllSpace(a + b) <==> AllSpace(a) && AllSpace(b)
  {
    if AllSpace(a + b) {
      forall i | 0 <= i < |b| ensures IsSpace(b[i]) {
        assert b[i] == (a + b)[|a| + i];
      }
      forall i | 0 <= i < |a| ensures IsSpace(a[i]) {
        assert a[i] == (a + b)[i];
      }
    }
  }

  // ---------------------------------------------------------------------
  // Substrings
  // ---------------------------------------------------------------------

  predicate StartsWith(s: string, p: string)
  {
    |p| <= |s| && s[..|p|] == p
  }

  /** Python's `t in s` on strings: `t` occurs in `s` at some position. */
  predicate Contains(s: string, t: string)
    decreases |s|
  {
    StartsWith(s, t) || (s != [] && Contains(s[1..], t))
  }

  /** `t` occurs in `s` starting at position `i`. */
  predicate OccursAt(s: string, t: string, i: int)
  {
    0 <= i && i + |t| <= |s| && s[i..i + |t|] == t
  }

  /** `Contains` agrees with the positional definition of a substring. */
  lemma ContainsIff(s: string, t: string)
    ensures Contains(s, t) <==> exists i :: OccursAt(s, t, i)
  {
    if Contains(s, t) {
      ContainsOccurs(s, t);
    }
    forall i | OccursAt(s, t, i)
      ensures Contains(s, t)
    {
      OccursContains(s, t, i);
    }
  }

  lemma {:induction false} ContainsOccurs(s: string, t: string)
    requires Contains(s, t)
    ensures exists i :: OccursAt(s, t, i)
    decreases |s|
  {
    if StartsWith(s, t) {
      assert s[0..0 + |t|] == s[..|t|];
      assert OccursAt(s, t, 0);
    } else {
      ContainsOccurs(s[1..], t);
      var i :| OccursAt(s[1..], t, i);
      assert s[i + 1..i + 1 + |t|] == s[1..][i..i + |t|];
      assert OccursAt(s, t, i + 1);
    }
  }

  lemma {:induction false} OccursContains(s: string, t: string, i: int)
    requires OccursAt(s, t, i)
    ensures Contains(s, t)
    decreases i
  {
    if i == 0 {
      assert s[..|t|] == s[i..i + |t|];
    } else {
      assert s[1..][i - 1..i - 1 + |t|] == s[i..i + |t|];
      OccursContains(s[1..], t, i - 1);
    }
  }

  /** A pattern longer than the text does not occur in it. */
  lemma {:induction false} ShorterNotContains(s: string, t: string)
    requires |s| < |t|
    ensures !Contains(s, t)
    decreases |s|
  {
    if s != [] {
      ShorterNotContains(s[1..], t);
    }
  }

  /** A pattern with a character that the text lacks does not occur in it. */
  lemma {:induction false} MissingCharNotContains(s: string, t: string, c: char)
    requires c in t && c !in s
    ensures !Contains(s, t)
    decreases |s|
  {
    if s != [] {
      assert forall d :: d in s[1..] ==> d in s;
      MissingCharNotContains(s[1..], t, c);
    }
  }

  /** A text whose front holds no first character of the pattern contains
      the pattern exactly when the rest does. */
  lemma {:induction false} SkipFront(u: string, v: string, t: string)
    requires t != [] && t[0] !in u
    ensures Contains(u + v, t) <==> Contains(v, t)
    decreases |u|
  {
    if u == [] {
      assert u + v == v;
    } else {
      assert (u + v)[0] == u[0];
      assert (u + v)[1..] == u[1..] + v;
      assert forall d :: d in u[1..] ==> d in u;
      SkipFront(u[1..], v, t);
    }
  }

  /** One step of the scan: a text that does not start with the pattern
      contains it exactly when its tail does. */
  lemma ContainsCons(c: char, v: string, t: string)
    requires !StartsWith([c] + v, t)
    ensures Contains([c] + v, t) <==> Contains(v, t)
  {
    assert ([c] + v)[1..] == v;
  }

  /** A text that opens with `h + q`, where a match starting at the first
      character fails (the text differs from the pattern at position `k`
      of `h`) and no other character of `h + q` can start one, contains the
      pattern exactly when what follows `h + q` does. */
  lemma SkipMismatch(h: string, q: string, v: string, t: string, k: nat)
    requires k < |h| && k < |t| && h[k] != t[k]
    requires t[0] !in h[1..] && t[0] !in q
    ensures Contains(h + q + v, t) <==> Contains(v, t)
  {
    var s := h + q + v;
    assert s[k] == h[k];
    assert |t| > |s| || s[..|t|][k] != t[k];
    assert s == [h[0]] + ((h[1..] + q) + v);
    assert forall c :: c in h[1..] + q ==> c in h[1..] || c in q;
    ContainsCons(h[0], (h[1..] + q) + v, t);
    SkipFront(h[1..] + q, v, t);
  }

  lemma ContainsAppend(u: string, v: string, t: string)
    requires Contains(v, t)
    ensures Contains(u + v, t)
    decreases |u|
  {
    if u != [] {
      assert (u + v)[1..] == u[1..] + v;
      ContainsAppend(u[1..], v, t);
    } else {
      assert u + v == v;
    }
  }

  lemma StartsWithContains(s: string, t: string)
    requires StartsWith(s, t)
    ensures Contains(s, t)
  {
  }

  /** Lowering keeps an occurrence: if `u` occurs in `s`, the lowering of
      `u` occurs in the lowering of `s`. */
  lemma {:induction false} ContainsLower(s: string, u: string)
    requires Contains(s, u)
    ensures Contains(Lower(s), Lower(u))
    decreases |s|
  {
    if StartsWith(s, u) {
      assert Lower(s)[..|u|] == Lower(s[..|u|]);
    } else {
      assert Lower(s)[1..] == Lower(s[1..]);
      ContainsLower(s[1..], u);
    }
  }

  /** A lower-case pattern found in a text is also found in the text's
      lowering. */
  lemma ContainsLowerPattern(s: string, t: string)
    requires NoUpper(t)
    requires Contains(s, t)
    ensures Contains(Lower(s), t)
  {
    ContainsLower(s, t);
    LowerOfLower(t);
  }

  /** `p` occurs in `s` at position `i` up to ASCII letter case: the slice
      of `s` there lowers to `p`. */
  predicate OccursAtIgnoringCase(s: string, p: string, i: int)
  {
    0 <= i && i + |p| <= |s| && Lower(s[i..i + |p|]) == p
  }

  /** Matching on the lowered text is case-insensitive matching: `p` occurs
      in `Lower(s)` exactly when some slice of `s` lowers to `p`. */
  lemma ContainsLowerIff(s: string, p: string)
    ensures Contains(Lower(s), p) <==> exists i :: OccursAtIgnoringCase(s, p, i)
  {
    ContainsIff(Lower(s), p);
    if Contains(Lower(s), p) {
      var i :| OccursAt(Lower(s), p, i);
      LowerSlice(s, i, i + |p|);
      assert OccursAtIgnoringCase(s, p, i);
    }
    forall i | OccursAtIgnoringCase(s, p, i)
      ensures Contains(Lower(s), p)
    {
      LowerSlice(s, i, i + |p|);
      assert OccursAt(Lower(s), p, i);
    }
  }

  /** Lowering commutes with slicing. */
  lemma LowerSlice(s: string, i: nat, j: nat)
    requires i <= j <= |s|
    ensures Lower(s)[i..j] == Lower(s[i..j])
  {
    assert |Lower(s)[i..j]| == |Lower(s[i..j])|;
    forall k | 0 <= k < j - i ensures Lower(s)[i..j][k] == Lower(s[i..j])[k] {
    }
  }

  // ---------------------------------------------------------------------
  // join and split
  // ---------------------------------------------------------------------

  /** `sep.join(xs)`. */
  function Join(sep: string, xs: seq<string>): string
  {
    if |xs| == 0 then ""
    else if |xs| == 1 then xs[0]
    else xs[0] + sep + Join(sep, xs[1..])
  }

  /** `s.split(sep)` for a non-empty separator: the pieces between the
      leftmost non-overlapping occurrences of `sep`, scanning from the left. */
  function Split(s: string, sep: string): (pieces: seq<string>)
    requires sep != []
    ensures |pieces| >= 1
    decreases |s|
  {
    if StartsWith(s, sep) then [""] + Split(s[|sep|..], sep)
    else if s == [] then [""]
    else
      var rest := Split(s[1..], sep);
      [[s[0]] + rest[0]] + rest[1..]
  }

  lemma JoinCons(sep: string, x: string, xs: seq<string>)
    requires xs != []
    ensures Join(sep, [x] + xs) == x + sep + Join(sep, xs)
  {
    assert ([x] + xs)[1..] == xs;
  }

  /** Splitting and joining back with the same separator gives the text back. */
  lemma {:induction false} SplitJoin(s: string, sep: string)
    requires sep != []
    ensures Join(sep, Split(s, sep)) == s
    decreases |s|
  {
    if StartsWith(s, sep) {
      SplitJoin(s[|sep|..], sep);
      SplitJoinAtSeparator(s, sep);
    } else if s != [] {
      SplitJoin(s[1..], sep);
      SplitJoinAtChar(s, sep);
    }
  }

  lemma SplitJoinAtSeparator(s: string, sep: string)
    requires sep != [] && StartsWith(s, sep)
    requires Join(sep, Split(s[|sep|..], sep)) == s[|sep|..]
    ensures Join(sep, Split(s, sep)) == s
  {
    var tail := s[|sep|..];
    var pieces := Split(tail, sep);
    assert Split(s, sep) == [""] + pieces;
    JoinCons(sep, "", pieces);
    assert "" + sep + tail == sep + tail;
    assert s == sep + tail;
  }

  lemma SplitJoinAtChar(s: string, sep: string)
    requires sep != [] && !StartsWith(s, sep) && s != []
    requires Join(sep, Split(s[1..], sep)) == s[1..]
    ensures Join(sep, Split(s, sep)) == s
  {
    var rest := Split(s[1..], sep);
    assert Split(s, sep) == [[s[0]] + rest[0]] + rest[1..];
    JoinPrepend(sep, s[0], rest);
    assert s == [s[0]] + s[1..];
  }

  /** Prepending a character to the first piece prepends it to the join. */
  lemma JoinPrepend(sep: string, c: char, xs: seq<string>)
    requires xs != []
    ensures Join(sep, [[c] + xs[0]] + xs[1..]) == [c] + Join(sep, xs)
  {
    var first := [c] + xs[0];
    if |xs| > 1 {
      JoinCons(sep, first, xs[1..]);
      JoinCons(sep, xs[0], xs[1..]);
      assert xs == [xs[0]] + xs[1..];
    }
  }

  /** Splitting a join on a one-character separator that none of the parts
      holds recovers the parts. */
  lemma {:induction false} JoinSplit(sep: string, xs: seq<string>)
    requires |sep| == 1 && xs != []
    requires forall k :: 0 <= k < |xs| ==> sep[0] !in xs[k]
    ensures Split(Join(sep, xs), sep) == xs
    decreases |xs|
  {
    if |xs| == 1 {
      SplitNoSeparator(xs[0], sep);
    } else {
      var tail := Join(sep, xs[1..]);
      JoinSplit(sep, xs[1..]);
      SplitBefore(xs[0], tail, sep);
      assert Join(sep, xs) == xs[0] + (sep + tail);
      assert [xs[0]] + xs[1..] == xs;
    }
  }

  /** A text without the separator character splits into itself alone. */
  lemma {:induction false} SplitNoSeparator(x: string, sep: string)
    requires |sep| == 1 && sep[0] !in x
    ensures Split(x, sep) == [x]
    decreases |x|
  {
    if x != [] {
      assert x[0] != sep[0];
      assert forall d :: d in x[1..] ==> d in x;
      SplitNoSeparator(x[1..], sep);
      assert [x[0]] + x[1..] == x;
    }
  }

  /** A separator-free first part followed by the separator and a tail
      splits into the part followed by the pieces of the tail. */
  lemma {:induction false} SplitBefore(x: string, tail: string, sep: string)
    requires |sep| == 1 && sep[0] !in x
    ensures Split(x + (sep + tail), sep) == [x] + Split(tail, sep)
    decreases |x|
  {
    var s := x + (sep + tail);
    if x == [] {
      assert s == sep + tail;
      assert StartsWith(s, sep);
      assert s[|sep|..] == tail;
    } else {
      assert s[0] == x[0] && x[0] != sep[0];
      assert !StartsWith(s, sep);
      assert s[1..] == x[1..] + (sep + tail);
      assert forall d :: d in x[1..] ==> d in x;
      SplitBefore(x[1..], tail, sep);
      assert [x[0]] + x[1..] == x;
    }
  }

  // ---------------------------------------------------------------------
  // replace
  // ---------------------------------------------------------------------

  /** `s.replace("", value)`: `value` before every character and at the end. */
  function InsertEverywhere(s: string, value: string): string
  {
    if s == [] then value else value + [s[0]] + InsertEverywhere(s[1..], value)
  }

  /** `s.replace(key, value)`: scanning from the left, every occurrence of
      `key` that does not overlap an earlier replaced one becomes `value`. */
  function ReplaceAll(s: string, key: string, value: string): string
    decreases |s|
  {
    if key == [] then InsertEverywhere(s, value)
    else if StartsWith(s, key) then value + ReplaceAll(s[|key|..], key, value)
    else if s == [] then []
    else [s[0]] + ReplaceAll(s[1..], key, value)
  }

  /** Python's identity `s.replace(k, v) == v.join(s.split(k))` for a
      non-empty key: every separator found by `split` is replaced. */
  lemma {:induction false} ReplaceIsJoinOfSplit(s: string, key: string, value: string)
    requires key != []
    ensures ReplaceAll(s, key, value) == Join(value, Split(s, key))
    decreases |s|
  {
    if StartsWith(s, key) {
      var tail := s[|key|..];
      ReplaceIsJoinOfSplit(tail, key, value);
      JoinCons(value, "", Split(tail, key));
    } else if s != [] {
      var rest := Split(s[1..], key);
      ReplaceIsJoinOfSplit(s[1..], key, value);
      assert Split(s, key) == [[s[0]] + rest[0]] + rest[1..];
      JoinPrepend(value, s[0], rest);
    }
  }

  /** A key that does not occur leaves the text unchanged. */
  lemma {:induction false} ReplaceAbsent(s: string, key: string, value: string)
    requires !Contains(s, key)
    ensures ReplaceAll(s, key, value) == s
    decreases |s|
  {
    if s != [] {
      ReplaceAbsent(s[1..], key, value);
    }
  }

  /** Replacing a key by itself changes nothing. */
  lemma ReplaceBySelf(s: string, key: string)
    ensures ReplaceAll(s, key, key) == s
  {
    if key == [] {
      InsertEmpty(s);
    } else {
      ReplaceIsJoinOfSplit(s, key, key);
      SplitJoin(s, key);
    }
  }

  lemma {:induction false} InsertEmpty(s: string)
    ensures InsertEverywhere(s, "") == s
    decreases |s|
  {
    if s != [] {
      InsertEmpty(s[1..]);
    }
  }

  /** Scanning steps used to replace on concrete texts: a front without the
      key's first character is copied through, ... */
  lemma {:induction false} ReplaceSkipFront(u: string, v: string, key: string, value: string)
    requires key != [] && key[0] !in u
    ensures ReplaceAll(u + v, key, value) == u + ReplaceAll(v, key, value)
    decreases |u|
  {
    if u == [] {
      assert u + v == v;
    } else {
      var w, r := u[1..] + v, ReplaceAll(v, key, value);
      assert u + v == [u[0]] + w;
      ReplaceCons(u[0], w, key, value);
      ReplaceSkipFront(u[1..], v, key, value);
      assert [u[0]] + (u[1..] + r) == ([u[0]] + u[1..]) + r;
      assert u == [u[0]] + u[1..];
    }
  }

  /** A character that does not start the key is copied through. */
  lemma ReplaceCons(c: char, w: string, key: string, value: string)
    requires key != [] && c != key[0]
    ensures ReplaceAll([c] + w, key, value) == [c] + ReplaceAll(w, key, value)
  {
    var s := [c] + w;
    assert |key| > |s| || s[..|key|][0] != key[0];
    assert s[1..] == w;
  }

  /** ... and a key at the front is replaced. */
  lemma ReplaceAtFront(v: string, key: string, value: string)
    requires key != []
    ensures ReplaceAll(key + v, key, value) == value + ReplaceAll(v, key, value)
  {
    assert StartsWith(key + v, key);
    assert (key + v)[|key|..] == v;
  }
}
