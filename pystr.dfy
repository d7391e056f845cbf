/**
  The Python `str` built-ins that main.py relies on, over strings as
  sequences of code points: `isspace`, `strip()`, `split()`, `" ".join`,
  `startswith`, slicing `s[i:]` and `replace(c, "")` for one character `c`.
 */
module PyStr {

  /** Python's `str.isspace` on one code point; `strip()` and `split()` with no
      argument treat exactly these 29 code points as whitespace. */
  predicate IsSpace(c: char) {
    || ('\t' <= c <= '\r')
    || ('\U{1C}' <= c <= ' ')
    || c == '\U{85}' || c == '\U{A0}' || c == '\U{1680}'
    || ('\U{2000}' <= c <= '\U{200A}')
    || c == '\U{2028}' || c == '\U{2029}' || c == '\U{202F}' || c == '\U{205F}'
    || c == '\U{3000}'
  }

  predicate AllSpace(s: string) {
    forall k :: 0 <= k < |s| ==> IsSpace(s[k])
  }

  predicate NoSpace(s: string) {
    forall k :: 0 <= k < |s| ==> !IsSpace(s[k])
  }

  /** A word as `split()` produces it: a non-empty run of non-whitespace. */
  predicate IsWord(w: string) {
    w != [] && NoSpace(w)
  }

  predicate AllWords(ws: seq<string>) {
    forall i :: 0 <= i < |ws| ==> IsWord(ws[i])
  }

  // ---------------------------------------------------------------------------
  // strip()
  // ---------------------------------------------------------------------------

  /** Where `strip()` starts: the number of leading whitespace characters. */
  function StripStart(s: string): (i: nat)
    ensures i <= |s|
    ensures forall m :: 0 <= m < i ==> IsSpace(s[m])
    ensures i < |s| ==> !IsSpace(s[i])
  {
    if s == [] || !IsSpace(s[0]) then 0
    else
      var i := 1 + StripStart(s[1..]);
      assert forall m :: 1 <= m < i ==> s[m] == s[1..][m - 1];
      i
  }

  /** Where `strip()` ends: the length of `s` without its trailing whitespace. */
  function StripEnd(s: string): (j: nat)
    ensures j <= |s|
    ensures forall m :: j <= m < |s| ==> IsSpace(s[m])
    ensures j > 0 ==> !IsSpace(s[j - 1])
  {
    if s == [] || !IsSpace(s[|s| - 1]) then |s|
    else StripEnd(s[..|s| - 1])
  }

  /** `r` is the slice of `s` that starts at `i`, and only whitespace lies
      outside it. */
  predicate SliceWithSpaceAround(s: string, r: string, i: int) {
    && 0 <= i <= i + |r| <= |s| && r == s[i..i + |r|]
    && (forall m :: 0 <= m < i ==> IsSpace(s[m]))
    && (forall m :: i + |r| <= m < |s| ==> IsSpace(s[m]))
  }

  /** `s.strip()`: `s` without its leading and trailing whitespace; whatever
      lies between the first and the last non-whitespace character is kept
      as it is. */
  function Strip(s: string): (r: string)
    ensures exists i :: SliceWithSpaceAround(s, r, i)
    ensures r != [] ==> !IsSpace(r[0]) && !IsSpace(r[|r| - 1])
  {
    var i := StripStart(s);
    if i == |s| then
      assert SliceWithSpaceAround(s, [], i);
      []
    else
      var j := StripEnd(s);
      assert SliceWithSpaceAround(s, s[i..j], i);
      s[i..j]
  }

  /** A string that does not begin or end with whitespace is its own strip. */
  lemma StripTrimmed(s: string)
    requires s != [] ==> !IsSpace(s[0]) && !IsSpace(s[|s| - 1])
    ensures Strip(s) == s
  {
  }

  /** `strip()` removes everything exactly when the string is all whitespace. */
  lemma StripEmptyIff(s: string)
    ensures Strip(s) == [] <==> AllSpace(s)
  {
    var i := StripStart(s);
    if i < |s| {
      assert !IsSpace(s[i]);
      assert Strip(s) == s[i..StripEnd(s)];
    }
  }

  // ---------------------------------------------------------------------------
  // split()
  // ---------------------------------------------------------------------------

  /** Length of the leading run of non-whitespace characters of `s`. */
  function WordLen(s: string): (n: nat)
    ensures n <= |s|
    ensures NoSpace(s[..n])
    ensures n < |s| ==> IsSpace(s[n])
  {
    if s == [] || IsSpace(s[0]) then 0 else 1 + WordLen(s[1..])
  }

  /** `s.split()` with no separator: the maximal runs of non-whitespace of
      `s`, left to right. */
  function Split(s: string): (ws: seq<string>)
    ensures AllWords(ws)
    decreases |s|
  {
    if s == [] then []
    else if IsSpace(s[0]) then Split(s[1..])
    else
      var n := WordLen(s);
      [s[..n]] + Split(s[n..])
  }

  /** `" ".join(ws)`. */
  function Join(ws: seq<string>): string {
    if ws == [] then ""
    else if |ws| == 1 then ws[0]
    else ws[0] + " " + Join(ws[1..])
  }

  /** A string made only of whitespace splits into no words. */
  lemma {:induction false} SplitAllSpace(s: string)
    ensures Split(s) == [] <==> AllSpace(s)
    decreases |s|
  {
    if s != [] {
      if IsSpace(s[0]) {
        SplitAllSpace(s[1..]);
        if AllSpace(s[1..]) {
          forall k | 0 <= k < |s| ensures IsSpace(s[k]) {
            if k > 0 { assert s[k] == s[1..][k - 1]; }
          }
        }
      }
    }
  }

  /** A single word splits into itself. */
  lemma SplitWord(w: string)
    requires IsWord(w)
    ensures Split(w) == [w]
  {
    var n := WordLen(w);
    assert n == |w|;
    assert w[..n] == w;
    assert w[n..] == [];
  }

  lemma {:induction false} WordLenBeforeSpace(a: string, c: char, b: string)
    requires IsSpace(c)
    ensures WordLen(a + [c] + b) == WordLen(a)
    decreases |a|
  {
    if a == [] {
    } else if !IsSpace(a[0]) {
      assert (a + [c] + b)[1..] == a[1..] + [c] + b;
      WordLenBeforeSpace(a[1..], c, b);
    }
  }

  /** A whitespace character separates words: the words of `a`, a whitespace
      character and `b` are the words of `a` followed by the words of `b`.
      Together with SplitAllSpace and SplitWord this pins `Split` down. */
  lemma {:induction false} SplitAtSpace(a: string, c: char, b: string)
    requires IsSpace(c)
    ensures Split(a + [c] + b) == Split(a) + Split(b)
    decreases |a|
  {
    var s := a + [c] + b;
    if a == [] {
      assert s[1..] == b;
    } else if IsSpace(a[0]) {
      assert s[1..] == a[1..] + [c] + b;
      SplitAtSpace(a[1..], c, b);
    } else {
      var n := WordLen(s);
      WordLenBeforeSpace(a, c, b);
      assert n == WordLen(a) >= 1;
      assert s[..n] == a[..n];
      assert s[n..] == a[n..] + [c] + b;
      SplitAtSpace(a[n..], c, b);
    }
  }

  /** Whitespace at either end does not change the words. */
  lemma {:induction false} SplitSpaceEnds(p: string, s: string, q: string)
    requires AllSpace(p) && AllSpace(q)
    ensures Split(p + s + q) == Split(s)
    decreases |p|
  {
    if p == [] {
      if q == [] {
        assert p + s + q == s;
      } else {
        assert p + s + q == s + [q[0]] + q[1..];
        SplitAtSpace(s, q[0], q[1..]);
        SplitAllSpace(q[1..]);
      }
    } else {
      assert p + s + q == [] + [p[0]] + (p[1..] + s + q);
      SplitAtSpace([], p[0], p[1..] + s + q);
      SplitSpaceEnds(p[1..], s, q);
    }
  }

  /** `s.strip().split() == s.split()`. */
  lemma SplitStrip(s: string)
    ensures Split(Strip(s)) == Split(s)
  {
    var p, q := StripSplits(s);
    SplitSpaceEnds(p, Strip(s), q);
  }

  /** `s` is its strip with the whitespace that was removed at either end. */
  lemma StripSplits(s: string) returns (p: string, q: string)
    ensures s == p + Strip(s) + q && AllSpace(p) && AllSpace(q)
  {
    var r := Strip(s);
    var i :| SliceWithSpaceAround(s, r, i);
    p, q := s[..i], s[i + |r|..];
    assert s == p + r + q;
  }

  /** Round trip: splitting words joined by single spaces gives the words back. */
  lemma {:induction false} SplitJoin(ws: seq<string>)
    requires AllWords(ws)
    ensures Split(Join(ws)) == ws
  {
    if |ws| == 1 {
      SplitWord(ws[0]);
    } else if |ws| > 1 {
      SplitAtSpace(ws[0], ' ', Join(ws[1..]));
      SplitWord(ws[0]);
      SplitJoin(ws[1..]);
    }
  }

  /** Words joined by single spaces: the only whitespace in the result is
      the plain space ' ', never at either end and never two in a row. */
  lemma {:induction false} JoinSingleSpaced(ws: seq<string>, k: nat)
    requires AllWords(ws)
    requires k < |Join(ws)| && IsSpace(Join(ws)[k])
    ensures Join(ws)[k] == ' '
    ensures 0 < k < |Join(ws)| - 1
    ensures !IsSpace(Join(ws)[k - 1]) && !IsSpace(Join(ws)[k + 1])
  {
    var j := Join(ws);
    assert |ws| > 1;
    var w := ws[0];
    var rest := Join(ws[1..]);
    assert j == w + " " + rest;
    assert rest != [] by { assert ws[1] != []; JoinNonEmpty(ws[1..]); }
    if k < |w| {
      assert false;
    } else if k == |w| {
      assert j[k - 1] == w[|w| - 1];
      JoinEnds(ws[1..]);
      assert j[k + 1] == rest[0];
    } else {
      assert j[k] == rest[k - |w| - 1];
      JoinSingleSpaced(ws[1..], k - |w| - 1);
      if k - |w| - 1 > 0 {
        assert j[k - 1] == rest[k - |w| - 2];
      }
      assert j[k + 1] == rest[k - |w|];
    }
  }

  lemma {:induction false} JoinNonEmpty(ws: seq<string>)
    requires ws != [] && ws[0] != []
    ensures Join(ws) != [] && Join(ws)[0] == ws[0][0]
  {
  }

  /** Words joined by single spaces begin and end with a non-whitespace character. */
  lemma {:induction false} JoinEnds(ws: seq<string>)
    requires AllWords(ws) && ws != []
    ensures Join(ws) != []
    ensures !IsSpace(Join(ws)[0]) && !IsSpace(Join(ws)[|Join(ws)| - 1])
  {
    if |ws| > 1 {
      JoinEnds(ws[1..]);
      var rest := Join(ws[1..]);
      assert Join(ws)[|Join(ws)| - 1] == rest[|rest| - 1];
    }
  }

  /** Python's `""` list join yields `""` only for no words. */
  lemma JoinEmptyIff(ws: seq<string>)
    requires AllWords(ws)
    ensures Join(ws) == [] <==> ws == []
  {
    if ws != [] { JoinEnds(ws); }
  }

  // ---------------------------------------------------------------------------
  // startswith, slicing
  // ---------------------------------------------------------------------------

  /** `s.startswith(prefix)`. */
  predicate StartsWith(s: string, prefix: string) {
    |prefix| <= |s| && s[..|prefix|] == prefix
  }

  /** `s[i:]` for a non-negative `i`: empty once `i` passes the end. */
  function SliceFrom(s: string, i: nat): (r: string)
    ensures |r| == if i <= |s| then |s| - i else 0
    ensures forall k :: 0 <= k < |r| ==> r[k] == s[i + k]
  {
    if i <= |s| then s[i..] else []
  }

  // ---------------------------------------------------------------------------
  // replace(c, "")
  // ---------------------------------------------------------------------------

  /** `s.replace(c, "")` for a one-character `c`: every occurrence of `c` deleted. */
  function RemoveChar(s: string, c: char): string {
    if s == [] then []
    else (if s[0] == c then [] else [s[0]]) + RemoveChar(s[1..], c)
  }

  /** A chain of `replace` calls, `s.replace(cs[0], "").replace(cs[1], "")…`,
      applied in the order of `cs`. */
  function RemoveEach(s: string, cs: seq<char>): string
    decreases |cs|
  {
    if cs == [] then s else RemoveEach(RemoveChar(s, cs[0]), cs[1..])
  }

  /** The characters of `s` that are not in `drop`, in their order. */
  function Without(s: string, drop: set<char>): (r: string)
    ensures |r| <= |s|
    ensures forall k :: 0 <= k < |r| ==> r[k] !in drop
  {
    if s == [] then []
    else (if s[0] in drop then [] else [s[0]]) + Without(s[1..], drop)
  }

  /** How many characters of `s` are in `drop`. */
  function CountIn(s: string, drop: set<char>): nat {
    if s == [] then 0
    else (if s[0] in drop then 1 else 0) + CountIn(s[1..], drop)
  }

  /** Deleting one character and then the characters of `drop` deletes the
      characters of `drop` plus that one. */
  lemma {:induction false} WithoutRemoveChar(s: string, c: char, drop: set<char>)
    ensures Without(RemoveChar(s, c), drop) == Without(s, drop + {c})
  {
    if s != [] {
      WithoutRemoveChar(s[1..], c, drop);
      WithoutAppend(if s[0] == c then [] else [s[0]], RemoveChar(s[1..], c), drop);
    }
  }

  lemma {:induction false} WithoutAppend(a: string, b: string, drop: set<char>)
    ensures Without(a + b, drop) == Without(a, drop) + Without(b, drop)
  {
    if a != [] {
      var h: string := if a[0] in drop then [] else [a[0]];
      assert (a + b)[0] == a[0];
      assert (a + b)[1..] == a[1..] + b;
      WithoutAppend(a[1..], b, drop);
      calc {
        Without(a + b, drop);
        h + Without(a[1..] + b, drop);
        h + (Without(a[1..], drop) + Without(b, drop));
        (h + Without(a[1..], drop)) + Without(b, drop);
      }
    } else {
      assert a + b == b;
    }
  }

  /** Deleting nothing leaves the string as it is. */
  lemma {:induction false} WithoutNothing(s: string)
    ensures Without(s, {}) == s
  {
    if s != [] { WithoutNothing(s[1..]); }
  }

  /** `replace(c, "")` deletes exactly the occurrences of `c`. */
  lemma RemoveCharIsWithout(s: string, c: char)
    ensures RemoveChar(s, c) == Without(s, {c})
  {
    WithoutRemoveChar(s, c, {});
    WithoutNothing(RemoveChar(s, c));
    assert {} + {c} == {c};
  }

  /** Each deleted character shortens the string by one. */
  lemma {:induction false} WithoutLength(s: string, drop: set<char>)
    ensures |Without(s, drop)| == |s| - CountIn(s, drop)
  {
    if s != [] { WithoutLength(s[1..], drop); }
  }

  /** A string with no character of `drop` is left untouched. */
  lemma {:induction false} WithoutNone(s: string, drop: set<char>)
    requires forall k :: 0 <= k < |s| ==> s[k] !in drop
    ensures Without(s, drop) == s
  {
    if s != [] { WithoutNone(s[1..], drop); }
  }

  /** A chain of `replace(c, "")` calls deletes every character it names,
      whatever the order of the calls: only the set of characters matters. */
  lemma {:induction false} RemoveEachIsWithout(s: string, cs: seq<char>, drop: set<char>)
    ensures Without(RemoveEach(s, cs), drop) == Without(s, drop + (set c | c in cs))
    decreases |cs|
  {
    if cs != [] {
      RemoveEachIsWithout(RemoveChar(s, cs[0]), cs[1..], drop);
      WithoutRemoveChar(s, cs[0], drop + (set c | c in cs[1..]));
      assert drop + (set c | c in cs[1..]) + {cs[0]} == drop + (set c | c in cs);
    } else {
      assert drop + (set c | c in cs) == drop;
    }
  }

  /** Hence a chain of `replace(c, "")` calls is the deletion of its characters. */
  lemma RemoveEachDeletes(s: string, cs: seq<char>)
    ensures RemoveEach(s, cs) == Without(s, set c | c in cs)
  {
    RemoveEachIsWithout(s, cs, {});
    WithoutNothing(RemoveEach(s, cs));
    assert {} + (set c | c in cs) == (set c | c in cs);
  }
}
