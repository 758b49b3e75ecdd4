/** The Python `str` built-ins the service relies on, over `seq<char>`:
    `in`, `split(sep)`, `sep.join`, `replace`, `strip()` and `split()` with
    no argument; and `Count`, the measure in which the fence and line counts
    are stated.  Separators and patterns are never empty. */
module PyStr {

  /** Python's `str.isspace()` restricted to ASCII: space, the five controls
      from tab to carriage return, and the four separators 0x1C to 0x1F. */
  predicate IsSpace(c: char) {
    c == ' ' || ('\t' <= c <= '\r') || ('\U{1C}' <= c <= '\U{1F}')
  }

  predicate IsBlank(s: string) {
    forall i :: 0 <= i < |s| ==> IsSpace(s[i])
  }

  /** Neither starts nor ends with whitespace. */
  predicate IsStripped(s: string) {
    s == [] || (!IsSpace(s[0]) && !IsSpace(s[|s| - 1]))
  }

  predicate IsPrefix(p: string, s: string) {
    |p| <= |s| && s[..|p|] == p
  }

  predicate OccursAt(s: string, t: string, i: int) {
    0 <= i && i + |t| <= |s| && s[i..i + |t|] == t
  }

  /** Python's `t in s`. */
  predicate Contains(s: string, t: string) {
    exists i :: 0 <= i <= |s| && OccursAt(s, t, i)
  }

  // ---------------------------------------------------------------------------
  // Substrings

  lemma ContainsWithin(a: string, x: string, b: string, t: string)
    requires Contains(x, t)
    ensures Contains(a + x + b, t)
  {
    var i :| 0 <= i <= |x| && OccursAt(x, t, i);
    assert (a + x + b)[|a| + i..|a| + i + |t|] == x[i..i + |t|];
    assert OccursAt(a + x + b, t, |a| + i);
  }

  lemma ContainsSlice(s: string, lo: int, hi: int, t: string)
    requires 0 <= lo <= hi <= |s|
    requires Contains(s[lo..hi], t)
    ensures Contains(s, t)
  {
    assert s == s[..lo] + s[lo..hi] + s[hi..];
    ContainsWithin(s[..lo], s[lo..hi], s[hi..], t);
  }

  lemma ContainsTail(s: string, t: string)
    requires |s| > 0 && Contains(s[1..], t)
    ensures Contains(s, t)
  {
    ContainsWithin([s[0]], s[1..], [], t);
    assert [s[0]] + s[1..] + [] == s;
  }

  lemma NotContainsTail(s: string, t: string)
    requires |s| > 0 && !Contains(s, t)
    ensures !Contains(s[1..], t)
  {
    if Contains(s[1..], t) {
      ContainsTail(s, t);
    }
  }

  lemma ContainsTransitive(s: string, m: string, t: string)
    requires Contains(s, m) && Contains(m, t)
    ensures Contains(s, t)
  {
    var i :| 0 <= i <= |s| && OccursAt(s, m, i);
    ContainsSlice(s, i, i + |m|, t);
  }

  /** An occurrence in `[c] + p` is at the front or inside `p`. */
  lemma ContainsCons(c: char, p: string, t: string)
    requires Contains([c] + p, t)
    ensures OccursAt([c] + p, t, 0) || Contains(p, t)
  {
    var i :| 0 <= i <= |p| + 1 && OccursAt([c] + p, t, i);
    if i > 0 {
      assert ([c] + p)[i..i + |t|] == p[i - 1..i - 1 + |t|];
      assert OccursAt(p, t, i - 1);
    }
  }

  /** The positive form of `ContainsCons`. */
  lemma NotContainsCons(c: char, p: string, t: string)
    requires !OccursAt([c] + p, t, 0) && !Contains(p, t)
    ensures !Contains([c] + p, t)
  {
    if Contains([c] + p, t) {
      ContainsCons(c, p, t);
    }
  }

  /** A string whose characters all lie outside `t` does not contain `t`. */
  lemma DisjointNotContains(s: string, t: string)
    requires |t| > 0
    requires forall k :: 0 <= k < |s| ==> s[k] !in t
    ensures !Contains(s, t)
  {
    forall i | 0 <= i <= |s|
      ensures !OccursAt(s, t, i)
    {
      if i + |t| <= |s| {
        assert t[0] in t;
        assert s[i..i + |t|][0] != t[0];
      }
    }
  }

  // ---------------------------------------------------------------------------
  // sep.join(parts)

  /** Python's `sep.join(parts)`. */
  function Join(sep: string, parts: seq<string>): string
    decreases |parts|
  {
    if |parts| == 0 then ""
    else if |parts| == 1 then parts[0]
    else parts[0] + sep + Join(sep, parts[1..])
  }

  lemma JoinHead(sep: string, parts: seq<string>)
    requires |parts| > 0
    ensures IsPrefix(parts[0], Join(sep, parts))
  {
  }

  /** Putting a character in front of the first part puts it in front of the join. */
  lemma JoinConsEmpty(sep: string, parts: seq<string>)
    requires |parts| > 0
    ensures Join(sep, [""] + parts) == sep + Join(sep, parts)
  {
    assert ([""] + parts)[1..] == parts;
  }

  lemma JoinConsHead(sep: string, c: char, parts: seq<string>)
    requires |parts| > 0
    ensures Join(sep, [[c] + parts[0]] + parts[1..]) == [c] + Join(sep, parts)
  {
    var q := [[c] + parts[0]] + parts[1..];
    if |parts| > 1 {
      assert q[1..] == parts[1..];
    }
  }

  lemma {:induction false} JoinSnoc(sep: string, parts: seq<string>, x: string)
    requires |parts| > 0
    ensures Join(sep, parts + [x]) == Join(sep, parts) + sep + x
    decreases |parts|
  {
    if |parts| == 1 {
      assert (parts + [x])[1..] == [x];
    } else {
      assert (parts + [x])[1..] == parts[1..] + [x];
      JoinSnoc(sep, parts[1..], x);
    }
  }

  /** Every part is a substring of the join. */
  lemma {:induction false} JoinContainsPart(sep: string, parts: seq<string>, i: int)
    requires 0 <= i < |parts|
    ensures Contains(Join(sep, parts), parts[i])
    decreases |parts|
  {
    if i == 0 {
      assert OccursAt(Join(sep, parts), parts[0], 0);
    } else {
      JoinContainsPart(sep, parts[1..], i - 1);
      ContainsWithin(parts[0] + sep, Join(sep, parts[1..]), "", parts[i]);
      assert parts[0] + sep + Join(sep, parts[1..]) + "" == Join(sep, parts);
    }
  }

  // ---------------------------------------------------------------------------
  // s.split(sep) and the count of matches: leftmost, non-overlapping

  /** Python's `s.split(sep)` for a non-empty separator. */
  function Split(s: string, sep: string): (r: seq<string>)
    requires |sep| > 0
    ensures |r| > 0
    decreases |s|
  {
    if |s| == 0 then [""]
    else if IsPrefix(sep, s) then [""] + Split(s[|sep|..], sep)
    else
      var r := Split(s[1..], sep);
      [[s[0]] + r[0]] + r[1..]
  }

  /** The number of leftmost non-overlapping matches of a non-empty
      separator (what Python's `s.count(sep)` would return): the measure of
      the fence and line counts. */
  function Count(s: string, sep: string): nat
    requires |sep| > 0
    decreases |s|
  {
    if |s| == 0 then 0
    else if IsPrefix(sep, s) then 1 + Count(s[|sep|..], sep)
    else Count(s[1..], sep)
  }

  /** Joining the pieces back with the separator gives the original string. */
  lemma {:induction false} JoinSplit(s: string, sep: string)
    requires |sep| > 0
    ensures Join(sep, Split(s, sep)) == s
    decreases |s|
  {
    if |s| == 0 {
    } else if IsPrefix(sep, s) {
      var rest := s[|sep|..];
      JoinSplit(rest, sep);
      assert Split(s, sep) == [""] + Split(rest, sep);
      JoinConsEmpty(sep, Split(rest, sep));
      assert s == sep + rest;
    } else {
      JoinSplit(s[1..], sep);
      JoinConsHead(sep, s[0], Split(s[1..], sep));
      assert s == [s[0]] + s[1..];
    }
  }

  /** The split produces one piece more than there are matches. */
  lemma {:induction false} SplitCount(s: string, sep: string)
    requires |sep| > 0
    ensures |Split(s, sep)| == Count(s, sep) + 1
    decreases |s|
  {
    if |s| == 0 {
    } else if IsPrefix(sep, s) {
      SplitCount(s[|sep|..], sep);
    } else {
      SplitCount(s[1..], sep);
    }
  }

  /** No piece of a split contains the separator. */
  lemma {:induction false} SplitPiecesFree(s: string, sep: string)
    requires |sep| > 0
    ensures forall i :: 0 <= i < |Split(s, sep)| ==> !Contains(Split(s, sep)[i], sep)
    decreases |s|
  {
    if |s| == 0 {
      assert !OccursAt("", sep, 0);
    } else if IsPrefix(sep, s) {
      SplitPiecesFree(s[|sep|..], sep);
      assert !OccursAt("", sep, 0);
    } else {
      var r := Split(s[1..], sep);
      SplitPiecesFree(s[1..], sep);
      var p := [s[0]] + r[0];
      JoinSplit(s[1..], sep);
      JoinHead(sep, r);
      assert s == [s[0]] + s[1..];
      assert IsPrefix(p, s);
      if |sep| <= |p| {
        assert s[..|sep|] == p[..|sep|];
      }
      if Contains(p, sep) {
        ContainsCons(s[0], r[0], sep);
      }
      forall i | 0 <= i < |Split(s, sep)|
        ensures !Contains(Split(s, sep)[i], sep)
      {
        if i > 0 {
          assert Split(s, sep)[i] == r[i];
        }
      }
    }
  }

  lemma {:induction false} SplitAbsent(s: string, sep: string)
    requires |sep| > 0
    requires !Contains(s, sep)
    ensures Split(s, sep) == [s]
    decreases |s|
  {
    if |s| > 0 {
      assert !OccursAt(s, sep, 0);
      if Contains(s[1..], sep) {
        ContainsTail(s, sep);
      }
      SplitAbsent(s[1..], sep);
      assert s == [s[0]] + s[1..];
    }
  }

  /** The first match of `A + sep + B` is the `sep` after `A`, when `A` holds
      no match and no match can straddle the end of `A`. */
  lemma {:induction false} SplitAfterPiece(a: string, sep: string, b: string)
    requires |sep| > 0
    requires !Contains(a, sep)
    requires a == [] || a[|a| - 1] !in sep
    ensures Split(a + sep + b, sep) == [a] + Split(b, sep)
    decreases |a|
  {
    var s := a + sep + b;
    if |a| == 0 {
      assert s[..|sep|] == sep;
      assert s[|sep|..] == b;
    } else {
      assert !OccursAt(a, sep, 0);
      if |sep| <= |a| {
        assert a[..|sep|] == s[..|sep|];
      } else {
        assert s[|a| - 1] == a[|a| - 1];
      }
      assert !IsPrefix(sep, s);
      if Contains(a[1..], sep) {
        ContainsTail(a, sep);
      }
      assert s[1..] == a[1..] + sep + b;
      SplitAfterPiece(a[1..], sep, b);
      assert a == [a[0]] + a[1..];
    }
  }

  /** Splitting inverts joining, for pieces free of the separator whose ends
      cannot combine with the separator into an earlier match. */
  lemma {:induction false} SplitJoin(parts: seq<string>, sep: string)
    requires |sep| > 0 && |parts| > 0
    requires forall i :: 0 <= i < |parts| ==> !Contains(parts[i], sep)
    requires forall i :: 0 <= i < |parts| - 1 ==> parts[i] == [] || parts[i][|parts[i]| - 1] !in sep
    ensures Split(Join(sep, parts), sep) == parts
    decreases |parts|
  {
    if |parts| == 1 {
      SplitAbsent(parts[0], sep);
    } else {
      SplitJoin(parts[1..], sep);
      SplitAfterPiece(parts[0], sep, Join(sep, parts[1..]));
    }
  }

  lemma {:induction false} CountAbsent(s: string, sep: string)
    requires |sep| > 0
    ensures Count(s, sep) == 0 <==> !Contains(s, sep)
    decreases |s|
  {
    if |s| == 0 {
      assert !OccursAt(s, sep, 0);
    } else if IsPrefix(sep, s) {
      assert OccursAt(s, sep, 0);
    } else {
      CountAbsent(s[1..], sep);
      assert !OccursAt(s, sep, 0);
      if Contains(s[1..], sep) {
        ContainsTail(s, sep);
      }
      if Contains(s, sep) {
        assert s == [s[0]] + s[1..];
        ContainsCons(s[0], s[1..], sep);
      }
    }
  }

  /** Counts add up across a boundary that no match can straddle. */
  lemma {:induction false} CountConcat(a: string, b: string, sep: string)
    requires |sep| > 0
    requires (|a| > 0 && a[|a| - 1] !in sep) || (|b| > 0 && b[0] !in sep)
    ensures Count(a + b, sep) == Count(a, sep) + Count(b, sep)
    decreases |a|
  {
    if |a| > 0 {
      var s := a + b;
      if IsPrefix(sep, a) {
        assert s[..|sep|] == a[..|sep|];
        assert IsPrefix(sep, s);
        assert s[|sep|..] == a[|sep|..] + b;
        assert Count(s, sep) == 1 + Count(a[|sep|..] + b, sep);
        if |a| == |sep| {
          assert a[|a| - 1] in sep;
          assert a[|sep|..] + b == b;
        } else {
          CountConcat(a[|sep|..], b, sep);
        }
      } else {
        if |sep| <= |a| {
          assert a[..|sep|] == s[..|sep|];
        } else if a[|a| - 1] !in sep {
          assert s[|a| - 1] == a[|a| - 1];
        } else {
          assert s[|a|] == b[0];
        }
        assert !IsPrefix(sep, s);
        assert s[1..] == a[1..] + b;
        assert Count(s, sep) == Count(a[1..] + b, sep);
        if |a| > 1 {
          CountConcat(a[1..], b, sep);
        } else {
          assert a[1..] + b == b;
        }
      }
    } else {
      assert a + b == b;
    }
  }

  /** Counting a one-character separator counts that character. */
  lemma {:induction false} CountChar(s: string, c: char)
    ensures Count(s, [c]) == multiset(s)[c]
    decreases |s|
  {
    if |s| > 0 {
      CountChar(s[1..], c);
      assert s == [s[0]] + s[1..];
      assert multiset(s) == multiset{s[0]} + multiset(s[1..]);
    }
  }

  // ---------------------------------------------------------------------------
  // s.replace(target, replacement)

  /** Python's `s.replace(target, replacement)` for a non-empty target. */
  function Replace(s: string, target: string, replacement: string): string
    requires |target| > 0
    decreases |s|
  {
    if |s| == 0 then ""
    else if IsPrefix(target, s) then replacement + Replace(s[|target|..], target, replacement)
    else [s[0]] + Replace(s[1..], target, replacement)
  }

  /** `s.replace(t, u) == u.join(s.split(t))`. */
  lemma {:induction false} ReplaceIsJoinSplit(s: string, target: string, replacement: string)
    requires |target| > 0
    ensures Replace(s, target, replacement) == Join(replacement, Split(s, target))
    decreases |s|
  {
    if |s| == 0 {
    } else if IsPrefix(target, s) {
      var rest := s[|target|..];
      ReplaceIsJoinSplit(rest, target, replacement);
      assert Replace(s, target, replacement) == replacement + Replace(rest, target, replacement);
      assert Split(s, target) == [""] + Split(rest, target);
      JoinConsEmpty(replacement, Split(rest, target));
    } else {
      ReplaceIsJoinSplit(s[1..], target, replacement);
      JoinConsHead(replacement, s[0], Split(s[1..], target));
    }
  }

  lemma ReplaceAbsent(s: string, target: string, replacement: string)
    requires |target| > 0
    requires !Contains(s, target)
    ensures Replace(s, target, replacement) == s
  {
    ReplaceIsJoinSplit(s, target, replacement);
    SplitAbsent(s, target);
  }

  // ---------------------------------------------------------------------------
  // s.strip()

  function LStrip(s: string): string
    decreases |s|
  {
    if |s| > 0 && IsSpace(s[0]) then LStrip(s[1..]) else s
  }

  function RStrip(s: string): string
    decreases |s|
  {
    if |s| > 0 && IsSpace(s[|s| - 1]) then RStrip(s[..|s| - 1]) else s
  }

  /** `lstrip()` removes a run of whitespace and stops at non-whitespace. */
  lemma {:induction false} LStripSplits(s: string) returns (a: string)
    ensures IsBlank(a) && s == a + LStrip(s)
    ensures LStrip(s) == [] || !IsSpace(LStrip(s)[0])
    decreases |s|
  {
    if |s| > 0 && IsSpace(s[0]) {
      var rest := LStripSplits(s[1..]);
      a := [s[0]] + rest;
      assert s == [s[0]] + s[1..];
    } else {
      a := [];
    }
  }

  /** `rstrip()` removes a run of whitespace and stops at non-whitespace. */
  lemma {:induction false} RStripSplits(s: string) returns (b: string)
    ensures IsBlank(b) && s == RStrip(s) + b
    ensures RStrip(s) == [] || !IsSpace(RStrip(s)[|RStrip(s)| - 1])
    decreases |s|
  {
    if |s| > 0 && IsSpace(s[|s| - 1]) {
      var rest := RStripSplits(s[..|s| - 1]);
      b := rest + [s[|s| - 1]];
      assert s == s[..|s| - 1] + [s[|s| - 1]];
    } else {
      b := [];
    }
  }

  lemma BothStripped(s: string)
    ensures IsStripped(RStrip(LStrip(s)))
  {
    var l := LStrip(s);
    var a := LStripSplits(s);
    var b := RStripSplits(l);
    var r := RStrip(l);
    if r != [] {
      assert r[0] == l[0];
    }
  }

  /** Python's `s.strip()`. */
  function Strip(s: string): (r: string)
    ensures IsStripped(r)
  {
    BothStripped(s);
    RStrip(LStrip(s))
  }

  /** `s` is `Strip(s)` with whitespace before and after it. */
  lemma StripParts(s: string) returns (a: string, b: string)
    ensures IsBlank(a) && IsBlank(b)
    ensures s == a + Strip(s) + b
  {
    a := LStripSplits(s);
    b := RStripSplits(LStrip(s));
    assert s == a + (Strip(s) + b);
  }

  lemma SliceOfMiddle(a: string, r: string, b: string, i: int, j: int)
    requires |a| <= i <= j <= |a| + |r|
    ensures (a + r + b)[i..j] == r[i - |a|..j - |a|]
  {
  }

  lemma {:induction false} LStripBlankPrefix(a: string, x: string)
    requires IsBlank(a)
    requires x == [] || !IsSpace(x[0])
    ensures LStrip(a + x) == x
    decreases |a|
  {
    if |a| > 0 {
      assert (a + x)[1..] == a[1..] + x;
      LStripBlankPrefix(a[1..], x);
    }
  }

  lemma {:induction false} RStripBlankSuffix(x: string, b: string)
    requires IsBlank(b)
    requires x == [] || !IsSpace(x[|x| - 1])
    ensures RStrip(x + b) == x
    decreases |b|
  {
    if |b| > 0 {
      assert (x + b)[..|x + b| - 1] == x + b[..|b| - 1];
      RStripBlankSuffix(x, b[..|b| - 1]);
    }
  }

  /** `strip()` is characterised by its result: surrounding `m` with
      whitespace on both sides and stripping gives back `m`. */
  lemma StripSurrounded(a: string, m: string, b: string)
    requires IsBlank(a) && IsBlank(b) && IsStripped(m)
    ensures Strip(a + m + b) == m
  {
    if m == [] {
      assert IsBlank(a + b);
      LStripBlankPrefix(a + b, []);
      assert a + m + b == (a + b) + [];
    } else {
      assert a + m + b == a + (m + b);
      LStripBlankPrefix(a, m + b);
      RStripBlankSuffix(m, b);
    }
  }

  lemma StripStripped(m: string)
    requires IsStripped(m)
    ensures Strip(m) == m
  {
    StripSurrounded([], m, []);
    assert [] + m + [] == m;
  }

  lemma StripIdempotent(s: string)
    ensures Strip(Strip(s)) == Strip(s)
  {
    StripStripped(Strip(s));
  }

  lemma StripEmptyIffBlank(s: string)
    ensures Strip(s) == [] <==> IsBlank(s)
  {
    if IsBlank(s) {
      StripSurrounded(s, [], []);
      assert s + [] + [] == s;
    }
    if Strip(s) == [] {
      var a, b := StripParts(s);
      assert s == a + b;
    }
  }

  lemma StripContains(s: string, t: string)
    requires Contains(Strip(s), t)
    ensures Contains(s, t)
  {
    var a, b := StripParts(s);
    ContainsWithin(a, Strip(s), b, t);
  }

  lemma StripFree(s: string, t: string)
    requires !Contains(s, t)
    ensures !Contains(Strip(s), t)
  {
    if Contains(Strip(s), t) {
      StripContains(s, t);
    }
  }

  lemma StripWithin(s: string)
    ensures Contains(s, Strip(s))
  {
    var a, b := StripParts(s);
    ContainsSelf(Strip(s));
    ContainsWithin(a, Strip(s), b, Strip(s));
  }

  /** An occurrence of a non-empty `t` that begins and ends with
      non-whitespace survives `strip()`. */
  lemma StripKeeps(s: string, t: string, q: int)
    requires OccursAt(s, t, q) && |t| > 0
    requires !IsSpace(t[0]) && !IsSpace(t[|t| - 1])
    ensures Contains(Strip(s), t)
  {
    var a, b := StripParts(s);
    KeepsMiddle(a, Strip(s), b, t, q);
  }

  lemma KeepsMiddle(a: string, r: string, b: string, t: string, q: int)
    requires IsBlank(a) && IsBlank(b)
    requires OccursAt(a + r + b, t, q) && |t| > 0
    requires !IsSpace(t[0]) && !IsSpace(t[|t| - 1])
    ensures Contains(r, t)
  {
    var s := a + r + b;
    assert s[q] == t[0];
    assert s[q + |t| - 1] == t[|t| - 1];
    assert |a| <= q;
    assert q + |t| <= |a| + |r|;
    SliceOfMiddle(a, r, b, q, q + |t|);
    assert OccursAt(r, t, q - |a|);
  }

  lemma StripKeepsContained(s: string, t: string)
    requires Contains(s, t) && |t| > 0
    requires !IsSpace(t[0]) && !IsSpace(t[|t| - 1])
    ensures Contains(Strip(s), t)
  {
    var q :| 0 <= q <= |s| && OccursAt(s, t, q);
    StripKeeps(s, t, q);
  }

  lemma ContainsSelf(t: string)
    ensures Contains(t, t)
  {
    assert OccursAt(t, t, 0);
  }

  lemma BlankCount(x: string, sep: string)
    requires |sep| > 0 && IsBlank(x)
    requires forall k :: 0 <= k < |sep| ==> !IsSpace(sep[k])
    ensures Count(x, sep) == 0
  {
    forall k | 0 <= k < |x| ensures x[k] !in sep {
      assert IsSpace(x[k]);
    }
    DisjointNotContains(x, sep);
    CountAbsent(x, sep);
  }

  /** Whitespace around `r` holds no match of a separator without whitespace. */
  lemma CountSurrounded(a: string, r: string, b: string, sep: string)
    requires |sep| > 0 && IsBlank(a) && IsBlank(b)
    requires forall k :: 0 <= k < |sep| ==> !IsSpace(sep[k])
    ensures Count(a + r + b, sep) == Count(r, sep)
  {
    BlankCount(a, sep);
    BlankCount(b, sep);
    if |b| > 0 {
      assert IsSpace(b[0]);
      CountConcat(a + r, b, sep);
    } else {
      assert a + r + b == a + r;
    }
    if |a| > 0 {
      assert IsSpace(a[|a| - 1]);
      CountConcat(a, r, sep);
    } else {
      assert a + r == r;
    }
  }

  /** Stripping removes only whitespace, so it removes no match of a
      separator that has no whitespace in it. */
  lemma StripCount(s: string, sep: string)
    requires |sep| > 0
    requires forall k :: 0 <= k < |sep| ==> !IsSpace(sep[k])
    ensures Count(Strip(s), sep) == Count(s, sep)
  {
    var a, b := StripParts(s);
    CountSurrounded(a, Strip(s), b, sep);
  }

  /** The length of the run of non-whitespace that `s` starts with. */
  function WordLength(s: string): (n: nat)
    ensures n <= |s|
    ensures forall j :: 0 <= j < n ==> !IsSpace(s[j])
    ensures n == |s| || IsSpace(s[n])
    decreases |s|
  {
    if |s| == 0 || IsSpace(s[0]) then 0 else 1 + WordLength(s[1..])
  }

  predicate NoSpace(w: string) {
    forall j :: 0 <= j < |w| ==> !IsSpace(w[j])
  }

  /** Python's `s.split()` with no argument: the maximal runs of
      non-whitespace characters. */
  function Words(s: string): (r: seq<string>)
    ensures forall i :: 0 <= i < |r| ==> r[i] != [] && NoSpace(r[i])
    decreases |s|
  {
    if |s| == 0 then []
    else if IsSpace(s[0]) then Words(s[1..])
    else
      var n := WordLength(s);
      [s[..n]] + Words(s[n..])
  }

  /** The non-whitespace characters of `s`, in order. */
  function NonSpace(s: string): string
    decreases |s|
  {
    if |s| == 0 then ""
    else if IsSpace(s[0]) then NonSpace(s[1..])
    else [s[0]] + NonSpace(s[1..])
  }

  lemma {:induction false} NonSpaceConcat(a: string, b: string)
    ensures NonSpace(a + b) == NonSpace(a) + NonSpace(b)
    decreases |a|
  {
    if |a| > 0 {
      assert (a + b)[0] == a[0];
      assert (a + b)[1..] == a[1..] + b;
      NonSpaceConcat(a[1..], b);
      if IsSpace(a[0]) {
        assert NonSpace(a + b) == NonSpace(a[1..] + b);
      } else {
        assert NonSpace(a + b) == [a[0]] + NonSpace(a[1..] + b);
      }
    } else {
      assert a + b == b;
    }
  }

  lemma {:induction false} NonSpaceOfWord(w: string)
    requires NoSpace(w)
    ensures NonSpace(w) == w
    decreases |w|
  {
    if |w| > 0 {
      NonSpaceOfWord(w[1..]);
      assert w == [w[0]] + w[1..];
    }
  }

  /** The words, run together, are exactly the non-whitespace characters. */
  lemma {:induction false} WordsCoverNonSpace(s: string)
    ensures Join("", Words(s)) == NonSpace(s)
    decreases |s|
  {
    if |s| > 0 {
      if IsSpace(s[0]) {
        WordsCoverNonSpace(s[1..]);
      } else {
        var n := WordLength(s);
        WordsCoverNonSpace(s[n..]);
        assert s == s[..n] + s[n..];
        NonSpaceConcat(s[..n], s[n..]);
        NonSpaceOfWord(s[..n]);
        var rest := Words(s[n..]);
        if |rest| == 0 {
          assert NonSpace(s[n..]) == "";
        } else {
          assert ([s[..n]] + rest)[1..] == rest;
        }
      }
    }
  }

  lemma {:induction false} WordLengthOfWord(w: string, t: string)
    requires NoSpace(w)
    requires t == [] || IsSpace(t[0])
    ensures WordLength(w + t) == |w|
    decreases |w|
  {
    if |w| > 0 {
      assert (w + t)[1..] == w[1..] + t;
      WordLengthOfWord(w[1..], t);
    } else {
      assert w + t == t;
    }
  }

  /** Splitting words joined by single spaces gives the words back. */
  lemma {:induction false} WordsOfJoin(ws: seq<string>)
    requires forall i :: 0 <= i < |ws| ==> ws[i] != [] && NoSpace(ws[i])
    ensures Words(Join(" ", ws)) == ws
    decreases |ws|
  {
    if |ws| == 1 {
      WordLengthOfWord(ws[0], []);
      assert ws[0] + [] == ws[0];
      assert ws[0][|ws[0]|..] == [];
    } else if |ws| > 1 {
      var s := Join(" ", ws);
      var w, t := ws[0], " " + Join(" ", ws[1..]);
      assert s == w + t;
      WordLengthOfWord(w, t);
      assert s[|w|..] == t;
      assert t[1..] == Join(" ", ws[1..]);
      WordsOfJoin(ws[1..]);
      assert s[..|w|] == w;
    }
  }

  /** `gaps[0] + ws[0] + gaps[1] + ... + ws[n - 1] + gaps[n]`. */
  function Interleave(gaps: seq<string>, ws: seq<string>): string
    requires |gaps| == |ws| + 1
    decreases |ws|
  {
    if |ws| == 0 then gaps[0] else gaps[0] + ws[0] + Interleave(gaps[1..], ws[1..])
  }

  /** Non-empty words without whitespace, with whitespace around them and a
      non-empty run of it between every two: the words are then exactly the
      maximal runs of non-whitespace. */
  predicate Separated(gaps: seq<string>, ws: seq<string>) {
    && |gaps| == |ws| + 1
    && (forall i :: 0 <= i < |gaps| ==> IsBlank(gaps[i]))
    && (forall i :: 0 < i < |gaps| - 1 ==> gaps[i] != [])
    && (forall i :: 0 <= i < |ws| ==> ws[i] != [] && NoSpace(ws[i]))
  }

  /** One more whitespace character at the front joins the first gap. */
  lemma GapStep(c: char, g: seq<string>, ws: seq<string>)
    requires IsSpace(c) && Separated(g, ws)
    ensures Separated([[c] + g[0]] + g[1..], ws)
    ensures Interleave([[c] + g[0]] + g[1..], ws) == [c] + Interleave(g, ws)
  {
    var h := [[c] + g[0]] + g[1..];
    forall i | 0 <= i < |h| ensures IsBlank(h[i]) {
      if i > 0 {
        assert h[i] == g[i];
      } else {
        forall k | 0 <= k < |h[0]| ensures IsSpace(h[0][k]) {
          if k > 0 {
            assert h[0][k] == g[0][k - 1];
          }
        }
      }
    }
    forall i | 0 < i < |h| - 1 ensures h[i] != [] {
      assert h[i] == g[i];
    }
    if |ws| > 0 {
      assert h[1..] == g[1..];
      assert Interleave(h, ws) == h[0] + ws[0] + Interleave(g[1..], ws[1..]);
    }
  }

  /** A word at the front comes after an empty gap, and before a non-empty
      one when more words follow. */
  lemma WordStep(w: string, g: seq<string>, ws: seq<string>)
    requires w != [] && NoSpace(w) && Separated(g, ws)
    requires |ws| > 0 ==> g[0] != []
    ensures Separated([""] + g, [w] + ws)
    ensures Interleave([""] + g, [w] + ws) == w + Interleave(g, ws)
  {
    var h, v := [""] + g, [w] + ws;
    forall i | 0 <= i < |h| ensures IsBlank(h[i]) {
      if i > 0 {
        assert h[i] == g[i - 1];
      }
    }
    forall i | 0 < i < |h| - 1 ensures h[i] != [] {
      assert h[i] == g[i - 1];
    }
    forall i | 0 <= i < |v| ensures v[i] != [] && NoSpace(v[i]) {
      if i > 0 {
        assert v[i] == ws[i - 1];
      }
    }
    assert h[1..] == g && v[1..] == ws;
    assert Interleave(h, v) == "" + w + Interleave(g, ws);
    assert "" + w == w;
  }

  lemma SpaceFirst(s: string, g: seq<string>) returns (gaps: seq<string>)
    requires |s| > 0 && IsSpace(s[0])
    requires Separated(g, Words(s[1..])) && Interleave(g, Words(s[1..])) == s[1..]
    ensures Separated(gaps, Words(s)) && Interleave(gaps, Words(s)) == s
    ensures gaps[0] != []
  {
    GapStep(s[0], g, Words(s[1..]));
    gaps := [[s[0]] + g[0]] + g[1..];
    assert s == [s[0]] + s[1..];
  }

  lemma WordFirst(s: string, g: seq<string>) returns (gaps: seq<string>)
    requires |s| > 0 && !IsSpace(s[0])
    requires Separated(g, Words(s[WordLength(s)..]))
    requires Interleave(g, Words(s[WordLength(s)..])) == s[WordLength(s)..]
    requires WordLength(s) < |s| ==> g[0] != []
    ensures Separated(gaps, Words(s)) && Interleave(gaps, Words(s)) == s
  {
    var n := WordLength(s);
    var t := s[n..];
    if |Words(t)| > 0 {
      assert t != [];
    }
    WordStep(s[..n], g, Words(t));
    gaps := [""] + g;
    assert s == s[..n] + t;
  }

  /** Every string is its words interleaved with whitespace, and two words
      are always parted by at least one whitespace character. */
  lemma {:induction false} WordsSeparated(s: string) returns (gaps: seq<string>)
    ensures Separated(gaps, Words(s))
    ensures Interleave(gaps, Words(s)) == s
    ensures |s| > 0 && IsSpace(s[0]) ==> gaps[0] != []
    decreases |s|
  {
    if |s| == 0 {
      gaps := [""];
    } else if IsSpace(s[0]) {
      var g := WordsSeparated(s[1..]);
      gaps := SpaceFirst(s, g);
    } else {
      var t := s[WordLength(s)..];
      var g := WordsSeparated(t);
      if t != [] {
        assert t[0] == s[WordLength(s)];
      }
      gaps := WordFirst(s, g);
    }
  }

  lemma {:induction false} WordsBlankPrefix(a: string, t: string)
    requires IsBlank(a)
    ensures Words(a + t) == Words(t)
    decreases |a|
  {
    if |a| > 0 {
      assert (a + t)[0] == a[0];
      assert (a + t)[1..] == a[1..] + t;
      WordsBlankPrefix(a[1..], t);
    } else {
      assert a + t == t;
    }
  }

  lemma WordsWordFirst(w: string, t: string)
    requires w != [] && NoSpace(w)
    requires t == [] || IsSpace(t[0])
    ensures Words(w + t) == [w] + Words(t)
  {
    WordLengthOfWord(w, t);
    var s := w + t;
    assert s[0] == w[0];
    assert s[..|w|] == w;
    assert s[|w|..] == t;
  }

  /** The words are determined by the separation: any way of writing `s` as
      separated words gives exactly `s.split()`. */
  lemma {:induction false} WordsOfInterleave(gaps: seq<string>, ws: seq<string>)
    requires Separated(gaps, ws)
    ensures Words(Interleave(gaps, ws)) == ws
    decreases |ws|
  {
    if |ws| == 0 {
      WordsBlankPrefix(gaps[0], "");
      assert gaps[0] + "" == gaps[0];
    } else {
      var g, v := gaps[1..], ws[1..];
      forall i | 0 <= i < |g| ensures IsBlank(g[i]) {
        assert g[i] == gaps[i + 1];
      }
      forall i | 0 < i < |g| - 1 ensures g[i] != [] {
        assert g[i] == gaps[i + 1];
      }
      forall i | 0 <= i < |v| ensures v[i] != [] && NoSpace(v[i]) {
        assert v[i] == ws[i + 1];
      }
      WordsOfInterleave(g, v);
      var rest := Interleave(g, v);
      assert IsBlank(g[0]);
      if |v| > 0 {
        assert g[0] != [];
        assert rest[0] == g[0][0];
      }
      WordsWordFirst(ws[0], rest);
      assert Interleave(gaps, ws) == gaps[0] + (ws[0] + rest);
      WordsBlankPrefix(gaps[0], ws[0] + rest);
      assert ws == [ws[0]] + v;
    }
  }
}
