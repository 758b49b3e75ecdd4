/** `format_response` (graphrag/app/utils.py): the post-processing applied to
    every answer before it is returned.  The answer is cut into paragraphs at
    runs of two or more newlines; a paragraph holding a triple-backtick fence
    has every odd-numbered piece between fences re-wrapped as a code block, any
    other paragraph gets a line break after every ". "; each paragraph is
    stripped, and the paragraphs are joined again by one blank line. */
module Utils {
  import opened PyStr

  const ParagraphBreak: string := "\n\n"
  const Fence: string := "```"
  /** The text that stands on each side of the code in a re-wrapped block. */
  const FenceLine: string := "\n```\n"
  const SentenceEnd: string := ". "
  const SentenceBreak: string := ".\n"

  // ---------------------------------------------------------------------------
  // re.split(r'\n{2,}', s)

  /** The pieces of a string between maximal runs of two or more newlines,
      together with the length of each run. */
  datatype Cut = Cut(paragraphs: seq<string>, runs: seq<nat>)

  function Newlines(n: nat): (r: string)
    ensures |r| == n && forall j :: 0 <= j < n ==> r[j] == '\n'
  {
    seq(n, _ => '\n')
  }

  /** The length of the run of newlines that `s` starts with. */
  function NewlineRun(s: string): (n: nat)
    ensures n <= |s|
    ensures forall j :: 0 <= j < n ==> s[j] == '\n'
    ensures n == |s| || s[n] != '\n'
    decreases |s|
  {
    if |s| > 0 && s[0] == '\n' then 1 + NewlineRun(s[1..]) else 0
  }

  predicate StartsWithBreak(s: string) {
    |s| >= 2 && s[0] == '\n' && s[1] == '\n'
  }

  /** `re.split(r'\n{2,}', s)`, keeping the length of each run it removes.
      A run is taken as soon as two newlines are seen and extends as far as
      the newlines go, as the greedy leftmost match of the pattern does. */
  function SplitParagraphs(s: string): (c: Cut)
    ensures |c.paragraphs| == |c.runs| + 1
    decreases |s|
  {
    if |s| == 0 then Cut([""], [])
    else if StartsWithBreak(s) then
      var n := NewlineRun(s);
      var rest := SplitParagraphs(s[n..]);
      Cut([""] + rest.paragraphs, [n] + rest.runs)
    else
      var rest := SplitParagraphs(s[1..]);
      Cut([[s[0]] + rest.paragraphs[0]] + rest.paragraphs[1..], rest.runs)
  }

  function Paragraphs(s: string): seq<string> {
    SplitParagraphs(s).paragraphs
  }

  function Tail(c: Cut): Cut
    requires |c.paragraphs| == |c.runs| + 1 && |c.runs| > 0
  {
    Cut(c.paragraphs[1..], c.runs[1..])
  }

  /** Puts the runs of newlines back between the pieces. */
  function Rejoin(c: Cut): string
    requires |c.paragraphs| == |c.runs| + 1
    decreases |c.runs|
  {
    if |c.runs| == 0 then c.paragraphs[0]
    else c.paragraphs[0] + Newlines(c.runs[0]) + Rejoin(Tail(c))
  }

  /** What the pattern `\n{2,}` guarantees of a split: every run has two or
      more newlines; no piece holds two newlines in a row; no run could be
      longer (the piece after it does not start with a newline, the piece
      before it does not end with one); and no two runs touch (no empty piece
      between them). */
  predicate WellFormed(c: Cut) {
    && |c.paragraphs| == |c.runs| + 1
    && (forall i :: 0 <= i < |c.runs| ==> c.runs[i] >= 2)
    && (forall i :: 0 <= i < |c.paragraphs| ==> PieceOk(c.paragraphs, i))
  }

  predicate PieceOk(ps: seq<string>, i: int)
    requires 0 <= i < |ps|
  {
    && !Contains(ps[i], ParagraphBreak)
    && (i > 0 && ps[i] != [] ==> ps[i][0] != '\n')
    && (i < |ps| - 1 && ps[i] != [] ==> ps[i][|ps[i]| - 1] != '\n')
    && (0 < i < |ps| - 1 ==> ps[i] != [])
  }

  lemma RejoinHead(c: Cut)
    requires |c.paragraphs| == |c.runs| + 1
    ensures IsPrefix(c.paragraphs[0], Rejoin(c))
    ensures |c.runs| > 0 ==> IsPrefix(c.paragraphs[0] + Newlines(c.runs[0]), Rejoin(c))
  {
  }

  lemma RejoinConsHead(x: char, c: Cut)
    requires |c.paragraphs| == |c.runs| + 1
    ensures Rejoin(Cut([[x] + c.paragraphs[0]] + c.paragraphs[1..], c.runs)) == [x] + Rejoin(c)
  {
    var d := Cut([[x] + c.paragraphs[0]] + c.paragraphs[1..], c.runs);
    if |c.runs| > 0 {
      assert Tail(d) == Tail(c);
    }
  }

  /** Every piece is a substring of the string it was cut from. */
  lemma {:induction false} RejoinContainsParagraph(c: Cut, i: int)
    requires |c.paragraphs| == |c.runs| + 1
    requires 0 <= i < |c.paragraphs|
    ensures Contains(Rejoin(c), c.paragraphs[i])
    decreases |c.runs|
  {
    if i == 0 {
      RejoinHead(c);
      assert OccursAt(Rejoin(c), c.paragraphs[0], 0);
    } else {
      RejoinContainsParagraph(Tail(c), i - 1);
      ContainsWithin(c.paragraphs[0] + Newlines(c.runs[0]), Rejoin(Tail(c)), "", c.paragraphs[i]);
      assert c.paragraphs[0] + Newlines(c.runs[0]) + Rejoin(Tail(c)) + "" == Rejoin(c);
    }
  }

  /** Starting a cut with an empty piece and a run keeps it well formed when
      the old first piece cannot lengthen the run. */
  lemma WellFormedBreak(n: nat, rest: Cut)
    requires WellFormed(rest) && n >= 2
    requires rest.paragraphs[0] == [] || rest.paragraphs[0][0] != '\n'
    requires |rest.runs| > 0 ==> rest.paragraphs[0] != []
    ensures WellFormed(Cut([""] + rest.paragraphs, [n] + rest.runs))
  {
    var ps := [""] + rest.paragraphs;
    forall i | 0 <= i < |ps| ensures PieceOk(ps, i) {
      if i == 0 {
        assert !OccursAt(ps[0], ParagraphBreak, 0);
      } else {
        assert ps[i] == rest.paragraphs[i - 1];
        assert PieceOk(rest.paragraphs, i - 1);
      }
    }
  }

  /** Putting one more character in front of the first piece keeps a cut
      well formed when it makes no break and cannot lengthen a run. */
  lemma WellFormedPrepend(x: char, rest: Cut)
    requires WellFormed(rest)
    requires !Contains([x] + rest.paragraphs[0], ParagraphBreak)
    requires |rest.runs| > 0 && rest.paragraphs[0] == [] ==> x != '\n'
    ensures WellFormed(Cut([[x] + rest.paragraphs[0]] + rest.paragraphs[1..], rest.runs))
  {
    var ps := [[x] + rest.paragraphs[0]] + rest.paragraphs[1..];
    assert PieceOk(rest.paragraphs, 0);
    forall i | 0 <= i < |ps| ensures PieceOk(ps, i) {
      if i == 0 {
        if rest.paragraphs[0] != [] {
          assert ps[0][|ps[0]| - 1] == rest.paragraphs[0][|rest.paragraphs[0]| - 1];
        }
      } else {
        assert ps[i] == rest.paragraphs[i];
        assert PieceOk(rest.paragraphs, i);
      }
    }
  }

  /** A well-formed cut without its first piece and run is well formed, and
      what it rejoins to cannot lengthen that run. */
  lemma WellFormedTail(c: Cut)
    requires WellFormed(c) && |c.runs| > 0
    ensures WellFormed(Tail(c))
    ensures Tail(c).paragraphs[0] == [] ==> |Tail(c).runs| == 0
    ensures Rejoin(Tail(c)) == [] || Rejoin(Tail(c))[0] != '\n'
  {
    var tl := Tail(c);
    forall i | 0 <= i < |tl.paragraphs| ensures PieceOk(tl.paragraphs, i) {
      assert tl.paragraphs[i] == c.paragraphs[i + 1];
      assert PieceOk(c.paragraphs, i + 1);
    }
    assert PieceOk(c.paragraphs, 1);
    RejoinHead(tl);
    if tl.paragraphs[0] != [] {
      assert Rejoin(tl)[0] == tl.paragraphs[0][0];
    }
  }

  /** The split is sound: it is well formed and putting the runs back gives
      the original string. */
  lemma {:induction false} SplitParagraphsSound(s: string)
    ensures WellFormed(SplitParagraphs(s))
    ensures Rejoin(SplitParagraphs(s)) == s
    decreases |s|
  {
    if |s| == 0 {
      assert !OccursAt("", ParagraphBreak, 0);
      assert PieceOk(SplitParagraphs(s).paragraphs, 0);
    } else if StartsWithBreak(s) {
      var n := NewlineRun(s);
      var rest := SplitParagraphs(s[n..]);
      assert SplitParagraphs(s) == Cut([""] + rest.paragraphs, [n] + rest.runs);
      SplitParagraphsSound(s[n..]);
      BreakKeepsSound(n, rest, s[n..]);
      RunThenRest(s);
    } else {
      var rest := SplitParagraphs(s[1..]);
      assert SplitParagraphs(s) == Cut([[s[0]] + rest.paragraphs[0]] + rest.paragraphs[1..], rest.runs);
      SplitParagraphsSound(s[1..]);
      RejoinConsHead(s[0], rest);
      PrependKeepsWellFormed(s[0], rest);
      assert s == [s[0]] + s[1..];
    }
  }

  lemma RunThenRest(s: string)
    ensures s == Newlines(NewlineRun(s)) + s[NewlineRun(s)..]
  {
    var n := NewlineRun(s);
    assert s[..n] == Newlines(n);
    assert s == s[..n] + s[n..];
  }

  /** The step of `SplitParagraphsSound` for a string that starts with a
      maximal run of `n` newlines followed by `t`. */
  lemma BreakKeepsSound(n: nat, rest: Cut, t: string)
    requires n >= 2 && WellFormed(rest) && Rejoin(rest) == t
    requires t == [] || t[0] != '\n'
    ensures WellFormed(Cut([""] + rest.paragraphs, [n] + rest.runs))
    ensures Rejoin(Cut([""] + rest.paragraphs, [n] + rest.runs)) == Newlines(n) + t
  {
    var c := Cut([""] + rest.paragraphs, [n] + rest.runs);
    assert Tail(c) == rest;
    RejoinHead(rest);
    if rest.paragraphs[0] != [] {
      assert rest.paragraphs[0][0] == t[0];
    }
    if |rest.runs| > 0 {
      assert (rest.paragraphs[0] + Newlines(rest.runs[0]))[0] == t[0];
    }
    WellFormedBreak(n, rest);
  }

  lemma PrependKeepsWellFormed(x: char, rest: Cut)
    requires WellFormed(rest)
    requires !(x == '\n' && |Rejoin(rest)| > 0 && Rejoin(rest)[0] == '\n')
    ensures WellFormed(Cut([[x] + rest.paragraphs[0]] + rest.paragraphs[1..], rest.runs))
  {
    var p := [x] + rest.paragraphs[0];
    RejoinHead(rest);
    if rest.paragraphs[0] != [] {
      assert p[1] == Rejoin(rest)[0];
      assert p[0..2] == [x, p[1]];
    }
    assert p[0] == x;
    assert !OccursAt(p, ParagraphBreak, 0);
    assert PieceOk(rest.paragraphs, 0);
    NotContainsCons(x, rest.paragraphs[0], ParagraphBreak);
    if |rest.runs| > 0 {
      assert (rest.paragraphs[0] + Newlines(rest.runs[0]))[0] == Rejoin(rest)[0];
    }
    WellFormedPrepend(x, rest);
  }

  lemma {:induction false} SplitParagraphsNoBreak(s: string)
    requires !Contains(s, ParagraphBreak)
    ensures SplitParagraphs(s) == Cut([s], [])
    decreases |s|
  {
    if |s| > 0 {
      assert !OccursAt(s, ParagraphBreak, 0);
      if |s| >= 2 {
        assert s[..2] == [s[0], s[1]];
      }
      assert !StartsWithBreak(s);
      NotContainsTail(s, ParagraphBreak);
      SplitParagraphsNoBreak(s[1..]);
      assert s == [s[0]] + s[1..];
    }
  }

  /** The first break of `a + newlines + b` is that run of newlines, when `a`
      holds no break and the run is maximal. */
  lemma {:induction false} SplitParagraphsAfter(a: string, k: nat, b: string)
    requires !Contains(a, ParagraphBreak)
    requires a == [] || a[|a| - 1] != '\n'
    requires k >= 2
    requires b == [] || b[0] != '\n'
    ensures SplitParagraphs(a + Newlines(k) + b) ==
            Cut([a] + SplitParagraphs(b).paragraphs, [k] + SplitParagraphs(b).runs)
    decreases |a|
  {
    var s := a + Newlines(k) + b;
    if |a| == 0 {
      assert s == Newlines(k) + b;
      assert StartsWithBreak(s);
      var n := NewlineRun(s);
      assert forall j :: 0 <= j < k ==> s[j] == '\n';
      assert k == |s| || s[k] != '\n';
      assert n == k;
      assert s[k..] == b;
    } else {
      assert !OccursAt(a, ParagraphBreak, 0);
      if |a| >= 2 {
        assert a[..2] == [a[0], a[1]];
        assert s[1] == a[1];
      } else {
        assert s[1] == '\n';
      }
      assert !StartsWithBreak(s);
      NotContainsTail(a, ParagraphBreak);
      assert s[1..] == a[1..] + Newlines(k) + b;
      SplitParagraphsAfter(a[1..], k, b);
      assert a == [a[0]] + a[1..];
    }
  }

  /** The split is the only well-formed cut of a string: whatever well-formed
      pieces and runs rejoin to `s`, splitting `s` finds exactly them. */
  lemma {:induction false} SplitParagraphsUnique(c: Cut)
    requires WellFormed(c)
    ensures SplitParagraphs(Rejoin(c)) == c
    decreases |c.runs|
  {
    if |c.runs| == 0 {
      assert PieceOk(c.paragraphs, 0);
      SplitParagraphsNoBreak(c.paragraphs[0]);
    } else {
      var a, k, tl := c.paragraphs[0], c.runs[0], Tail(c);
      WellFormedTail(c);
      assert PieceOk(c.paragraphs, 0);
      SplitParagraphsUnique(tl);
      var b := Rejoin(tl);
      SplitParagraphsAfter(a, k, b);
      assert c == Cut([a] + tl.paragraphs, [k] + tl.runs);
    }
  }

  function Twos(n: nat): (r: seq<nat>)
    ensures |r| == n && forall j :: 0 <= j < n ==> r[j] == 2
  {
    seq(n, _ => 2)
  }

  /** Joining by a blank line is rejoining with runs of exactly two newlines. */
  lemma {:induction false} RejoinJoin(qs: seq<string>)
    requires |qs| > 0
    ensures Rejoin(Cut(qs, Twos(|qs| - 1))) == Join(ParagraphBreak, qs)
    decreases |qs|
  {
    if |qs| > 1 {
      RejoinJoin(qs[1..]);
      assert Tail(Cut(qs, Twos(|qs| - 1))) == Cut(qs[1..], Twos(|qs| - 2));
      assert Newlines(2) == ParagraphBreak;
    }
  }

  // ---------------------------------------------------------------------------
  // The paragraph rewrite

  /** `f"\n```\n{part.strip()}\n```\n"` */
  function FencedBlock(code: string): string {
    FenceLine + Strip(code) + FenceLine
  }

  /** The pieces of a fenced paragraph after the inner loop: odd-numbered
      pieces re-wrapped, even-numbered pieces as they were. */
  function Rewrapped(parts: seq<string>): (r: seq<string>)
    ensures |r| == |parts|
  {
    seq(|parts|, i requires 0 <= i < |parts| => RewrapAt(i, parts[i]))
  }

  /** What the inner loop leaves at index `i`. */
  function RewrapAt(i: int, part: string): string {
    if i % 2 == 1 then FencedBlock(part) else part
  }

  /** One paragraph of `format_response`, up to and including its strip. */
  function FormatParagraph(p: string): (r: string)
    ensures IsStripped(r)
  {
    if Contains(p, Fence) then Strip(Join("", Rewrapped(Split(p, Fence))))
    else Strip(Replace(p, SentenceEnd, SentenceBreak))
  }

  function FormattedParagraphs(s: string): (r: seq<string>)
    ensures |r| == |Paragraphs(s)|
    ensures forall i :: 0 <= i < |r| ==> IsStripped(r[i])
  {
    var ps := Paragraphs(s);
    seq(|ps|, i requires 0 <= i < |ps| => FormatParagraph(ps[i]))
  }

  /** What `format_response(s)` returns. */
  function Format(s: string): string {
    Join(ParagraphBreak, FormattedParagraphs(s))
  }

  /** The inner loop of `format_response`: every odd-numbered piece of a
      fenced paragraph is overwritten in place by its re-wrapped form. */
  method RewrapInPlace(parts: array<string>)
    modifies parts
    ensures parts[..] == Rewrapped(old(parts[..]))
  {
    ghost var original := parts[..];
    for i := 0 to parts.Length
      invariant forall j :: 0 <= j < i ==> parts[j] == RewrapAt(j, original[j])
      invariant forall j :: i <= j < parts.Length ==> parts[j] == original[j]
    {
      if i % 2 == 1 {
        parts[i] := FencedBlock(parts[i]);
      }
      assert parts[i] == RewrapAt(i, original[i]);
    }
    RewrappedPointwise(original, parts[..]);
  }

  lemma RewrappedPointwise(original: seq<string>, now: seq<string>)
    requires |now| == |original|
    requires forall j :: 0 <= j < |now| ==> now[j] == RewrapAt(j, original[j])
    ensures now == Rewrapped(original)
  {
  }

  /** `format_response` as the source runs it: a loop over the paragraphs
      that appends each formatted paragraph to a list. */
  method FormatResponse(response: string) returns (formatted: string)
    ensures formatted == Format(response)
  {
    var paragraphs := Paragraphs(response);
    ghost var fs := FormattedParagraphs(response);
    var done: seq<string> := [];
    for k := 0 to |paragraphs|
      invariant done == fs[..k]
    {
      var para := ReformatParagraph(paragraphs[k]);
      done := done + [para];
    }
    assert done == fs;
    formatted := Join(ParagraphBreak, done);
  }

  /** The body of the loop over paragraphs: `para` rebound to its re-wrapped
      or reflowed form, then stripped. */
  method ReformatParagraph(original: string) returns (formatted: string)
    ensures formatted == FormatParagraph(original)
  {
    var para := original;
    if Contains(para, Fence) {
      var pieces := Split(para, Fence);
      var parts := new string[|pieces|](i requires 0 <= i < |pieces| => pieces[i]);
      assert parts[..] == pieces;
      RewrapInPlace(parts);
      para := Join("", parts[..]);
      FencedParagraphIs(original);
    } else {
      para := Replace(para, SentenceEnd, SentenceBreak);
    }
    formatted := Strip(para);
  }

  // ---------------------------------------------------------------------------
  // Paragraphs without a fence: the sentence reflow

  /** Reference for the reflow: a space becomes a newline exactly when a
      period stands right before it. */
  function SentencesBroken(p: string): (r: string)
    ensures |r| == |p|
  {
    seq(|p|, i requires 0 <= i < |p| => if i > 0 && p[i - 1] == '.' && p[i] == ' ' then '\n' else p[i])
  }

  /** `p.replace(". ", ".\n")` turns every space after a period into a newline
      and changes nothing else. */
  lemma {:induction false} ReflowIsSentencesBroken(p: string)
    ensures Replace(p, SentenceEnd, SentenceBreak) == SentencesBroken(p)
    decreases |p|
  {
    if |p| > 0 {
      var sb := SentencesBroken(p);
      if IsPrefix(SentenceEnd, p) {
        ReflowIsSentencesBroken(p[2..]);
        var rest := SentencesBroken(p[2..]);
        assert p[0] == '.' && p[1] == ' ';
        forall j | 0 <= j < |p| ensures sb[j] == (SentenceBreak + rest)[j] {
          if j >= 2 {
            assert p[2..][j - 2] == p[j];
            if j > 2 {
              assert p[2..][j - 3] == p[j - 1];
            }
          }
        }
        assert sb == SentenceBreak + rest;
      } else {
        ReflowIsSentencesBroken(p[1..]);
        var rest := SentencesBroken(p[1..]);
        if |p| >= 2 {
          assert p[..2] != SentenceEnd;
        }
        forall j | 0 <= j < |p| ensures sb[j] == ([p[0]] + rest)[j] {
          if j >= 1 {
            assert p[1..][j - 1] == p[j];
            if j > 1 {
              assert p[1..][j - 2] == p[j - 1];
            }
          }
        }
        assert sb == [p[0]] + rest;
      }
    }
  }

  /** After the reflow no ". " is left. */
  lemma NoSentenceEndAfterReflow(p: string)
    ensures !Contains(SentencesBroken(p), SentenceEnd)
  {
    var sb := SentencesBroken(p);
    forall i | 0 <= i <= |sb| ensures !OccursAt(sb, SentenceEnd, i) {
      if i + 2 <= |sb| {
        assert sb[i..i + 2][0] == sb[i] && sb[i..i + 2][1] == sb[i + 1];
        if sb[i + 1] == ' ' {
          assert p[i + 1] == ' ' && p[i] != '.';
          assert sb[i] != '.';
        }
      }
    }
  }

  /** A paragraph without a fence is the stripped reflow of itself, and holds
      no ". " afterwards. */
  lemma UnfencedParagraph(p: string)
    requires !Contains(p, Fence)
    ensures FormatParagraph(p) == Strip(SentencesBroken(p))
    ensures !Contains(FormatParagraph(p), SentenceEnd)
  {
    ReflowIsSentencesBroken(p);
    NoSentenceEndAfterReflow(p);
    StripFree(SentencesBroken(p), SentenceEnd);
  }

  // ---------------------------------------------------------------------------
  // Paragraphs with a fence

  lemma FenceLineCount()
    ensures Count(FenceLine, Fence) == 1
  {
    assert FenceLine[..3][0] != Fence[0];
    assert FenceLine[1..] == "```\n";
    assert FenceLine[1..][..3] == Fence;
    assert FenceLine[1..][3..] == "\n";
  }

  /** A re-wrapped piece holds exactly two fences and starts and ends with a
      newline. */
  lemma FencedBlockCount(code: string)
    requires !Contains(code, Fence)
    ensures Count(FencedBlock(code), Fence) == 2
    ensures FencedBlock(code)[0] == '\n' && FencedBlock(code)[|FencedBlock(code)| - 1] == '\n'
  {
    var s := Strip(code);
    StripFree(code, Fence);
    CountAbsent(s, Fence);
    FenceLineCount();
    assert '\n' !in Fence;
    CountConcat(FenceLine, s, Fence);
    CountConcat(FenceLine + s, FenceLine, Fence);
  }

  predicate EndsWithNewline(s: string) {
    |s| > 0 && s[|s| - 1] == '\n'
  }

  /** What the fence count needs of the `i`-th re-wrapped piece: an even one
      holds no fence, an odd one holds two and has a newline at each end. */
  predicate BlockShape(rw: seq<string>, i: int)
    requires 0 <= i < |rw|
  {
    if i % 2 == 1 then Count(rw[i], Fence) == 2 && |rw[i]| > 0 && rw[i][0] == '\n' && EndsWithNewline(rw[i])
    else Count(rw[i], Fence) == 0
  }

  lemma RewrappedShape(ps: seq<string>, i: int)
    requires 0 <= i < |ps|
    requires !Contains(ps[i], Fence)
    ensures BlockShape(Rewrapped(ps), i)
  {
    var rw := Rewrapped(ps);
    if i % 2 == 1 {
      assert rw[i] == FencedBlock(ps[i]);
      FencedBlockCount(ps[i]);
    } else {
      assert rw[i] == ps[i];
      CountAbsent(ps[i], Fence);
    }
  }

  /** The fences in the first `j` pieces: two for every odd index below `j`. */
  lemma {:induction false} AlternatingCount(rw: seq<string>, j: nat)
    requires 1 <= j <= |rw|
    requires forall i :: 0 <= i < |rw| ==> BlockShape(rw, i)
    ensures Count(Join("", rw[..j]), Fence) == 2 * (j / 2)
    ensures j % 2 == 0 ==> EndsWithNewline(Join("", rw[..j]))
    decreases j
  {
    assert BlockShape(rw, j - 1);
    if j == 1 {
      assert rw[..1] == [rw[0]];
    } else {
      AlternatingCount(rw, j - 1);
      var a, x := Join("", rw[..j - 1]), rw[j - 1];
      assert rw[..j] == rw[..j - 1] + [x];
      JoinSnoc("", rw[..j - 1], x);
      assert '\n' !in Fence;
      CountConcat(a, x, Fence);
      assert Join("", rw[..j]) == a + x;
      if (j - 1) % 2 == 1 {
        assert j / 2 == (j - 1) / 2 + 1;
      } else {
        assert j / 2 == (j - 1) / 2;
      }
    }
  }

  lemma FencedParagraphIs(p: string)
    requires Contains(p, Fence)
    ensures FormatParagraph(p) == Strip(Join("", Rewrapped(Split(p, Fence))))
  {
  }

  lemma FenceLinesAround(s: string)
    ensures FenceLine + s + FenceLine == "\n" + (Fence + "\n" + s + "\n" + Fence) + "\n"
  {
    assert FenceLine == "\n" + Fence + "\n";
  }

  lemma FencedBlockAround(code: string)
    ensures FencedBlock(code) == "\n" + (Fence + "\n" + Strip(code) + "\n" + Fence) + "\n"
  {
    FenceLinesAround(Strip(code));
  }

  /** A fenced paragraph with k fences comes out with 2 * ceil(k / 2) fences,
      so an unmatched opening fence gets closed. */
  lemma FencedParagraphCount(p: string)
    requires Contains(p, Fence)
    ensures Count(FormatParagraph(p), Fence) == 2 * ((Count(p, Fence) + 1) / 2)
  {
    var ps := Split(p, Fence);
    SplitCount(p, Fence);
    SplitPiecesFree(p, Fence);
    RewrappedCount(ps);
    var w := Join("", Rewrapped(ps));
    StripCount(w, Fence);
    FencedParagraphIs(p);
    assert (Count(p, Fence) + 1) / 2 == |ps| / 2;
  }

  /** Re-wrapping fence-free pieces and running them together gives two
      fences per odd-numbered piece. */
  lemma RewrappedCount(ps: seq<string>)
    requires |ps| > 0
    requires forall i :: 0 <= i < |ps| ==> !Contains(ps[i], Fence)
    ensures Count(Join("", Rewrapped(ps)), Fence) == 2 * (|ps| / 2)
  {
    var rw := Rewrapped(ps);
    forall i | 0 <= i < |ps| ensures BlockShape(rw, i) {
      RewrappedShape(ps, i);
    }
    AlternatingCount(rw, |ps|);
    assert rw[..|ps|] == rw;
  }

  /** In a fenced paragraph every even-numbered piece appears verbatim (up to
      its own surrounding whitespace), with no sentence reflow, and every
      odd-numbered piece appears stripped between a fence line and a fence. */
  lemma FencedParagraphPieces(p: string, i: int)
    requires Contains(p, Fence)
    requires 0 <= i < |Split(p, Fence)|
    ensures var piece := Split(p, Fence)[i];
            Contains(FormatParagraph(p),
                     if i % 2 == 1 then Fence + "\n" + Strip(piece) + "\n" + Fence else Strip(piece))
  {
    var ps := Split(p, Fence);
    var rw := Rewrapped(ps);
    var w := Join("", rw);
    FencedParagraphIs(p);
    JoinContainsPart("", rw, i);
    if i % 2 == 1 {
      var t := Fence + "\n" + Strip(ps[i]) + "\n" + Fence;
      assert rw[i] == FencedBlock(ps[i]);
      FencedBlockAround(ps[i]);
      ContainsSelf(t);
      ContainsWithin("\n", t, "\n", t);
      ContainsTransitive(w, rw[i], t);
      assert t[0] == '`' && t[|t| - 1] == '`';
      StripKeepsContained(w, t);
    } else {
      var t := Strip(ps[i]);
      assert rw[i] == ps[i];
      StripWithin(ps[i]);
      ContainsTransitive(w, ps[i], t);
      if t == [] {
        assert OccursAt(Strip(w), t, 0);
      } else {
        StripKeepsContained(w, t);
      }
    }
  }

  // ---------------------------------------------------------------------------
  // The whole answer

  /** Text with no blank line, no fence and no ". " is only stripped. */
  lemma PlainText(s: string)
    requires !Contains(s, ParagraphBreak) && !Contains(s, Fence) && !Contains(s, SentenceEnd)
    ensures Format(s) == Strip(s)
  {
    SplitParagraphsNoBreak(s);
    ReplaceAbsent(s, SentenceEnd, SentenceBreak);
  }

  /** Without fences and ". ", the formatted paragraphs are the stripped input
      paragraphs, and cutting the output again recovers exactly them, as long
      as no whitespace-only paragraph stands between two others. */
  lemma ReparseFormatted(s: string)
    requires !Contains(s, Fence) && !Contains(s, SentenceEnd)
    requires forall i :: 0 < i < |Paragraphs(s)| - 1 ==> !IsBlank(Paragraphs(s)[i])
    ensures forall i :: 0 <= i < |Paragraphs(s)| ==> FormattedParagraphs(s)[i] == Strip(Paragraphs(s)[i])
    ensures SplitParagraphs(Format(s)) == Cut(FormattedParagraphs(s), Twos(|Paragraphs(s)| - 1))
  {
    var c := SplitParagraphs(s);
    var ps, qs := c.paragraphs, FormattedParagraphs(s);
    SplitParagraphsSound(s);
    forall i | 0 <= i < |ps|
      ensures qs[i] == Strip(ps[i]) && !Contains(qs[i], ParagraphBreak)
      ensures 0 < i < |ps| - 1 ==> qs[i] != []
    {
      assert PieceOk(ps, i);
      RejoinContainsParagraph(c, i);
      if Contains(ps[i], Fence) {
        ContainsTransitive(s, ps[i], Fence);
      }
      if Contains(ps[i], SentenceEnd) {
        ContainsTransitive(s, ps[i], SentenceEnd);
      }
      ReplaceAbsent(ps[i], SentenceEnd, SentenceBreak);
      StripFree(ps[i], ParagraphBreak);
      StripEmptyIffBlank(ps[i]);
    }
    var cut := Cut(qs, Twos(|qs| - 1));
    forall i | 0 <= i < |qs| ensures PieceOk(qs, i) {
      assert IsStripped(qs[i]);
    }
    assert WellFormed(cut);
    RejoinJoin(qs);
    SplitParagraphsUnique(cut);
  }

  /** Formatting twice is formatting once, for text with no fence, no ". "
      and no whitespace-only paragraph between two others. */
  lemma FormatIdempotent(s: string)
    requires !Contains(s, Fence) && !Contains(s, SentenceEnd)
    requires forall i :: 0 < i < |Paragraphs(s)| - 1 ==> !IsBlank(Paragraphs(s)[i])
    ensures Format(Format(s)) == Format(s)
  {
    var c := SplitParagraphs(s);
    var ps, qs := c.paragraphs, FormattedParagraphs(s);
    ReparseFormatted(s);
    SplitParagraphsSound(s);
    forall i | 0 <= i < |qs| ensures FormatParagraph(qs[i]) == qs[i] {
      RejoinContainsParagraph(c, i);
      StripWithin(ps[i]);
      if Contains(qs[i], Fence) {
        ContainsTransitive(ps[i], qs[i], Fence);
        ContainsTransitive(s, ps[i], Fence);
      }
      if Contains(qs[i], SentenceEnd) {
        ContainsTransitive(ps[i], qs[i], SentenceEnd);
        ContainsTransitive(s, ps[i], SentenceEnd);
      }
      ReplaceAbsent(qs[i], SentenceEnd, SentenceBreak);
      StripStripped(qs[i]);
    }
    assert FormattedParagraphs(Format(s)) == qs;
  }

  /** The reflow only turns spaces into newlines, so it makes no fence. */
  lemma ReflowNoFence(p: string)
    requires !Contains(p, Fence)
    ensures !Contains(SentencesBroken(p), Fence)
  {
    var sb := SentencesBroken(p);
    forall i | 0 <= i <= |sb| ensures !OccursAt(sb, Fence, i) {
      if i + 3 <= |sb| {
        assert !OccursAt(p, Fence, i);
        var k :| 0 <= k < 3 && p[i..i + 3][k] != Fence[k];
        assert sb[i..i + 3][k] != Fence[k];
      }
    }
  }

  /** A paragraph without a fence comes out without one. */
  lemma UnfencedNoFence(p: string)
    requires !Contains(p, Fence)
    ensures Count(FormatParagraph(p), Fence) == 0
  {
    UnfencedParagraph(p);
    ReflowNoFence(p);
    StripFree(SentencesBroken(p), Fence);
    CountAbsent(FormatParagraph(p), Fence);
  }

  /** Every formatted paragraph holds an even number of fences. */
  lemma ParagraphFenceEven(p: string)
    ensures Count(FormatParagraph(p), Fence) % 2 == 0
  {
    if Contains(p, Fence) {
      FencedParagraphCount(p);
    } else {
      UnfencedNoFence(p);
    }
  }

  /** Paragraph breaks hold no fence and no fence straddles one, so joining
      keeps the fence count even. */
  lemma {:induction false} JoinFenceEven(qs: seq<string>)
    requires forall i :: 0 <= i < |qs| ==> Count(qs[i], Fence) % 2 == 0
    ensures Count(Join(ParagraphBreak, qs), Fence) % 2 == 0
    decreases |qs|
  {
    if |qs| == 1 {
      assert Count(qs[0], Fence) % 2 == 0;
    } else if |qs| >= 2 {
      var rest := qs[1..];
      forall i | 0 <= i < |rest| ensures Count(rest[i], Fence) % 2 == 0 {
        assert rest[i] == qs[i + 1];
      }
      JoinFenceEven(rest);
      assert Count(qs[0], Fence) % 2 == 0;
      BreakCount(qs[0], Join(ParagraphBreak, rest));
    }
  }

  /** A paragraph break adds no fence to the two sides it joins. */
  lemma BreakCount(a: string, b: string)
    ensures Count(a + ParagraphBreak + b, Fence) == Count(a, Fence) + Count(b, Fence)
  {
    assert '\n' !in Fence;
    BlankCount(ParagraphBreak, Fence);
    CountConcat(a, ParagraphBreak, Fence);
    CountConcat(a + ParagraphBreak, b, Fence);
  }

  /** The whole answer holds an even number of fences: every code block it
      opens, it closes. */
  lemma FormatFenceEven(s: string)
    ensures Count(Format(s), Fence) % 2 == 0
  {
    var ps, qs := Paragraphs(s), FormattedParagraphs(s);
    forall i | 0 <= i < |qs| ensures Count(qs[i], Fence) % 2 == 0 {
      ParagraphFenceEven(ps[i]);
    }
    JoinFenceEven(qs);
  }

  /** Formatting the string a well-formed cut rejoins to formats its pieces. */
  lemma FormatOfCut(c: Cut, qs: seq<string>)
    requires WellFormed(c)
    requires |qs| == |c.paragraphs|
    requires forall i :: 0 <= i < |qs| ==> qs[i] == FormatParagraph(c.paragraphs[i])
    ensures Format(Rejoin(c)) == Join(ParagraphBreak, qs)
  {
    SplitParagraphsUnique(c);
    assert FormattedParagraphs(Rejoin(c)) == qs;
  }

  lemma BlankMiddleCut(x: char, y: char)
    requires !IsSpace(x) && !IsSpace(y)
    ensures WellFormed(Cut([[x], " ", [y]], [2, 2]))
    ensures Rejoin(Cut([[x], " ", [y]], [2, 2])) == [x] + "\n\n \n\n" + [y]
  {
    var c := Cut([[x], " ", [y]], [2, 2]);
    forall i | 0 <= i < 3 ensures PieceOk(c.paragraphs, i) {
      assert !OccursAt(c.paragraphs[i], ParagraphBreak, 0);
    }
    assert Newlines(2) == "\n\n";
    assert Tail(c) == Cut([" ", [y]], [2]);
    assert Tail(Tail(c)) == Cut([[y]], []);
    assert Rejoin(Tail(c)) == " " + "\n\n" + [y];
  }

  /** A whitespace-only paragraph between two others is stripped to nothing,
      which leaves a run of four newlines. */
  lemma BlankMiddleFormat(x: char, y: char)
    requires !IsSpace(x) && !IsSpace(y)
    ensures Format([x] + "\n\n \n\n" + [y]) == [x] + "\n\n\n\n" + [y]
  {
    var c := Cut([[x], " ", [y]], [2, 2]);
    var qs := [[x], "", [y]];
    BlankMiddleCut(x, y);
    forall i | 0 <= i < 3 ensures qs[i] == FormatParagraph(c.paragraphs[i]) {
      PlainPiece(c.paragraphs[i]);
    }
    FormatOfCut(c, qs);
    JoinThree([x], "", [y]);
  }

  /** A run of four newlines is one paragraph break. */
  lemma LongBreakFormat(x: char, y: char)
    requires !IsSpace(x) && !IsSpace(y)
    ensures Format([x] + "\n\n\n\n" + [y]) == [x] + "\n\n" + [y]
  {
    var c := Cut([[x], [y]], [4]);
    var qs := [[x], [y]];
    forall i | 0 <= i < 2 ensures PieceOk(c.paragraphs, i) {
      assert !OccursAt(c.paragraphs[i], ParagraphBreak, 0);
    }
    assert Newlines(4) == "\n\n\n\n";
    assert Tail(c) == Cut([[y]], []);
    forall i | 0 <= i < 2 ensures qs[i] == FormatParagraph(c.paragraphs[i]) {
      PlainPiece(c.paragraphs[i]);
    }
    FormatOfCut(c, qs);
    assert qs[1..] == [[y]];
  }

  lemma JoinThree(a: string, b: string, c: string)
    ensures Join(ParagraphBreak, [a, b, c]) == a + ParagraphBreak + b + ParagraphBreak + c
  {
    assert [a, b, c][1..] == [b, c];
    assert [b, c][1..] == [c];
    assert Join(ParagraphBreak, [b, c]) == b + ParagraphBreak + c;
    assert Join(ParagraphBreak, [a, b, c]) == a + ParagraphBreak + (b + ParagraphBreak + c);
  }

  /** The middle condition of `FormatIdempotent` is needed: on
      `"a\n\n \n\nb"` and its like, formatting twice differs from
      formatting once. */
  lemma BlankParagraphNotIdempotent(x: char, y: char)
    requires !IsSpace(x) && !IsSpace(y)
    ensures Format(Format([x] + "\n\n \n\n" + [y])) != Format([x] + "\n\n \n\n" + [y])
  {
    BlankMiddleFormat(x, y);
    LongBreakFormat(x, y);
    assert |[x] + "\n\n" + [y]| != |[x] + "\n\n\n\n" + [y]|;
  }

  lemma FenceBlankCut(x: char, y: char)
    requires !IsSpace(x) && !IsSpace(y)
    ensures WellFormed(Cut([Fence + "\n" + [x], [y] + "\n" + Fence], [2]))
    ensures Rejoin(Cut([Fence + "\n" + [x], [y] + "\n" + Fence], [2]))
         == Fence + "\n" + [x] + "\n\n" + [y] + "\n" + Fence
  {
    var c := Cut([Fence + "\n" + [x], [y] + "\n" + Fence], [2]);
    forall i | 0 <= i < 2 ensures PieceOk(c.paragraphs, i) {
      var p := c.paragraphs[i];
      forall k | 0 <= k <= |p| ensures !OccursAt(p, ParagraphBreak, k) {
        if k + 2 <= |p| {
          assert p[k..k + 2][0] == p[k] && p[k..k + 2][1] == p[k + 1];
        }
      }
    }
    assert Newlines(2) == "\n\n";
    assert Tail(c) == Cut([[y] + "\n" + Fence], []);
  }

  /** An opening fence with code after it gets closed. */
  lemma FenceBlankFirst(x: char)
    requires !IsSpace(x)
    ensures FormatParagraph(Fence + "\n" + [x]) == Fence + "\n" + [x] + "\n" + Fence
  {
    var p := Fence + "\n" + [x];
    assert OccursAt(p, Fence, 0);
    assert IsPrefix(Fence, p) && p[3..] == "\n" + [x];
    SplitAbsent("\n" + [x], Fence);
    assert Split(p, Fence) == ["", "\n" + [x]];
    StripSurrounded("\n", [x], "");
    assert "\n" + [x] + "" == "\n" + [x];
    var rw := Rewrapped(Split(p, Fence));
    assert rw == ["", FenceLine + [x] + FenceLine];
    assert Join("", rw) == FenceLine + [x] + FenceLine;
    FenceLinesAround([x]);
    StripSurrounded("\n", Fence + "\n" + [x] + "\n" + Fence, "\n");
  }

  /** A character that starts no fence joins the first piece. */
  lemma SplitFenceCons(c: char, u: string)
    requires c != '`'
    ensures Split([c] + u, Fence) == [[c] + Split(u, Fence)[0]] + Split(u, Fence)[1..]
  {
    var t := [c] + u;
    if |t| >= 3 {
      assert t[..3][0] == c;
    }
    assert !IsPrefix(Fence, t);
    assert t[1..] == u;
  }

  lemma FenceBlankSecondSplit(y: char)
    requires y != '`'
    ensures Split([y] + "\n" + Fence, Fence) == [[y] + "\n", ""]
  {
    assert Split(Fence, Fence) == ["", ""] by {
      assert Fence[3..] == "";
    }
    var u := "\n" + Fence;
    SplitFenceCons('\n', Fence);
    assert Split(u, Fence) == ["\n", ""] by {
      var r := Split(Fence, Fence);
      assert ['\n'] + r[0] == "\n" && r[1..] == [""];
    }
    assert [y] + "\n" + Fence == [y] + u;
    SplitFenceCons(y, u);
    assert Split(u, Fence)[1..] == [""];
  }

  /** A closing fence with code before it is taken for an opening one: an
      empty block is added after it. */
  lemma FenceBlankSecond(y: char)
    requires !IsSpace(y) && y != '`'
    ensures FormatParagraph([y] + "\n" + Fence) == [y] + "\n\n" + Fence + "\n\n" + Fence
  {
    var p := [y] + "\n" + Fence;
    assert OccursAt(p, Fence, 2);
    FenceBlankSecondSplit(y);
    assert FencedBlock("") == FenceLine + FenceLine by {
      StripEmptyIffBlank("");
      assert FenceLine + "" == FenceLine;
    }
    var rw := Rewrapped(Split(p, Fence));
    assert rw == [[y] + "\n", FenceLine + FenceLine];
    assert Join("", rw) == [y] + "\n" + FenceLine + FenceLine;
    var m := [y] + "\n\n" + Fence + "\n\n" + Fence;
    assert [y] + "\n" + FenceLine + FenceLine == "" + m + "\n";
    StripSurrounded("", m, "\n");
  }

  /** The answer of `BlankLineInFence` no longer holds the code `x\n\ny`. */
  lemma FenceBlankLost(x: char, y: char)
    requires !IsSpace(x) && !IsSpace(y) && x != '`' && y != '`'
    ensures !Contains((Fence + "\n" + [x] + "\n" + Fence) + "\n\n" + ([y] + "\n\n" + Fence + "\n\n" + Fence),
                      [x] + "\n\n" + [y])
  {
    var out := (Fence + "\n" + [x] + "\n" + Fence) + "\n\n" + ([y] + "\n\n" + Fence + "\n\n" + Fence);
    var lit := ['`', '`', '`', '\n', x, '\n', '`', '`', '`', '\n', '\n',
                y, '\n', '\n', '`', '`', '`', '\n', '\n', '`', '`', '`'];
    assert out == lit;
    var t := [x] + "\n\n" + [y];
    forall i | 0 <= i <= |lit| ensures !OccursAt(lit, t, i) {
      if i + 4 <= |lit| {
        var w := lit[i..i + 4];
        assert w[0] == lit[i] && w[1] == lit[i + 1] && w[2] == lit[i + 2] && w[3] == lit[i + 3];
        assert i in {0, 1, 2, 3, 4, 5, 6, 7, 8, 9, 10, 11, 12, 13, 14, 15, 16, 17, 18};
      }
    }
  }

  /** A blank line inside a code block splits the block between two
      paragraphs, each re-wrapped on its own: the code either side of the
      blank line ends up in two separate blocks, the second followed by an
      extra empty one, so the code `x\n\ny` of the input is not in the
      answer. */
  lemma BlankLineInFence(x: char, y: char)
    requires !IsSpace(x) && !IsSpace(y) && x != '`' && y != '`'
    ensures Format(Fence + "\n" + [x] + "\n\n" + [y] + "\n" + Fence)
         == (Fence + "\n" + [x] + "\n" + Fence) + "\n\n" + ([y] + "\n\n" + Fence + "\n\n" + Fence)
    ensures Contains(Fence + "\n" + [x] + "\n\n" + [y] + "\n" + Fence, [x] + "\n\n" + [y])
    ensures !Contains(Format(Fence + "\n" + [x] + "\n\n" + [y] + "\n" + Fence), [x] + "\n\n" + [y])
  {
    FenceBlankFormat(x, y);
    var s := Fence + "\n" + [x] + "\n\n" + [y] + "\n" + Fence;
    assert s[4..8] == [x] + "\n\n" + [y];
    assert OccursAt(s, [x] + "\n\n" + [y], 4);
    FenceBlankLost(x, y);
  }

  lemma FenceBlankFormat(x: char, y: char)
    requires !IsSpace(x) && !IsSpace(y) && y != '`'
    ensures Format(Fence + "\n" + [x] + "\n\n" + [y] + "\n" + Fence)
         == (Fence + "\n" + [x] + "\n" + Fence) + "\n\n" + ([y] + "\n\n" + Fence + "\n\n" + Fence)
  {
    var c := Cut([Fence + "\n" + [x], [y] + "\n" + Fence], [2]);
    var q0 := Fence + "\n" + [x] + "\n" + Fence;
    var q1 := [y] + "\n\n" + Fence + "\n\n" + Fence;
    var qs := [q0, q1];
    FenceBlankCut(x, y);
    forall i | 0 <= i < 2 ensures qs[i] == FormatParagraph(c.paragraphs[i]) {
      if i == 0 {
        FenceBlankFirst(x);
      } else {
        FenceBlankSecond(y);
      }
    }
    FormatOfCut(c, qs);
    assert Join(ParagraphBreak, qs) == q0 + ParagraphBreak + q1 by {
      assert qs[1..] == [q1];
    }
  }

  /** A one-character paragraph is formatted to itself, or to nothing when
      it is whitespace. */
  lemma PlainPiece(p: string)
    requires |p| == 1
    ensures FormatParagraph(p) == if IsSpace(p[0]) then "" else p
  {
    assert !OccursAt(p, Fence, 0) && !OccursAt(p, Fence, 1);
    assert !Contains(p, SentenceEnd) by {
      assert !OccursAt(p, SentenceEnd, 0) && !OccursAt(p, SentenceEnd, 1);
    }
    ReplaceAbsent(p, SentenceEnd, SentenceBreak);
    if IsSpace(p[0]) {
      StripEmptyIffBlank(p);
    } else {
      StripStripped(p);
    }
  }
}
