/**
  `String.prototype.replace` with a global regular expression and a replacement function
  that wraps every match in a highlight span, as content.js uses it twice.

  The expression is given as a matcher: the length of the match that starts at the front
  of a string, or 0 when none starts there. For both of content.js's expressions a match
  at a position depends only on the text from that position on, so the global replace is
  a left-to-right scan over suffixes: where a match starts it is wrapped and the scan
  resumes after it; elsewhere one character is copied.
 */
module GlobalReplace {

  const HighlightClass: string := "sol-highlight"
  const OpenTag: string := "<span class=\"sol-highlight\">"
  const CloseTag: string := "</span>"

  /** The span the rewriter opens carries the class the guard and the walker's filter test. */
  lemma OpenTagNamesHighlightClass()
    ensures OpenTag == "<span class=\"" + HighlightClass + "\">"
  {
  }

  /** The replacement: the whole match inside a highlight span. */
  function Wrap(t: string): string {
    OpenTag + t + CloseTag
  }

  /** A match of length `m(s)` starts at the front of `s`. */
  predicate StartsMatch(m: string -> nat, s: string) {
    0 < m(s) <= |s|
  }

  /** Some position of `s` starts a match. */
  predicate HasMatch(m: string -> nat, s: string) {
    exists i :: 0 <= i < |s| && StartsMatch(m, s[i..])
  }

  /** One piece of a replace pass: a character copied as it is, or a match that gets wrapped. */
  datatype Segment = Plain(c: char) | Marked(text: string) {

    /** The characters of the input this segment covers. */
    function Source(): string {
      match this
      case Plain(c) => [c]
      case Marked(t) => t
    }

    /** What the replace pass emits for this segment. */
    function Html(): string {
      match this
      case Plain(c) => [c]
      case Marked(t) => Wrap(t)
    }
  }

  function Text(segs: seq<Segment>): string {
    if segs == [] then [] else segs[0].Source() + Text(segs[1..])
  }

  function Render(segs: seq<Segment>): string {
    if segs == [] then [] else segs[0].Html() + Render(segs[1..])
  }

  function MarkCount(segs: seq<Segment>): nat {
    if segs == [] then 0 else (if segs[0].Marked? then 1 else 0) + MarkCount(segs[1..])
  }

  /** The leftmost, non-overlapping matches in `s`, as a global replace finds them. */
  function Scan(m: string -> nat, s: string): seq<Segment>
    decreases |s|
  {
    if s == [] then []
    else
      var n := m(s);
      if 0 < n <= |s| then [Marked(s[..n])] + Scan(m, s[n..])
      else [Plain(s[0])] + Scan(m, s[1..])
  }

  /** `s.replace(re, match => `<span class="sol-highlight">${match}</span>`)` for a global `re`. */
  function ReplaceAll(m: string -> nat, s: string): string {
    Render(Scan(m, s))
  }

  /** A pass copies a character at which no match starts. */
  lemma ReplaceAllPlainHead(m: string -> nat, s: string)
    requires s != [] && !StartsMatch(m, s)
    ensures ReplaceAll(m, s) == [s[0]] + ReplaceAll(m, s[1..])
  {
    var segs := Scan(m, s);
    assert segs[0] == Plain(s[0]);
    assert segs[1..] == Scan(m, s[1..]);
  }

  /** A pass wraps the match that starts at the front and resumes after it. */
  lemma ReplaceAllMarkedHead(m: string -> nat, s: string)
    requires StartsMatch(m, s)
    ensures ReplaceAll(m, s) == Wrap(s[..m(s)]) + ReplaceAll(m, s[m(s)..])
  {
    var segs := Scan(m, s);
    assert segs[0] == Marked(s[..m(s)]);
    assert segs[1..] == Scan(m, s[m(s)..]);
  }

  /** The segments of a scan spell its input. */
  lemma {:induction false} ScanText(m: string -> nat, s: string)
    ensures Text(Scan(m, s)) == s
    decreases |s|
  {
    if s != [] {
      var n := m(s);
      var k := if 0 < n <= |s| then n else 1;
      var segs := Scan(m, s);
      assert segs[1..] == Scan(m, s[k..]);
      assert segs[0].Source() == s[..k];
      ScanText(m, s[k..]);
      assert s == s[..k] + s[k..];
    }
  }

  // ---------------------------------------------------------------------------------------
  // Where the segments of a scan lie in its input

  /** Where segment `k` starts in the input. */
  function Offset(segs: seq<Segment>, k: nat): nat
    requires k <= |segs|
  {
    |Text(segs[..k])|
  }

  /**
    `seg` sits at position `at` of `s` as the scan would put it there: a plain character is
    one at which no match starts; a marked text is exactly the match that starts there.
   */
  predicate SegmentAt(m: string -> nat, s: string, at: nat, seg: Segment) {
    at < |s| &&
    match seg
    case Plain(c) => c == s[at] && !StartsMatch(m, s[at..])
    case Marked(t) => StartsMatch(m, s[at..]) && |t| == m(s[at..]) && t == s[at..at + |t|]
  }

  /** Segment `k` sits where the scan put it. */
  predicate LocatedAt(m: string -> nat, s: string, segs: seq<Segment>, k: nat)
    requires k < |segs|
  {
    SegmentAt(m, s, Offset(segs, k), segs[k])
  }

  predicate Located(m: string -> nat, s: string, segs: seq<Segment>) {
    forall k :: 0 <= k < |segs| ==> LocatedAt(m, s, segs, k)
  }

  lemma OffsetAfterHead(segs: seq<Segment>, k: nat)
    requires 0 < k <= |segs|
    ensures Offset(segs, k) == |segs[0].Source()| + Offset(segs[1..], k - 1)
  {
    assert segs[..k][0] == segs[0];
    assert segs[..k][1..] == segs[1..][..k - 1];
  }

  /** A segment placed in a suffix of `s` sits at the shifted position of `s` itself. */
  lemma SegmentAtShift(m: string -> nat, s: string, d: nat, at: nat, seg: Segment)
    requires d <= |s|
    ensures SegmentAt(m, s[d..], at, seg) <==> SegmentAt(m, s, d + at, seg)
  {
    if d + at < |s| {
      assert s[d..][at..] == s[d + at..];
      if seg.Marked? && d + at + |seg.text| <= |s| {
        assert s[d..][at..at + |seg.text|] == s[d + at..d + at + |seg.text|];
      }
    }
  }

  /** How many characters of `s` the first segment of its scan covers. */
  function HeadLength(m: string -> nat, s: string): nat
    requires s != []
  {
    var n := m(s);
    if 0 < n <= |s| then n else 1
  }

  /** A scan is its first segment, covering `HeadLength` characters, then the scan of the rest. */
  lemma ScanUnfold(m: string -> nat, s: string)
    requires s != []
    ensures 1 <= HeadLength(m, s) <= |s|
    ensures Scan(m, s)[0].Source() == s[..HeadLength(m, s)]
    ensures Scan(m, s)[1..] == Scan(m, s[HeadLength(m, s)..])
  {
    var n := m(s);
    if 0 < n <= |s| {
      assert Scan(m, s) == [Marked(s[..n])] + Scan(m, s[n..]);
    } else {
      assert Scan(m, s) == [Plain(s[0])] + Scan(m, s[1..]);
    }
  }

  /** The first segment of a scan is located. */
  lemma ScanHeadLocated(m: string -> nat, s: string)
    requires s != []
    ensures LocatedAt(m, s, Scan(m, s), 0)
  {
    var segs := Scan(m, s);
    assert segs[..0] == [];
    assert s[0..] == s;
  }

  /** Every segment of a scan is located: each match is wrapped whole, none is skipped. */
  lemma {:induction false} ScanLocatedAt(m: string -> nat, s: string, k: nat)
    requires k < |Scan(m, s)|
    ensures LocatedAt(m, s, Scan(m, s), k)
    decreases |s|
  {
    if k == 0 {
      ScanHeadLocated(m, s);
    } else {
      var segs := Scan(m, s);
      ScanUnfold(m, s);
      var d := HeadLength(m, s);
      var rest := Scan(m, s[d..]);
      OffsetAfterHead(segs, k);
      ScanLocatedAt(m, s[d..], k - 1);
      SegmentAtShift(m, s, d, Offset(rest, k - 1), rest[k - 1]);
    }
  }

  lemma ScanLocated(m: string -> nat, s: string)
    ensures Located(m, s, Scan(m, s))
  {
    forall k | 0 <= k < |Scan(m, s)|
      ensures LocatedAt(m, s, Scan(m, s), k)
    {
      ScanLocatedAt(m, s, k);
    }
  }

  lemma LocatedTailAt(m: string -> nat, s: string, segs: seq<Segment>, k: nat)
    requires k + 1 < |segs| && |segs[0].Source()| <= |s| && LocatedAt(m, s, segs, k + 1)
    ensures LocatedAt(m, s[|segs[0].Source()|..], segs[1..], k)
  {
    OffsetAfterHead(segs, k + 1);
    assert segs[1..][k] == segs[k + 1];
    SegmentAtShift(m, s, |segs[0].Source()|, Offset(segs[1..], k), segs[k + 1]);
  }

  lemma LocatedTail(m: string -> nat, s: string, segs: seq<Segment>)
    requires segs != [] && Text(segs) == s && Located(m, s, segs)
    ensures |segs[0].Source()| <= |s|
    ensures Text(segs[1..]) == s[|segs[0].Source()|..]
    ensures Located(m, s[|segs[0].Source()|..], segs[1..])
  {
    assert s == segs[0].Source() + Text(segs[1..]);
    forall k | 0 <= k < |segs[1..]|
      ensures LocatedAt(m, s[|segs[0].Source()|..], segs[1..], k)
    {
      assert LocatedAt(m, s, segs, k + 1);
      LocatedTailAt(m, s, segs, k);
    }
  }

  /**
    The scan is the only located segmentation of `s`: any list of plain characters and
    marked texts that spells `s` and puts the match wherever one starts outside an earlier
    match is the one the replace pass produces.
   */
  lemma {:induction false} ScanUnique(m: string -> nat, s: string, segs: seq<Segment>)
    requires Text(segs) == s && Located(m, s, segs)
    ensures segs == Scan(m, s)
    decreases |segs|
  {
    if segs != [] {
      assert LocatedAt(m, s, segs, 0);
      assert segs[..0] == [];
      assert s[0..] == s;
      LocatedTail(m, s, segs);
      var d := |segs[0].Source()|;
      ScanUnique(m, s[d..], segs[1..]);
      assert segs == [segs[0]] + segs[1..];
    }
  }

  // ---------------------------------------------------------------------------------------
  // What a pass adds to its input

  lemma {:induction false} RenderLength(segs: seq<Segment>)
    ensures |Render(segs)| == |Text(segs)| + MarkCount(segs) * (|OpenTag| + |CloseTag|)
  {
    if segs != [] {
      RenderLength(segs[1..]);
    }
  }

  lemma {:induction false} RenderUnmarked(segs: seq<Segment>)
    requires MarkCount(segs) == 0
    ensures Render(segs) == Text(segs)
  {
    if segs != [] {
      RenderUnmarked(segs[1..]);
    }
  }

  /** A pass wraps something exactly when some position of its input starts a match. */
  lemma {:induction false} ScanMarksIff(m: string -> nat, s: string)
    ensures MarkCount(Scan(m, s)) > 0 <==> HasMatch(m, s)
    decreases |s|
  {
    if s != [] {
      assert s[0..] == s;
      if !StartsMatch(m, s) {
        ScanMarksIff(m, s[1..]);
        if HasMatch(m, s[1..]) {
          var i :| 0 <= i < |s[1..]| && StartsMatch(m, s[1..][i..]);
          assert s[1..][i..] == s[i + 1..];
        }
        if HasMatch(m, s) {
          var i :| 0 <= i < |s| && StartsMatch(m, s[i..]);
          assert s[i..] == s[1..][i - 1..];
        }
      }
    }
  }

  /** Rendering adds tags around every marked segment and changes nothing else. */
  lemma RenderVsText(segs: seq<Segment>)
    ensures |Render(segs)| >= |Text(segs)|
    ensures |Render(segs)| == |Text(segs)| <==> MarkCount(segs) == 0
    ensures Render(segs) == Text(segs) <==> MarkCount(segs) == 0
  {
    RenderLength(segs);
    if MarkCount(segs) == 0 {
      RenderUnmarked(segs);
    }
  }

  /**
    A pass never shortens its input, and returns it unchanged exactly when no position of
    it starts a match; otherwise it is longer.
   */
  lemma ReplaceAllUnchangedIff(m: string -> nat, s: string)
    ensures |ReplaceAll(m, s)| >= |s|
    ensures ReplaceAll(m, s) == s <==> !HasMatch(m, s)
    ensures |ReplaceAll(m, s)| == |s| ==> ReplaceAll(m, s) == s
  {
    ScanText(m, s);
    RenderVsText(Scan(m, s));
    ScanMarksIff(m, s);
  }

  lemma {:induction false} TextAppend(a: seq<Segment>, b: seq<Segment>)
    ensures Text(a + b) == Text(a) + Text(b)
  {
    if a == [] {
      assert a + b == b;
    } else {
      assert (a + b)[0] == a[0];
      assert (a + b)[1..] == a[1..] + b;
      TextAppend(a[1..], b);
    }
  }

  lemma {:induction false} RenderAppend(a: seq<Segment>, b: seq<Segment>)
    ensures Render(a + b) == Render(a) + Render(b)
  {
    if a == [] {
      assert a + b == b;
    } else {
      assert (a + b)[0] == a[0];
      assert (a + b)[1..] == a[1..] + b;
      RenderAppend(a[1..], b);
    }
  }

  /**
    A match that starts at position `i` of `s` is the same with `tail` after `s`, and ends
    within `s`.
   */
  predicate KeepsMatchAt(m: string -> nat, s: string, tail: string, i: nat)
    requires i < |s|
  {
    m(s[i..] + tail) == m(s[i..]) <= |s| - i
  }

  /** No match starts at position `i` of `s` with `tail` after `s`. */
  predicate NoMatchAt(m: string -> nat, s: string, tail: string, i: nat)
    requires i < |s|
  {
    m(s[i..] + tail) == 0
  }

  lemma KeepsMatchInSuffix(m: string -> nat, s: string, tail: string, d: nat)
    requires d <= |s|
    requires forall i :: 0 <= i < |s| ==> KeepsMatchAt(m, s, tail, i)
    ensures forall i :: 0 <= i < |s[d..]| ==> KeepsMatchAt(m, s[d..], tail, i)
  {
    forall i | 0 <= i < |s[d..]|
      ensures KeepsMatchAt(m, s[d..], tail, i)
    {
      assert KeepsMatchAt(m, s, tail, d + i);
      assert s[d..][i..] == s[d + i..];
    }
  }

  /**
    A pass splits between `s` and `tail` when no match that starts in `s` reaches into
    `tail` or depends on it.
   */
  lemma {:induction false} ScanSplit(m: string -> nat, s: string, tail: string)
    requires forall i :: 0 <= i < |s| ==> KeepsMatchAt(m, s, tail, i)
    ensures Scan(m, s + tail) == Scan(m, s) + Scan(m, tail)
    decreases |s|
  {
    if s == [] {
      assert s + tail == tail;
    } else {
      assert KeepsMatchAt(m, s, tail, 0);
      assert s[0..] == s;
      var u := s + tail;
      var n := m(s);
      var d := if 0 < n then n else 1;
      assert u[..d] == s[..d];
      assert u[d..] == s[d..] + tail;
      KeepsMatchInSuffix(m, s, tail, d);
      ScanSplit(m, s[d..], tail);
    }
  }

  lemma NoMatchInSuffix(m: string -> nat, s: string, tail: string)
    requires s != []
    requires forall i :: 0 <= i < |s| ==> NoMatchAt(m, s, tail, i)
    ensures !StartsMatch(m, s + tail)
    ensures forall i :: 0 <= i < |s[1..]| ==> NoMatchAt(m, s[1..], tail, i)
  {
    assert NoMatchAt(m, s, tail, 0);
    assert s[0..] == s;
    forall i | 0 <= i < |s[1..]|
      ensures NoMatchAt(m, s[1..], tail, i)
    {
      assert NoMatchAt(m, s, tail, i + 1);
      assert s[1..][i..] == s[i + 1..];
    }
  }

  /** Every character of `s` copied as it is. */
  function Plains(s: string): seq<Segment> {
    if s == [] then [] else [Plain(s[0])] + Plains(s[1..])
  }

  lemma {:induction false} RenderPlains(s: string)
    ensures Render(Plains(s)) == s
  {
    if s != [] {
      RenderPlains(s[1..]);
      assert s == [s[0]] + s[1..];
    }
  }

  lemma {:induction false} ScanSkips(m: string -> nat, s: string, tail: string)
    requires forall i :: 0 <= i < |s| ==> NoMatchAt(m, s, tail, i)
    ensures Scan(m, s + tail) == Plains(s) + Scan(m, tail)
    decreases |s|
  {
    if s == [] {
      assert s + tail == tail;
    } else {
      NoMatchInSuffix(m, s, tail);
      var u := s + tail;
      assert u[1..] == s[1..] + tail;
      ScanSkips(m, s[1..], tail);
    }
  }

  /** Text at which no match starts, even with `tail` after it, passes through unchanged. */
  lemma ReplaceAllSkips(m: string -> nat, s: string, tail: string)
    requires forall i :: 0 <= i < |s| ==> NoMatchAt(m, s, tail, i)
    ensures ReplaceAll(m, s + tail) == s + ReplaceAll(m, tail)
  {
    ScanSkips(m, s, tail);
    RenderAppend(Plains(s), Scan(m, tail));
    RenderPlains(s);
  }
}
