/**
  The text rewriting of content.js: the two regular expressions `SOLANA_ADDRESS_REGEX`
  (`/CA:([A-Za-z0-9]{10,})/gi`) and `TICKER_REGEX` (`/\$([A-Za-z]+)\b/g`), the global
  `String.prototype.replace` passes that wrap every match in a highlight span, and the
  per-node decision of `processTextNode` together with the tree walker's filter.

  A match of either expression at a position depends only on the text from that position
  on, so a global replace is a left-to-right scan over suffixes: where a match starts, the
  longest one is wrapped and the scan resumes after it; elsewhere one character is copied.
 */
module Highlight {
  import opened CharClasses
  import opened GlobalReplace

  datatype Pattern = Address | Ticker

  /** `\b` at position `k` of `s`: exactly one side of `k` is a word character. */
  predicate WordBoundary(s: string, k: int)
    requires 0 <= k <= |s|
  {
    (0 < k && IsWordChar(s[k - 1])) != (k < |s| && IsWordChar(s[k]))
  }

  /** `s[..k]` is a match of `CA:[A-Za-z0-9]{10,}` (with the `i` flag). */
  predicate AddressMatches(s: string, k: int) {
    13 <= k <= |s| && HasCaPrefix(s) && forall i :: 3 <= i < k ==> IsAsciiAlnum(s[i])
  }

  /** `s[..k]` is a match of `\$[A-Za-z]+\b`, the boundary being judged inside all of `s`. */
  predicate TickerMatches(s: string, k: int) {
    2 <= k <= |s| && s[0] == '$' && (forall i :: 1 <= i < k ==> IsAsciiLetter(s[i]))
    && WordBoundary(s, k)
  }

  predicate Matches(p: Pattern, s: string, k: int) {
    match p
    case Address => AddressMatches(s, k)
    case Ticker => TickerMatches(s, k)
  }

  /**
    The length of the match of `p` that starts at the beginning of `s`, or 0 when none does.
    Both quantifiers are greedy and backtrack, so the engine reports the longest match.
   */
  function MatchLen(p: Pattern, s: string): (n: nat)
    ensures n <= |s|
    ensures n > 0 ==> (s[0] == '$' <==> p == Ticker)
  {
    match p
    case Address =>
      if HasCaPrefix(s) && Span(Alnum, s[3..]) >= 10 then 3 + Span(Alnum, s[3..]) else 0
    case Ticker =>
      if |s| > 0 && s[0] == '$' && Span(Letter, s[1..]) > 0
         && WordBoundary(s, 1 + Span(Letter, s[1..]))
      then 1 + Span(Letter, s[1..])
      else 0
  }

  /** `MatchLen` is the regular expression's match: the longest one, or 0 when there is none. */
  lemma MatchLenIsLongest(p: Pattern, s: string)
    ensures MatchLen(p, s) == 0 ==> forall k :: !Matches(p, s, k)
    ensures MatchLen(p, s) > 0 ==> Matches(p, s, MatchLen(p, s))
    ensures forall k :: Matches(p, s, k) ==> k <= MatchLen(p, s)
  {
    match p
    case Address =>
      if HasCaPrefix(s) {
        var t := s[3..];
        SpanIsMaximal(Alnum, t);
        var r := Span(Alnum, t);
        forall k | AddressMatches(s, k)
          ensures k <= 3 + r && 10 <= r
        {
          assert r < |t| ==> s[3 + r] == t[r];
        }
        forall i | 3 <= i < 3 + r
          ensures IsAsciiAlnum(s[i])
        {
          assert s[i] == t[i - 3];
        }
      }
    case Ticker =>
      if |s| > 0 && s[0] == '$' {
        var t := s[1..];
        SpanIsMaximal(Letter, t);
        var r := Span(Letter, t);
        forall k | TickerMatches(s, k)
          ensures k == 1 + r
        {
          assert r < |t| ==> s[1 + r] == t[r];
          assert k < |s| ==> s[k] == t[k - 1];
        }
        forall i | 1 <= i < 1 + r
          ensures IsAsciiLetter(s[i])
        {
          assert s[i] == t[i - 1];
        }
      }
  }

  /** The matcher a global replace with `p` uses. */
  function Matcher(p: Pattern): string -> nat {
    s => MatchLen(p, s)
  }

  /** The string `processTextNode` builds: the ticker pass runs over the address pass's output. */
  function Rewrite(text: string): string {
    ReplaceAll(Matcher(Ticker), ReplaceAll(Matcher(Address), text))
  }

  /**
    `processTextNode` leaves a node alone exactly when neither expression matches anywhere
    in its text; a match of either one changes the string.
   */
  lemma RewriteUnchangedIff(text: string)
    ensures Rewrite(text) == text <==>
              !HasMatch(Matcher(Address), text) && !HasMatch(Matcher(Ticker), text)
  {
    ReplaceAllUnchangedIff(Matcher(Address), text);
    ReplaceAllUnchangedIff(Matcher(Ticker), ReplaceAll(Matcher(Address), text));
  }

  // ---------------------------------------------------------------------------------------
  // The ticker pass over the address pass's output

  /** A ticker match inside `s` cannot see past `s` when what follows is not a word character. */
  lemma TickerMatchStopsAt(s: string, tail: string)
    requires s != []
    requires tail == [] || !IsWordChar(tail[0])
    ensures MatchLen(Ticker, s + tail) == MatchLen(Ticker, s)
  {
    if s[0] == '$' {
      assert (s + tail)[1..] == s[1..] + tail;
      SpanStopsAt(Letter, s[1..], tail);
    }
  }

  /** The ticker pass splits at a position followed by a non-word character. */
  lemma TickerSplit(s: string, tail: string)
    requires tail == [] || !IsWordChar(tail[0])
    ensures Scan(Matcher(Ticker), s + tail) == Scan(Matcher(Ticker), s) + Scan(Matcher(Ticker), tail)
  {
    forall i | 0 <= i < |s|
      ensures KeepsMatchAt(Matcher(Ticker), s, tail, i)
    {
      TickerMatchStopsAt(s[i..], tail);
    }
    ScanSplit(Matcher(Ticker), s, tail);
  }

  predicate NoDollar(s: string) {
    forall i :: 0 <= i < |s| ==> s[i] != '$'
  }

  /** Text without a `$` passes through the ticker pass unchanged, whatever follows it. */
  lemma TickerSkips(s: string, tail: string)
    requires NoDollar(s)
    ensures ReplaceAll(Matcher(Ticker), s + tail) == s + ReplaceAll(Matcher(Ticker), tail)
  {
    forall i | 0 <= i < |s|
      ensures NoMatchAt(Matcher(Ticker), s, tail, i)
    {
      assert (s[i..] + tail)[0] == s[i];
    }
    ReplaceAllSkips(Matcher(Ticker), s, tail);
  }

  /** Every match of `m` is free of `$`. */
  ghost predicate MatchesHaveNoDollar(m: string -> nat) {
    forall u :: StartsMatch(m, u) ==> NoDollar(u[..m(u)])
  }

  /** A match of the address expression is `CA:` and alphanumerics, so it holds no `$`. */
  lemma AddressMatchesHaveNoDollar()
    ensures MatchesHaveNoDollar(Matcher(Address))
  {
    forall u | StartsMatch(Matcher(Address), u)
      ensures NoDollar(u[..MatchLen(Address, u)])
    {
      MatchLenIsLongest(Address, u);
    }
  }

  /** Every text a pass wraps is a match, so it inherits what holds of all matches. */
  lemma MarksHaveNoDollar(m: string -> nat, s: string, k: nat)
    requires MatchesHaveNoDollar(m)
    requires k < |Scan(m, s)| && Scan(m, s)[k].Marked?
    ensures NoDollar(Scan(m, s)[k].text)
  {
    var segs := Scan(m, s);
    ScanLocatedAt(m, s, k);
    var at := Offset(segs, k);
    var u := s[at..];
    assert segs[k].text == u[..m(u)];
  }

  /** The ticker pass splits before an inserted span. */
  predicate SplitsBeforeSpan(m: string -> nat, r: string, tail: string) {
    Scan(m, r + (OpenTag + tail)) == Scan(m, r) + Scan(m, OpenTag + tail)
  }

  /** The ticker pass copies an inserted span around `t`. */
  predicate PassesOverSpan(m: string -> nat, t: string, tail: string) {
    ReplaceAll(m, Wrap(t) + tail) == Wrap(t) + ReplaceAll(m, tail)
  }

  /**
    What the second pass needs of the first one's markup: it never matches across the
    start of an inserted span, and never inside a span around text without a `$`.
   */
  ghost predicate RespectsSpans(m: string -> nat) {
    (forall r, tail :: SplitsBeforeSpan(m, r, tail))
    && (forall t, tail :: NoDollar(t) ==> PassesOverSpan(m, t, tail))
  }

  lemma TickerRespectsSpans()
    ensures RespectsSpans(Matcher(Ticker))
  {
    forall r, tail
      ensures SplitsBeforeSpan(Matcher(Ticker), r, tail)
    {
      TickerSplit(r, OpenTag + tail);
    }
    forall t, tail | NoDollar(t)
      ensures PassesOverSpan(Matcher(Ticker), t, tail)
    {
      var w := Wrap(t);
      forall i | 0 <= i < |w|
        ensures w[i] != '$'
      {
        if i < |OpenTag| {
          assert w[i] == OpenTag[i];
        } else if i < |OpenTag| + |t| {
          assert w[i] == t[i - |OpenTag|];
        } else {
          assert w[i] == CloseTag[i - |OpenTag| - |t|];
        }
      }
      TickerSkips(w, tail);
    }
  }

  /**
    The segments of the final string: the second pass `m` applied to each stretch of plain
    text between two spans of the first pass as if that stretch were the whole string, and
    those spans kept as they are. `run` is the stretch collected so far.
   */
  function Combine(m: string -> nat, asegs: seq<Segment>, run: string): seq<Segment>
    decreases |asegs|
  {
    if asegs == [] then Scan(m, run)
    else
      match asegs[0]
      case Plain(c) => Combine(m, asegs[1..], run + [c])
      case Marked(t) => Scan(m, run) + [Marked(t)] + Combine(m, asegs[1..], [])
  }

  /** Every highlight span of the rewritten node, over the node's own text. */
  function Highlights(text: string): seq<Segment> {
    Combine(Matcher(Ticker), Scan(Matcher(Address), text), [])
  }

  lemma {:induction false} CombineText(m: string -> nat, asegs: seq<Segment>, run: string)
    ensures Text(Combine(m, asegs, run)) == run + Text(asegs)
    decreases |asegs|
  {
    if asegs == [] {
      ScanText(m, run);
      assert run + [] == run;
    } else {
      var rest := asegs[1..];
      assert asegs == [asegs[0]] + rest;
      match asegs[0]
      case Plain(c) =>
        CombineText(m, rest, run + [c]);
        assert Text(asegs) == [c] + Text(rest);
        assert (run + [c]) + Text(rest) == run + ([c] + Text(rest));
      case Marked(t) =>
        CombineText(m, rest, []);
        assert [] + Text(rest) == Text(rest);
        CombineMarkedText(m, t, rest, run);
    }
  }

  /** The combined segments around an address span cover the text before it, the span and the rest. */
  lemma CombineMarkedText(m: string -> nat, t: string, rest: seq<Segment>, run: string)
    requires Text(Combine(m, rest, [])) == Text(rest)
    ensures Text(Combine(m, [Marked(t)] + rest, run)) == run + Text([Marked(t)] + rest)
  {
    var asegs := [Marked(t)] + rest;
    assert asegs[0] == Marked(t) && asegs[1..] == rest;
    assert Combine(m, asegs, run) == Scan(m, run) + [Marked(t)] + Combine(m, rest, []);
    assert Text(asegs) == t + Text(rest);
    ScanText(m, run);
    TextAroundMark(Scan(m, run), t, Combine(m, rest, []));
  }

  /** The text of segments around one mark. */
  lemma TextAroundMark(before: seq<Segment>, t: string, after: seq<Segment>)
    ensures Text(before + [Marked(t)] + after) == Text(before) + t + Text(after)
  {
    TextAppend(before + [Marked(t)], after);
    TextAppend(before, [Marked(t)]);
    assert Text([Marked(t)]) == t;
  }

  lemma {:induction false} CombineRender(m: string -> nat, asegs: seq<Segment>, run: string)
    requires RespectsSpans(m)
    requires forall k :: 0 <= k < |asegs| && asegs[k].Marked? ==> NoDollar(asegs[k].text)
    ensures Render(Combine(m, asegs, run)) == ReplaceAll(m, run + Render(asegs))
    decreases |asegs|
  {
    if asegs == [] {
      assert run + [] == run;
    } else {
      var rest := asegs[1..];
      assert forall k :: 0 <= k < |rest| && rest[k].Marked? ==> NoDollar(rest[k].text) by {
        forall k | 0 <= k < |rest| && rest[k].Marked?
          ensures NoDollar(rest[k].text)
        {
          assert rest[k] == asegs[k + 1];
        }
      }
      match asegs[0]
      case Plain(c) =>
        CombineRender(m, rest, run + [c]);
        assert run + Render(asegs) == (run + [c]) + Render(rest);
      case Marked(t) =>
        CombineRender(m, rest, []);
        assert [] + Render(rest) == Render(rest);
        assert NoDollar(t) by {
          assert asegs[0].Marked?;
        }
        assert asegs == [Marked(t)] + rest;
        CombineMarked(m, t, rest, run);
    }
  }

  /** The combined segments around an address span render as the pieces around it. */
  lemma CombineMarkedRender(m: string -> nat, t: string, rest: seq<Segment>, run: string)
    ensures Render(Combine(m, [Marked(t)] + rest, run))
            == ReplaceAll(m, run) + Wrap(t) + Render(Combine(m, rest, []))
  {
    var asegs := [Marked(t)] + rest;
    assert asegs[0] == Marked(t) && asegs[1..] == rest;
    RenderAppend(Scan(m, run) + [Marked(t)], Combine(m, rest, []));
    RenderAppend(Scan(m, run), [Marked(t)]);
    assert Render([Marked(t)]) == Wrap(t);
  }

  /** The second pass over text, an inserted span and what follows it, piece by piece. */
  lemma PassAroundSpan(m: string -> nat, run: string, t: string, after: string)
    requires RespectsSpans(m) && NoDollar(t)
    ensures ReplaceAll(m, run + (Wrap(t) + after))
            == ReplaceAll(m, run) + Wrap(t) + ReplaceAll(m, after)
  {
    var tailHtml := t + CloseTag + after;
    Regroup(OpenTag, t, CloseTag, after);
    assert SplitsBeforeSpan(m, run, tailHtml);
    assert PassesOverSpan(m, t, after);
    JoinAroundSpan(m, run, Wrap(t) + after, Wrap(t), after);
  }

  /** Concatenation regrouped, stated over any strings so that no literal gets unfolded. */
  lemma Regroup(a: string, b: string, c: string, d: string)
    ensures (a + b + c) + d == a + (b + c + d)
  {
  }

  /** A pass that splits before `html` and copies `w` at its front, piece by piece. */
  lemma JoinAroundSpan(m: string -> nat, run: string, html: string, w: string, after: string)
    requires Scan(m, run + html) == Scan(m, run) + Scan(m, html)
    requires ReplaceAll(m, html) == w + ReplaceAll(m, after)
    ensures ReplaceAll(m, run + html) == ReplaceAll(m, run) + w + ReplaceAll(m, after)
  {
    RenderAppend(Scan(m, run), Scan(m, html));
  }

  lemma CombineMarked(m: string -> nat, t: string, rest: seq<Segment>, run: string)
    requires RespectsSpans(m) && NoDollar(t)
    requires Render(Combine(m, rest, [])) == ReplaceAll(m, Render(rest))
    ensures Render(Combine(m, [Marked(t)] + rest, run))
            == ReplaceAll(m, run + Render([Marked(t)] + rest))
  {
    var asegs := [Marked(t)] + rest;
    assert Render(asegs) == Wrap(t) + Render(rest) by {
      assert asegs[0] == Marked(t) && asegs[1..] == rest;
    }
    CombineMarkedRender(m, t, rest, run);
    PassAroundSpan(m, run, t, Render(rest));
  }

  /**
    The rewritten string is the node's text with a highlight span around each segment
    `Highlights` marks, and nothing else: apart from the inserted tags it holds every
    character of the text, unchanged and in order. A ticker is only ever matched inside a
    stretch of text between address spans, never across markup or inside an address.
   */
  lemma RewriteIsHighlights(text: string)
    ensures Rewrite(text) == Render(Highlights(text))
    ensures Text(Highlights(text)) == text
  {
    var asegs := Scan(Matcher(Address), text);
    AddressMatchesHaveNoDollar();
    forall k | 0 <= k < |asegs| && asegs[k].Marked?
      ensures NoDollar(asegs[k].text)
    {
      MarksHaveNoDollar(Matcher(Address), text, k);
    }
    TickerRespectsSpans();
    CombineRender(Matcher(Ticker), asegs, []);
    CombineText(Matcher(Ticker), asegs, []);
    ScanText(Matcher(Address), text);
    assert [] + Render(asegs) == Render(asegs);
  }

  /** `tick` is a `$` and one or more letters. */
  predicate IsTicker(tick: string) {
    |tick| >= 2 && tick[0] == '$' && forall i :: 1 <= i < |tick| ==> IsAsciiLetter(tick[i])
  }

  /** A pass wraps a string that is one whole match of it. */
  lemma ReplaceAllWhole(p: Pattern, s: string)
    requires MatchLen(p, s) == |s| > 0
    ensures ReplaceAll(Matcher(p), s) == Wrap(s)
  {
    ReplaceAllMarkedHead(Matcher(p), s);
    assert s[..|s|] == s;
    assert s[|s|..] == [];
  }

  /** A ticker is one whole ticker match. */
  lemma TickerMatchesWhole(tick: string)
    requires IsTicker(tick)
    ensures MatchLen(Ticker, tick) == |tick|
  {
    assert forall i :: 0 <= i < |tick[1..]| ==> tick[1..][i] == tick[i + 1];
    SpanAll(Letter, tick[1..]);
  }

  /** An address is one whole address match. */
  lemma AddressMatchesWhole(addr: string)
    requires AddressMatches(addr, |addr|)
    ensures MatchLen(Address, addr) == |addr|
  {
    assert forall i :: 0 <= i < |addr[3..]| ==> addr[3..][i] == addr[i + 3];
    SpanAll(Alnum, addr[3..]);
  }

  /** The address pass over a ticker glued to an address wraps only the address. */
  lemma AddressPassAfterTicker(tick: string, addr: string)
    requires IsTicker(tick) && AddressMatches(addr, |addr|)
    ensures ReplaceAll(Matcher(Address), tick + addr) == tick + Wrap(addr)
  {
    forall i | 0 <= i < |tick|
      ensures NoMatchAt(Matcher(Address), tick, addr, i)
    {
      var u := tick[i..] + addr;
      if |tick| - i == 1 {
        assert u[1] == addr[0];
      } else if |tick| - i == 2 {
        assert u[2] == addr[0];
      } else {
        assert u[2] == tick[i + 2];
      }
    }
    ReplaceAllSkips(Matcher(Address), tick, addr);
    AddressMatchesWhole(addr);
    ReplaceAllWhole(Address, addr);
  }

  /** An address's span passes through the ticker pass unchanged. */
  lemma TickerPassOverAddressSpan(addr: string)
    requires AddressMatches(addr, |addr|)
    ensures ReplaceAll(Matcher(Ticker), Wrap(addr)) == Wrap(addr)
  {
    TickerRespectsSpans();
    assert NoDollar(addr) by {
      assert forall i :: 3 <= i < |addr| ==> IsAsciiAlnum(addr[i]);
    }
    assert PassesOverSpan(Matcher(Ticker), addr, []);
    assert Wrap(addr) + [] == Wrap(addr);
  }

  /** The ticker pass stops at the inserted span: `<` ends the letters and is a boundary. */
  lemma TickerPassBeforeSpan(tick: string, addr: string)
    requires IsTicker(tick) && AddressMatches(addr, |addr|)
    ensures ReplaceAll(Matcher(Ticker), tick + Wrap(addr)) == Wrap(tick) + Wrap(addr)
  {
    var w := Wrap(addr);
    assert w[0] == '<';
    TickerSplit(tick, w);
    RenderAppend(Scan(Matcher(Ticker), tick), Scan(Matcher(Ticker), w));
    TickerMatchesWhole(tick);
    ReplaceAllWhole(Ticker, tick);
    TickerPassOverAddressSpan(addr);
  }

  /** Over the raw text, a ticker match would take the address's `CA` as two more letters. */
  lemma RawTickerRunsOn(tick: string, addr: string)
    requires IsTicker(tick) && AddressMatches(addr, |addr|)
    ensures MatchLen(Ticker, tick + addr) == |tick| + 2
  {
    var s := tick + addr;
    var letters := tick[1..] + addr[..2];
    assert s[1..] == letters + addr[2..];
    assert forall i :: 0 <= i < |letters| ==> IsAsciiLetter(letters[i]) by {
      forall i | 0 <= i < |letters|
        ensures IsAsciiLetter(letters[i])
      {
        if i < |tick| - 1 {
          assert letters[i] == tick[i + 1];
        } else {
          assert letters[i] == addr[i - |tick| + 1];
        }
      }
    }
    SpanAll(Letter, letters);
    SpanStopsAt(Letter, letters, addr[2..]);
    assert s[|tick| + 1] == addr[1] && s[|tick| + 2] == addr[2];
  }

  /**
    A ticker directly followed by an address is highlighted as two spans, and the ticker's
    span ends where the address begins: the ticker pass sees the `<` of the address's span,
    which is a word boundary, where the raw text has the letters `CA`.
   */
  lemma TickerBeforeAddress(tick: string, addr: string)
    requires IsTicker(tick) && AddressMatches(addr, |addr|)
    ensures Rewrite(tick + addr) == Wrap(tick) + Wrap(addr)
    ensures MatchLen(Ticker, tick + addr) == |tick| + 2
  {
    AddressPassAfterTicker(tick, addr);
    TickerPassBeforeSpan(tick, addr);
    RawTickerRunsOn(tick, addr);
  }

  // ---------------------------------------------------------------------------------------
  // The per-node decision

  /** A text node: the classes of its parent element and its text. */
  datatype TextNode = TextNode(parentClasses: set<string>, text: string)

  /** What `processTextNode` does to a node: nothing, or replace it with a span of this HTML. */
  datatype NodeUpdate = Unchanged | ReplacedWith(innerHtml: string)

  /** The tree walker's filter: text directly inside a highlight span is rejected. */
  predicate AcceptNode(node: TextNode) {
    HighlightClass !in node.parentClasses
  }

  function ProcessTextNode(node: TextNode): (u: NodeUpdate)
    ensures u.ReplacedWith? <==>
              HighlightClass !in node.parentClasses
              && (HasMatch(Matcher(Address), node.text) || HasMatch(Matcher(Ticker), node.text))
    ensures u.ReplacedWith? ==> u.innerHtml == Render(Highlights(node.text))
  {
    if HighlightClass in node.parentClasses then Unchanged
    else
      var html := Rewrite(node.text);
      RewriteUnchangedIff(node.text);
      RewriteIsHighlights(node.text);
      if html != node.text then ReplacedWith(html) else Unchanged
  }

  /** Text inside a highlight span is never rewritten, by the filter or by the guard. */
  lemma HighlightedNeverRewritten(node: TextNode)
    requires HighlightClass in node.parentClasses
    ensures !AcceptNode(node) && ProcessTextNode(node) == Unchanged
  {
  }
}
