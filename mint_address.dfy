/**
  index.js: the first match of `/CA:\s*([A-Za-z0-9]{10,})/i` in a string, its capture
  group 1, and `trim()` of that group; the empty string when nothing matches.

  Unlike the content script's expression this one is not global (only the leftmost match
  counts) and allows JavaScript white space between `CA:` and the address.
 */
module MintAddress {
  import opened CharClasses
  import opened Wrappers

  /**
    `t` matches `CA:\s*([A-Za-z0-9]{10,})` from its front, with capture group 1 being
    `t[w..k]`: `CA:` in any case, white space up to `w`, ten or more alphanumerics.
   */
  predicate MintMatches(t: string, w: int, k: int) {
    HasCaPrefix(t) && 3 <= w && w + 10 <= k <= |t|
    && (forall i :: 3 <= i < w ==> IsJsSpace(t[i]))
    && (forall i :: w <= i < k ==> IsAsciiAlnum(t[i]))
  }

  /** Where capture group 1 lies, relative to the start of the match. */
  datatype Group = Group(start: nat, end: nat)

  /**
    The match the engine reports at the front of `t`: `\s*` takes every white-space
    character and the address every alphanumeric after them.
   */
  function MatchAt(t: string): (r: Option<Group>)
    ensures r.Some? ==> 3 <= r.value.start && r.value.start + 10 <= r.value.end <= |t|
  {
    if !HasCaPrefix(t) then None
    else
      var w := 3 + Span(Space, t[3..]);
      var n := Span(Alnum, t[w..]);
      if n >= 10 then Some(Group(w, w + n)) else None
  }

  /**
    `MatchAt` is the regular expression's match: none when no split of `t` matches, and
    otherwise a match whose group starts where every match's group starts and is the
    longest one. White space and alphanumerics never overlap, so backtracking into `\s*`
    cannot produce another match.
   */
  lemma MatchAtIsRegex(t: string)
    ensures MatchAt(t).None? ==> forall w, k :: !MintMatches(t, w, k)
    ensures MatchAt(t).Some? ==> MintMatches(t, MatchAt(t).value.start, MatchAt(t).value.end)
    ensures MatchAt(t).Some? ==>
              forall w, k :: MintMatches(t, w, k) ==>
                w == MatchAt(t).value.start && k <= MatchAt(t).value.end
  {
    if HasCaPrefix(t) {
      var w0 := 3 + Span(Space, t[3..]);
      SpanIsMaximal(Space, t[3..]);
      var u := t[w0..];
      SpanIsMaximal(Alnum, u);
      var n := Span(Alnum, u);
      forall i | 3 <= i < w0
        ensures IsJsSpace(t[i])
      {
        assert t[i] == t[3..][i - 3];
      }
      forall i | w0 <= i < w0 + n
        ensures IsAsciiAlnum(t[i])
      {
        assert t[i] == u[i - w0];
      }
      assert w0 < |t| ==> !IsJsSpace(t[w0]) by {
        assert w0 < |t| ==> t[w0] == t[3..][w0 - 3];
      }
      assert w0 + n < |t| ==> !IsAsciiAlnum(t[w0 + n]) by {
        assert w0 + n < |t| ==> t[w0 + n] == u[n];
      }
      AlnumIsNotSpace();
      forall w, k | MintMatches(t, w, k)
        ensures w == w0 && k <= w0 + n && n >= 10
      {
        assert IsAsciiAlnum(t[w]);
      }
    }
  }

  /** A match: where it starts in the string, and its group relative to that start. */
  datatype Found = Found(at: nat, group: Group)

  /** `s.match(re)` for the non-global `re`: the leftmost position where a match starts. */
  function FirstMatch(s: string): (r: Option<Found>)
    ensures r.Some? ==> r.value.group.start + 10 <= r.value.group.end
    ensures r.Some? ==> r.value.at + r.value.group.end <= |s|
    decreases |s|
  {
    if s == [] then None
    else
      match MatchAt(s)
      case Some(g) => Some(Found(0, g))
      case None =>
        match FirstMatch(s[1..])
        case None => None
        case Some(f) => Some(Found(f.at + 1, f.group))
  }

  /** `FirstMatch` finds the leftmost match, and none when no position starts one. */
  lemma {:induction false} FirstMatchIsLeftmost(s: string)
    ensures FirstMatch(s).None? ==> forall i :: 0 <= i < |s| ==> MatchAt(s[i..]).None?
    ensures FirstMatch(s).Some? ==>
              var f := FirstMatch(s).value;
              f.at < |s| && MatchAt(s[f.at..]) == Some(f.group)
              && forall i :: 0 <= i < f.at ==> MatchAt(s[i..]).None?
    decreases |s|
  {
    if s != [] {
      assert s[0..] == s;
      if MatchAt(s).None? {
        var rest := s[1..];
        FirstMatchIsLeftmost(rest);
        forall i | 1 <= i < |s|
          ensures s[i..] == rest[i - 1..]
        {
        }
        match FirstMatch(rest)
        case None =>
        case Some(f) =>
          assert FirstMatch(s) == Some(Found(f.at + 1, f.group));
          assert s[f.at + 1..] == rest[f.at..];
      }
    }
  }

  /** `s.trimEnd()` */
  function TrimEnd(s: string): string
    decreases |s|
  {
    if s != [] && IsJsSpace(s[|s| - 1]) then TrimEnd(s[..|s| - 1]) else s
  }

  /** `s.trim()`: JavaScript white space removed from both ends. */
  function Trim(s: string): string {
    TrimEnd(s[Span(Space, s)..])
  }

  /** `TrimEnd` removes exactly the white space at the end. */
  lemma {:induction false} TrimEndIsPrefix(s: string)
    ensures |TrimEnd(s)| <= |s| && TrimEnd(s) == s[..|TrimEnd(s)|]
    ensures forall i :: |TrimEnd(s)| <= i < |s| ==> IsJsSpace(s[i])
    ensures TrimEnd(s) != [] ==> !IsJsSpace(TrimEnd(s)[|TrimEnd(s)| - 1])
    decreases |s|
  {
    if s != [] && IsJsSpace(s[|s| - 1]) {
      var front := s[..|s| - 1];
      TrimEndIsPrefix(front);
      assert forall i :: 0 <= i < |front| ==> front[i] == s[i];
      assert front[..|TrimEnd(front)|] == s[..|TrimEnd(front)|];
    }
  }

  /** `r` is `s` with the white space before position `a` and after `r` removed. */
  predicate TrimmedAt(s: string, a: nat, r: string) {
    a + |r| <= |s| && s[a..a + |r|] == r
    && (forall i :: 0 <= i < a ==> IsJsSpace(s[i]))
    && (forall i :: a + |r| <= i < |s| ==> IsJsSpace(s[i]))
  }

  /**
    `trim()` returns the part of `s` between its leading and its trailing white space:
    an infix of `s`, everything around it white space, and neither of its ends white space.
   */
  lemma TrimIsInfix(s: string)
    ensures exists a :: TrimmedAt(s, a, Trim(s))
    ensures Trim(s) != [] ==> !IsJsSpace(Trim(s)[0]) && !IsJsSpace(Trim(s)[|Trim(s)| - 1])
  {
    var a := Span(Space, s);
    var rest := s[a..];
    SpanIsMaximal(Space, s);
    TrimEndIsPrefix(rest);
    var r := Trim(s);
    assert r == rest[..|r|];
    assert s[a..a + |r|] == r;
    assert forall i :: a + |r| <= i < |s| ==> s[i] == rest[i - a];
    assert TrimmedAt(s, a, r);
    if r != [] {
      assert r[0] == s[a];
    }
  }

  /** A string without white space is its own trim. */
  lemma TrimWithoutSpace(s: string)
    requires forall i :: 0 <= i < |s| ==> !IsJsSpace(s[i])
    ensures Trim(s) == s
  {
    assert s[0..] == s;
    if s != [] {
      assert Span(Space, s) == 0;
    }
  }

  /**
    index.js: `mintAddress` is `solanaMatch[1].trim()` when the string has a match, and
    stays `""` otherwise.
   */
  function Extract(s: string): string {
    match FirstMatch(s)
    case None => ""
    case Some(f) => Trim(GroupText(s, f))
  }

  /** Capture group 1 of the match `f` in `s`. */
  function GroupText(s: string, f: Found): string
    requires f.group.start <= f.group.end && f.at + f.group.end <= |s|
  {
    s[f.at + f.group.start..f.at + f.group.end]
  }

  /**
    When `s` has a match, the extracted address is capture group 1 of the leftmost one,
    untouched by `trim()`: ten or more alphanumerics, without the `CA:` prefix or the white
    space after it.
   */
  lemma ExtractIsGroup(s: string)
    requires FirstMatch(s).Some?
    ensures Extract(s) == s[FirstMatch(s).value.at + FirstMatch(s).value.group.start..
                            FirstMatch(s).value.at + FirstMatch(s).value.group.end]
    ensures |Extract(s)| >= 10
    ensures forall i :: 0 <= i < |Extract(s)| ==> IsAsciiAlnum(Extract(s)[i])
  {
    var f := FirstMatch(s).value;
    var g := GroupText(s, f);
    assert forall i :: 0 <= i < |g| ==> IsAsciiAlnum(g[i]) by {
      FirstMatchIsLeftmost(s);
      var t := s[f.at..];
      MatchAtIsRegex(t);
      assert forall i :: 0 <= i < |g| ==> g[i] == t[f.group.start + i];
    }
    AlnumIsNotSpace();
    TrimWithoutSpace(g);
  }

  /** The extracted address is empty exactly when no position of `s` starts a match. */
  lemma ExtractEmptyIff(s: string)
    ensures Extract(s) == [] <==> forall i :: 0 <= i < |s| ==> MatchAt(s[i..]).None?
  {
    FirstMatchIsLeftmost(s);
    if FirstMatch(s).Some? {
      ExtractIsGroup(s);
    }
  }

  /** `CA:`, white space, then an address of ten or more alphanumerics yields that address. */
  lemma ExtractAfterSpaces(spaces: string, address: string)
    requires forall i :: 0 <= i < |spaces| ==> IsJsSpace(spaces[i])
    requires |address| >= 10 && forall i :: 0 <= i < |address| ==> IsAsciiAlnum(address[i])
    ensures Extract("CA:" + spaces + address) == address
  {
    var s := "CA:" + spaces + address;
    assert s[3..] == spaces + address;
    SpanAll(Space, spaces);
    SpanStopsAt(Space, spaces, address);
    var w := 3 + |spaces|;
    assert s[w..] == address;
    SpanAll(Alnum, address);
    assert MatchAt(s) == Some(Group(w, |s|));
    assert s[w..|s|] == address;
    TrimWithoutSpace(address);
  }

  /** The address in the string index.js hard-codes. */
  const HardcodedAddress: string := "7DdHyxLZQuudndfrX3ZDDqgK6zPFbm17wGwKJqgjpump"

  /** The string index.js hard-codes: `CA:`, one space, the address. */
  const Hardcoded: string := "CA:" + " " + HardcodedAddress

  /** What index.js logs for its hard-coded string. */
  lemma HardcodedExtract()
    ensures Extract(Hardcoded) == HardcodedAddress
  {
    assert forall i :: 0 <= i < |HardcodedAddress| ==> IsAsciiAlnum(HardcodedAddress[i]);
    ExtractAfterSpaces(" ", HardcodedAddress);
  }
}
