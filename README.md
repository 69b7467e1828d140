# Solana highlighter: a verified model of its core

The browser extension scans each page for Solana contract addresses (`CA:` followed by ten
or more letters and digits) and for `$TICKER` symbols, wraps each in a
`<span class="sol-highlight">`, and shows a popover with a joke when the mouse is over a
highlight. A second script pulls one mint address out of a string.

This project models four parts of that code in Dafny and proves what each one promises:

- **The highlight rewriter** (`content.js`, `processTextNode` and the two regular
  expressions). A global replace is a scan over suffixes that wraps the longest match where
  one starts and copies one character elsewhere (`global_replace.dfy`). The two expressions
  become exact matchers (`highlight.dfy`). The rewrite is the ticker pass run over the
  address pass's output, as the code does it. Its result is characterised by one segment
  list over the node's own text (`Highlights`).
- **The popover controller** (`currentPopover`, `createPopover`, `fetchJoke`, the mouseover
  handler). It is a `Page` object holding the current popover, the attached popovers and the
  popovers whose fetch is still running. The fetch's completion is a separate event carrying
  the joke or a failure (`popover.dfy`).
- **`debounce`**, on an integer logical clock. There is a pure trace semantics (`Step`,
  `Run`) and a `Debouncer` object whose methods follow it (`debounce.dfy`).
- **The mint-address extractor** (`index.js`). It finds the leftmost match of
  `/CA:\s*([A-Za-z0-9]{10,})/i`, takes capture group 1 and trims it, and leaves `""` when
  there is no match (`mint_address.dfy`).

Character classes are in `char_classes.dfy`: ASCII letters and digits, the `\b` word
characters, and JavaScript's `\s`. JavaScript's `\s` is written out as the characters TAB,
LF, VT, FF, CR, SPACE, U+00A0, U+1680, U+2000–U+200A, U+2028, U+2029, U+202F, U+205F,
U+3000 and U+FEFF.

The two `CA:` expressions differ and are kept apart. `content.js` is global and allows
nothing between `CA:` and the address. `index.js` takes only the first match and allows
white space after `CA:`.

## Model

| member | source | states |
|---|---|---|
| CharClasses.Span | content.js:1-2 | the length of the leading run of a character class never exceeds the string |
| CharClasses.SpanIsMaximal | content.js:1-2 | the run is all in the class and is followed by the end or by a character outside it, which is what a greedy quantifier consumes |
| CharClasses.SpanAll | index.js:1 | a string entirely in a class is one whole run |
| CharClasses.SpanStopsAt | index.js:1 | a run stops at the first character outside the class, whatever follows |
| CharClasses.AlnumIsNotSpace | index.js:1 | no ASCII letter or digit is JavaScript white space, so `\s*` and the address never compete |
| Highlight.MatchLen | content.js:1-2 | the reported match length fits in the string, and a match starts with `$` exactly when it is a ticker |
| Highlight.MatchLenIsLongest | content.js:1-2 | the matcher of each expression is the longest match of its regular expression at the front of the text, or 0 exactly when no prefix matches |
| GlobalReplace.OpenTagNamesHighlightClass | content.js:47-53 | the span the rewriter opens carries exactly the class `sol-highlight` that the guard tests |
| GlobalReplace.ReplaceAllPlainHead | content.js:52-54 | where no match starts, the replace copies the character and goes on with the rest |
| GlobalReplace.ReplaceAllMarkedHead | content.js:52-54 | where a match starts, the replace emits the whole match inside a highlight span and resumes after it |
| GlobalReplace.ScanText | content.js:52-59 | the segments of a replace pass cover the input exactly, in order |
| GlobalReplace.ScanLocatedAt | content.js:52-54 | every copied character is one where no match starts, and every wrapped text is exactly the match that starts at its position |
| GlobalReplace.ScanLocated | content.js:52-54 | all segments of a pass sit where the leftmost, non-overlapping matches put them |
| GlobalReplace.LocatedTail | content.js:52-54 | a located segment list stays located when its first segment is dropped |
| GlobalReplace.ScanUnique | content.js:52-54 | any segment list covering the input whose segments are located is the scan's own: the leftmost, non-overlapping matches are unique |
| GlobalReplace.RenderLength | content.js:52-59 | the output's length is the input's plus one pair of tags per wrapped match |
| GlobalReplace.RenderUnmarked | content.js:61 | with nothing wrapped the output is the input |
| GlobalReplace.ScanMarksIff | content.js:52-54 | a pass wraps something exactly when some position of the input starts a match |
| GlobalReplace.RenderVsText | content.js:61 | the output is never shorter than the input, and equals it exactly when nothing is wrapped |
| GlobalReplace.ReplaceAllUnchangedIff | content.js:52-61 | one pass leaves the string equal to its input exactly when no match occurs anywhere in it |
| GlobalReplace.TextAppend | content.js:52-59 | the text covered by two segment lists joined is the two texts joined |
| GlobalReplace.RenderAppend | content.js:52-59 | the output for two segment lists joined is the two outputs joined |
| GlobalReplace.KeepsMatchInSuffix | content.js:57-59 | a text whose matches are unaffected by what follows keeps that in every suffix |
| GlobalReplace.ScanSplit | content.js:57-59 | when no match in a prefix reaches into or depends on what follows, the pass splits into two independent passes |
| GlobalReplace.NoMatchInSuffix | content.js:57-59 | a prefix with no match start stays that way when its first character is dropped |
| GlobalReplace.RenderPlains | content.js:57-59 | text copied character by character renders as itself |
| GlobalReplace.ScanSkips | content.js:57-59 | a prefix where no match starts is copied as plain characters, then the pass goes on with the rest |
| GlobalReplace.ReplaceAllSkips | content.js:57-59 | a replace pass copies a prefix without match starts unchanged in front of the pass over the rest |
| Highlight.RewriteUnchangedIff | content.js:52-61 | the two passes give back the node's own text exactly when neither expression matches anywhere in it |
| Highlight.TickerMatchStopsAt | content.js:2 | the ticker match at the front of a non-empty text does not change when text starting with a non-word character, such as `<`, is appended |
| Highlight.TickerSplit | content.js:57-59 | the ticker pass over a text followed by a non-word character splits into the pass over the text and the pass over the rest |
| Highlight.TickerSkips | content.js:57-59 | the ticker pass copies any prefix without `$` unchanged |
| Highlight.AddressMatchesHaveNoDollar | content.js:1 | no address match contains a `$` |
| Highlight.MarksHaveNoDollar | content.js:52-54 | every text the address pass wraps is free of `$` |
| Highlight.TickerRespectsSpans | content.js:52-59 | the ticker pass never matches across the start of an inserted span and copies every inserted span around text without `$` unchanged |
| Highlight.CombineText | content.js:52-59 | the combined segments cover exactly the text the address segments cover |
| Highlight.CombineRender | content.js:52-59 | rendering the combined segments gives the ticker pass run over the address pass's output |
| Highlight.CombineMarkedRender | content.js:52-59 | an address span in the middle of the address output passes through the ticker pass unchanged, between the passes over the text on either side |
| Highlight.PassAroundSpan | content.js:57-59 | the ticker pass over text, an address span and more text is the pass over each stretch with the span copied between them |
| Highlight.CombineMarked | content.js:52-59 | the combined view agrees with the two-pass output one address span at a time |
| Highlight.RewriteIsHighlights | content.js:52-59 | the rewritten string is the node's text with a highlight span around each marked segment and nothing else, so every character of the text is kept, unchanged and in order; tickers are never matched inside markup or address spans |
| Highlight.ReplaceAllWhole | content.js:52-59 | a string that is one whole match becomes that string wrapped in a single span |
| Highlight.TickerMatchesWhole | content.js:2 | a `$` followed by letters alone is one whole ticker match |
| Highlight.AddressMatchesWhole | content.js:1 | `CA:` with ten or more alphanumerics alone is one whole address match |
| Highlight.AddressPassAfterTicker | content.js:52-54 | the address pass copies a ticker directly in front of an address and wraps the address |
| Highlight.TickerPassOverAddressSpan | content.js:57-59 | the ticker pass copies an address span unchanged |
| Highlight.TickerPassBeforeSpan | content.js:57-59 | the ticker pass wraps a ticker that directly precedes an inserted span, because `<` is a word boundary |
| Highlight.RawTickerRunsOn | content.js:2 | on the raw text the ticker expression would run on into the letters `CA` of a following address |
| Highlight.TickerBeforeAddress | content.js:52-59 | a ticker glued to an address, as in `$ABCA:1234567890`, becomes two spans `$AB` and the address, although on the raw text the ticker match would take two more letters |
| Highlight.ProcessTextNode | content.js:45-66 | a node is replaced exactly when its parent is not a highlight and an address or a ticker occurs in its text, and the wrapper's HTML is the highlighted segments rendered |
| Highlight.HighlightedNeverRewritten | content.js:47-74 | text whose parent already has class `sol-highlight` is rejected by the walker's filter and left unchanged by the guard |
| Popovers.TitleOfHighlight | content.js:25 | a popover over a ticker highlight is titled Token, and one over an address highlight Address |
| Popovers.Popover.constructor | content.js:22-28 | a new popover holds its text, a title chosen by a leading `$`, and the loading line |
| Popovers.Page.constructor | content.js:4 | the page starts with no current popover, none attached and no fetch running |
| Popovers.Page.CreatePopover | content.js:19-42 | the previous popover is removed; the new one is the only one attached, becomes the current one, shows the loading line and starts its fetch; at most one popover stays attached |
| Popovers.Page.HoverElsewhere | content.js:95-100 | a hover outside every highlight removes the current popover and clears the slot, leaving running fetches alone |
| Popovers.Page.MouseOver | content.js:93-104 | the mouseover handler either creates a fresh popover for the highlight's text, even when the same highlight is hovered again, or clears the slot |
| Popovers.Page.FetchCompleted | content.js:6-16 | a completed fetch writes the joke, or the failure line on any failure, into the popover it was started for and changes nothing else |
| Popovers.LateCompletion | content.js:6-42 | when a first popover's fetch completes after a second popover replaced it, the joke lands in the detached first one while the one on screen still shows the loading line, and one popover is attached |
| Debounce.LastCallIsCall | content.js:85-87 | the latest call found in a trace is a call |
| Debounce.PendingIsLatest | content.js:83-91 | at most one timeout is pending, and it is the one armed by the latest call, `wait` after it with its arguments |
| Debounce.InBurstPrefix | content.js:83-91 | a burst cut short is still a burst |
| Debounce.BurstRunsNothing | content.js:83-91 | while calls keep coming faster than `wait`, the function never runs and only the latest call's timeout is pending |
| Debounce.BurstThenQuiet | content.js:83-91 | after a burst, once the clock reaches the latest call's due time, the function runs exactly once with the latest call's arguments and nothing stays pending |
| Debounce.HighlightBurst | content.js:91 | with the 100 delay of `debouncedInitializeHighlights`, calls at 0 and 50 run nothing at 120 and run the scan once at 150, with the second call's arguments |
| Debounce.Debouncer.constructor | content.js:83-84 | a debounced function starts with no timeout pending |
| Debounce.Debouncer.Call | content.js:85-87 | a call clears any pending timeout and arms one `wait` later with its own arguments |
| Debounce.Debouncer.Tick | content.js:87 | when the clock reaches the pending timeout's due time the function runs with its arguments and the timeout is spent; otherwise nothing happens |
| MintAddress.MatchAt | index.js:1 | a reported match has its group after `CA:`, ten or more characters long, inside the string |
| MintAddress.MatchAtIsRegex | index.js:1 | the match at the front of a string is the regular expression's: none when no split matches, else the group every match's group starts at, and the longest one |
| MintAddress.FirstMatch | index.js:4 | a found match's group holds ten or more characters and lies inside the string |
| MintAddress.FirstMatchIsLeftmost | index.js:4 | only the leftmost match counts: no earlier position starts one, and none is found exactly when no position starts one |
| MintAddress.TrimEndIsPrefix | index.js:6 | `trimEnd` removes exactly the white space at the end |
| MintAddress.TrimIsInfix | index.js:6 | `trim` keeps the part between leading and trailing white space, and neither of its ends is white space |
| MintAddress.TrimWithoutSpace | index.js:6 | a string without white space is its own trim |
| MintAddress.ExtractIsGroup | index.js:4-6 | with a match, `mintAddress` is capture group 1 of the leftmost match, without `CA:` or the white space after it, ten or more alphanumerics long and untouched by `trim` |
| MintAddress.ExtractEmptyIff | index.js:3-6 | `mintAddress` stays empty exactly when no position of the string starts a match |
| MintAddress.ExtractAfterSpaces | index.js:1-6 | `CA:`, any white space, then an address of ten or more alphanumerics yields that address |
| MintAddress.HardcodedExtract | index.js:2-7 | the hard-coded string yields `7DdHyxLZQuudndfrX3ZDDqgK6zPFbm17wGwKJqgjpump` |

## Left out

- `background.js`: a browser message listener and a network request; nothing in `content.js` calls it.
- The joke request and its JSON access (`content.js:8-10`): network I/O. Only its outcome is modelled, as a joke text or a failure. The joke element is taken to exist, which it does in every popover `createPopover` builds.
- Popover positioning (`content.js:33-35`): pixel arithmetic on the element's bounding box and the scroll offsets.
- The popover's static lines (`Dummy Data:`, `Price: $0.00`) and the HTML layout of its heading and text: the model keeps the title, the text and the joke line.
- HTML parsing of the rewritten string (`content.js:63`) and of the popover's markup (`content.js:24-31`): the model stops at the HTML string. The rewriter does not escape page text, so text holding `<` or `&` may be read back differently by the parser; no claim is made about the resulting DOM text.
- The tree walker's traversal and the mutation observer (`content.js:68-81`, `content.js:106-111`): DOM engine behaviour. Only the walker's filter and the per-node rewrite are modelled, since `processTextNode` detaches the walker's current node while the walk goes on.
- The effect of the mutation observer on a popover's own text (a popover is appended under `document.body` and may itself be highlighted on the next scan): this needs the traversal above.
- Real timers and the `this` binding in `debounce`: time is an integer clock that the caller advances, and `func` is represented only by the arguments it is run with.
- `console.log` in `index.js`: output only.
- Characters are Unicode scalar values, while JavaScript strings are UTF-16 code units. This matters only for the emoji in the failure line, which is one character here and two code units in JavaScript.
