/**
  The popover controller of content.js: the global slot `currentPopover`, the popovers
  attached to the page, the mouseover handler that creates and removes them, and the
  asynchronous completion of each popover's `fetchJoke`.

  The network request is not modelled; its completion is an event that carries either
  the joke text or a failure.
 */
module Popovers {
  import opened Wrappers
  import Highlight

  /** The heading of a popover. */
  datatype Title = Token | Address

  /** How a popover's `fetchJoke` ends: with the joke's text, or in the `catch` branch. */
  datatype Outcome = Joke(text: string) | Failed

  const LoadingLine: string := "Loading joke..."
  const FailureLine: string := "Could not fetch joke \U{1F622}"

  /** `text.startsWith('$') ? 'Token' : 'Address'` */
  function TitleFor(text: string): Title {
    if |text| > 0 && text[0] == '$' then Token else Address
  }

  /** The line `fetchJoke` writes into the popover's joke element. */
  function StatusAfter(outcome: Outcome): string {
    match outcome
    case Joke(t) => t
    case Failed => FailureLine
  }

  /**
    A popover over the text of a highlight made by either pass is titled after the
    pass: `Token` for a ticker, `Address` for an address.
   */
  lemma TitleOfHighlight(p: Highlight.Pattern, u: string)
    requires Highlight.MatchLen(p, u) > 0
    ensures TitleFor(u[..Highlight.MatchLen(p, u)])
            == (if p == Highlight.Ticker then Token else Address)
  {
  }

  /** The `div.sol-popover` element: its heading, its text and its joke line. */
  class Popover {
    const title: Title
    const text: string
    var status: string

    constructor(text: string)
      ensures this.text == text && title == TitleFor(text) && status == LoadingLine
    {
      this.text := text;
      title := TitleFor(text);
      status := LoadingLine;
    }
  }

  /** The page as the content script sees it. */
  class Page {
    /** `currentPopover` */
    var current: Popover?
    /** The popovers appended to `document.body` and not removed since. */
    var attached: set<Popover>
    /** The popovers whose `fetchJoke` has not completed yet. */
    var inFlight: set<Popover>

    /**
      At most one popover is attached, and it is `currentPopover`; a popover shows
      the loading line until its own fetch completes.
     */
    ghost predicate Valid()
      reads this, inFlight
    {
      attached == (if current == null then {} else {current})
      && forall q :: q in inFlight ==> q.status == LoadingLine
    }

    constructor()
      ensures Valid()
      ensures current == null && attached == {} && inFlight == {}
    {
      current := null;
      attached := {};
      inFlight := {};
    }

    /**
      `createPopover(text, element)`: the previous popover, if any, is removed; a new one
      is attached, becomes `currentPopover`, and starts its fetch.
     */
    method CreatePopover(text: string) returns (p: Popover)
      requires Valid()
      modifies this
      ensures Valid()
      ensures fresh(p) && p.text == text && p.title == TitleFor(text)
      ensures p.status == LoadingLine
      ensures current == p && attached == {p}
      ensures inFlight == old(inFlight) + {p}
    {
      if current != null {
        attached := attached - {current};
      }
      p := new Popover(text);
      attached := attached + {p};
      current := p;
      inFlight := inFlight + {p};
    }

    /** The mouseover handler when the target is outside every highlight. */
    method HoverElsewhere()
      requires Valid()
      modifies this
      ensures Valid()
      ensures current == null && attached == {}
      ensures inFlight == old(inFlight)
    {
      if current != null {
        attached := attached - {current};
        current := null;
      }
    }

    /**
      The mouseover handler: `highlight` is the text of `e.target.closest('.sol-highlight')`,
      or `None` when there is no such element. Re-hovering the same highlight still
      replaces its popover with a new one.
     */
    method MouseOver(highlight: Option<string>) returns (p: Popover?)
      requires Valid()
      modifies this
      ensures Valid()
      ensures highlight.None? ==> p == null && current == null && attached == {}
      ensures highlight.None? ==> inFlight == old(inFlight)
      ensures highlight.Some? ==> p != null && fresh(p) && p.text == highlight.value
      ensures highlight.Some? ==> current == p && attached == {p}
      ensures highlight.Some? ==> p.title == TitleFor(highlight.value) && p.status == LoadingLine
      ensures highlight.Some? ==> inFlight == old(inFlight) + {p}
    {
      match highlight
      case None =>
        HoverElsewhere();
        p := null;
      case Some(text) =>
        p := CreatePopover(text);
    }

    /**
      `fetchJoke(popover)` completes: the joke line of the popover it was started for is
      set, whether or not that popover is still attached; nothing else changes.
     */
    method FetchCompleted(p: Popover, outcome: Outcome)
      requires Valid() && p in inFlight
      modifies this, p
      ensures Valid()
      ensures p.status == StatusAfter(outcome)
      ensures inFlight == old(inFlight) - {p}
      ensures current == old(current) && attached == old(attached)
    {
      p.status := StatusAfter(outcome);
      inFlight := inFlight - {p};
    }
  }

  /**
    Two highlights hovered one after the other, then the first popover's fetch completes
    late: the joke lands in the first popover, now detached, while the popover on screen
    still shows the loading line.
   */
  method LateCompletion(first: string, second: string, joke: string)
    returns (shown: string, stale: string, attachedCount: nat)
    ensures shown == LoadingLine && stale == joke && attachedCount == 1
  {
    var page := new Page();
    var a := page.CreatePopover(first);
    var b := page.CreatePopover(second);
    page.FetchCompleted(a, Joke(joke));
    shown := b.status;
    stale := a.status;
    attachedCount := |page.attached|;
  }
}
