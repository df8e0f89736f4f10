/**
 * `CheckPageRepeat` (hobbit/actions/__init__.py): a guard that is called with
 * each page text in turn and says whether the page repeats the previous one.
 *
 * The source's stop test compares the repeat counter with itself, so the
 * `check_break` flag is never raised, and `max_page_repeat` is stored but
 * never read. Both are modelled as written.
 */
module PageRepeat {
  import opened Optional

  /** `CheckPageRepeat()` is built with `max_page_repeat=3`. */
  const DefaultMaxPageRepeat := 3

  /** The guard's three private fields, as a value. */
  datatype GuardState = GuardState(lastPageText: Option<string>, repeatPage: nat, checkBreak: bool)

  /** The state `__init__` sets up: no page seen yet. */
  const Initial := GuardState(None, 0, false)

  /** One call of the guard on `page`: the new state, and whether `page` was a repeat. */
  function Step(s: GuardState, page: string): (GuardState, bool)
  {
    var repeat := s.lastPageText == Some(page);
    var repeatPage := if repeat then s.repeatPage + 1 else 0;
    var last := if repeat then s.lastPageText else Some(page);
    (GuardState(last, repeatPage, s.checkBreak || repeatPage > repeatPage), repeat)
  }

  /** The state after the guard has been called on every page of `pages`, in order. */
  function Run(pages: seq<string>): GuardState
  {
    if pages == [] then Initial else Step(Run(pages[..|pages| - 1]), pages[|pages| - 1]).0
  }

  /** How many pages at the end of `pages` equal its last page. */
  function TrailingRun(pages: seq<string>): nat
  {
    if |pages| <= 1 then |pages|
    else if pages[|pages| - 1] == pages[|pages| - 2] then 1 + TrailingRun(pages[..|pages| - 1])
    else 1
  }

  /**
   * After any pages: the stored text is the last page, the counter is the
   * length of the final run of identical pages minus one, and the stop flag
   * is down.
   */
  lemma {:induction false} RunState(pages: seq<string>)
    ensures !Run(pages).checkBreak
    ensures pages == [] ==> Run(pages) == Initial
    ensures pages != [] ==> Run(pages).lastPageText == Some(pages[|pages| - 1])
    ensures pages != [] ==> Run(pages).repeatPage == TrailingRun(pages) - 1
    decreases |pages|
  {
    if pages != [] {
      var n := |pages|;
      var init := pages[..n - 1];
      RunState(init);
      if n >= 2 {
        assert init[|init| - 1] == pages[n - 2];
      }
    }
  }

  /**
   * A call reports a repeat exactly when its page equals the page of the
   * previous call; in particular the first call never does.
   */
  lemma {:induction false} RepeatIffSameAsPrevious(pages: seq<string>, page: string)
    ensures Step(Run(pages), page).1 <==> pages != [] && page == pages[|pages| - 1]
  {
    RunState(pages);
  }

  /**
   * The stop flag never goes up, whatever the pages: four identical pages in
   * a row already exceed `max_page_repeat = 3`, and the flag is still down.
   */
  lemma {:induction false} NeverStops(pages: seq<string>, page: string)
    ensures !Step(Run(pages), page).0.checkBreak
  {
    RunState(pages);
  }

  lemma FourIdenticalPages()
    ensures Run(["A", "A", "A", "A"]).repeatPage == 3
    ensures !Run(["A", "A", "A", "A", "B"]).checkBreak
  {
    var a: seq<string> := ["A", "A", "A", "A"];
    assert a[..3] == ["A", "A", "A"] && a[..3][..2] == ["A", "A"] && a[..3][..2][..1] == ["A"];
    assert TrailingRun(a[..3][..2]) == 2;
    assert TrailingRun(a[..3]) == 3;
    assert TrailingRun(a) == 4;
    RunState(a);
    var b: seq<string> := ["A", "A", "A", "A", "B"];
    assert b[..4] == a;
    RunState(b);
  }

  /** The guard itself, with the fields `__call__` updates in place. */
  class CheckPageRepeat {
    var lastPageText: Option<string>
    var repeatPage: nat
    var checkBreak: bool
    const maxPageRepeat: int

    function State(): GuardState
      reads this
    {
      GuardState(lastPageText, repeatPage, checkBreak)
    }

    constructor (maxPageRepeat: int := DefaultMaxPageRepeat)
      ensures State() == Initial && this.maxPageRepeat == maxPageRepeat
    {
      lastPageText := None;
      repeatPage := 0;
      checkBreak := false;
      this.maxPageRepeat := maxPageRepeat;
    }

    /** `__call__`: report whether `pageText` repeats the previous page, and record it. */
    method Observe(pageText: string) returns (repeat: bool)
      modifies this
      ensures repeat <==> old(lastPageText) == Some(pageText)
      ensures lastPageText == Some(pageText)
      ensures repeatPage == if repeat then old(repeatPage) + 1 else 0
      ensures checkBreak == old(checkBreak)
      ensures (State(), repeat) == Step(old(State()), pageText)
    {
      repeat := false;
      if Some(pageText) == lastPageText {
        repeatPage := repeatPage + 1;
        repeat := true;
      } else {
        repeatPage := 0;
        lastPageText := Some(pageText);
      }
      checkBreak := checkBreak || repeatPage > repeatPage;
    }
  }
}
