/**
 * `ThreadAction` (hobbit/actions/__init__.py): an action that fetches many
 * pages at once and yields, in completion order, each page whose text differs
 * from the page before it.
 *
 * The thread pool is not modelled: the order in which the submitted fetches
 * complete is an input (`completions`), and each completion carries either
 * the page text the fetch returned or the fact that it raised. Parsing the
 * page is the parameter `parse`.
 */
module ThreadActions {
  import opened Optional
  import opened Folding
  import opened PyXor
  import opened ActionHash
  import opened PageRepeat

  /** The pool size used when `max_workers` is missing or falsy. */
  const DefaultMaxWorkers := 5

  /** The keyword that sets the pool size. */
  const MaxWorkersKey := "max_workers"

  /** A `ThreadAction`: the `Action` it extends, and the pool size it stores. */
  datatype ThreadAction = ThreadAction(action: Action, maxWorkers: Value)

  /**
   * `kwargs.get('max_workers') or 5`: the value passed, unless it is missing
   * or falsy. The result is never falsy, and is either the value passed or 5.
   */
  function MaxWorkers(kwargs: seq<Entry>): (r: Value)
    ensures Truthy(r)
    ensures r == Scalar(Int(DefaultMaxWorkers)) || Get(kwargs, MaxWorkersKey) == Some(r)
    ensures Get(kwargs, MaxWorkersKey).Some? && Truthy(Get(kwargs, MaxWorkersKey).value) ==>
      r == Get(kwargs, MaxWorkersKey).value
    ensures Get(kwargs, MaxWorkersKey).None? || !Truthy(Get(kwargs, MaxWorkersKey).value) ==>
      r == Scalar(Int(DefaultMaxWorkers))
  {
    match Get(kwargs, MaxWorkersKey)
    case Some(v) => if Truthy(v) then v else Scalar(Int(DefaultMaxWorkers))
    case None => Scalar(Int(DefaultMaxWorkers))
  }

  /** `ThreadAction(*args, **kwargs)`: `max_workers` stays among the keyword arguments. */
  function NewThreadAction(args: seq<Scalar>, kwargs: seq<Entry>): ThreadAction
  {
    ThreadAction(Action(args, kwargs), MaxWorkers(kwargs))
  }

  /** An integer pool size: a non-zero one is kept, zero or none at all gives 5. */
  lemma PoolSize(args: seq<Scalar>, kwargs: seq<Entry>, n: int)
    ensures Get(kwargs, MaxWorkersKey) == Some(Scalar(Int(n))) ==>
      NewThreadAction(args, kwargs).maxWorkers == Scalar(Int(if n == 0 then DefaultMaxWorkers else n))
    ensures Get(kwargs, MaxWorkersKey) == None ==>
      NewThreadAction(args, kwargs).maxWorkers == Scalar(Int(DefaultMaxWorkers))
  {
  }

  /**
   * Passing `max_workers=n` to an action built without it sets the pool size
   * and changes the action's hash by exactly the contribution of that entry,
   * so two actions that run the same pool size (`max_workers=5` and none at
   * all) hash differently unless `hash('max_workers') == hash(5)`.
   */
  lemma PoolSizeIsHashed(h: Hasher, args: seq<Scalar>, kwargs: seq<Entry>, n: int)
    requires Get(kwargs, MaxWorkersKey) == None
    ensures var t := NewThreadAction(args, kwargs + [Entry(MaxWorkersKey, Scalar(Int(n)))]);
      && t.maxWorkers == Scalar(Int(if n == 0 then DefaultMaxWorkers else n))
      && Hash(h, t.action) == Xor(Hash(h, NewThreadAction(args, kwargs).action), Xor(h(Str(MaxWorkersKey)), h(Int(n))))
  {
    var e := Entry(MaxWorkersKey, Scalar(Int(n)));
    GetAppended(kwargs, e);
    KwargsHashSnoc(h, kwargs, e);
    var k, x, a := KwargsHash(h, kwargs), EntryHash(h, e), ArgsHash(h, args);
    calc {
      Xor(Xor(k, x), a);
      { XorAssociates(k, x, a); }
      Xor(k, Xor(x, a));
      { XorCommutes(x, a); }
      Xor(k, Xor(a, x));
      { XorAssociates(k, a, x); }
      Xor(Xor(k, a), x);
    }
  }

  /** Adding an entry under a key the dict lacks makes `get` find it. */
  lemma GetAppended(es: seq<Entry>, e: Entry)
    requires Get(es, e.key) == None
    ensures Get(es + [e], e.key) == Some(e.value)
  {
    var all := es + [e];
    var i := Find(all, e.key);
    assert Find(es, e.key) == |es|;
    assert all[|es|] == e;
    assert i == |es|;
  }

  // ---------------------------------------------------------------------------
  // Draining the completed fetches

  /** What `future.result()` gives for one fetch: the page text, or an exception. */
  datatype Outcome = Page(text: string) | Raised

  /** One fetch, as it completes: the URL it was submitted for and its outcome. */
  datatype Completion = Completion(url: string, outcome: Outcome)

  /** A yielded or settled page before parsing: its URL and its text. */
  type Fetched = (string, string)

  function Urls(cs: seq<Completion>): (r: seq<string>)
    ensures |r| == |cs| && forall i :: 0 <= i < |cs| ==> r[i] == cs[i].url
  {
    seq(|cs|, i requires 0 <= i < |cs| => cs[i].url)
  }

  /** The first components of a sequence of pairs. */
  function Firsts<A, B>(ps: seq<(A, B)>): (r: seq<A>)
    ensures |r| == |ps| && forall i :: 0 <= i < |ps| ==> r[i] == ps[i].0
  {
    seq(|ps|, i requires 0 <= i < |ps| => ps[i].0)
  }

  predicate HasFailure(cs: seq<Completion>)
  {
    exists i :: 0 <= i < |cs| && cs[i].outcome.Raised?
  }

  /** The position of the first fetch that raised, or `|cs|` when none did. */
  function FirstFailure(cs: seq<Completion>): (i: nat)
    ensures i <= |cs|
    ensures i < |cs| ==> cs[i].outcome.Raised?
    ensures forall j :: 0 <= j < i ==> cs[j].outcome.Page?
  {
    if cs == [] then 0 else if cs[0].outcome.Raised? then 0 else 1 + FirstFailure(cs[1..])
  }

  /** The pages the loop reaches: every completion before the first one that raised. */
  function Settled(cs: seq<Completion>): seq<Fetched>
  {
    var k := FirstFailure(cs);
    seq(k, i requires 0 <= i < k => (cs[i].url, cs[i].outcome.text))
  }

  /** Page `i` of `ps` is the first of a run of identical texts. */
  predicate StartsRun(ps: seq<Fetched>, i: int)
    requires 0 <= i < |ps|
  {
    i == 0 || ps[i].1 != ps[i - 1].1
  }

  /** The pages the guard lets through: the first page of every run of identical texts. */
  function NonRepeats(ps: seq<Fetched>): seq<Fetched>
  {
    if ps == [] then []
    else NonRepeats(ps[..|ps| - 1]) + (if StartsRun(ps, |ps| - 1) then [ps[|ps| - 1]] else [])
  }

  /** Each page's text replaced by what `parse` makes of it. */
  function Parsed<T>(parse: string -> T, ps: seq<Fetched>): (r: seq<(string, T)>)
    ensures |r| == |ps| && forall i :: 0 <= i < |ps| ==> r[i] == (ps[i].0, parse(ps[i].1))
  {
    seq(|ps|, i requires 0 <= i < |ps| => (ps[i].0, parse(ps[i].1)))
  }

  /** A page is let through exactly when it is the first of its run. */
  lemma {:induction false} NonRepeatsMembers(ps: seq<Fetched>, p: Fetched)
    ensures p in NonRepeats(ps) <==> exists i :: 0 <= i < |ps| && ps[i] == p && StartsRun(ps, i)
    decreases |ps|
  {
    if ps != [] {
      var n := |ps|;
      var init := ps[..n - 1];
      NonRepeatsMembers(init, p);
      if p in NonRepeats(ps) {
        if p in NonRepeats(init) {
          var i :| 0 <= i < |init| && init[i] == p && StartsRun(init, i);
          assert ps[i] == p && StartsRun(ps, i);
        } else {
          assert ps[n - 1] == p && StartsRun(ps, n - 1);
        }
      }
      if exists i :: 0 <= i < |ps| && ps[i] == p && StartsRun(ps, i) {
        var i :| 0 <= i < |ps| && ps[i] == p && StartsRun(ps, i);
        if i < n - 1 {
          assert init[i] == p && StartsRun(init, i);
        }
      }
    }
  }

  /** The last page let through has the text of the last page seen. */
  lemma {:induction false} NonRepeatsLast(ps: seq<Fetched>)
    requires ps != []
    ensures NonRepeats(ps) != []
    ensures NonRepeats(ps)[|NonRepeats(ps)| - 1].1 == ps[|ps| - 1].1
    decreases |ps|
  {
    var n := |ps|;
    if n > 1 && !StartsRun(ps, n - 1) {
      var init := ps[..n - 1];
      NonRepeatsLast(init);
    }
  }

  /** The first page seen is always let through, and comes first. */
  lemma {:induction false} NonRepeatsFirst(ps: seq<Fetched>)
    requires ps != []
    ensures NonRepeats(ps) != [] && NonRepeats(ps)[0] == ps[0]
    decreases |ps|
  {
    var n := |ps|;
    if n > 1 {
      var init := ps[..n - 1];
      NonRepeatsFirst(init);
    }
  }

  /** No two pages let through one after the other have the same text. */
  lemma {:induction false} NonRepeatsNoAdjacentTwins(ps: seq<Fetched>)
    ensures forall i :: 0 < i < |NonRepeats(ps)| ==> NonRepeats(ps)[i].1 != NonRepeats(ps)[i - 1].1
    decreases |ps|
  {
    if ps != [] {
      var n := |ps|;
      var init := ps[..n - 1];
      NonRepeatsNoAdjacentTwins(init);
      if n > 1 && StartsRun(ps, n - 1) {
        NonRepeatsLast(init);
      }
    }
  }

  /** When no two neighbouring pages share a text, every page is let through. */
  lemma {:induction false} DistinctNeighboursAllKept(ps: seq<Fetched>)
    requires forall i :: 0 < i < |ps| ==> ps[i].1 != ps[i - 1].1
    ensures NonRepeats(ps) == ps
    decreases |ps|
  {
    if ps != [] {
      var n := |ps|;
      var init := ps[..n - 1];
      DistinctNeighboursAllKept(init);
      assert init + [ps[n - 1]] == ps;
    }
  }

  /** Filtering twice changes nothing. */
  lemma NonRepeatsIdempotent(ps: seq<Fetched>)
    ensures NonRepeats(NonRepeats(ps)) == NonRepeats(ps)
  {
    NonRepeatsNoAdjacentTwins(ps);
    DistinctNeighboursAllKept(NonRepeats(ps));
  }

  /** Each URL is let through at most as often as it was seen. */
  lemma {:induction false} NonRepeatsUrls(ps: seq<Fetched>)
    ensures multiset(Firsts(NonRepeats(ps))) <= multiset(Firsts(ps))
    decreases |ps|
  {
    if ps != [] {
      var n := |ps|;
      var init := ps[..n - 1];
      NonRepeatsUrls(init);
      var tail := if StartsRun(ps, n - 1) then [ps[n - 1]] else [];
      assert Firsts(NonRepeats(ps)) == Firsts(NonRepeats(init)) + Firsts(tail);
      assert Firsts(ps) == Firsts(init) + [ps[n - 1].0];
    }
  }

  /** The settled pages come from the completions before the first failure, all of them when none failed. */
  lemma SettledPrefix(cs: seq<Completion>)
    ensures Firsts(Settled(cs)) == Urls(cs)[..FirstFailure(cs)]
    ensures !HasFailure(cs) <==> |Settled(cs)| == |cs|
  {
  }

  /** Every URL yielded was submitted, and no more often than it was submitted. */
  lemma YieldedUrlsSubmitted<T>(parse: string -> T, cs: seq<Completion>)
    ensures multiset(Firsts(Parsed(parse, NonRepeats(Settled(cs))))) <= multiset(Urls(cs))
  {
    var ps := NonRepeats(Settled(cs));
    assert Firsts(Parsed(parse, ps)) == Firsts(ps);
    NonRepeatsUrls(Settled(cs));
    SettledPrefix(cs);
    var k := FirstFailure(cs);
    assert Urls(cs) == Urls(cs)[..k] + Urls(cs)[k..];
  }

  /** Before any fetch has raised, the settled pages are all the pages so far. */
  lemma SettledAll(cs: seq<Completion>, i: nat)
    requires i <= |cs| && forall j :: 0 <= j < i ==> cs[j].outcome.Page?
    ensures |Settled(cs[..i])| == i
    ensures forall j :: 0 <= j < i ==> Settled(cs[..i])[j] == (cs[j].url, cs[j].outcome.text)
  {
    assert FirstFailure(cs[..i]) == i;
  }

  /** One more fetch that returned a page: it is yielded exactly when its text differs from the previous one. */
  lemma DrainStep<T>(parse: string -> T, cs: seq<Completion>, i: nat)
    requires i < |cs| && forall j :: 0 <= j <= i ==> cs[j].outcome.Page?
    ensures Parsed(parse, NonRepeats(Settled(cs[..i + 1]))) ==
      Parsed(parse, NonRepeats(Settled(cs[..i]))) +
      (if i == 0 || cs[i].outcome.text != cs[i - 1].outcome.text then [(cs[i].url, parse(cs[i].outcome.text))] else [])
  {
    SettledAll(cs, i);
    SettledAll(cs, i + 1);
    var ps, qs := Settled(cs[..i]), Settled(cs[..i + 1]);
    assert qs[..i] == ps;
    assert StartsRun(qs, i) <==> i == 0 || cs[i].outcome.text != cs[i - 1].outcome.text;
  }

  /** A fetch that raised ends the settled pages. */
  lemma DrainStops(cs: seq<Completion>, i: nat)
    requires i < |cs| && cs[i].outcome.Raised? && forall j :: 0 <= j < i ==> cs[j].outcome.Page?
    ensures HasFailure(cs)
    ensures Settled(cs) == Settled(cs[..i])
  {
    SettledAll(cs, i);
    assert FirstFailure(cs) == i;
  }

  /** A sub-multiset is no larger. */
  lemma {:induction false} SubMultisetSize<A>(a: multiset<A>, b: multiset<A>)
    requires a <= b
    ensures |a| <= |b|
    decreases a
  {
    if a != multiset{} {
      var x :| x in a;
      SubMultisetSize(a - multiset{x}, b - multiset{x});
    }
  }

  /**
   * What the drain yields when the completions are the submitted URLs in some
   * order: no URL more often than it was submitted, so at most `len(urls)`
   * pages, and, when no fetch raised, at least the first completed page.
   */
  lemma DrainBounds<T>(urls: seq<string>, cs: seq<Completion>, parse: string -> T)
    requires multiset(Urls(cs)) == multiset(urls)
    ensures var pages := Parsed(parse, NonRepeats(Settled(cs)));
      && multiset(Firsts(pages)) <= multiset(urls)
      && |pages| <= |urls|
      && (!HasFailure(cs) && urls != [] ==> pages != [] && pages[0] == (cs[0].url, parse(cs[0].outcome.text)))
  {
    var pages := Parsed(parse, NonRepeats(Settled(cs)));
    YieldedUrlsSubmitted(parse, cs);
    SubMultisetSize(multiset(Firsts(pages)), multiset(urls));
    if !HasFailure(cs) && urls != [] {
      assert |Urls(cs)| == |multiset(urls)|;
      SettledPrefix(cs);
      NonRepeatsFirst(Settled(cs));
    }
  }

  /**
   * `get_pages`, with the fetches completing in the order `completions`.
   * `pages` is what the generator yields; `failed` says whether it then
   * raised the exception of a fetch. The guard never asks for a stop, so
   * the loop ends only at the first failure or once every fetch is done.
   */
  method GetPages<T>(urls: seq<string>, completions: seq<Completion>, parse: string -> T)
      returns (pages: seq<(string, T)>, failed: bool)
    requires multiset(Urls(completions)) == multiset(urls)
    ensures failed <==> HasFailure(completions)
    ensures pages == Parsed(parse, NonRepeats(Settled(completions)))
    ensures multiset(Firsts(pages)) <= multiset(urls)
    ensures |pages| <= |urls|
    ensures !failed && urls != [] ==>
      pages != [] && pages[0] == (completions[0].url, parse(completions[0].outcome.text))
  {
    var guard := new CheckPageRepeat();
    pages := [];
    failed := false;
    var i := 0;
    while i < |completions|
      invariant 0 <= i <= |completions|
      invariant forall j :: 0 <= j < i ==> completions[j].outcome.Page?
      invariant pages == Parsed(parse, NonRepeats(Settled(completions[..i])))
      invariant guard.lastPageText == if i == 0 then None else Some(completions[i - 1].outcome.text)
      invariant !guard.checkBreak
    {
      var c := completions[i];
      if c.outcome.Raised? {
        DrainStops(completions, i);
        failed := true;
        break;
      }
      var text := c.outcome.text;
      var repeat := guard.Observe(text);
      DrainStep(parse, completions, i);
      if !repeat {
        pages := pages + [(c.url, parse(text))];
      } else if guard.checkBreak {
        break;
      }
      i := i + 1;
    }
    if !failed {
      assert completions[..i] == completions;
    }
    DrainBounds(urls, completions, parse);
  }
}
