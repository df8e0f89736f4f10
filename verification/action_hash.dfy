/**
 * The identity hash of a scraping action (`Action.__hash__` in
 * hobbit/actions/__init__.py).
 *
 * An action is described by the positional and keyword arguments it passes
 * to the HTML parser's `find_all`. Its hash XORs the hashes of the
 * positional arguments with a recursive XOR fold over the keyword mapping.
 * Python's built-in `hash` is salted per process, so it is not fixed here:
 * every function takes it as a parameter `h`, and every property below holds
 * for every choice of `h`.
 */
module ActionHash {
  import opened Optional
  import opened Folding
  import opened PyXor

  /** A hashable Python value that is not a mapping. */
  datatype Scalar = Str(text: string) | Int(n: int) | NoneValue

  /** A keyword-argument value: a scalar, or a (possibly nested) dict. */
  datatype Value = Scalar(scalar: Scalar) | Mapping(entries: seq<Entry>)

  /** One key/value pair of a dict, in insertion order. */
  datatype Entry = Entry(key: string, value: Value)

  /** `Action(*args, **kwargs)`: positional and keyword arguments. */
  datatype Action = Action(args: seq<Scalar>, kwargs: seq<Entry>)

  /** Python's `hash`, restricted to the scalars an action holds; it returns a Python int. */
  type Hasher = Scalar -> int

  /** `hash('')`, the seed of every fold. */
  function EmptyHash(h: Hasher): int
  {
    h(Str(""))
  }

  /** Python truthiness of a scalar. */
  predicate ScalarTruthy(s: Scalar)
  {
    match s
    case Str(t) => t != ""
    case Int(n) => n != 0
    case NoneValue => false
  }

  /** Python truthiness of a value: a dict is truthy when it is not empty. */
  predicate Truthy(v: Value)
  {
    match v
    case Scalar(s) => ScalarTruthy(s)
    case Mapping(es) => es != []
  }

  // ---------------------------------------------------------------------------
  // Dicts

  /** The position of the first entry with key `k`, or `|es|` when there is none. */
  function Find(es: seq<Entry>, k: string): (i: nat)
    ensures i <= |es|
    ensures i < |es| ==> es[i].key == k
    ensures forall j :: 0 <= j < i ==> es[j].key != k
  {
    if es == [] then 0 else if es[0].key == k then 0 else 1 + Find(es[1..], k)
  }

  /** `d.get(k)`. */
  function Get(es: seq<Entry>, k: string): Option<Value>
  {
    var i := Find(es, k);
    if i < |es| then Some(es[i].value) else None
  }

  /** `get` gives a value bound to `k`, and `None` exactly when no entry has key `k`. */
  lemma GetMeaning(es: seq<Entry>, k: string)
    ensures Get(es, k).None? <==> forall i :: 0 <= i < |es| ==> es[i].key != k
    ensures Get(es, k).Some? ==> exists i :: 0 <= i < |es| && es[i] == Entry(k, Get(es, k).value)
  {
    var i := Find(es, k);
    if i < |es| {
      assert es[i] == Entry(k, es[i].value);
    }
  }

  /** Keys of one dict are pairwise distinct. */
  predicate DistinctKeys(es: seq<Entry>)
  {
    forall i, j :: 0 <= i < j < |es| ==> es[i].key != es[j].key
  }

  /** Every dict in `v`, at every depth, has distinct keys, as a Python dict does. */
  predicate WellFormed(v: Value)
  {
    match v
    case Scalar(_) => true
    case Mapping(es) => DistinctKeys(es) && forall i :: 0 <= i < |es| ==> WellFormed(es[i].value)
  }

  /**
   * Python `==` on values: scalars are equal when identical; two dicts are
   * equal when they have the same size and every key of the first is bound
   * in the second to an equal value. Insertion order plays no part.
   */
  predicate Equal(a: Value, b: Value)
  {
    match a
    case Scalar(x) => b == Scalar(x)
    case Mapping(ea) => b.Mapping? && EntriesEqual(ea, b.entries)
  }

  predicate EntriesEqual(ea: seq<Entry>, eb: seq<Entry>)
  {
    |ea| == |eb| &&
    forall i :: 0 <= i < |ea| ==>
      Get(eb, ea[i].key).Some? && Equal(ea[i].value, Get(eb, ea[i].key).value)
  }

  // ---------------------------------------------------------------------------
  // The hash, as the source computes it

  /** `reduce(xor, xs)`: a left fold that starts from the first element. */
  function ReduceXor(xs: seq<int>): int
    requires |xs| > 0
  {
    if |xs| == 1 then xs[0] else Xor(ReduceXor(xs[..|xs| - 1]), xs[|xs| - 1])
  }

  /** `map(hash, args)`. */
  function HashAll(h: Hasher, args: seq<Scalar>): (r: seq<int>)
    ensures |r| == |args|
    ensures forall i :: 0 <= i < |args| ==> r[i] == h(args[i])
  {
    seq(|args|, i requires 0 <= i < |args| => h(args[i]))
  }

  /** The hash of the positional arguments, or `hash('')` when there are none. */
  function ArgsHash(h: Hasher, args: seq<Scalar>): int
  {
    if |args| > 0 then ReduceXor(HashAll(h, args)) else EmptyHash(h)
  }

  /**
   * `_get_kwargs_hash`: seed with `hash('')`, then XOR in every entry in
   * insertion order.
   */
  function KwargsHash(h: Hasher, kwargs: seq<Entry>): int
  {
    if kwargs == [] then EmptyHash(h)
    else Xor(KwargsHash(h, kwargs[..|kwargs| - 1]), EntryHash(h, kwargs[|kwargs| - 1]))
  }

  /**
   * What one entry contributes: a nested dict contributes its own recursive
   * hash and its key is not mixed in; a scalar contributes
   * `hash(key) ^ hash(value)`.
   */
  function EntryHash(h: Hasher, e: Entry): int
  {
    match e.value
    case Mapping(inner) => KwargsHash(h, inner)
    case Scalar(s) => Xor(h(Str(e.key)), h(s))
  }

  /** `Action.__hash__`. */
  function Hash(h: Hasher, a: Action): int
  {
    Xor(KwargsHash(h, a.kwargs), ArgsHash(h, a.args))
  }

  /** The hash of a value on its own: `hash` of a scalar, the recursive hash of a dict. */
  function ValueHash(h: Hasher, v: Value): int
  {
    match v
    case Scalar(s) => h(s)
    case Mapping(es) => KwargsHash(h, es)
  }

  /** `_hash_or_empty`: `hash(value)` for a truthy value, `hash('')` otherwise. */
  function HashOrEmpty(h: Hasher, v: Scalar): (r: int)
    ensures ScalarTruthy(v) ==> r == h(v)
    ensures !ScalarTruthy(v) ==> r == EmptyHash(h)
    ensures v.Str? ==> r == h(v)
  {
    if ScalarTruthy(v) then h(v) else EmptyHash(h)
  }

  /** Two descriptions of the same action: the same multiset of args, equal kwargs. */
  predicate SameDescription(a: Action, b: Action)
  {
    multiset(a.args) == multiset(b.args) && Equal(Mapping(a.kwargs), Mapping(b.kwargs))
  }

  // ---------------------------------------------------------------------------
  // XOR folds

  /** XOR of `f` over a sequence, starting from 0: the order-free reference definition. */
  function XorOf<T>(f: T -> int, xs: seq<T>): int
  {
    Fold(Xor, 0, f, xs)
  }

  lemma XorOfPermutation<T>(f: T -> int, xs: seq<T>, ys: seq<T>)
    requires multiset(xs) == multiset(ys)
    ensures XorOf(f, xs) == XorOf(f, ys)
  {
    XorMonoid();
    FoldPermutation(Xor, 0, f, xs, ys);
  }

  // ---------------------------------------------------------------------------
  // Positional arguments

  /** `reduce(xor, map(hash, args))` is the plain XOR of the argument hashes. */
  lemma {:induction false} ReduceXorIsXorOf(h: Hasher, args: seq<Scalar>)
    requires |args| > 0
    ensures ReduceXor(HashAll(h, args)) == XorOf(h, args)
    decreases |args|
  {
    var n := |args|;
    assert HashAll(h, args)[..n - 1] == HashAll(h, args[..n - 1]);
    if n == 1 {
      assert args[..0] == [];
      assert XorOf(h, args) == Xor(Fold(Xor, 0, h, args[..0]), h(args[0]));
      XorZero(h(args[0]));
      XorCommutes(h(args[0]), 0);
    } else {
      ReduceXorIsXorOf(h, args[..n - 1]);
    }
  }

  /** Reordering the positional arguments does not change their hash. */
  lemma ArgsHashPermutation(h: Hasher, a: seq<Scalar>, b: seq<Scalar>)
    requires multiset(a) == multiset(b)
    ensures ArgsHash(h, a) == ArgsHash(h, b)
  {
    assert |a| == |multiset(a)| == |multiset(b)| == |b|;
    if |a| > 0 {
      ReduceXorIsXorOf(h, a);
      ReduceXorIsXorOf(h, b);
      XorOfPermutation(h, a, b);
    }
  }

  /**
   * Two equal positional arguments cancel: `('a', 'a', 'b')` hashes like
   * `('b',)`. When nothing else is left the pair hashes to 0, not to the
   * `hash('')` of an empty argument list.
   */
  lemma ArgsPairCancels(h: Hasher, x: Scalar, rest: seq<Scalar>)
    ensures rest != [] ==> ArgsHash(h, [x, x] + rest) == ArgsHash(h, rest)
    ensures ArgsHash(h, [x, x]) == 0
  {
    XorMonoid();
    ReduceXorIsXorOf(h, [x, x]);
    assert [x, x][..1] == [x] && [x][..0] == [];
    assert XorOf(h, [x, x]) == 0 by {
      XorZero(h(x));
      XorCommutes(h(x), 0);
      XorSelf(h(x));
    }
    if rest != [] {
      ReduceXorIsXorOf(h, [x, x] + rest);
      ReduceXorIsXorOf(h, rest);
      FoldAppend(Xor, 0, h, [x, x], rest);
      XorCommutes(0, XorOf(h, rest));
      XorZero(XorOf(h, rest));
    }
  }

  // ---------------------------------------------------------------------------
  // Keyword arguments

  /** Appending one entry XORs in its contribution. */
  lemma KwargsHashSnoc(h: Hasher, es: seq<Entry>, e: Entry)
    ensures KwargsHash(h, es + [e]) == Xor(KwargsHash(h, es), EntryHash(h, e))
  {
    assert (es + [e])[..|es|] == es;
  }

  /** The contribution of each entry, as a first-class function. */
  function EntryHasher(h: Hasher): Entry -> int
  {
    e => EntryHash(h, e)
  }

  /** The kwargs hash is `hash('')` XORed with the contribution of every entry. */
  lemma {:induction false} KwargsHashIsXorOf(h: Hasher, es: seq<Entry>)
    ensures KwargsHash(h, es) == Xor(EmptyHash(h), XorOf(EntryHasher(h), es))
    decreases |es|
  {
    if es == [] {
      XorZero(EmptyHash(h));
    } else {
      var n := |es|;
      KwargsHashIsXorOf(h, es[..n - 1]);
      XorAssociates(EmptyHash(h), XorOf(EntryHasher(h), es[..n - 1]), EntryHash(h, es[n - 1]));
    }
  }

  /** Reordering the key/value pairs of one dict does not change its hash. */
  lemma KwargsHashPermutation(h: Hasher, a: seq<Entry>, b: seq<Entry>)
    requires multiset(a) == multiset(b)
    ensures KwargsHash(h, a) == KwargsHash(h, b)
  {
    KwargsHashIsXorOf(h, a);
    KwargsHashIsXorOf(h, b);
    XorOfPermutation(EntryHasher(h), a, b);
  }

  /** The XOR fold around one element, split into its three parts. */
  lemma XorOfAround<T>(f: T -> int, before: seq<T>, x: T, after: seq<T>)
    ensures XorOf(f, before + [x] + after) == Xor(Xor(XorOf(f, before), f(x)), XorOf(f, after))
  {
    XorMonoid();
    FoldAppend(Xor, 0, f, before + [x], after);
    FoldAppend(Xor, 0, f, before, [x]);
    assert [x][..0] == [];
    assert XorOf(f, [x]) == f(x) by {
      XorCommutes(0, f(x));
      XorZero(f(x));
    }
  }

  /** Replacing one entry by another that contributes the same leaves the hash unchanged. */
  lemma ReplaceEntry(h: Hasher, before: seq<Entry>, after: seq<Entry>, e1: Entry, e2: Entry)
    requires EntryHash(h, e1) == EntryHash(h, e2)
    ensures KwargsHash(h, before + [e1] + after) == KwargsHash(h, before + [e2] + after)
  {
    KwargsHashIsXorOf(h, before + [e1] + after);
    KwargsHashIsXorOf(h, before + [e2] + after);
    XorOfAround(EntryHasher(h), before, e1, after);
    XorOfAround(EntryHasher(h), before, e2, after);
  }

  /** Taking the entry at `j` out of a dict takes its contribution out of the hash. */
  lemma RemoveEntry(h: Hasher, es: seq<Entry>, j: nat)
    requires j < |es|
    ensures KwargsHash(h, es) == Xor(KwargsHash(h, es[..j] + es[j + 1..]), EntryHash(h, es[j]))
  {
    var rest := es[..j] + es[j + 1..];
    MoveToEnd(es, j);
    KwargsHashPermutation(h, es, rest + [es[j]]);
    KwargsHashSnoc(h, rest, es[j]);
  }

  /**
   * The key of a nested dict is dropped: `{'attrs': M}` and `{'x': M}` hash
   * alike, wherever the entry sits among the others.
   */
  lemma NestedKeyIgnored(h: Hasher, before: seq<Entry>, after: seq<Entry>, k1: string, k2: string, m: seq<Entry>)
    ensures KwargsHash(h, before + [Entry(k1, Mapping(m))] + after)
         == KwargsHash(h, before + [Entry(k2, Mapping(m))] + after)
  {
    ReplaceEntry(h, before, after, Entry(k1, Mapping(m)), Entry(k2, Mapping(m)));
  }

  /**
   * Each nesting level seeds its own `hash('')`: a dict whose only entry is a
   * nested dict `m` hashes to `hash('') ^ hash(m)`, so `{'attrs': {}}` hashes to 0.
   */
  lemma NestedLevelSeed(h: Hasher, k: string, m: seq<Entry>)
    ensures KwargsHash(h, [Entry(k, Mapping(m))]) == Xor(EmptyHash(h), KwargsHash(h, m))
    ensures KwargsHash(h, [Entry(k, Mapping([]))]) == 0
  {
    KwargsHashSnoc(h, [], Entry(k, Mapping(m)));
    KwargsHashSnoc(h, [], Entry(k, Mapping([])));
    assert [] + [Entry(k, Mapping(m))] == [Entry(k, Mapping(m))];
    assert [] + [Entry(k, Mapping([]))] == [Entry(k, Mapping([]))];
    XorSelf(EmptyHash(h));
  }

  /** One-entry dicts with the same key and scalar values hash alike exactly when the values do. */
  lemma ScalarEntryDistinguishes(h: Hasher, k: string, a: Scalar, b: Scalar)
    ensures KwargsHash(h, [Entry(k, Scalar(a))]) == KwargsHash(h, [Entry(k, Scalar(b))]) <==> h(a) == h(b)
  {
    KwargsHashSnoc(h, [], Entry(k, Scalar(a)));
    KwargsHashSnoc(h, [], Entry(k, Scalar(b)));
    assert [] + [Entry(k, Scalar(a))] == [Entry(k, Scalar(a))];
    assert [] + [Entry(k, Scalar(b))] == [Entry(k, Scalar(b))];
    XorAssociates(EmptyHash(h), h(Str(k)), h(a));
    XorAssociates(EmptyHash(h), h(Str(k)), h(b));
    XorCancels(Xor(EmptyHash(h), h(Str(k))), h(a), h(b));
  }

  /** An action without arguments hashes to `hash('') ^ hash('')`, i.e. to 0. */
  lemma EmptyActionHash(h: Hasher)
    ensures KwargsHash(h, []) == EmptyHash(h)
    ensures ArgsHash(h, []) == EmptyHash(h)
    ensures Hash(h, Action([], [])) == 0
  {
    XorSelf(EmptyHash(h));
  }

  // ---------------------------------------------------------------------------
  // Equal values hash alike, at every depth

  /** `Find` is determined by its contract. */
  lemma {:induction false} FindUnique(es: seq<Entry>, k: string, i: nat)
    requires i <= |es| && (i < |es| ==> es[i].key == k)
    requires forall j :: 0 <= j < i ==> es[j].key != k
    ensures Find(es, k) == i
    decreases |es|
  {
    if es != [] && es[0].key != k {
      FindUnique(es[1..], k, i - 1);
    }
  }

  /** In a dict with distinct keys, `get` of an entry's key finds that entry's value. */
  lemma GetOwnKey(es: seq<Entry>, i: nat)
    requires DistinctKeys(es) && i < |es|
    ensures Get(es, es[i].key) == Some(es[i].value)
  {
    FindUnique(es, es[i].key, i);
  }

  /** Every well-formed value equals itself under Python `==`, at every depth. */
  lemma {:induction false} EqualReflexive(v: Value)
    requires WellFormed(v)
    ensures Equal(v, v)
    decreases v, 1
  {
    match v
    case Scalar(_) =>
    case Mapping(es) => EntriesEqualReflexive(es);
  }

  lemma {:induction false} EntriesEqualReflexive(es: seq<Entry>)
    requires DistinctKeys(es) && forall i :: 0 <= i < |es| ==> WellFormed(es[i].value)
    ensures EntriesEqual(es, es)
    decreases es, 0
  {
    forall i | 0 <= i < |es|
      ensures Get(es, es[i].key).Some? && Equal(es[i].value, Get(es, es[i].key).value)
    {
      GetOwnKey(es, i);
      EqualReflexive(es[i].value);
    }
  }

  /** Removing an entry with another key does not change what `get` finds. */
  lemma GetSkipping(es: seq<Entry>, j: nat, k: string)
    requires j < |es| && es[j].key != k
    ensures Get(es[..j] + es[j + 1..], k) == Get(es, k)
  {
    var rest := es[..j] + es[j + 1..];
    var i := Find(es, k);
    if i < j {
      assert rest[i] == es[i];
      FindUnique(rest, k, i);
    } else {
      assert forall t :: j <= t < |rest| ==> rest[t] == es[t + 1];
      assert forall t :: 0 <= t < j ==> rest[t] == es[t];
      FindUnique(rest, k, i - 1);
    }
  }

  /** Equal values have the same `ValueHash`: insertion order is irrelevant at every depth. */
  lemma {:induction false} EqualValuesHashAlike(h: Hasher, a: Value, b: Value)
    requires WellFormed(a) && Equal(a, b)
    ensures ValueHash(h, a) == ValueHash(h, b)
    decreases a, 1
  {
    match a
    case Scalar(_) =>
    case Mapping(ea) =>
      EqualEntriesHashAlike(h, ea, b.entries);
  }

  /** Taking the last entry out of `ea` and the entry with its key out of `eb` leaves equal dicts. */
  lemma EqualWithoutLast(ea: seq<Entry>, eb: seq<Entry>, j: nat)
    requires DistinctKeys(ea) && EntriesEqual(ea, eb) && ea != []
    requires j < |eb| && eb[j].key == ea[|ea| - 1].key
    ensures EntriesEqual(ea[..|ea| - 1], eb[..j] + eb[j + 1..])
  {
    var n := |ea|;
    var pre, rest := ea[..n - 1], eb[..j] + eb[j + 1..];
    forall i | 0 <= i < |pre|
      ensures pre[i] == ea[i] && Get(rest, pre[i].key) == Get(eb, ea[i].key)
    {
      assert ea[i].key != ea[n - 1].key;
      GetSkipping(eb, j, ea[i].key);
    }
  }

  lemma {:induction false} EqualEntriesHashAlike(h: Hasher, ea: seq<Entry>, eb: seq<Entry>)
    requires DistinctKeys(ea) && forall i :: 0 <= i < |ea| ==> WellFormed(ea[i].value)
    requires EntriesEqual(ea, eb)
    ensures KwargsHash(h, ea) == KwargsHash(h, eb)
    decreases ea, 0
  {
    if ea != [] {
      var n := |ea|;
      var last := ea[n - 1];
      assert Get(eb, last.key).Some? && Equal(last.value, Get(eb, last.key).value);
      var j := Find(eb, last.key);
      assert Equal(last.value, eb[j].value);
      var pre, rest := ea[..n - 1], eb[..j] + eb[j + 1..];
      EqualWithoutLast(ea, eb, j);
      // the rest of `ea` hashes like the rest of `eb`
      EqualEntriesHashAlike(h, pre, rest);
      // the last entry of `ea` contributes what its partner in `eb` does
      EqualValuesHashAlike(h, last.value, eb[j].value);
      assert EntryHash(h, last) == EntryHash(h, eb[j]);
      // so both folds agree
      RemoveEntry(h, eb, j);
      RemoveEntry(h, ea, n - 1);
      assert ea[..n - 1] + ea[n..] == pre;
    }
  }

  /**
   * The order-independence the identity hash exists for: two descriptions of
   * one action, built in different orders, hash alike.
   */
  lemma SameDescriptionHashesAlike(h: Hasher, a: Action, b: Action)
    requires WellFormed(Mapping(a.kwargs)) && SameDescription(a, b)
    ensures Hash(h, a) == Hash(h, b)
  {
    ArgsHashPermutation(h, a.args, b.args);
    EqualValuesHashAlike(h, Mapping(a.kwargs), Mapping(b.kwargs));
  }
}
