/** `modern_python_demo/pipelines.py`: generator stages over finite inputs.
    A stage is a function from the items it is fed to the items it yields;
    `compose` feeds each stage's output to the next. */
module Pipelines {

  /** What a stage built by `pipeline_stage` is: iterable in, items out. */
  type Stage<!T> = seq<T> -> seq<T>

  /** `pipeline_stage(func)(*args)`: a stage that runs the generator `func`
      on its input with the arguments bound at construction time. */
  function PipelineStage<T(!new), A>(func: (seq<T>, A) -> seq<T>, args: A): (stage: Stage<T>)
    ensures forall items :: stage(items) == func(items, args)
  {
    items => func(items, args)
  }

  predicate IsEven(i: int) {
    i % 2 == 0
  }

  /** The body of the generator `filter_even`. */
  function FilterEvenItems(items: seq<int>): (r: seq<int>)
    ensures forall k :: 0 <= k < |r| ==> IsEven(r[k])
  {
    if items == [] then []
    else
      (if IsEven(items[0]) then [items[0]] else []) + FilterEvenItems(items[1..])
  }

  /** `filter_even()`. */
  function FilterEven(): (r: Stage<int>) {
    PipelineStage((items: seq<int>, _: ()) => FilterEvenItems(items), ())
  }

  /** The body of the generator `multiply`. */
  function MultiplyItems(items: seq<int>, factor: int): (r: seq<int>)
    ensures |r| == |items|
    ensures forall k :: 0 <= k < |r| ==> r[k] == items[k] * factor
  {
    if items == [] then [] else [items[0] * factor] + MultiplyItems(items[1..], factor)
  }

  /** `multiply(factor=...)`, by default doubling. */
  function Multiply(factor: int := 2): (r: Stage<int>) {
    PipelineStage(MultiplyItems, factor)
  }

  /** The loop of `composed`: each stage in turn replaces the data. */
  function Run<T>(stages: seq<Stage<T>>, data: seq<T>): (r: seq<T>) {
    if stages == [] then data else Run(stages[1..], stages[0](data))
  }

  /** `compose(*stages)`. */
  function Compose<T(!new)>(stages: seq<Stage<T>>): (composed: Stage<T>)
    ensures forall data :: composed(data) == Run(stages, data)
  {
    data => Run(stages, data)
  }

  // ---------------------------------------------------------------------------
  // filter_even
  // ---------------------------------------------------------------------------

  /** Filtering distributes over concatenation: the even items keep their
      order, so filtering is the same as filtering each half. */
  lemma {:induction false} FilterEvenAppend(a: seq<int>, b: seq<int>)
    ensures FilterEvenItems(a + b) == FilterEvenItems(a) + FilterEvenItems(b)
  {
    if a == [] {
      assert a + b == b;
    } else {
      assert (a + b)[1..] == a[1..] + b;
      FilterEvenAppend(a[1..], b);
    }
  }

  /** Each even value occurs as often as in the input, and no odd value
      occurs at all. */
  lemma {:induction false} FilterEvenCounts(items: seq<int>)
    ensures forall x :: multiset(FilterEvenItems(items))[x] == if IsEven(x) then multiset(items)[x] else 0
  {
    if items != [] {
      assert items == [items[0]] + items[1..];
      FilterEvenCounts(items[1..]);
    }
  }

  /** The stage keeps an item exactly when it is even. */
  lemma FilterEvenSingle(x: int)
    ensures FilterEven()([x]) == if IsEven(x) then [x] else []
  {
    assert FilterEvenItems([x]) == (if IsEven(x) then [x] else []) + FilterEvenItems([]);
  }

  /** An input of even items passes unchanged, so filtering twice is
      filtering once. */
  lemma {:induction false} FilterEvenKeepsEven(items: seq<int>)
    requires forall k :: 0 <= k < |items| ==> IsEven(items[k])
    ensures FilterEvenItems(items) == items
  {
    if items != [] {
      FilterEvenKeepsEven(items[1..]);
    }
  }

  lemma FilterEvenIdempotent(items: seq<int>)
    ensures FilterEven()(FilterEven()(items)) == FilterEven()(items)
  {
    FilterEvenKeepsEven(FilterEvenItems(items));
  }

  // ---------------------------------------------------------------------------
  // multiply
  // ---------------------------------------------------------------------------

  /** The default factor doubles each item. */
  lemma MultiplyDefaultDoubles(items: seq<int>)
    ensures Multiply()(items) == MultiplyItems(items, 2)
    ensures forall k :: 0 <= k < |items| ==> Multiply()(items)[k] == 2 * items[k]
  {
  }

  /** Two multiply stages are one with the product factor. */
  lemma MultiplyTwice(items: seq<int>, f: int, g: int)
    ensures Multiply(g)(Multiply(f)(items)) == Multiply(f * g)(items)
  {
    var once := MultiplyItems(items, f);
    var r := MultiplyItems(once, g);
    forall k | 0 <= k < |items| ensures r[k] == items[k] * (f * g) {
      MulAssoc(items[k], f, g);
    }
    assert r == MultiplyItems(items, f * g);
  }

  lemma MulAssoc(a: int, b: int, c: int)
    ensures a * b * c == a * (b * c)
  {
  }

  /** Multiplying and filtering commute when the factor is odd: an item is
      even exactly when its odd multiple is. */
  lemma {:induction false} OddMultiplyCommutesWithFilter(items: seq<int>, factor: int)
    requires !IsEven(factor)
    ensures FilterEvenItems(MultiplyItems(items, factor)) == MultiplyItems(FilterEvenItems(items), factor)
  {
    if items != [] {
      var x := items[0];
      assert IsEven(x * factor) <==> IsEven(x) by {
        OddProductParity(x, factor);
      }
      assert MultiplyItems(items, factor)[1..] == MultiplyItems(items[1..], factor);
      OddMultiplyCommutesWithFilter(items[1..], factor);
      if IsEven(x) {
        assert FilterEvenItems(items) == [x] + FilterEvenItems(items[1..]);
      } else {
        assert FilterEvenItems(items) == FilterEvenItems(items[1..]);
      }
    }
  }

  lemma OddProductParity(x: int, factor: int)
    requires !IsEven(factor)
    ensures IsEven(x * factor) <==> IsEven(x)
  {
    var q := factor / 2;
    assert factor == 2 * q + 1;
    assert x * factor == 2 * (x * q) + x;
  }

  // ---------------------------------------------------------------------------
  // compose
  // ---------------------------------------------------------------------------

  /** `compose()` is the identity. */
  lemma ComposeEmpty<T(!new)>(data: seq<T>)
    ensures Compose<T>([])(data) == data
  {
  }

  /** Stages apply left to right: composing `s + t` runs all of `s`, then all
      of `t` on what `s` produced. */
  lemma {:induction false} RunAppend<T>(s: seq<Stage<T>>, t: seq<Stage<T>>, data: seq<T>)
    ensures Run(s + t, data) == Run(t, Run(s, data))
    decreases |s|
  {
    if s == [] {
      assert s + t == t;
    } else {
      assert (s + t)[1..] == s[1..] + t;
      RunAppend(s[1..], t, s[0](data));
    }
  }

  lemma ComposeAppend<T(!new)>(s: seq<Stage<T>>, t: seq<Stage<T>>, data: seq<T>)
    ensures Compose(s + t)(data) == Compose(t)(Compose(s)(data))
  {
    RunAppend(s, t, data);
  }

  /** The last stage is applied last: `compose(s1, ..., sn)(d) == sn(compose(s1, ..., sn-1)(d))`. */
  lemma ComposeLast<T(!new)>(s: seq<Stage<T>>, last: Stage<T>, data: seq<T>)
    ensures Compose(s + [last])(data) == last(Compose(s)(data))
  {
    RunAppend(s, [last], data);
  }

  /** `compose(filter_even(), multiply(factor=k))` multiplies the even items. */
  lemma FilterThenMultiply(items: seq<int>, factor: int)
    ensures Compose([FilterEven(), Multiply(factor)])(items) == MultiplyItems(FilterEvenItems(items), factor)
  {
    var stages := [FilterEven(), Multiply(factor)];
    assert stages[1..] == [Multiply(factor)];
    assert Run(stages, items) == Run([Multiply(factor)], FilterEven()(items));
    assert Run([Multiply(factor)], FilterEven()(items)) == Run([], Multiply(factor)(FilterEven()(items)));
  }

  /** `list(compose(filter_even(), multiply(factor=3))(range(6))) == [0, 6, 12]`. */
  lemma ComposeExample()
    ensures Compose([FilterEven(), Multiply(3)])([0, 1, 2, 3, 4, 5]) == [0, 6, 12]
  {
    FilterThenMultiply([0, 1, 2, 3, 4, 5], 3);
    EvenOfRangeSix();
    assert MultiplyItems([0, 2, 4], 3) == [0, 6, 12];
  }

  lemma EvenOfRangeSix()
    ensures FilterEvenItems([0, 1, 2, 3, 4, 5]) == [0, 2, 4]
  {
    assert FilterEvenItems([5]) == [];
    assert FilterEvenItems([4, 5]) == [4] by {
      assert [4, 5][1..] == [5];
    }
    assert FilterEvenItems([3, 4, 5]) == [4] by {
      assert [3, 4, 5][1..] == [4, 5];
    }
    assert FilterEvenItems([2, 3, 4, 5]) == [2, 4] by {
      assert [2, 3, 4, 5][1..] == [3, 4, 5];
    }
    assert FilterEvenItems([1, 2, 3, 4, 5]) == [2, 4] by {
      assert [1, 2, 3, 4, 5][1..] == [2, 3, 4, 5];
    }
    assert FilterEvenItems([0, 1, 2, 3, 4, 5]) == [0, 2, 4] by {
      assert [0, 1, 2, 3, 4, 5][1..] == [1, 2, 3, 4, 5];
    }
  }
}
