/** The scrolling banner: the item list repeated eight times in one strip
    that slides left by half its width and starts over. */
module InfiniteMenu {
  import opened JsNumber
  import opened Circular

  const Copies := 8

  /** `Array(n).fill(items).flat()`: `n` copies of `items`, one after another. */
  function Repeat<T>(items: seq<T>, n: nat): (r: seq<T>)
    ensures |r| == n * |items|
    decreases n
  {
    if n == 0 then [] else items + Repeat(items, n - 1)
  }

  /** Position `k` of the strip shows item `k mod |items|`. */
  lemma {:induction false} RepeatAt<T>(items: seq<T>, n: nat, k: int)
    requires 0 <= k < n * |items|
    ensures Repeat(items, n)[k] == items[k % |items|]
    decreases n
  {
    if k >= |items| {
      RepeatAt(items, n - 1, k - |items|);
      ModAddMultiple(k - |items|, 1, |items|);
    } else {
      ModUnique(k, |items|, 0, k);
    }
  }

  lemma {:induction false} RepeatAdd<T>(items: seq<T>, a: nat, b: nat)
    ensures Repeat(items, a + b) == Repeat(items, a) + Repeat(items, b)
    decreases a
  {
    if a > 0 {
      calc {
        Repeat(items, a + b);
        items + Repeat(items, (a - 1) + b);
        { RepeatAdd(items, a - 1, b); }
        items + (Repeat(items, a - 1) + Repeat(items, b));
        (items + Repeat(items, a - 1)) + Repeat(items, b);
        Repeat(items, a) + Repeat(items, b);
      }
    }
  }

  /** The strip the banner draws. */
  function Strip<T>(items: seq<T>): (r: seq<T>)
    ensures |r| == Copies * |items|
    ensures forall k :: 0 <= k < |r| ==> r[k] == items[k % |items|]
  {
    var r := Repeat(items, Copies);
    forall k | 0 <= k < |r|
      ensures r[k] == items[k % |items|]
    {
      RepeatAt(items, Copies, k);
    }
    r
  }

  /** Sliding by half the strip lands on an identical picture: the second half
      is the first half again, so the restart of the animation is invisible. */
  lemma HalvesAgree<T>(items: seq<T>)
    ensures var r := Strip(items);
      r[..|r| / 2] == r[|r| / 2..] == Repeat(items, Copies / 2)
  {
    RepeatAdd(items, 4, 4);
  }
}
