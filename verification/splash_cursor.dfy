/** The cursor trail: every mouse move adds a coloured splash at the pointer,
    and only the fifteen most recent splashes are kept. */
module SplashCursor {
  const MaxSplashes := 15

  const Colors: seq<string> := ["#e11d48", "#db2777", "#c026d3", "#9333ea", "#7c3aed", "#4f46e5", "#2563eb"]

  /** `id` is the `Date.now()` reading of the move that made it; `x` and `y`
      are the event's `clientX` and `clientY`, which are JavaScript numbers and
      are only copied. */
  datatype Splash = Splash(id: int, x: real, y: real, color: string)

  /** `colors[Math.floor(Math.random() * colors.length)]`, with the random
      number in [0, 1) passed in. */
  function PickColor(roll: real): (c: string)
    requires 0.0 <= roll < 1.0
    ensures c in Colors
    ensures exists k :: 0 <= k < |Colors| && c == Colors[k] && k as real <= roll * 7.0 < k as real + 1.0
  {
    var k := (roll * |Colors| as real).Floor;
    Colors[k]
  }

  /** The splash a mouse move at `now` makes: the event's client coordinates
      and a colour drawn with `roll`. */
  function MakeSplash(now: int, clientX: real, clientY: real, roll: real): (s: Splash)
    requires 0.0 <= roll < 1.0
    ensures s.id == now && s.x == clientX && s.y == clientY
    ensures s.color in Colors
  {
    Splash(now, clientX, clientY, PickColor(roll))
  }

  /** `addSplash`, the mouse-move listener: the trail afterwards ends at the
      pointer. */
  function OnMouseMove(prev: seq<Splash>, now: int, clientX: real, clientY: real, roll: real): (r: seq<Splash>)
    requires 0.0 <= roll < 1.0
    ensures |r| == if |prev| + 1 < MaxSplashes then |prev| + 1 else MaxSplashes
    ensures r[|r| - 1].x == clientX && r[|r| - 1].y == clientY && r[|r| - 1].color in Colors
    ensures r[..|r| - 1] == prev[|prev| - (|r| - 1)..]
  {
    AddSplash(prev, MakeSplash(now, clientX, clientY, roll))
  }

  /** `[...prev, splash].slice(-15)`: a negative start counts from the end and
      is clamped to the start. */
  function AddSplash<T>(prev: seq<T>, s: T): (r: seq<T>)
    ensures |r| == if |prev| + 1 < MaxSplashes then |prev| + 1 else MaxSplashes
    ensures r[|r| - 1] == s
    ensures r[..|r| - 1] == prev[|prev| - (|r| - 1)..]
  {
    var all := prev + [s];
    var start := if |all| - MaxSplashes < 0 then 0 else |all| - MaxSplashes;
    all[start..]
  }

  /** The last `n` elements of `xs`, or all of them when there are fewer. */
  function LastN<T>(xs: seq<T>, n: nat): (r: seq<T>)
    ensures |r| == if |xs| < n then |xs| else n
    ensures r == xs[|xs| - |r|..]
  {
    if |xs| < n then xs else xs[|xs| - n..]
  }

  /** Splashes added one after another, starting from `prev`. */
  function AddAll<T>(prev: seq<T>, moves: seq<T>): seq<T>
    decreases |moves|
  {
    if |moves| == 0 then prev else AddAll(AddSplash(prev, moves[0]), moves[1..])
  }

  /** However many moves there have been, the trail is the fifteen most recent
      splashes in the order they were made. */
  lemma {:induction false} TrailIsLastFifteen<T>(prev: seq<T>, moves: seq<T>)
    requires |prev| <= MaxSplashes
    ensures AddAll(prev, moves) == LastN(prev + moves, MaxSplashes)
    decreases |moves|
  {
    if |moves| == 0 {
      assert prev + moves == prev;
    } else {
      TrailIsLastFifteen(AddSplash(prev, moves[0]), moves[1..]);
      AddAllStep(prev, moves);
      LastNStep(prev, moves);
    }
  }

  /** Adding the first move and then the rest is adding them all. */
  lemma AddAllStep<T>(prev: seq<T>, moves: seq<T>)
    requires |moves| > 0
    ensures AddAll(prev, moves) == AddAll(AddSplash(prev, moves[0]), moves[1..])
  {
  }

  /** The last fifteen after the first move and the rest are the last fifteen of all. */
  lemma LastNStep<T>(prev: seq<T>, moves: seq<T>)
    requires |prev| <= MaxSplashes && |moves| > 0
    ensures LastN(AddSplash(prev, moves[0]) + moves[1..], MaxSplashes) == LastN(prev + moves, MaxSplashes)
  {
    LastNShift(prev, moves[0], moves[1..]);
    HeadTail(moves);
  }

  lemma HeadTail<T>(xs: seq<T>)
    requires |xs| > 0
    ensures [xs[0]] + xs[1..] == xs
  {
  }

  /** Trimming before appending more does not change the last fifteen. */
  lemma LastNShift<T>(prev: seq<T>, s: T, rest: seq<T>)
    requires |prev| <= MaxSplashes
    ensures LastN(AddSplash(prev, s) + rest, MaxSplashes) == LastN(prev + ([s] + rest), MaxSplashes)
  {
    var all := prev + [s];
    var a := AddSplash(prev, s);
    var d := |all| - |a|;
    assert a == all[d..];
    var x, y := a + rest, all + rest;
    assert prev + ([s] + rest) == y;
    DropPrefix(all, rest, d);
    assert x == y[d..];
    var n := MaxSplashes;
    if |x| >= n {
      DropTwice(y, d, |x| - n);
    } else {
      assert d == 0;
    }
  }

  lemma DropPrefix<T>(a: seq<T>, b: seq<T>, d: nat)
    requires d <= |a|
    ensures a[d..] + b == (a + b)[d..]
  {
  }

  lemma DropTwice<T>(y: seq<T>, d: nat, i: nat)
    requires d + i <= |y|
    ensures y[d..][i..] == y[d + i..]
  {
  }
}
