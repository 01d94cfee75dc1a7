/** The rotating headline: a list of phrases shown one at a time, each leaving
    and entering in three animation phases, drawn letter by letter with a
    per-letter transition delay, inside a box as wide as the longest phrase. */
module RotatingText {
  import opened Wrappers
  import opened Circular
  import opened UriComponent

  const AnimationDuration := 600
  const DisplayDuration := 2000
  const ResetDelay := 20
  const LetterDelayMs := 40
  /** Margin between the prefix and the phrase, in pixels. */
  const PrefixMargin := 8

  // ---------------------------------------------------------------------------
  // The longest phrase
  // ---------------------------------------------------------------------------

  /** Where `texts.reduce((a, b) => a.length > b.length ? a : b)` ends up: the
      left fold keeps the accumulator only while it is strictly longer, so a
      tie goes to the later phrase. Phrases are JavaScript strings, so a length
      counts UTF-16 code units and a character outside the BMP counts twice. */
  function LongestIndex(texts: seq<JsString>): (k: nat)
    requires |texts| > 0
    ensures k < |texts|
    ensures forall j :: 0 <= j < |texts| ==> |texts[j]| <= |texts[k]|
    ensures forall j :: k < j < |texts| ==> |texts[j]| < |texts[k]|
    decreases |texts|
  {
    if |texts| == 1 then 0
    else
      var prev := LongestIndex(texts[..|texts| - 1]);
      assert forall j :: 0 <= j < |texts| - 1 ==> texts[..|texts| - 1][j] == texts[j];
      if |texts[prev]| > |texts[|texts| - 1]| then prev else |texts| - 1
  }

  /** `longestText`: the empty string when there are no phrases. */
  function LongestText(texts: seq<JsString>): (r: JsString)
    ensures |texts| == 0 ==> r == []
    ensures forall j :: 0 <= j < |texts| ==> |texts[j]| <= |r|
    ensures |texts| > 0 ==>
      exists k :: 0 <= k < |texts| && r == texts[k] && forall j :: k < j < |texts| ==> |texts[j]| < |r|
  {
    if |texts| == 0 then [] else texts[LongestIndex(texts)]
  }

  /** On a tie the later phrase is kept. */
  lemma LongestTieGoesLast()
    ensures LongestText([Units("ab"), Units("cd")]) == Units("cd")
    ensures LongestText([Units("ab"), Units("c"), Units("de")]) == Units("de")
  {
    assert [Units("ab"), Units("cd")][..1] == [Units("ab")];
    var t := [Units("ab"), Units("c"), Units("de")];
    assert t[..2][..1] == [Units("ab")];
    assert LongestIndex(t[..2]) == 0;
  }

  /** An emoji is a surrogate pair, two code units long, so it ties with a
      two-letter phrase and beats a one-letter one. */
  lemma EmojiCountsTwice()
    ensures LongestText([Units("ab"), [0xD83D, 0xDE00]]) == [0xD83D, 0xDE00]
    ensures LongestText([[0xD83D, 0xDE00], Units("a")]) == [0xD83D, 0xDE00]
  {
    assert [Units("ab"), [0xD83D, 0xDE00]][..1] == [Units("ab")];
    assert [[0xD83D, 0xDE00], Units("a")][..1] == [[0xD83D, 0xDE00]];
  }

  /** The box width that never changes while phrases rotate: the prefix, the
      longest phrase and, when there is a non-empty prefix, the margin. */
  function StableContainerWidth(prefixWidth: nat, longestWidth: nat, prefix: Option<JsString>): (w: nat)
    ensures w >= prefixWidth + longestWidth
    ensures w - (prefixWidth + longestWidth) == if prefix.Some? && prefix.value != [] then PrefixMargin else 0
  {
    prefixWidth + longestWidth + (if prefix.Some? && prefix.value != [] then PrefixMargin else 0)
  }

  // ---------------------------------------------------------------------------
  // The rotation
  // ---------------------------------------------------------------------------

  /** `animationState`, drawn with the classes state-in, state-out and state-reset. */
  datatype Phase = In | Out | Reset

  datatype Rotor = Rotor(count: nat, index: int, phase: Phase)

  predicate Valid(r: Rotor) {
    InRange(r.index, r.count)
  }

  /** The first phrase, entering. There must be a phrase: with none, the
      current phrase is undefined and splitting it fails. */
  function Init(count: nat): (r: Rotor)
    requires count > 0
    ensures Valid(r) && r.index == 0 && r.phase == In
  {
    Rotor(count, 0, In)
  }

  /** The interval, every `DisplayDuration + AnimationDuration` ms: the phrase leaves. */
  function IntervalTick(r: Rotor): (s: Rotor)
    ensures s.phase == Out && s.index == r.index && s.count == r.count
  {
    r.(phase := Out)
  }

  /** `AnimationDuration` ms later: the next phrase is put in place, hidden. */
  function LeaveTimer(r: Rotor): (s: Rotor)
    requires Valid(r)
    ensures Valid(s) && s.phase == Reset && s.count == r.count
    ensures s.index == if r.index == r.count - 1 then 0 else r.index + 1
  {
    r.(index := Next(r.index, r.count), phase := Reset)
  }

  /** `ResetDelay` ms after that: it enters. */
  function EnterTimer(r: Rotor): (s: Rotor)
    ensures s.phase == In && s.index == r.index && s.count == r.count
  {
    r.(phase := In)
  }

  /** One period of the interval with its two timeouts. */
  function Cycle(r: Rotor): (s: Rotor)
    requires Valid(r)
    ensures Valid(s)
  {
    EnterTimer(LeaveTimer(IntervalTick(r)))
  }

  /** The phrase changes only while it is hidden: leaving and entering keep the
      index, and a full period advances it by exactly one and ends entering. */
  lemma CycleAdvancesOnce(r: Rotor)
    requires Valid(r)
    ensures IntervalTick(r).index == r.index
    ensures EnterTimer(LeaveTimer(IntervalTick(r))).index == LeaveTimer(IntervalTick(r)).index
    ensures Cycle(r) == r.(index := Step(r.index, r.count, Forward), phase := In)
  {
  }

  function Cycles(r: Rotor, k: nat): (s: Rotor)
    requires Valid(r)
    ensures Valid(s)
    decreases k
  {
    if k == 0 then r else Cycles(Cycle(r), k - 1)
  }

  /** After `k` periods the `k`-th following phrase is entering; after `count`
      periods the first one is back. */
  lemma {:induction false} CyclesWalk(r: Rotor, k: nat)
    requires Valid(r) && r.phase == In
    ensures Cycles(r, k) == r.(index := Walk(r.index, r.count, Forward, k))
    decreases k
  {
    if k > 0 {
      CycleAdvancesOnce(r);
      CyclesWalk(Cycle(r), k - 1);
    }
  }

  lemma EveryPhraseReturns(r: Rotor)
    requires Valid(r) && r.phase == In
    ensures Cycles(r, r.count) == r
  {
    CyclesWalk(r, r.count);
    FullCircle(r.index, r.count, Forward);
  }

  // ---------------------------------------------------------------------------
  // Words and letters
  // ---------------------------------------------------------------------------

  /** The space, U+0020, as a code unit. */
  const SpaceUnit: Unit := 0x20

  predicate NoSpace(w: JsString) {
    forall i :: 0 <= i < |w| ==> w[i] != SpaceUnit
  }

  /** `s.split(' ')`: always at least one piece; consecutive spaces give empty pieces. */
  function Split(s: JsString): (ws: seq<JsString>)
    ensures |ws| >= 1
    ensures forall k :: 0 <= k < |ws| ==> NoSpace(ws[k])
    decreases |s|
  {
    if |s| == 0 then [[]]
    else if s[0] == SpaceUnit then [[]] + Split(s[1..])
    else
      var rest := Split(s[1..]);
      [[s[0]] + rest[0]] + rest[1..]
  }

  /** `ws.join(' ')`. */
  function Join(ws: seq<JsString>): JsString
    requires |ws| >= 1
    decreases |ws|
  {
    if |ws| == 1 then ws[0] else ws[0] + [SpaceUnit] + Join(ws[1..])
  }

  /** Splitting then joining gives back the phrase. */
  lemma {:induction false} JoinSplit(s: JsString)
    ensures Join(Split(s)) == s
    decreases |s|
  {
    if |s| > 0 {
      JoinSplit(s[1..]);
      var rest := Split(s[1..]);
      if s[0] == SpaceUnit {
        assert Split(s)[1..] == rest;
      } else {
        var ws := Split(s);
        assert ws[1..] == rest[1..];
        if |rest| == 1 {
          assert Join(ws) == [s[0]] + rest[0];
        } else {
          assert Join(ws) == [s[0]] + rest[0] + [SpaceUnit] + Join(rest[1..]);
        }
      }
    }
  }

  /** Joining space-free words then splitting gives back the words. */
  lemma {:induction false} SplitJoin(ws: seq<JsString>)
    requires |ws| >= 1
    requires forall k :: 0 <= k < |ws| ==> NoSpace(ws[k])
    ensures Split(Join(ws)) == ws
    decreases |ws|, |ws[0]|
  {
    var w := ws[0];
    if |w| == 0 {
      if |ws| > 1 {
        SplitJoin(ws[1..]);
        assert Join(ws) == [SpaceUnit] + Join(ws[1..]);
        assert Join(ws)[1..] == Join(ws[1..]);
      }
    } else {
      var ws' := [w[1..]] + ws[1..];
      assert forall k :: 1 <= k < |ws'| ==> ws'[k] == ws[k];
      SplitJoin(ws');
      assert ws'[1..] == ws[1..];
      if |ws| == 1 {
        assert Join(ws)[1..] == Join(ws');
      } else {
        assert Join(ws)[1..] == Join(ws');
      }
      assert [w[0]] + w[1..] == w;
    }
  }

  /** A drawn element: one letter span, or the non-breaking space drawn between
      two words. `word.split('')` cuts a word into single code units, so each
      half of a surrogate pair gets a span of its own. */
  datatype Piece = Letter(u: Unit) | Space

  function Letters(w: JsString): (ps: seq<Piece>)
    ensures |ps| == |w| && forall i :: 0 <= i < |w| ==> ps[i] == Letter(w[i])
  {
    seq(|w|, i requires 0 <= i < |w| => Letter(w[i]))
  }

  /** The animated span: each word's letters, with a space element after every
      word but the last. */
  function Pieces(ws: seq<JsString>): seq<Piece>
    requires |ws| >= 1
    decreases |ws|
  {
    if |ws| == 1 then Letters(ws[0]) else Letters(ws[0]) + [Space] + Pieces(ws[1..])
  }

  /** What a reader sees, taking the space element as a space. */
  function ReadBack(ps: seq<Piece>): JsString
    decreases |ps|
  {
    if |ps| == 0 then [] else (match ps[0] case Letter(u) => [u] case Space => [SpaceUnit]) + ReadBack(ps[1..])
  }

  lemma {:induction false} ReadBackAppend(a: seq<Piece>, b: seq<Piece>)
    ensures ReadBack(a + b) == ReadBack(a) + ReadBack(b)
    decreases |a|
  {
    if |a| == 0 {
      assert a + b == b;
    } else {
      assert (a + b)[0] == a[0];
      assert (a + b)[1..] == a[1..] + b;
      ReadBackAppend(a[1..], b);
    }
  }

  lemma {:induction false} ReadBackLetters(w: JsString)
    ensures ReadBack(Letters(w)) == w
    decreases |w|
  {
    if |w| > 0 {
      assert Letters(w)[1..] == Letters(w[1..]);
      ReadBackLetters(w[1..]);
    }
  }

  lemma {:induction false} ReadBackPieces(ws: seq<JsString>)
    requires |ws| >= 1
    ensures ReadBack(Pieces(ws)) == Join(ws)
    decreases |ws|
  {
    ReadBackLetters(ws[0]);
    if |ws| > 1 {
      ReadBackPieces(ws[1..]);
      ReadBackAppend(Letters(ws[0]) + [Space], Pieces(ws[1..]));
      ReadBackAppend(Letters(ws[0]), [Space]);
    }
  }

  /** The letter spans and spaces drawn for a phrase read back, code unit by
      code unit, as the phrase. */
  lemma DrawnTextIsPhrase(s: JsString)
    ensures ReadBack(Pieces(Split(s))) == s
  {
    ReadBackPieces(Split(s));
    JoinSplit(s);
  }

  // ---------------------------------------------------------------------------
  // Letter delays
  // ---------------------------------------------------------------------------

  /** The counter's value when word `w` begins: every earlier letter and, for
      each earlier word, the extra increment after it. */
  function CharsBefore(ws: seq<JsString>, w: nat): nat
    requires w <= |ws|
  {
    if w == 0 then 0 else CharsBefore(ws, w - 1) + |ws[w - 1]| + 1
  }

  /** The delay the drawing loop gives letter `c` of word `w`: the counter
      already includes the letters before it in the word, and `c` is added
      again on top. */
  function DelayAsWritten(ws: seq<JsString>, w: nat, c: nat): int
    requires w < |ws|
  {
    (CharsBefore(ws, w) + 2 * c) * LetterDelayMs
  }

  /** The drawing loop, with its shared counter: one delay per letter span,
      that is per code unit of each word. */
  method Delays(ws: seq<JsString>) returns (ds: seq<seq<int>>)
    ensures |ds| == |ws|
    ensures forall w :: 0 <= w < |ws| ==> |ds[w]| == |ws[w]|
    ensures forall w, c :: 0 <= w < |ws| && 0 <= c < |ws[w]| ==> ds[w][c] == DelayAsWritten(ws, w, c)
  {
    var charCount := 0;
    ds := [];
    var w := 0;
    while w < |ws|
      invariant 0 <= w <= |ws| && |ds| == w
      invariant charCount == CharsBefore(ws, w)
      invariant forall v :: 0 <= v < w ==> |ds[v]| == |ws[v]|
      invariant forall v, c :: 0 <= v < w && 0 <= c < |ws[v]| ==> ds[v][c] == DelayAsWritten(ws, v, c)
    {
      var row;
      row, charCount := WordDelays(charCount, |ws[w]|);
      charCount := charCount + 1;
      ds := ds + [row];
      w := w + 1;
    }
  }

  /** The inner loop over one word's letters, from counter value `start`. */
  method WordDelays(start: nat, len: nat) returns (row: seq<int>, charCount: nat)
    ensures |row| == len && charCount == start + len
    ensures forall i :: 0 <= i < len ==> row[i] == (start + 2 * i) * LetterDelayMs
  {
    row := [];
    charCount := start;
    var c := 0;
    while c < len
      invariant 0 <= c <= len && |row| == c
      invariant charCount == start + c
      invariant forall i :: 0 <= i < c ==> row[i] == (start + 2 * i) * LetterDelayMs
    {
      row := row + [(charCount + c) * LetterDelayMs];
      charCount := charCount + 1;
      c := c + 1;
    }
  }

  /** As written, the last letter of a long word can start after the first
      letter of the next: in "abcd ef", `d` waits 240 ms and `e` only 200 ms. */
  lemma DelaysOutOfOrder()
    ensures DelayAsWritten([Units("abcd"), Units("ef")], 0, 3) == 240
    ensures DelayAsWritten([Units("abcd"), Units("ef")], 1, 0) == 200
  {
  }

  /** The stagger the counter is evidently meant to produce: one step per
      letter and per space, in reading order. */
  function StaggeredDelay(ws: seq<JsString>, w: nat, c: nat): int
    requires w < |ws|
  {
    (CharsBefore(ws, w) + c) * LetterDelayMs
  }

  /** With the intended stagger, letters start strictly in reading order. */
  lemma StaggerInReadingOrder(ws: seq<JsString>, w: nat, c: nat, w': nat, c': nat)
    requires w < |ws| && c < |ws[w]| && w' < |ws| && c' < |ws[w']|
    requires w < w' || (w == w' && c < c')
    ensures StaggeredDelay(ws, w, c) < StaggeredDelay(ws, w', c')
  {
    if w < w' {
      BeforeGrows(ws, w, w');
    }
  }

  lemma {:induction false} BeforeGrows(ws: seq<JsString>, w: nat, w': nat)
    requires w < w' <= |ws|
    ensures CharsBefore(ws, w') > CharsBefore(ws, w) + |ws[w]|
    decreases w' - w
  {
    if w' > w + 1 {
      BeforeGrows(ws, w, w' - 1);
      assert CharsBefore(ws, w') == CharsBefore(ws, w' - 1) + |ws[w' - 1]| + 1;
    } else {
      assert CharsBefore(ws, w') == CharsBefore(ws, w) + |ws[w]| + 1;
    }
  }
}
