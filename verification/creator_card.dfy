/** A member's card: a slideshow over the member's profiles that advances on
    its own every four seconds unless the pointer rests on the card, with
    arrows and dots that appear only when there is more than one profile. */
module CreatorCard {
  import opened Wrappers
  import opened Circular

  const AdvanceDelay := 4000

  /** `count` is `profiles.length`, `index` is `currentIndex` and `paused` is
      `isPaused`. */
  datatype Card = Card(count: nat, index: int, paused: bool)

  predicate Valid(c: Card) {
    InRange(c.index, c.count)
  }

  /** The card starts on its first profile. A card needs at least one profile:
      with none, `profiles[0]` is undefined and rendering fails. */
  function Init(count: nat): (c: Card)
    requires count > 0
    ensures Valid(c) && c.index == 0 && !c.paused
  {
    Card(count, 0, false)
  }

  predicate HasMultiple(c: Card) {
    c.count > 1
  }

  /** The auto-advance timeout exists exactly when there are several profiles
      and the card is not paused; every change of index or pause state clears
      it and sets a fresh one of `AdvanceDelay` milliseconds. */
  predicate TimerArmed(c: Card) {
    HasMultiple(c) && !c.paused
  }

  function HandleNext(c: Card): (r: Card)
    requires Valid(c)
    ensures Valid(r) && r.count == c.count && r.paused == c.paused
    ensures r.index == if c.index == c.count - 1 then 0 else c.index + 1
  {
    c.(index := Next(c.index, c.count))
  }

  function HandlePrev(c: Card): (r: Card)
    requires Valid(c)
    ensures Valid(r) && r.count == c.count && r.paused == c.paused
    ensures r.index == if c.index == 0 then c.count - 1 else c.index - 1
  {
    c.(index := Prev(c.index, c.count))
  }

  lemma PrevUndoesNext(c: Card)
    requires Valid(c)
    ensures HandlePrev(HandleNext(c)) == c
    ensures HandleNext(HandlePrev(c)) == c
  {
  }

  /** With a single profile neither step moves. */
  lemma SingleProfileStays(c: Card)
    requires Valid(c) && c.count == 1
    ensures HandleNext(c) == c && HandlePrev(c) == c
  {
  }

  function MouseEnter(c: Card): (r: Card)
    ensures r.paused && r.(paused := c.paused) == c
    ensures !TimerArmed(r)
  {
    c.(paused := true)
  }

  function MouseLeave(c: Card): (r: Card)
    ensures !r.paused && r.(paused := c.paused) == c
    ensures TimerArmed(r) <==> HasMultiple(c)
  {
    c.(paused := false)
  }

  /** The auto-advance timeout fires. A timeout that was cleared never fires,
      so an unarmed card is left alone. */
  function TimerFires(c: Card): (r: Card)
    requires Valid(c)
    ensures Valid(r)
    ensures TimerArmed(c) ==> r == HandleNext(c)
    ensures !TimerArmed(c) ==> r == c
    ensures TimerArmed(r) == TimerArmed(c)
  {
    if TimerArmed(c) then HandleNext(c) else c
  }

  /** `k` timeouts in a row. */
  function FireTimes(c: Card, k: nat): (r: Card)
    requires Valid(c)
    ensures Valid(r)
    decreases k
  {
    if k == 0 then c else FireTimes(TimerFires(c), k - 1)
  }

  /** Left alone, an unpaused card with several profiles cycles through them in
      order; a paused or single-profile card never moves. */
  lemma {:induction false} FireTimesWalks(c: Card, k: nat)
    requires Valid(c)
    ensures TimerArmed(c) ==> FireTimes(c, k) == c.(index := Walk(c.index, c.count, Forward, k))
    ensures !TimerArmed(c) ==> FireTimes(c, k) == c
    decreases k
  {
    if k > 0 {
      FireTimesWalks(TimerFires(c), k - 1);
    }
  }

  /** After as many timeouts as there are profiles the card is back where it started. */
  lemma FullRotation(c: Card)
    requires Valid(c)
    ensures FireTimes(c, c.count) == c
  {
    FireTimesWalks(c, c.count);
    if TimerArmed(c) {
      FullCircle(c.index, c.count, Forward);
    }
  }

  // ---------------------------------------------------------------------------
  // Controls and dots
  // ---------------------------------------------------------------------------

  /** What the card draws around its picture. */
  datatype Controls = Controls(arrows: bool, dots: seq<string>)

  /** `pat` occurs in `s` at position `k`. */
  predicate MatchesAt(s: string, pat: string, k: int) {
    0 <= k && k + |pat| <= |s| && s[k..k + |pat|] == pat
  }

  /** `String.prototype.replace` with a string pattern replaces only the first
      occurrence; `IndexOf` finds it. */
  function IndexOf(s: string, pat: string): (r: Option<nat>)
    ensures r.Some? ==> MatchesAt(s, pat, r.value)
    ensures r.Some? ==> forall k :: 0 <= k < r.value ==> !MatchesAt(s, pat, k)
    ensures r.None? ==> forall k :: !MatchesAt(s, pat, k)
    decreases |s|
  {
    if |pat| <= |s| && s[..|pat|] == pat then Some(0)
    else if |s| == 0 then None
    else
      var r := IndexOf(s[1..], pat);
      ShiftMatches(s, pat);
      match r
      case None => None
      case Some(k) => Some(k + 1)
  }

  /** A match past the first position is a match in the tail, one position earlier. */
  lemma ShiftMatches(s: string, pat: string)
    requires |s| > 0
    ensures forall k :: 1 <= k ==> (MatchesAt(s, pat, k) <==> MatchesAt(s[1..], pat, k - 1))
  {
    forall k | 1 <= k
      ensures MatchesAt(s, pat, k) <==> MatchesAt(s[1..], pat, k - 1)
    {
      if k + |pat| <= |s| {
        var a, b := s[k..k + |pat|], s[1..][k - 1..k - 1 + |pat|];
        assert |a| == |b|;
        assert forall t :: 0 <= t < |a| ==> a[t] == s[k + t] == b[t];
      }
    }
  }

  /** `s.replace(pat, rep)` with a string pattern: the first occurrence is
      replaced. A replacement holding `$` would have its `$&`, `$$`, `` $` ``
      and `$'` patterns expanded; that is not modelled, so `rep` is taken
      literally, which is exact for the `$`-free replacement the card uses. */
  function ReplaceFirst(s: string, pat: string, rep: string): (r: string)
    ensures IndexOf(s, pat).None? ==> r == s
    ensures IndexOf(s, pat).Some? ==>
      var k := IndexOf(s, pat).value;
      r == s[..k] + rep + s[k + |pat|..]
  {
    match IndexOf(s, pat)
    case None => s
    case Some(k) => s[..k] + rep + s[k + |pat|..]
  }

  /** A string that starts with the pattern has exactly that prefix swapped. */
  lemma ReplaceLeading(s: string, pat: string, rep: string)
    requires pat <= s
    ensures ReplaceFirst(s, pat, rep) == rep + s[|pat|..]
  {
    assert s[..|pat|] == pat;
    assert IndexOf(s, pat) == Some(0);
  }

  /** A dot's classes: a wide dot in the contact colour, turned into a
      background class, for the current profile; a narrow grey dot otherwise. */
  function DotClass(c: Card, idx: int, contactColor: string): (r: string)
    ensures r == InactiveDot <==> idx != c.index
  {
    assert ("w-4 " + ReplaceFirst(contactColor, "text-", "bg-"))[2] == '4';
    if idx == c.index then "w-4 " + ReplaceFirst(contactColor, "text-", "bg-") else "w-1.5 bg-gray-600"
  }

  const InactiveDot := "w-1.5 bg-gray-600"

  function Render(c: Card, contactColor: string): (r: Controls)
    requires Valid(c)
    ensures r.arrows <==> HasMultiple(c)
    ensures HasMultiple(c) ==> |r.dots| == c.count
    ensures !HasMultiple(c) ==> r.dots == []
    ensures forall i :: 0 <= i < |r.dots| ==> (r.dots[i] == InactiveDot <==> i != c.index)
  {
    if !HasMultiple(c) then Controls(false, [])
    else Controls(true, seq(c.count, i => DotClass(c, i, contactColor)))
  }

  /** The number of positions of `dots` that are not the inactive dot. */
  function ActiveDots(dots: seq<string>): nat
    decreases |dots|
  {
    if |dots| == 0 then 0
    else ActiveDots(dots[..|dots| - 1]) + (if dots[|dots| - 1] == InactiveDot then 0 else 1)
  }

  lemma {:induction false} ActiveDotsCount(dots: seq<string>, idx: int)
    requires forall i :: 0 <= i < |dots| ==> (dots[i] == InactiveDot <==> i != idx)
    ensures ActiveDots(dots) == if 0 <= idx < |dots| then 1 else 0
    decreases |dots|
  {
    if |dots| > 0 {
      var init := dots[..|dots| - 1];
      assert forall i :: 0 <= i < |init| ==> init[i] == dots[i];
      ActiveDotsCount(init, idx);
    }
  }

  /** Exactly one dot is lit whenever dots are shown. */
  lemma OneDotLit(c: Card, contactColor: string)
    requires Valid(c) && HasMultiple(c)
    ensures ActiveDots(Render(c, contactColor).dots) == 1
  {
    ActiveDotsCount(Render(c, contactColor).dots, c.index);
  }

  /** The current profile's dot is the wide dot in the background colour. */
  lemma CurrentDot(c: Card, contactColor: string)
    requires Valid(c) && HasMultiple(c)
    ensures Render(c, contactColor).dots[c.index] == "w-4 " + ReplaceFirst(contactColor, "text-", "bg-")
  {
  }

  /** The two contact colours the page passes become these dot colours. */
  lemma SiteDotColours(c: Card)
    requires Valid(c) && HasMultiple(c)
    ensures Render(c, "text-purple-400").dots[c.index] == "w-4 bg-purple-400"
    ensures Render(c, "text-green-400").dots[c.index] == "w-4 bg-green-400"
  {
    CurrentDot(c, "text-purple-400");
    PurpleToBackground();
    CurrentDot(c, "text-green-400");
    GreenToBackground();
  }

  lemma PurpleToBackground()
    ensures "w-4 " + ReplaceFirst("text-purple-400", "text-", "bg-") == "w-4 bg-purple-400"
  {
    ReplaceLeading("text-purple-400", "text-", "bg-");
  }

  lemma GreenToBackground()
    ensures "w-4 " + ReplaceFirst("text-green-400", "text-", "bg-") == "w-4 bg-green-400"
  {
    ReplaceLeading("text-green-400", "text-", "bg-");
  }
}
