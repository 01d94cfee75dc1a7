# The Creatorz site, modelled in Dafny

A model of the logic of The Creatorz marketing site, a React single-page
application that presents a team of creators. Each module follows one source
file:

- `Gallery`: the swipeable image carousel (`InteractiveGallery`). It covers
  circular next/prev, the signed circular offset of every card, and the drag
  state machine with its velocity filter. It also covers the momentum policy
  that turns a release into a direction and 0 to 4 steps, the deferred
  callbacks a release schedules, card and dot clicks, and auto-advance.
- `App` and `LightboxView`: the URL-driven image lightbox. `App` holds the
  resolver from the `category` and `image` query parameters to an open image,
  and `openLightbox`, `closeLightbox`, `nextImage` and `prevImage`.
  `LightboxView` holds the overlay's key and click dispatch. `App` also picks
  each member section's colours and frame.
- `Catalog`: the static content (`navLinks`, `galleries`, `membersData`,
  `contactLinks`), with the facts the resolver and the navigation bar rely on.
- `PillNav`: the navigation bar. It covers link flattening, the active link
  and active parent, highlighting, the dropdown toggle, link clicks that pin
  the highlight while the page scrolls, and the overflow check.
- `CreatorCard`: the profile slideshow on each member card, with pause on
  hover, arrows and dots.
- `RotatingText`: the rotating headline. It covers the longest-phrase pick,
  the in/out/reset animation cycle, word splitting and the per-letter delays.
- `ContactForm`: the form that opens a `mailto:` link. `UriComponent` holds
  the `encodeURIComponent` and `decodeURIComponent` it relies on.
- `SplashCursor`: the bounded trail of cursor splashes.
- `InfiniteMenu`: the eight-fold repeated scrolling banner.
- `JsNumber` and `Circular`: shared helpers. `JsNumber` holds JavaScript's
  truncating remainder, `parseInt(s, 10)` and integer `toString`. `Circular`
  holds the wrap-around index arithmetic used by the carousel, the card and
  the rotating text.

The JavaScript semantics the site depends on are written out, not borrowed
from Dafny:

- `%` truncates toward zero (section 6.1.6.1.6 of ECMA-262). Dafny's `%` is
  Euclidean.
- `parseInt` follows section 19.2.5 of ECMA-262.
- `encodeURIComponent` and `decodeURIComponent` follow sections 19.2.6.5 and
  19.2.6.6 of ECMA-262. They work on UTF-16 code units, so a lone surrogate
  can be represented, and it raises URIError.

Timers are explicit: a callback is a value that fires when the model says so.
Clocks, random numbers and DOM measurements are parameters.

## Model

| member | source | states |
|---|---|---|
| Circular.Next | components/InteractiveGallery.tsx:28-30 | the next index stays in [0, len) and wraps from the last to the first |
| Circular.Prev | components/InteractiveGallery.tsx:32-34 | the previous index stays in [0, len) and wraps from the first to the last |
| Circular.PrevAfterNext | components/InteractiveGallery.tsx:28-34 | prev undoes next and next undoes prev |
| Circular.WalkIsModular | components/InteractiveGallery.tsx:28-34 | k steps in one direction land on (i + dir·k) mod len |
| Circular.FullCircle | components/InteractiveGallery.tsx:28-34 | len steps in one direction return to the start |
| JsNumber.Rem | components/InteractiveGallery.tsx:185 | the truncating remainder has the dividend's sign, stays within (−d, d), agrees with `%` on non-negative dividends and differs from the dividend by a multiple of d, which pins it for every dividend |
| JsNumber.RemDiffersFromEuclidean | components/InteractiveGallery.tsx:185 | for negative dividends the truncating and Euclidean remainders differ (−2 rem 4 = −2, while −2 mod 4 = 2) |
| JsNumber.ParseInt | App.tsx:45 | parseInt gives NaN exactly when no digit follows the white space and the optional sign |
| JsNumber.ParseIntRoundTrip | App.tsx:45-57 | parseInt reads back what toString wrote, for every integer |
| JsNumber.ParseIntOfIntToString | App.tsx:45 | the round trip survives leading white space and trailing text that does not start with a digit |
| JsNumber.ParseIntStopsAtNonDigit | App.tsx:45 | "2abc" reads as 2 and "1.5" as 1 |
| JsNumber.ParseIntNegativeZero | App.tsx:45-46 | "-0" reads as 0, which passes the index < 0 check |
| JsNumber.ParseIntNoDigits | App.tsx:45-46 | "abc", "" and "-" read as NaN |
| JsNumber.DigitsValueOfNatToString | App.tsx:57 | the decimal digits toString writes have the value of the number |
| Gallery.Init | components/InteractiveGallery.tsx:9-17 | the carousel starts on image 0, idle, not hovered, with the 500 ms transition |
| Gallery.HandleNext | components/InteractiveGallery.tsx:28-30 | the next image, wrapping, with everything else kept |
| Gallery.HandlePrev | components/InteractiveGallery.tsx:32-34 | the previous image, wrapping, with everything else kept |
| Gallery.Offset | components/InteractiveGallery.tsx:183-189 | getOffset is congruent to index − current modulo len with abs(2·offset) ≤ len; it is 0 only at the current image; +len/2 occurs only for indices after the current one and −len/2 only for indices before it |
| Gallery.NeighbourOffsets | components/InteractiveGallery.tsx:166-189 | offset +1 is the next image and −1 the previous one |
| Gallery.EvenLengthHalfWay | components/InteractiveGallery.tsx:185-187 | with four images both +2 and −2 occur, which the truncating `%` produces and a Euclidean one would not |
| Gallery.MoveDirection | components/InteractiveGallery.tsx:100-102 | above 0.2 px/ms the velocity decides (forward iff negative); otherwise the distance decides (forward iff negative, so 0 means backward) |
| Gallery.MomentumSteps | components/InteractiveGallery.tsx:104-115 | the exact tiers: 4 iff speed > 2.5, 3 iff 1.5 < speed ≤ 2.5, 2 iff 0.6 < speed ≤ 1.5, 1 iff speed ≤ 0.6 and distance > 50, 0 iff speed ≤ 0.6 and distance ≤ 50 |
| Gallery.StepsMonotoneInVelocity | components/InteractiveGallery.tsx:104-115 | a faster release never moves fewer images |
| Gallery.StepsMonotoneInDistance | components/InteractiveGallery.tsx:104-115 | a longer drag never moves fewer images |
| Gallery.MomentumExamples | components/InteractiveGallery.tsx:100-115 | the five step tiers on concrete speeds, and a still release goes backward |
| Gallery.DragStart | components/InteractiveGallery.tsx:49-60 | a drag starts at x with velocity 0, duration 0, the click guard off, the velocity filter's last position and time reset to x and now, and the index and hover kept |
| Gallery.DragMove | components/InteractiveGallery.tsx:62-83 | a move is ignored when not dragging; with dt ≤ 0 the velocity is kept, otherwise it is 0.7·dx/dt + 0.3·old; on every dragging move the filter's last position and time become x and now, hover and length are kept, and the guard is set iff the pointer strayed more than 5 px |
| Gallery.GestureTracksPointer | components/InteractiveGallery.tsx:62-83 | after a series of moves the drag follows the last sample, and the guard is set iff it already was or some sample strayed more than 5 px from the start |
| Gallery.DragEnd | components/InteractiveGallery.tsx:85-144 | ignored when not dragging; otherwise the drag is released. With steps > 0: duration 300, one step taken now and steps − 1 ticks pending in the chosen direction. With none: duration 500, index kept, no ticks. Hover, the click guard (still set until its 100 ms timer), velocity and the filter's last sample are kept |
| Gallery.ReleaseTimersShape | components/InteractiveGallery.tsx:123-143 | the deferred callbacks are in firing order, and their ticks are steps − 1 moves in one direction |
| Gallery.ReleaseSettles | components/InteractiveGallery.tsx:85-144 | once every callback has run, the index is (start + dir·steps) mod len, the duration is 500, the click guard is clear and the drag is released |
| Gallery.TapDoesNotNavigate | components/InteractiveGallery.tsx:49-144 | pressing and releasing without moving never changes the image |
| Gallery.AutoAdvance | components/InteractiveGallery.tsx:37-46 | the interval advances the index, and changes nothing else, only while neither dragging nor hovered |
| Gallery.MouseEnter | components/InteractiveGallery.tsx:150 | hovering stops auto-advance and changes nothing but the hover flag |
| Gallery.MouseLeave | components/InteractiveGallery.tsx:151-154 | leaving un-hovers the carousel and otherwise has exactly the release's outcome (index, duration, callbacks), so auto-advance resumes |
| Gallery.TouchStart | components/InteractiveGallery.tsx:156-159 | a touch hovers the carousel and otherwise is the press: drag at the finger, velocity and duration 0, guard off, filter reset, index kept |
| Gallery.TouchEnd | components/InteractiveGallery.tsx:161-164 | lifting has the release's carousel and callbacks, followed by the un-hover 3 s later, after every release callback |
| Gallery.PendingBefore | components/InteractiveGallery.tsx:143-163 | every release callback is due before the 3 s un-hover |
| Gallery.CardClick | components/InteractiveGallery.tsx:166-180 | ignored after a drag; offset 0 selects the image, −1 goes back, +1 goes forward, and any other offset does nothing |
| Gallery.ClickNeighbourCentresIt | components/InteractiveGallery.tsx:166-189 | clicking a neighbour card at its rendered offset centres that card |
| Gallery.DotClick | components/InteractiveGallery.tsx:313 | a dot jumps to its image with the 500 ms transition and changes nothing else |
| Gallery.ArrowClick | components/InteractiveGallery.tsx:292-299 | the arrows step once with the 500 ms transition and change nothing else |
| Catalog.MemberIdsDistinct | constants.ts:80-155 | member ids are pairwise distinct |
| Catalog.GalleryLengths | constants.ts:34-78 | the gallery lengths in member order are 17, 10, 8, 10, 5, 10, 18, so none is empty |
| Catalog.ArtistsEntry | constants.ts:34-92 | the first member is the artists, whose gallery has 17 images, the third being /images/artists/3.jpg |
| Catalog.ProfileCounts | constants.ts:80-155 | every member has a profile; the artists have five and every other member one |
| Catalog.NavHrefsAnchored | constants.ts:13-30 | every top-level and child href starts with '#' |
| Catalog.TalentMatchesMembers | constants.ts:16-28 | Talent's children link to '#' + id of each member in member order, and Talent's own href is its first child's, '#artists' |
| App.Get | App.tsx:37-38 | a parameter lookup gives null exactly for an absent key |
| App.FindMember | App.tsx:42 | `find` returns the first member with the id, or nothing when no member has it |
| App.FirstIsUnique | App.tsx:42 | the first matching position is unique |
| App.Resolve | App.tsx:36-54 | no state unless category is non-empty, image is present, some member has the id and parseInt(image) lies in [0, length). The state names the first such member: its category, that index, the image at it and the gallery length |
| App.OpenLightbox | App.tsx:56-58 | opening writes exactly the category and an image that parses back to the index, as a new history entry |
| App.ImageParams | App.tsx:57 | exactly the two keys category and image, the category as given and an image that parseInt reads back as the index |
| App.CloseLightbox | App.tsx:60-62 | closing clears every parameter |
| App.OpenResolves | App.tsx:36-58 | opening a valid image of a member resolves back to that member, index and image |
| App.SiteOpenResolves | App.tsx:36-58 | on the site's data every image of every member round-trips through the URL |
| App.CloseResolvesToNone | App.tsx:36-62 | after closing, the lightbox resolves to nothing |
| App.NextImage | App.tsx:64-69 | nothing without an open image; otherwise it replaces the URL with exactly the two keys, the same category and index (i + 1) mod total |
| App.PrevImage | App.tsx:71-76 | nothing without an open image; otherwise it replaces the URL with exactly the two keys, the same category and index (i − 1 + total) mod total |
| App.ReopenResolves | App.tsx:36-76 | rewriting the index of an open state within its gallery resolves to the same category and total at that index |
| App.PrevAfterNext | App.tsx:64-76 | next then prev resolves to the original image |
| App.Perform | App.tsx:82-90 | the overlay's three callbacks are wired to close, next and prev |
| App.LightboxProps | App.tsx:82-90 | the overlay is open exactly when the state resolves, shows that image, and offers both arrows exactly when open |
| App.EscapeCloses | App.tsx:82-90 | Escape on an open lightbox writes parameters that resolve to nothing |
| App.ResolveExampleHit | App.tsx:36-54 | category=artists&image=2 resolves to /images/artists/3.jpg of 17 |
| App.ResolveExampleOutOfRange | App.tsx:46 | image 17 and image −1 of the artists resolve to nothing |
| App.IndexOutsideGallery | App.tsx:46 | any index outside the gallery resolves to nothing |
| App.ResolveExampleBadCategory | App.tsx:40-43 | an unknown or empty category resolves to nothing |
| App.ResolveExampleBadImage | App.tsx:40-46 | a non-numeric or missing image resolves to nothing |
| App.UnknownCategory | constants.ts:80-155 | no member has the id "unknown" |
| App.Theme | App.tsx:137-185 | fixed backgrounds for artists and developers, otherwise memberColors[index mod 7]; even sections are framed by Stack in cyan/purple tones, odd ones by ElectricBorder in pink/green tones |
| LightboxView.KeyDown | components/Lightbox.tsx:25-41 | no listener while closed; while open Escape closes, ArrowRight shows next, ArrowLeft shows prev and any other key does nothing, each at most once |
| LightboxView.Render | components/Lightbox.tsx:43-79 | nothing is rendered while closed; otherwise the image, with the prev arrow iff hasPrev and the next arrow iff hasNext |
| LightboxView.Click | components/Lightbox.tsx:46-85 | a click closes exactly when it lands on the backdrop or the close button; the image and its container swallow clicks; the arrows step |
| PillNav.ChildEntries | components/PillNav.tsx:19-21 | each child contributes its own href tagged with the parent's caption, in order |
| PillNav.GetAllLinks | components/PillNav.tsx:15-27 | the nested loops produce the reference flattening |
| PillNav.PushChildren | components/PillNav.tsx:18-21 | the inner loop appends every child, tagged with the parent's caption, in order |
| PillNav.FlattenMembership | components/PillNav.tsx:15-27 | a target is in the flattened list iff some link provides it: a child of a link with children (tagged with the parent), or a childless link itself (untagged) |
| PillNav.FlattenLength | components/PillNav.tsx:17-25 | the flattened length is the sum over links of the child count, or 1 for a link without children; an empty child array contributes nothing |
| PillNav.SiteFlatLinks | components/PillNav.tsx:15-27 | the site's navigation flattens to Home, About, the seven Talent children tagged "Talent", then Contact |
| PillNav.FindHref | components/PillNav.tsx:73 | `find` returns the first target with the href, or nothing when none has it |
| PillNav.ActiveParent | components/PillNav.tsx:72-75 | activeParent is the non-empty parent of the first target whose href is the active link, else null |
| PillNav.FirstHrefIsUnique | components/PillNav.tsx:73 | the first matching position is unique |
| PillNav.InitialActiveLink | components/PillNav.tsx:30 | the first link's href, or '#' when there is no link or its href is empty |
| PillNav.Init | components/PillNav.tsx:30-40 | the bar starts on the initial active link, with no dropdown, no click scroll and no overflow |
| PillNav.ChildLightsParent | components/PillNav.tsx:178 | with unique targets, an active child lights its parent's pill and makes the parent's caption the active parent |
| PillNav.SiteHrefsDistinct | constants.ts:13-30 | the site's flattened targets have distinct hrefs |
| PillNav.DevelopersLightTalent | components/PillNav.tsx:178 | with #developers active, the Talent pill is lit and Home is not |
| PillNav.Observe | components/PillNav.tsx:53-58 | ignored while click-scrolling; otherwise the first intersecting entry's '#id' becomes active; nothing else changes |
| PillNav.LinkClick | components/PillNav.tsx:133-148 | no effect without a target; otherwise the href becomes active, the dropdown closes and observer updates stop until the timer fires |
| PillNav.ScrollTimerFires | components/PillNav.tsx:144-146 | the 1 s timeout re-enables observer updates and changes nothing else |
| PillNav.ClickPinsActiveLink | components/PillNav.tsx:133-148 | until the timeout fires, no observer report moves the highlight off the clicked link |
| PillNav.ParentClick | components/PillNav.tsx:150-154 | the dropdown closes if it was this caption's and opens to this caption otherwise |
| PillNav.ParentClickTwice | components/PillNav.tsx:150-154 | two parent clicks restore a closed or same-caption dropdown and close a different one |
| PillNav.MouseDown | components/PillNav.tsx:95-105 | a press outside the bar closes the dropdown; one inside changes nothing |
| PillNav.CheckScrollable | components/PillNav.tsx:109-115 | the bar is scrollable iff scrollWidth > clientWidth + 2 |
| PillNav.DropdownLinks | components/PillNav.tsx:156 | the children of the first link that has children, or none |
| PillNav.SiteDropdown | components/PillNav.tsx:156 | the site's dropdown is Talent's children, one per member |
| CreatorCard.Init | components/CreatorCard.tsx:22-23 | the card starts on the first profile, unpaused |
| CreatorCard.HandleNext | components/CreatorCard.tsx:29-31 | the next profile, wrapping from the last to the first |
| CreatorCard.HandlePrev | components/CreatorCard.tsx:33-35 | the previous profile, wrapping from the first to the last |
| CreatorCard.PrevUndoesNext | components/CreatorCard.tsx:29-35 | prev after next, and next after prev, are the identity |
| CreatorCard.SingleProfileStays | components/CreatorCard.tsx:29-35 | with one profile neither step moves |
| CreatorCard.MouseEnter | components/CreatorCard.tsx:49 | hovering pauses the card and disarms the timer |
| CreatorCard.MouseLeave | components/CreatorCard.tsx:50 | leaving unpauses it; the timer is armed iff there are several profiles |
| CreatorCard.TimerFires | components/CreatorCard.tsx:37-44 | an armed timer advances to the next profile; an unarmed card is untouched |
| CreatorCard.FireTimesWalks | components/CreatorCard.tsx:37-44 | left alone, an armed card walks forward one profile per timeout, and an unarmed one never moves |
| CreatorCard.FullRotation | components/CreatorCard.tsx:37-44 | after as many timeouts as profiles the card is back where it began |
| CreatorCard.IndexOf | components/CreatorCard.tsx:90 | the first occurrence of the pattern, or none when it does not occur |
| CreatorCard.ReplaceFirst | components/CreatorCard.tsx:90 | `replace` with a string pattern and a `$`-free replacement swaps only the first occurrence |
| CreatorCard.DotClass | components/CreatorCard.tsx:87-91 | a dot is the narrow grey dot exactly when it is not the current profile's |
| CreatorCard.Render | components/CreatorCard.tsx:68-95 | arrows and dots show iff there are several profiles, one dot per profile, and a dot is inactive iff it is not the current one |
| CreatorCard.OneDotLit | components/CreatorCard.tsx:87-91 | exactly one dot is lit |
| CreatorCard.SiteDotColours | components/CreatorCard.tsx:90 | the page's text-purple-400 and text-green-400 become bg-purple-400 and bg-green-400 on the lit dot |
| RotatingText.LongestIndex | components/RotatingText.tsx:27-30 | measured in UTF-16 code units, the reduce stops on a longest phrase with no equally long phrase after it |
| RotatingText.LongestText | components/RotatingText.tsx:27-30 | '' for no phrases; otherwise the phrase at a position that is at least as long as every phrase and strictly longer than every later one, lengths in code units |
| RotatingText.EmojiCountsTwice | components/RotatingText.tsx:29 | a surrogate pair counts two for `.length`: it ties with a two-letter phrase and beats a one-letter one |
| RotatingText.LongestTieGoesLast | components/RotatingText.tsx:29 | on a tie the later phrase wins |
| RotatingText.StableContainerWidth | components/RotatingText.tsx:84 | prefix width + longest width, plus 8 exactly when there is a non-empty prefix |
| RotatingText.Init | components/RotatingText.tsx:11-13 | the first phrase, entering |
| RotatingText.IntervalTick | components/RotatingText.tsx:38-39 | the interval sends the phrase out and keeps the index |
| RotatingText.LeaveTimer | components/RotatingText.tsx:41-43 | the index advances modulo the phrase count while the phase becomes reset |
| RotatingText.EnterTimer | components/RotatingText.tsx:45-47 | 20 ms later the phrase enters and the index is kept |
| RotatingText.CycleAdvancesOnce | components/RotatingText.tsx:38-50 | in → out → reset → in; only the out → reset step moves the index, by one |
| RotatingText.CyclesWalk | components/RotatingText.tsx:38-50 | after k periods the k-th following phrase is entering |
| RotatingText.EveryPhraseReturns | components/RotatingText.tsx:38-50 | after one period per phrase the first phrase is back |
| RotatingText.Split | components/RotatingText.tsx:75 | split(' ') gives at least one piece, none containing a space |
| RotatingText.JoinSplit | components/RotatingText.tsx:75 | joining the pieces with spaces gives back the phrase |
| RotatingText.SplitJoin | components/RotatingText.tsx:75 | splitting space-free words joined by spaces gives back the words |
| RotatingText.DrawnTextIsPhrase | components/RotatingText.tsx:94-114 | the one-code-unit letter spans with one space element between consecutive words read back as the phrase, surrogate halves included |
| RotatingText.Delays | components/RotatingText.tsx:76-111 | the drawing loop gives code unit c of word w the delay (C + 2c)·40, where C counts earlier code units plus one per earlier word |
| RotatingText.WordDelays | components/RotatingText.tsx:97-109 | within a word the delays start at the counter and grow by 80 ms per letter |
| RotatingText.DelaysOutOfOrder | components/RotatingText.tsx:98 | in "abcd ef" the 'd' waits 240 ms but the later 'e' only 200 ms |
| RotatingText.StaggerInReadingOrder | components/RotatingText.tsx:98-99 | with one 40 ms step per letter, delays strictly increase in reading order |
| UriComponent.Encode | components/ContactForm.tsx:21-24 | the encoder emits only unreserved characters and '%' escapes |
| UriComponent.EncodeDefinedIff | components/ContactForm.tsx:21-24 | the encoder fails exactly on text with a lone surrogate |
| UriComponent.DecodeEncode | components/ContactForm.tsx:21-24 | decodeURIComponent undoes encodeURIComponent |
| UriComponent.DecodeUtf8OfUtf8 | components/ContactForm.tsx:21-24 | the UTF-8 octets of a scalar value decode back to it |
| UriComponent.Utf16OfPair | components/ContactForm.tsx:21-24 | a surrogate pair's code point is written back as the same pair |
| UriComponent.ReadBytesOfEscapes | components/ContactForm.tsx:21-24 | the escapes of a byte sequence read back as those bytes |
| UriComponent.EncodeExamples | components/ContactForm.tsx:21-24 | a space encodes as %20 and a line feed as %0A, "a-b" is copied unchanged, and a lone lead surrogate fails |
| ContactForm.Init | components/ContactForm.tsx:5-11 | all fields empty, no note shown and no timeout pending |
| ContactForm.HandleChange | components/ContactForm.tsx:13-16 | the named field takes the value and everything else is kept |
| ContactForm.LastEditWins | components/ContactForm.tsx:13-16 | of two edits to one field the last wins |
| ContactForm.Submit | components/ContactForm.tsx:18-30 | when both encodings succeed: the link is the mailto prefix, the encoded subject, &body= and the encoded body; the note shows and a 5 s timeout is queued. Otherwise nothing changes |
| ContactForm.SubmitNavigatesIff | components/ContactForm.tsx:18-26 | submitting navigates iff no field holds a lone surrogate |
| ContactForm.BodyWellFormed | components/ContactForm.tsx:22-24 | the body is free of lone surrogates iff name, email and message are |
| ContactForm.MailtoRoundTrip | components/ContactForm.tsx:20-25 | the link splits at its one '&' back into the encoded subject and body, which decode to the subject and the body text |
| ContactForm.LinkSeparators | components/ContactForm.tsx:21-25 | for any input, the link has exactly one '?', ending the address, and exactly one '&', starting the body |
| ContactForm.ResetFires | components/ContactForm.tsx:27-29 | the earliest pending timeout hides the note and nothing else changes |
| ContactForm.FirstTimeoutHidesSecondNote | components/ContactForm.tsx:26-29 | after two submissions 3 s apart, the first timeout hides the note of the second |
| SplashCursor.PickColor | components/SplashCursor.tsx:16 | the colour is palette entry floor(roll·7) |
| SplashCursor.MakeSplash | components/SplashCursor.tsx:16-22 | a splash records the event time, the client coordinates and a palette colour |
| SplashCursor.OnMouseMove | components/SplashCursor.tsx:15-24 | after a move the trail ends with a splash at the pointer in a palette colour, keeps the newest earlier splashes in order and holds at most 15 |
| SplashCursor.AddSplash | components/SplashCursor.tsx:15-24 | the trail grows by one up to 15, ends with the new splash and keeps the newest of the old ones in order |
| SplashCursor.LastN | components/SplashCursor.tsx:23 | slice(−n) keeps the last min(n, length) elements |
| SplashCursor.TrailIsLastFifteen | components/SplashCursor.tsx:23 | after any number of moves the trail is the last 15 splashes ever made |
| InfiniteMenu.Repeat | components/InfiniteMenu.tsx:11 | n copies have n·length items |
| InfiniteMenu.RepeatAt | components/InfiniteMenu.tsx:11 | position k holds item k mod length |
| InfiniteMenu.Strip | components/InfiniteMenu.tsx:11 | the strip has 8·length items, position k holding item k mod length (empty for no items) |
| InfiniteMenu.HalvesAgree | components/InfiniteMenu.tsx:11-30 | the first half of the strip equals the second half, so the −50% loop restarts seamlessly |

## Left out

- Rendering: JSX, class names and styling other than the dot classes and
  section colours, CSS animations and transitions, the decorative
  components, and the mobile layout switch (`isMobile`).
- Real time. Timers are modelled as explicit callbacks that fire when the
  model says so. So are intervals, and the interleaving of auto-advance with
  momentum ticks. Effect clean-up and re-subscription are not modelled.
- Clocks and randomness: `Date.now()` and `Math.random()` are parameters.
  Duplicate splash ids from two moves in one millisecond are not modelled.
- DOM measurement and observers: IntersectionObserver reports are input
  entries, and `scrollWidth`/`clientWidth` are inputs. ResizeObserver,
  `scrollIntoView`, `offsetWidth`, body overflow locking and the dropdown's
  screen coordinates are not modelled.
- Browser navigation: react-router history is a `replace` flag, and
  `window.location.href` is the returned link. The mail client that opens it
  is not modelled.
- Form constraint validation (`required`, `type="email"`) runs in the
  browser before `handleSubmit`, so it is not modelled.
- React state timing. `activeParent` is derived directly from the active
  link, not one render later through an effect. Stale closures are not
  modelled.
- Gallery.DragMove: velocity is an exact real, so IEEE-754 rounding is not
  modelled.
- JsNumber.ParseInt: the value is exact, so precision loss above 2^53 is not
  modelled, and −0 is the integer 0. Every caller compares the result with
  `< 0`, which −0 fails just as 0 does.
- Catalog: member bios are display text that no logic reads, so they are not
  carried. The other files that only declare types or build settings, and the
  canvas and CSS effect components, are not part of this model.
- Gallery.Init: requires a non-empty gallery. The source divides by
  `images.length`, which gives NaN for an empty one. Every site gallery is
  non-empty (Catalog.GalleryLengths).
- CreatorCard.Init: requires at least one profile. The source reads
  `profiles[0]` and fails to render with none. Every member has a profile
  (Catalog.ProfileCounts).
- CreatorCard.ReplaceFirst: the replacement is taken literally; the `$&`,
  `$$`, `` $` `` and `$'` patterns that JavaScript expands in a replacement
  string are not modelled. The card passes the `$`-free "bg-".
- RotatingText.Init: requires at least one phrase. The source calls
  `split` on `texts[index]`, which is undefined for an empty list, so it throws.

## Findings

| source | as written | input that shows it | evidently intended | confidence | as-written member | corrected member |
|---|---|---|---|---|---|---|
| components/RotatingText.tsx:98-99 | the delay is (charCount + charIndex)·40 and charCount also grows once per letter, so a letter's in-word index is counted twice | "abcd ef": 'd' (4th letter) waits 240 ms but 'e' (5th letter) only 200 ms | one 40 ms step per letter in reading order, (charCount)·40 | not executed; medium | RotatingText.DelaysOutOfOrder | RotatingText.StaggerInReadingOrder |
