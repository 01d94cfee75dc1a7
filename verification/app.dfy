/** The page shell: the lightbox state derived from the two query parameters
    `category` and `image`, the transitions that rewrite them, the wiring of
    the overlay's commands to those transitions, and the per-member section
    theme. The query string is an abstract key-value map. */
module App {
  import opened Wrappers
  import opened JsNumber
  import opened Catalog
  import Circular
  import LightboxView

  type Params = map<string, string>

  const CategoryKey := "category"
  const ImageKey := "image"

  /** `searchParams.get(key)`: `None` is `null`. */
  function Get(p: Params, key: string): (r: Option<string>)
    ensures r.Some? <==> key in p
    ensures r.Some? ==> r.value == p[key]
  {
    if key in p then Some(p[key]) else None
  }

  /** JavaScript truthiness of a nullable string: `null` and `""` are falsy. */
  predicate Truthy(s: Option<string>) {
    s.Some? && s.value != ""
  }

  datatype LightboxState = LightboxState(category: string, index: int, imageSrc: string, total: int)

  /** `k` is the position `membersData.find` stops at for `id`. */
  predicate IsFirstWithId(members: seq<Member>, id: string, k: int) {
    && 0 <= k < |members|
    && members[k].id == id
    && forall j :: 0 <= j < k ==> members[j].id != id
  }

  /** The position of the first member whose id is `id`, or None. */
  function FindMember(members: seq<Member>, id: string): (r: Option<nat>)
    ensures r.None? <==> forall j :: 0 <= j < |members| ==> members[j].id != id
    ensures r.Some? ==> IsFirstWithId(members, id, r.value)
    decreases |members|
  {
    if |members| == 0 then None
    else if members[0].id == id then Some(0)
    else
      match FindMember(members[1..], id)
      case None => None
      case Some(k) => Some(k + 1)
  }

  /** The `lightboxState` memo: a total function of the query parameters. It is
      None unless the category is a non-empty id of some member, the image
      parameter is present, and parseInt reads from it an index inside that
      member's gallery; then it carries that index, the image there and the
      gallery's length. */
  function Resolve(members: seq<Member>, params: Params): (r: Option<LightboxState>)
    ensures !Truthy(Get(params, CategoryKey)) ==> r.None?
    ensures ImageKey !in params ==> r.None?
    ensures CategoryKey in params && (forall j :: 0 <= j < |members| ==> members[j].id != params[CategoryKey]) ==> r.None?
    ensures ImageKey in params && ParseInt(params[ImageKey]).None? ==> r.None?
    ensures r.Some? <==>
      && Truthy(Get(params, CategoryKey)) && ImageKey in params
      && (exists k :: IsFirstWithId(members, params[CategoryKey], k))
      && ParseInt(params[ImageKey]).Some?
      && (forall k :: IsFirstWithId(members, params[CategoryKey], k) ==>
            0 <= ParseInt(params[ImageKey]).value < |members[k].galleryImages|)
    ensures r.Some? ==>
      && r.value.category == params[CategoryKey]
      && Some(r.value.index) == ParseInt(params[ImageKey])
      && 0 <= r.value.index < r.value.total
      && exists k :: IsFirstWithId(members, r.value.category, k)
           && r.value.total == |members[k].galleryImages|
           && r.value.imageSrc == members[k].galleryImages[r.value.index]
  {
    var category := Get(params, CategoryKey);
    var indexParam := Get(params, ImageKey);
    if !Truthy(category) || indexParam.None? then None
    else
      match FindMember(members, category.value)
      case None => None
      case Some(k) =>
        FirstIsUnique(members, category.value, k);
        var images := members[k].galleryImages;
        match ParseInt(indexParam.value)
        case None => None
        case Some(index) =>
          if index < 0 || index >= |images| then None
          else Some(LightboxState(category.value, index, images[index], |images|))
  }

  lemma FirstIsUnique(members: seq<Member>, id: string, k: int)
    requires IsFirstWithId(members, id, k)
    ensures forall k' :: IsFirstWithId(members, id, k') ==> k' == k
  {
    forall k' | IsFirstWithId(members, id, k')
      ensures k' == k
    {
    }
  }

  /** A `setSearchParams` call: the new parameters and whether it replaces the
      current history entry instead of pushing a new one. */
  datatype Navigation = Navigation(params: Params, replace: bool)

  /** `{ category, image: index.toString() }`, the parameters every image
      navigation writes. */
  function ImageParams(category: string, index: int): (p: Params)
    ensures p.Keys == {CategoryKey, ImageKey}
    ensures p[CategoryKey] == category && ParseInt(p[ImageKey]) == Some(index)
  {
    ParseIntRoundTrip(index);
    map[CategoryKey := category, ImageKey := IntToString(index)]
  }

  /** `openLightbox(category, index)`: a new history entry naming the image. */
  function OpenLightbox(category: string, index: int): (n: Navigation)
    ensures !n.replace && n.params.Keys == {CategoryKey, ImageKey}
    ensures n.params[CategoryKey] == category && ParseInt(n.params[ImageKey]) == Some(index)
  {
    Navigation(ImageParams(category, index), false)
  }

  /** `closeLightbox`: both parameters removed. */
  function CloseLightbox(): (n: Navigation)
    ensures n.params == map[] && !n.replace
  {
    Navigation(map[], false)
  }

  /** Opening an image of a member and resolving the result gives back that
      member's category and that index. */
  lemma OpenResolves(members: seq<Member>, k: int, index: int)
    requires 0 <= k < |members| && members[k].id != ""
    requires IsFirstWithId(members, members[k].id, k)
    requires 0 <= index < |members[k].galleryImages|
    ensures Resolve(members, OpenLightbox(members[k].id, index).params)
         == Some(LightboxState(members[k].id, index, members[k].galleryImages[index], |members[k].galleryImages|))
  {
    var p := OpenLightbox(members[k].id, index).params;
    var r := Resolve(members, p);
    FirstIsUnique(members, members[k].id, k);
    assert r.Some?;
  }

  /** On the site's own data every member's gallery round-trips through the URL. */
  lemma SiteOpenResolves(k: int, index: int)
    requires 0 <= k < |MembersData| && 0 <= index < |MembersData[k].galleryImages|
    ensures Resolve(MembersData, OpenLightbox(MembersData[k].id, index).params)
         == Some(LightboxState(MembersData[k].id, index, MembersData[k].galleryImages[index], |MembersData[k].galleryImages|))
  {
    MemberIdsDistinct();
    OpenResolves(MembersData, k, index);
  }

  /** Closing always resolves to a closed lightbox. */
  lemma CloseResolvesToNone(members: seq<Member>)
    ensures Resolve(members, CloseLightbox().params).None?
  {
  }

  /** `nextImage`: nothing without an open image; otherwise the following index
      of the same category, wrapping around, written in place. */
  function NextImage(members: seq<Member>, params: Params): (n: Option<Navigation>)
    ensures n.None? <==> Resolve(members, params).None?
    ensures n.Some? ==> n.value.replace && n.value.params.Keys == {CategoryKey, ImageKey}
    ensures n.Some? ==>
      var s := Resolve(members, params).value;
      Resolve(members, n.value.params).Some?
      && Resolve(members, n.value.params).value.category == s.category
      && Resolve(members, n.value.params).value.total == s.total
      && Resolve(members, n.value.params).value.index == Circular.Next(s.index, s.total)
  {
    match Resolve(members, params)
    case None => None
    case Some(s) =>
      var next := Rem(s.index + 1, s.total);
      ReopenResolves(members, params, s, next);
      Some(Navigation(ImageParams(s.category, next), true))
  }

  /** `prevImage`: the mirror image of `nextImage`. */
  function PrevImage(members: seq<Member>, params: Params): (n: Option<Navigation>)
    ensures n.None? <==> Resolve(members, params).None?
    ensures n.Some? ==> n.value.replace && n.value.params.Keys == {CategoryKey, ImageKey}
    ensures n.Some? ==>
      var s := Resolve(members, params).value;
      Resolve(members, n.value.params).Some?
      && Resolve(members, n.value.params).value.category == s.category
      && Resolve(members, n.value.params).value.total == s.total
      && Resolve(members, n.value.params).value.index == Circular.Prev(s.index, s.total)
  {
    match Resolve(members, params)
    case None => None
    case Some(s) =>
      var prev := Rem(s.index - 1 + s.total, s.total);
      ReopenResolves(members, params, s, prev);
      Some(Navigation(ImageParams(s.category, prev), true))
  }

  /** Rewriting the index of a resolved state within its gallery resolves again. */
  lemma ReopenResolves(members: seq<Member>, params: Params, s: LightboxState, index: int)
    requires Resolve(members, params) == Some(s)
    requires 0 <= index < s.total
    ensures Resolve(members, ImageParams(s.category, index)).Some?
    ensures Resolve(members, ImageParams(s.category, index)).value.category == s.category
    ensures Resolve(members, ImageParams(s.category, index)).value.total == s.total
    ensures Resolve(members, ImageParams(s.category, index)).value.index == index
  {
    var k :| IsFirstWithId(members, s.category, k) && s.total == |members[k].galleryImages|;
    assert members[k].id == s.category && s.category != "";
    OpenResolves(members, k, index);
  }

  /** Stepping back after stepping forward shows the original image again. */
  lemma PrevAfterNext(members: seq<Member>, params: Params)
    requires Resolve(members, params).Some?
    ensures var p := NextImage(members, params).value.params;
      && PrevImage(members, p).Some?
      && Resolve(members, PrevImage(members, p).value.params).value.index == Resolve(members, params).value.index
      && Resolve(members, PrevImage(members, p).value.params).value.category == Resolve(members, params).value.category
  {
    var s := Resolve(members, params).value;
    Circular.PrevAfterNext(s.index, s.total);
  }

  /** Runs an overlay command against the query parameters. */
  function Perform(members: seq<Member>, params: Params, cmd: LightboxView.Command): (n: Option<Navigation>)
    ensures cmd == LightboxView.Close ==> n == Some(CloseLightbox())
    ensures cmd == LightboxView.ShowNext ==> n == NextImage(members, params)
    ensures cmd == LightboxView.ShowPrev ==> n == PrevImage(members, params)
  {
    match cmd
    case Close => Some(CloseLightbox())
    case ShowNext => NextImage(members, params)
    case ShowPrev => PrevImage(members, params)
  }

  /** The overlay's props as the page passes them: open exactly when the
      parameters resolve, and both arrows shown whenever it is open. */
  function LightboxProps(members: seq<Member>, params: Params): (p: LightboxView.Props)
    ensures p.isOpen <==> Resolve(members, params).Some?
    ensures p.hasNext == p.isOpen && p.hasPrev == p.isOpen
    ensures p.isOpen ==> p.imageSrc == Resolve(members, params).value.imageSrc
  {
    var s := Resolve(members, params);
    LightboxView.Props(s.Some?, if s.Some? then s.value.imageSrc else "", s.Some?, s.Some?)
  }

  /** Escape on an open lightbox closes it: the parameters it writes resolve to nothing. */
  lemma EscapeCloses(members: seq<Member>, params: Params)
    requires Resolve(members, params).Some?
    ensures var cmds := LightboxView.KeyDown(LightboxProps(members, params), "Escape");
      && cmds == [LightboxView.Close]
      && Resolve(members, Perform(members, params, cmds[0]).value.params).None?
  {
  }

  /** Opening the third artists' image and reading it back. */
  lemma ResolveExampleHit()
    ensures Resolve(MembersData, map[CategoryKey := "artists", ImageKey := "2"])
         == Some(LightboxState("artists", 2, "/images/artists/3.jpg", 17))
  {
    ArtistsEntry();
    var m := MembersData;
    assert IsFirstWithId(m, "artists", 0);
    OpenResolves(m, 0, 2);
    assert IntToString(2) == "2";
  }

  /** An index one past the end, or negative, closes the lightbox. */
  lemma ResolveExampleOutOfRange()
    ensures Resolve(MembersData, map[CategoryKey := "artists", ImageKey := "17"]).None?
    ensures Resolve(MembersData, map[CategoryKey := "artists", ImageKey := "-1"]).None?
  {
    ArtistsEntry();
    var m := MembersData;
    assert IsFirstWithId(m, "artists", 0);
    assert IntToString(17) == "17";
    assert IntToString(-1) == "-1";
    IndexOutsideGallery(m, 0, 17);
    IndexOutsideGallery(m, 0, -1);
  }

  lemma IndexOutsideGallery(members: seq<Member>, k: int, index: int)
    requires 0 <= k < |members| && members[k].id != ""
    requires IsFirstWithId(members, members[k].id, k)
    requires !(0 <= index < |members[k].galleryImages|)
    ensures Resolve(members, ImageParams(members[k].id, index)).None?
  {
    FirstIsUnique(members, members[k].id, k);
  }

  /** An unknown or empty category closes the lightbox. */
  lemma ResolveExampleBadCategory()
    ensures Resolve(MembersData, map[CategoryKey := "unknown", ImageKey := "0"]).None?
    ensures Resolve(MembersData, map[CategoryKey := "", ImageKey := "0"]).None?
  {
    UnknownCategory();
    var p := map[CategoryKey := "unknown", ImageKey := "0"];
    assert CategoryKey in p && p[CategoryKey] == "unknown";
    assert Resolve(MembersData, p).None?;
  }

  /** A missing image, or one that is not a number, closes the lightbox. */
  lemma ResolveExampleBadImage()
    ensures Resolve(MembersData, map[CategoryKey := "artists", ImageKey := "abc"]).None?
    ensures Resolve(MembersData, map[CategoryKey := "artists"]).None?
  {
    ParseIntNoDigits();
  }

  lemma UnknownCategory()
    ensures forall j :: 0 <= j < |MembersData| ==> MembersData[j].id != "unknown"
  {
  }

  // ---------------------------------------------------------------------------
  // Member sections
  // ---------------------------------------------------------------------------

  /** The seven background gradients cycled through by members without a fixed one. */
  const MemberColors: seq<seq<string>> := [
    ["#ff7e5f", "#feb47b"],
    ["#00c9ff", "#92fe9d"],
    ["#f7971e", "#ffd200"],
    ["#de6262", "#ffb88c"],
    ["#6dd5ed", "#2193b0"],
    ["#cc2b5e", "#753a88"],
    ["#e1eec3", "#f05053"]
  ]

  const ArtistsBackground: seq<string> := ["#0ea5e9", "#ec4899"]
  const DevelopersBackground: seq<string> := ["#a855f7", "#06b6d4"]

  /** The element that frames a member's card. */
  datatype Frame = StackFrame | ElectricBorderFrame

  datatype SectionTheme = SectionTheme(
    background: seq<string>,
    frame: Frame,
    titleColor: string,
    contactColor: string,
    borderColor: string)

  /** The look of the section of the member at position `index`: a fixed
      background for the artists and the developers, else the palette entry
      `index mod 7`; even sections are framed by a Stack in cyan tones, odd
      ones by an electric border in pink tones. */
  function Theme(id: string, index: nat): (t: SectionTheme)
    ensures id == "artists" ==> t.background == ArtistsBackground
    ensures id == "developers" ==> t.background == DevelopersBackground
    ensures id != "artists" && id != "developers" ==> t.background == MemberColors[index % 7]
    ensures t.frame == StackFrame <==> index % 2 == 0
    ensures t.frame == StackFrame ==>
      t.titleColor == "text-cyan-300" && t.contactColor == "text-purple-400" && t.borderColor == "border-cyan-400"
    ensures t.frame == ElectricBorderFrame ==>
      t.titleColor == "text-pink-300" && t.contactColor == "text-green-400" && t.borderColor == "border-pink-400"
  {
    var background :=
      if id == "artists" then ArtistsBackground
      else if id == "developers" then DevelopersBackground
      else MemberColors[Rem(index, |MemberColors|)];
    var isEven := Rem(index, 2) == 0;
    SectionTheme(
      background,
      if isEven then StackFrame else ElectricBorderFrame,
      if isEven then "text-cyan-300" else "text-pink-300",
      if isEven then "text-purple-400" else "text-green-400",
      if isEven then "border-cyan-400" else "border-pink-400")
  }
}
