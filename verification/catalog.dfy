/** The site's static content: the navigation tree, the image galleries and the
    member table, with the record types they are built from. The resolver and
    the navigation bar read these; nothing ever writes them. */
module Catalog {
  import opened Wrappers

  /** A navigation entry. `children` is `undefined` (None) for a plain link;
      an empty array is still present (Some). `caption` is the displayed label. */
  datatype NavLink = NavLink(href: string, caption: string, children: Option<seq<NavLink>>)

  datatype CreatorProfile = CreatorProfile(contact: string, profileImage: string)

  /** A row of the member table. The free-text bio is display copy that no
      logic reads, so it is not carried. */
  datatype Member = Member(
    id: string,
    sectionTitle: string,
    name: string,
    profiles: seq<CreatorProfile>,
    galleryImages: seq<string>)

  function Leaf(href: string, caption: string): NavLink {
    NavLink(href, caption, None)
  }

  const NavLinks: seq<NavLink> := [
    Leaf("#home", "Home"),
    Leaf("#about", "About"),
    NavLink("#artists", "Talent", Some([
      Leaf("#artists", "Artists"),
      Leaf("#developers", "Developers"),
      Leaf("#designers", "Designers"),
      Leaf("#editors", "Editors"),
      Leaf("#cosplay", "Cosplay"),
      Leaf("#moderators", "Moderators"),
      Leaf("#furry", "Furry")
    ])),
    Leaf("#contact", "Contact")
  ]

  const ArtistOneProfile := "/images/profiles/artists1.jpg"
  const ArtistTwoProfile := "/images/profiles/artists2.jpg"
  const ArtistThreeProfile := "/images/profiles/artists3.jpg"
  const ArtistFourProfile := "/images/profiles/artists4.jpg"
  const ArtistFiveProfile := "/images/profiles/artists5.jpg"
  const ModeratorProfile := "/images/profiles/moderators.jpg"

  const ArtistsGallery: seq<string> := [
      "/images/artists/1.jpg", "/images/artists/2.jpg", "/images/artists/3.jpg",
      "/images/artists/7.jpg", "/images/artists/8.jpg", "/images/artists/9.jpg",
      "/images/artists/10.jpg", "/images/artists/11.jpg", "/images/artists/13.jpg",
      "/images/artists/14.jpg", "/images/artists/15.jpg", "/images/artists/16.jpg",
      "/images/artists/17.jpg", "/images/artists/19.jpg", "/images/artists/20.jpg",
      "/images/artists/24.jpg", "/images/artists/25.jpg"
    ]

  const DevelopersGallery: seq<string> := [
      "/images/developers/1.jpg", "/images/developers/2.jpg", "/images/developers/3.jpg",
      "/images/developers/4.jpg", "/images/developers/5.jpg", "/images/developers/6.jpg",
      "/images/developers/7.jpg", "/images/developers/8.jpg", "/images/developers/9.jpg",
      "/images/developers/10.jpg"
    ]

  const DesignersGallery: seq<string> := [
      "/images/designers/1.jpg", "/images/designers/2.jpg", "/images/designers/3.jpg",
      "/images/designers/4.jpg", "/images/designers/5.jpg", "/images/designers/6.jpg",
      "/images/designers/7.jpg", "/images/designers/8.jpg"
    ]

  const EditorsGallery: seq<string> := [
      "/images/editors/1.jpg", "/images/editors/2.jpg", "/images/editors/3.jpg",
      "/images/editors/4.jpg", "/images/editors/5.jpg", "/images/editors/6.jpg",
      "/images/editors/7.jpg", "/images/editors/8.jpg", "/images/editors/9.jpg",
      "/images/editors/10.jpg"
    ]

  const CosplayGallery: seq<string> := [
      "/images/cosplay/1.jpg", "/images/cosplay/2.jpg", "/images/cosplay/3.jpg",
      "/images/cosplay/4.jpg", "/images/cosplay/5.jpg"
    ]

  const ModeratorsGallery: seq<string> := [
      "/images/moderators/1.jpg", "/images/moderators/2.jpg", "/images/moderators/3.jpg",
      "/images/moderators/4.jpg", "/images/moderators/5.jpg", "/images/moderators/6.jpg",
      "/images/moderators/7.jpg", "/images/moderators/8.jpg", "/images/moderators/9.jpg",
      "/images/moderators/10.jpg"
    ]

  const FurryGallery: seq<string> := [
      "/images/furry/1.jpg", "/images/furry/2.jpg", "/images/furry/3.jpg",
      "/images/furry/4.jpg", "/images/furry/5.jpg", "/images/furry/6.jpg",
      "/images/furry/7.jpg", "/images/furry/8.jpg", "/images/furry/9.jpg",
      "/images/furry/11.jpg", "/images/furry/12.jpg", "/images/furry/13.jpg",
      "/images/furry/14.jpg", "/images/furry/15.jpg", "/images/furry/16.jpg",
      "/images/furry/17.jpg", "/images/furry/18.jpg", "/images/furry/19.jpg"
    ]

  const MembersData: seq<Member> := [
    Member("artists", "The Visionary Artist", "Digital & Hand Drawing Artist",
      [ CreatorProfile("Discord: @carlacruz2002", ArtistOneProfile),
        CreatorProfile("Discord: @gaia_here", ArtistTwoProfile),
        CreatorProfile("Discord: @alessia_her", ArtistThreeProfile),
        CreatorProfile("Discord: @vayra_her", ArtistFourProfile),
        CreatorProfile("Discord: @vixara_here", ArtistFiveProfile) ],
      ArtistsGallery),
    Member("developers", "The Web Wizard", "Web Developer",
      [ CreatorProfile("Discord: @vixara_here", ArtistFiveProfile) ],
      DevelopersGallery),
    Member("designers", "The Thumbnail Designer", "Thumbnail Designer",
      [ CreatorProfile("Discord: @vayra_her", ArtistFourProfile) ],
      DesignersGallery),
    Member("editors", "The Video Editor", "Video Editor",
      [ CreatorProfile("Discord: @alessia_her", ArtistThreeProfile) ],
      EditorsGallery),
    Member("cosplay", "The Cosplay Crafter", "Cosplay Equipment Provider",
      [ CreatorProfile("Discord: @carlacruz2002", ArtistOneProfile) ],
      CosplayGallery),
    Member("moderators", "The Server Moderator", "Discord Moderator",
      [ CreatorProfile("Discord: @ramiro_here", ModeratorProfile) ],
      ModeratorsGallery),
    Member("furry", "The Furry Specialist", "Furry Content Creator",
      [ CreatorProfile("Discord: @vayra_her", ArtistFourProfile) ],
      FurryGallery)
  ]

  const ContactLinks: seq<string> := [
    "Join our Discord", "Collaborate with us", "Follow The Creatorz", "Get in touch", "Work with us"
  ]

  // ---------------------------------------------------------------------------
  // Facts about the data that the rest of the site relies on
  // ---------------------------------------------------------------------------

  /** Member ids are pairwise distinct, so looking a member up by id is unambiguous. */
  lemma MemberIdsDistinct()
    ensures forall i, j :: 0 <= i < j < |MembersData| ==> MembersData[i].id != MembersData[j].id
  {
  }

  /** Every gallery is non-empty; in member order the lengths are 17, 10, 8, 10, 5, 10, 18. */
  lemma GalleryLengths()
    ensures seq(|MembersData|, i requires 0 <= i < |MembersData| => |MembersData[i].galleryImages|)
         == [17, 10, 8, 10, 5, 10, 18]
    ensures forall i :: 0 <= i < |MembersData| ==> |MembersData[i].galleryImages| > 0
  {
  }

  /** The first section is the artists', with seventeen images. */
  lemma ArtistsEntry()
    ensures MembersData[0].id == "artists"
    ensures |MembersData[0].galleryImages| == 17
    ensures MembersData[0].galleryImages[2] == "/images/artists/3.jpg"
  {
  }

  /** Every member has a profile; only the artists have more than one (five). */
  lemma ProfileCounts()
    ensures forall i :: 0 <= i < |MembersData| ==> |MembersData[i].profiles| >= 1
    ensures |MembersData[0].profiles| == 5
    ensures forall i :: 1 <= i < |MembersData| ==> |MembersData[i].profiles| == 1
  {
  }

  predicate Anchored(l: NavLink) {
    |l.href| > 0 && l.href[0] == '#'
  }

  /** Every href of the navigation tree, top level and children, is an in-page anchor. */
  lemma NavHrefsAnchored()
    ensures forall i :: 0 <= i < |NavLinks| ==> Anchored(NavLinks[i])
    ensures forall i, j ::
              0 <= i < |NavLinks| && NavLinks[i].children.Some? && 0 <= j < |NavLinks[i].children.value| ==>
                Anchored(NavLinks[i].children.value[j])
  {
  }

  /** The Talent entry lists one child per member, in member order, each linking
      to that member's section; its own href is its first child's. */
  lemma TalentMatchesMembers()
    ensures NavLinks[2].caption == "Talent" && NavLinks[2].children.Some?
    ensures var kids := NavLinks[2].children.value;
      && |kids| == |MembersData|
      && (forall i :: 0 <= i < |kids| ==> kids[i].href == "#" + MembersData[i].id)
      && NavLinks[2].href == kids[0].href == "#artists"
  {
  }
}
