/**
 * The category card on the rooms page: its picture or video, its spec chips
 * with their icons, and the room record it hands to the details modal.
 */
module CategoryCard {
  import opened Base
  import opened Text
  import opened Js
  import opened Specs
  import opened RoomDetails

  /** A room category as the rooms listing serves it; nullable columns are `None` when null or absent. */
  datatype Category = Category(
    id: int,
    slug: string,
    title: string,
    description: Option<string>,
    specs: Option<SpecList>,
    essentialAmenities: Option<seq<string>>,
    bedType: Option<string>,
    maxOccupancy: Option<int>,
    roomSize: Option<string>,
    roomCount: int,
    videoUrl: Option<string>,
    images: seq<RoomImage>)

  // ---------------------------------------------------------------------------
  // Spec chips
  // ---------------------------------------------------------------------------

  datatype Icon = Wifi | Snowflake | Tv | Droplets | VideoCamera | Car | ShowerHead

  /** The spec keys that have an icon. */
  const IconKeys: seq<string> := ["wifi", "ac", "tv", "geyser", "cctv", "parking", "attached"]

  /** `getSpecIcon`: the icon for one of the seven known keys, none for any other. */
  function SpecIcon(spec: string): (r: Option<Icon>)
    ensures r.Some? <==> spec in IconKeys
  {
    match spec
    case "wifi" => Some(Wifi)
    case "ac" => Some(Snowflake)
    case "tv" => Some(Tv)
    case "geyser" => Some(Droplets)
    case "cctv" => Some(VideoCamera)
    case "parking" => Some(Car)
    case "attached" => Some(ShowerHead)
    case _ => None
  }

  /** Different keys never share an icon. */
  lemma SpecIconInjective(a: string, b: string)
    requires SpecIcon(a).Some? && SpecIcon(a) == SpecIcon(b)
    ensures a == b
  {
  }

  /**
   * What `ROOM_SPECS[spec] || spec` yields. The table is a plain object, so a
   * key it does not hold that names an inherited member finds that member (a
   * function, or the prototype object for `__proto__`); being truthy, it wins
   * over the key.
   */
  datatype ChipLabel = LabelText(text: string) | InheritedMember(name: string)

  /** One chip: the key, the icon if any, and the label. */
  datatype Chip = Chip(key: string, icon: Option<Icon>, display: ChipLabel)

  /** The label lookup for one key; `names` holds the table's own entries. */
  function LabelOf(names: map<string, string>, key: string): ChipLabel {
    if key in names then LabelText(if names[key] != "" then names[key] else key)
    else if key in PrototypeNames then InheritedMember(key)
    else LabelText(key)
  }

  /**
   * The chips for the switched-on specs, in entry order; `names` is the
   * display-name table the card looks keys up in.
   */
  function Chips(specs: Option<SpecList>, names: map<string, string>): (cs: seq<Chip>)
    ensures |cs| == |ActiveKeys(specs)|
    ensures forall i :: 0 <= i < |cs| ==> cs[i].key == ActiveKeys(specs)[i] && cs[i].icon == SpecIcon(cs[i].key)
    ensures forall i :: 0 <= i < |cs| && cs[i].key in names && names[cs[i].key] != "" ==>
      cs[i].display == LabelText(names[cs[i].key])
    ensures forall i :: 0 <= i < |cs| && cs[i].key in names && names[cs[i].key] == "" ==>
      cs[i].display == LabelText(cs[i].key)
    ensures forall i :: 0 <= i < |cs| && cs[i].key !in names && cs[i].key in PrototypeNames ==>
      cs[i].display == InheritedMember(cs[i].key)
    ensures forall i :: 0 <= i < |cs| && cs[i].key !in names && cs[i].key !in PrototypeNames ==>
      cs[i].display == LabelText(cs[i].key)
  {
    var keys := ActiveKeys(specs);
    seq(|keys|, i requires 0 <= i < |keys| => Chip(keys[i], SpecIcon(keys[i]), LabelOf(names, keys[i])))
  }

  /** A chip's label is text exactly when the table holds the key or the key names no inherited member. */
  lemma ChipLabelIsText(specs: Option<SpecList>, names: map<string, string>, i: nat)
    requires i < |Chips(specs, names)|
    ensures var c := Chips(specs, names)[i];
      c.display.LabelText? <==> c.key in names || c.key !in PrototypeNames
  {
  }

  /** A switched-on `constructor` spec missing from the table is labelled with the inherited member, not its key. */
  lemma ConstructorSpecChip(names: map<string, string>)
    requires "constructor" !in names
    ensures Chips(Some([SpecEntry("constructor", true)]), names)
      == [Chip("constructor", None, InheritedMember("constructor"))]
  {
    assert ActiveKeys(Some([SpecEntry("constructor", true)])) == ["constructor"];
  }

  /** A chip is shown exactly for each switched-on spec. */
  lemma ChipsIff(specs: Option<SpecList>, names: map<string, string>, key: string)
    ensures (exists i :: 0 <= i < |Chips(specs, names)| && Chips(specs, names)[i].key == key)
      <==> specs.Some? && SpecEntry(key, true) in specs.value
  {
    var keys := ActiveKeys(specs);
    if key in keys {
      var i :| 0 <= i < |keys| && keys[i] == key;
      assert Chips(specs, names)[i].key == key;
    }
  }

  // ---------------------------------------------------------------------------
  // Picture and video
  // ---------------------------------------------------------------------------

  const PlaceholderImage := "/placeholder-room.svg"

  /** `images[0]?.url || placeholder`. */
  function MainImage(images: seq<RoomImage>): (r: string)
    ensures r != ""
    ensures images != [] && images[0].url != "" ==> r == images[0].url
    ensures r != PlaceholderImage ==> images != [] && r == images[0].url
  {
    ToStr(Or(if images == [] then Undefined else Str(images[0].url), Str(PlaceholderImage)))
  }

  /** `videoUrl && videoUrl.trim() !== ''`. */
  predicate HasVideo(videoUrl: Option<string>) {
    Truthy(OfOptional(videoUrl)) && Trim(videoUrl.value) != ""
  }

  /** The card has a video exactly when the url is there and not all white space. */
  lemma HasVideoIff(videoUrl: Option<string>)
    ensures HasVideo(videoUrl) <==> videoUrl.Some? && !AllSpace(videoUrl.value)
  {
    if videoUrl.Some? {
      TrimEmptyIffAllSpace(videoUrl.value);
    }
  }

  /** What the card's media area shows. */
  datatype Media = CardVideo(src: string, poster: string) | CardImage(src: string)

  function MediaOf(c: Category): (m: Media)
    ensures m.CardVideo? <==> HasVideo(c.videoUrl)
    ensures m.CardVideo? ==> m.src == c.videoUrl.value && m.poster == MainImage(c.images)
    ensures m.CardImage? ==> m.src == MainImage(c.images)
  {
    if HasVideo(c.videoUrl) then CardVideo(c.videoUrl.value, MainImage(c.images)) else CardImage(MainImage(c.images))
  }

  // ---------------------------------------------------------------------------
  // The room record for the modal
  // ---------------------------------------------------------------------------

  /** `s || undefined` for a nullable string. */
  function NonEmpty(s: Option<string>): (r: Option<string>)
    ensures r.None? <==> s.None? || s.value == ""
    ensures r.Some? ==> r == s
  {
    if s.Some? && s.value != "" then s else None
  }

  /**
   * `roomData`: a null description becomes `''`, absent amenities `[]`, falsy
   * bed type, occupancy, size and video url `undefined`; the rest passes through.
   */
  function ToRoom(c: Category): (r: Room)
    ensures r.id == c.id && r.title == c.title && r.specs == c.specs && r.images == c.images
    ensures r.description == c.description.GetOr("")
    ensures r.essentialAmenities == Some(c.essentialAmenities.GetOr([]))
    ensures r.bedType == NonEmpty(c.bedType) && r.roomSize == NonEmpty(c.roomSize)
    ensures r.videoUrl == NonEmpty(c.videoUrl)
    ensures r.maxOccupancy.None? <==> c.maxOccupancy.None? || c.maxOccupancy.value == 0
    ensures r.maxOccupancy.Some? ==> r.maxOccupancy == c.maxOccupancy
  {
    Room(
      c.id,
      c.title,
      ToStr(Or(OfOptional(c.description), Str(""))),
      c.specs,
      Some(c.essentialAmenities.GetOr([])),
      NonEmpty(c.bedType),
      match c.maxOccupancy
      case Some(n) => if n != 0 then Some(n) else None
      case None => None,
      NonEmpty(c.roomSize),
      c.images,
      NonEmpty(c.videoUrl))
  }

  /** The category's fields copied over unnormalised. */
  function RawRoom(c: Category): Room {
    Room(c.id, c.title, c.description.GetOr(""), c.specs, c.essentialAmenities,
      c.bedType, c.maxOccupancy, c.roomSize, c.images, c.videoUrl)
  }

  /**
   * The normalisation only turns falsy values into other falsy values: the
   * modal shows the same specification panel, amenity list and header as it
   * would for the raw fields.
   */
  lemma NormalisationInvisible(c: Category, current: int)
    ensures GetRoomSpecs(ToRoom(c)) == GetRoomSpecs(RawRoom(c))
    ensures EssentialAmenities(ToRoom(c)) == EssentialAmenities(RawRoom(c))
    ensures HeaderOf(ToRoom(c), current) == HeaderOf(RawRoom(c), current)
  {
  }

  /**
   * The modal opens on the video exactly when the card shows one, unless the
   * url is non-empty white space: then the card shows the picture and the
   * modal a video player.
   */
  lemma CardAndModalAgreeOnVideo(c: Category, current: int)
    ensures HeaderOf(ToRoom(c), current).VideoPlayer? <==> HasVideo(c.videoUrl) || (c.videoUrl.Some? && c.videoUrl.value != "" && AllSpace(c.videoUrl.value))
  {
    HasVideoIff(c.videoUrl);
  }

  /** A single-space url: the card shows no video while the modal does. */
  lemma BlankVideoUrlDisagrees(c: Category, current: int)
    requires c.videoUrl == Some(" ")
    ensures !HasVideo(c.videoUrl) && HeaderOf(ToRoom(c), current).VideoPlayer?
  {
    HasVideoIff(c.videoUrl);
    assert IsJsSpace(' ');
  }

  /** The modal's occupancy line for a card: the category's number of guests, or the default when null or zero. */
  lemma CardOccupancy(c: Category)
    ensures GetRoomSpecs(ToRoom(c)).maxOccupancy ==
      if c.maxOccupancy.Some? && c.maxOccupancy.value != 0 then GetRoomSpecs(RawRoom(c)).maxOccupancy else DefaultOccupancy
  {
  }
}
