/**
 * The room details modal: cyclic navigation through the room's images, the
 * specification panel with its defaults, and the feature lists built from the
 * room's switched-on specs and the feature catalogue.
 */
module RoomDetails {
  import opened Base
  import opened Text
  import opened Numerals
  import opened Js
  import opened Specs
  import opened Grouping

  datatype RoomImage = RoomImage(id: int, url: string, caption: Option<string>)

  /** The room record the modal receives; optional fields are `undefined` when absent. */
  datatype Room = Room(
    id: int,
    title: string,
    description: string,
    specs: Option<SpecList>,
    essentialAmenities: Option<seq<string>>,
    bedType: Option<string>,
    maxOccupancy: Option<int>,
    roomSize: Option<string>,
    images: seq<RoomImage>,
    videoUrl: Option<string>)

  // ---------------------------------------------------------------------------
  // Image navigation
  // ---------------------------------------------------------------------------

  /** The next arrow: one step forward, modulo the number of images. */
  function NextImage(i: int, n: int): (r: int)
    requires 0 <= i < n
    ensures 0 <= r < n
    ensures r == if i == n - 1 then 0 else i + 1
  {
    (i + 1) % n
  }

  /** The previous arrow: one step back, from the first image to the last. */
  function PrevImage(i: int, n: int): (r: int)
    requires 0 <= i < n
    ensures 0 <= r < n
  {
    if i == 0 then n - 1 else i - 1
  }

  /** The two arrows undo each other. */
  lemma PrevUndoesNext(i: int, n: int)
    requires 0 <= i < n
    ensures PrevImage(NextImage(i, n), n) == i
    ensures NextImage(PrevImage(i, n), n) == i
  {
  }

  /** The index after pressing the next arrow `k` times. */
  function NextSteps(i: int, n: int, k: nat): (r: int)
    requires 0 <= i < n
    ensures 0 <= r < n
  {
    if k == 0 then i else NextImage(NextSteps(i, n, k - 1), n)
  }

  /** Within one round, `k` presses move `k` places forward, wrapping past the last image. */
  lemma {:induction false} NextStepsWrap(i: int, n: int, k: nat)
    requires 0 <= i < n && k <= n
    ensures NextSteps(i, n, k) == if i + k < n then i + k else i + k - n
  {
    if k > 0 {
      NextStepsWrap(i, n, k - 1);
    }
  }

  /** How many presses of the next arrow lead from image `i` to image `j`. */
  function Distance(i: int, j: int, n: int): int {
    if j >= i then j - i else j - i + n
  }

  /** `n` presses come back to the start, and every image is reached within one round. */
  lemma NextCycles(i: int, n: int)
    requires 0 <= i < n
    ensures NextSteps(i, n, n) == i
    ensures forall j :: 0 <= j < n ==> 0 <= Distance(i, j, n) < n && NextSteps(i, n, Distance(i, j, n)) == j
  {
    NextStepsWrap(i, n, n);
    forall j | 0 <= j < n ensures 0 <= Distance(i, j, n) < n && NextSteps(i, n, Distance(i, j, n)) == j {
      NextStepsWrap(i, n, Distance(i, j, n));
    }
  }

  /** The large picture: the current image's url when it is a non-empty string, else the first image's. */
  function ShownImageUrl(images: seq<RoomImage>, current: int): (r: string)
    requires images != []
    ensures r == images[0].url || (0 <= current < |images| && r == images[current].url && r != "")
    ensures 0 <= current < |images| && images[current].url != "" ==> r == images[current].url
  {
    if 0 <= current < |images| && images[current].url != "" then images[current].url else images[0].url
  }

  /** What the top of the modal shows: the video, or else the image viewer, or neither. */
  datatype Header = VideoPlayer(src: string, poster: Option<string>) | ImageViewer(url: string, arrows: bool) | NoHeader

  function HeaderOf(room: Room, current: int): (h: Header)
    ensures h.VideoPlayer? <==> room.videoUrl.Some? && room.videoUrl.value != ""
    ensures h.ImageViewer? <==> (room.videoUrl.None? || room.videoUrl.value == "") && room.images != []
    ensures h.ImageViewer? ==> (h.arrows <==> |room.images| > 1)
    ensures h.VideoPlayer? ==> h.poster == if room.images == [] then None else Some(room.images[0].url)
  {
    if Truthy(OfOptional(room.videoUrl)) then
      VideoPlayer(room.videoUrl.value, if room.images == [] then None else Some(room.images[0].url))
    else if room.images != [] then
      ImageViewer(ShownImageUrl(room.images, current), |room.images| > 1)
    else NoHeader
  }

  // ---------------------------------------------------------------------------
  // Specifications panel
  // ---------------------------------------------------------------------------

  datatype RoomSpecs = RoomSpecs(bedType: string, maxOccupancy: string, roomSize: string)

  const DefaultBedType := "Double Bed"
  const DefaultOccupancy := "2 Guests"
  const DefaultRoomSize := "25 sqm"

  /** `getRoomSpecs`: each truthy field is shown, each falsy one falls back to its default. */
  function GetRoomSpecs(room: Room): (r: RoomSpecs)
    ensures r.bedType == if room.bedType.Some? && room.bedType.value != "" then room.bedType.value else DefaultBedType
    ensures r.roomSize == if room.roomSize.Some? && room.roomSize.value != "" then room.roomSize.value else DefaultRoomSize
    ensures room.maxOccupancy.None? || room.maxOccupancy.value == 0 ==> r.maxOccupancy == DefaultOccupancy
    ensures r.bedType != "" && r.maxOccupancy != "" && r.roomSize != ""
  {
    RoomSpecs(
      ToStr(Or(OfOptional(room.bedType), Str(DefaultBedType))),
      match room.maxOccupancy
      case Some(n) => if n != 0 then IntToString(n) + " Guests" else DefaultOccupancy
      case None => DefaultOccupancy,
      ToStr(Or(OfOptional(room.roomSize), Str(DefaultRoomSize))))
  }

  /** The occupancy line always reads back as a number of guests: the room's own (a safe integer), or two. */
  lemma OccupancyReadsBack(room: Room)
    requires room.maxOccupancy.Some? ==> IsSafeInteger(room.maxOccupancy.value)
    ensures EndsWith(GetRoomSpecs(room).maxOccupancy, " Guests")
    ensures ParseInt(GetRoomSpecs(room).maxOccupancy) ==
      Some(if room.maxOccupancy.Some? && room.maxOccupancy.value != 0 then room.maxOccupancy.value else 2)
  {
    var n := if room.maxOccupancy.Some? && room.maxOccupancy.value != 0 then room.maxOccupancy.value else 2;
    DefaultOccupancyIsTwo();
    ParseIntAfterIntToString(n, " Guests");
    EndsWithConcat(IntToString(n), " Guests");
  }

  lemma DefaultOccupancyIsTwo()
    ensures DefaultOccupancy == IntToString(2) + " Guests"
  {
  }

  /** The amenity list, or the placeholder when there is none. */
  datatype AmenityList = Amenities(items: seq<string>) | NoAmenitiesSpecified

  function EssentialAmenities(room: Room): (r: AmenityList)
    ensures r.NoAmenitiesSpecified? <==> room.essentialAmenities.None? || room.essentialAmenities.value == []
    ensures r.Amenities? ==> r.items == room.essentialAmenities.value
  {
    match room.essentialAmenities
    case Some(items) => if items != [] then Amenities(items) else NoAmenitiesSpecified
    case None => NoAmenitiesSpecified
  }

  // ---------------------------------------------------------------------------
  // Features
  // ---------------------------------------------------------------------------

  /** An entry of the feature catalogue served by the room-features endpoint. */
  datatype RoomFeature = RoomFeature(
    id: int, key: string, labelText: string, description: Option<string>,
    category: string, isActive: bool, sortOrder: int)

  /** The outcome of fetching the catalogue: a thrown fetch, a non-ok reply, or the reply's `data`. */
  datatype CatalogueFetch = FetchThrew | NotOk | OkReply(data: Option<seq<RoomFeature>>)

  /** The catalogue the modal works with: the reply's data, else the initial empty list. */
  function LoadedCatalogue(f: CatalogueFetch): (r: seq<RoomFeature>)
    ensures r != [] ==> f.OkReply? && f.data == Some(r)
    ensures f.OkReply? && f.data.Some? ==> r == f.data.value
    ensures !(f.OkReply? && f.data.Some?) ==> r == []
  {
    match f
    case OkReply(Some(items)) => items
    case _ => []
  }

  /** A switched-on spec as the modal lists it. */
  datatype ActiveFeature = ActiveFeature(key: string, labelText: string, category: string)

  /** The position of the first catalogue entry with the key, -1 when there is none. */
  function FindIndex(catalogue: seq<RoomFeature>, key: string): (i: int)
    ensures -1 <= i < |catalogue|
    ensures i == -1 <==> forall j :: 0 <= j < |catalogue| ==> catalogue[j].key != key
    ensures i >= 0 ==> catalogue[i].key == key && forall j :: 0 <= j < i ==> catalogue[j].key != key
  {
    if catalogue == [] then -1
    else if catalogue[0].key == key then 0
    else
      var i := FindIndex(catalogue[1..], key);
      if i == -1 then -1 else i + 1
  }

  /** `catalogue.find(f => f.key === key)`: the first entry with the key. */
  function FindFeature(catalogue: seq<RoomFeature>, key: string): (r: Option<RoomFeature>)
    ensures r.None? <==> forall j :: 0 <= j < |catalogue| ==> catalogue[j].key != key
    ensures r.Some? ==> r.value == catalogue[FindIndex(catalogue, key)]
  {
    var i := FindIndex(catalogue, key);
    if i == -1 then None else Some(catalogue[i])
  }

  /**
   * `key.charAt(0).toUpperCase() + key.slice(1)`. Upper-casing is modelled on
   * ASCII letters; spec keys are identifiers.
   */
  function Capitalize(key: string): (r: string)
    ensures |r| == |key|
    ensures r != [] ==> r[0] == AsciiUpperChar(key[0]) && r[1..] == key[1..]
  {
    if key == [] then [] else [AsciiUpperChar(key[0])] + key[1..]
  }

  /** Capitalising changes at most the case of the first letter, and doing it twice changes nothing more. */
  lemma CapitalizeKeepsWord(key: string)
    ensures AsciiLower(Capitalize(key)) == AsciiLower(key)
    ensures Capitalize(Capitalize(key)) == Capitalize(key)
  {
  }

  /** The feature's label: the catalogue's when non-empty, else the capitalised key. */
  function LabelFor(catalogue: seq<RoomFeature>, key: string): (r: string)
    ensures (FindFeature(catalogue, key).Some? && FindFeature(catalogue, key).value.labelText != "")
      ==> r == FindFeature(catalogue, key).value.labelText
    ensures FindFeature(catalogue, key).None? ==> r == Capitalize(key)
    ensures (FindFeature(catalogue, key).Some? && FindFeature(catalogue, key).value.labelText == "")
      ==> r == Capitalize(key)
  {
    var f := FindFeature(catalogue, key);
    if f.Some? && f.value.labelText != "" then f.value.labelText else Capitalize(key)
  }

  /** The feature's category: the catalogue's when non-empty, else `general`. */
  function CategoryFor(catalogue: seq<RoomFeature>, key: string): (r: string)
    ensures r != ""
    ensures (forall i :: 0 <= i < |catalogue| ==> catalogue[i].key != key) ==> r == "general"
    ensures (FindFeature(catalogue, key).Some? && FindFeature(catalogue, key).value.category != "")
      ==> r == FindFeature(catalogue, key).value.category
    ensures (FindFeature(catalogue, key).Some? && FindFeature(catalogue, key).value.category == "")
      ==> r == "general"
  {
    var f := FindFeature(catalogue, key);
    if f.Some? && f.value.category != "" then f.value.category else "general"
  }

  /** `getActiveFeatures`: one entry per switched-on spec, in entry order. */
  function GetActiveFeatures(specs: Option<SpecList>, catalogue: seq<RoomFeature>): (r: seq<ActiveFeature>)
    ensures |r| == |ActiveKeys(specs)|
    ensures specs.None? ==> r == []
    ensures forall i :: 0 <= i < |r| ==>
      r[i] == ActiveFeature(ActiveKeys(specs)[i], LabelFor(catalogue, r[i].key), CategoryFor(catalogue, r[i].key))
  {
    var keys := ActiveKeys(specs);
    seq(|keys|, i requires 0 <= i < |keys| =>
      ActiveFeature(keys[i], LabelFor(catalogue, keys[i]), CategoryFor(catalogue, keys[i])))
  }

  /** A feature is listed exactly when its spec is switched on. */
  lemma ActiveFeaturesIff(specs: Option<SpecList>, catalogue: seq<RoomFeature>, key: string)
    ensures (exists i :: 0 <= i < |GetActiveFeatures(specs, catalogue)| && GetActiveFeatures(specs, catalogue)[i].key == key)
      <==> specs.Some? && SpecEntry(key, true) in specs.value
  {
    var r := GetActiveFeatures(specs, catalogue);
    var keys := ActiveKeys(specs);
    if key in keys {
      var i :| 0 <= i < |keys| && keys[i] == key;
      assert r[i].key == key;
    }
  }

  function CategoryOf(f: ActiveFeature): string {
    f.category
  }

  /** `groupedFeatures`: the active features by category, in first-appearance order. */
  function GroupedFeatures(active: seq<ActiveFeature>): (gs: seq<Group<ActiveFeature>>)
    ensures TotalSize(gs) == |active|
  {
    GroupBySize(active, CategoryOf);
    GroupBy(active, CategoryOf)
  }

  /**
   * The grouping is a partition: categories are not repeated, each feature
   * sits under its own category, and each group holds exactly that
   * category's features in list order.
   */
  lemma {:induction false} GroupedFeaturesPartition(active: seq<ActiveFeature>)
    ensures Distinct(KeysOf(GroupedFeatures(active)))
    ensures forall i :: 0 <= i < |active| ==>
      active[i] in ItemsFor(GroupedFeatures(active), active[i].category)
    ensures forall c :: ItemsFor(GroupedFeatures(active), c) == Select(active, CategoryOf, c)
  {
    GroupByPartition(active, CategoryOf);
    forall i | 0 <= i < |active| ensures active[i] in ItemsFor(GroupedFeatures(active), active[i].category) {
      ElementInOwnGroup(active, CategoryOf, i);
    }
  }

  function Labels(fs: seq<ActiveFeature>): (r: seq<string>)
    ensures |r| == |fs| && forall i :: 0 <= i < |fs| ==> r[i] == fs[i].labelText
  {
    seq(|fs|, i requires 0 <= i < |fs| => fs[i].labelText)
  }

  /** The "Additional Features" block: its listed labels and whether the placeholder shows. */
  datatype AdditionalBlock = AdditionalBlock(labels: seq<string>, placeholder: bool)

  /**
   * The block as the markup composes it: the `feature` group's labels, then
   * every active feature's labels when that group is missing or empty and
   * there are active features, then the placeholder when there are none.
   */
  function AdditionalFeatures(active: seq<ActiveFeature>): (b: AdditionalBlock)
    ensures b.placeholder ==> b.labels == []
  {
    var grouped := GroupedFeatures(active);
    var feature := ItemsFor(grouped, "feature");
    var first := Labels(feature);
    var second := if feature == [] && active != [] then Labels(active) else [];
    AdditionalBlock(first + second, active == [])
  }

  /**
   * The fallback rule: the `feature` category's labels when any active
   * feature has it, otherwise every active feature's label; the placeholder
   * shows exactly when no spec is switched on.
   */
  lemma AdditionalFeaturesRule(active: seq<ActiveFeature>)
    ensures AdditionalFeatures(active).placeholder <==> active == []
    ensures AdditionalFeatures(active).labels ==
      if HasKey(active, CategoryOf, "feature") then Labels(Select(active, CategoryOf, "feature"))
      else Labels(active)
  {
    var feature := ItemsFor(GroupedFeatures(active), "feature");
    GroupOf(active, CategoryOf, "feature");
    SelectEmptyIff(active, CategoryOf, "feature");
    BlockLabels(feature, active);
  }

  /** The first two parts of the block list one of the two lists, never both. */
  lemma BlockLabels(feature: seq<ActiveFeature>, active: seq<ActiveFeature>)
    ensures Labels(feature) + (if feature == [] && active != [] then Labels(active) else [])
      == if feature != [] then Labels(feature) else Labels(active)
  {
    if feature != [] {
      assert Labels(feature) + [] == Labels(feature);
    } else {
      assert Labels(feature) == [];
      assert [] + Labels(active) == Labels(active);
    }
  }
}
