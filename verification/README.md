# Dolly Hotel site core, modelled in Dafny

This project models the logic of the Dolly Hotel booking site that sits between the
browser, the Cloudinary media host and the database. It covers:

- **Cloudinary helpers** (`lib/cloudinary-delete.ts`, module `MediaIds`).
  - The heuristics that decide whether a public id or a delivery URL is a video.
  - The regular expression that recovers a public id from a delivery URL.
  - Deleting one asset, and deleting many through the site's own upload route.
- **Upload route** (`app/api/upload/route.ts`, module `UploadRoute`).
  - Checking the Cloudinary configuration.
  - Validating the uploaded file: MIME kind and the 50 MB video cap.
  - Building the upload options, and the delete handler.
- **Admin gallery route** (`app/api/admin/gallery/route.ts`, module `GalleryRoute`).
  - The admin gate and the listing.
  - The two POST branches: JSON metadata, and a multipart image that is forwarded to the upload route.
  - How every thrown error becomes a 401 or a 500.
- **Price table** (`components/PriceTable.tsx`, module `PriceTable`).
  - The fetch key and the loading, error and empty states.
  - Grouping prices into sections by category title.
  - The best-value and popular badges, the duration and unit labels, and the four-feature list of each card.
- **Room details modal** (`components/RoomDetailsModal.tsx`, module `RoomDetails`).
  - Image carousel arithmetic.
  - The specification panel with its defaults and the amenity list.
  - The active features with their catalogue labels, grouped by category.
  - The "additional features" block.
- **Category card** (`components/CategoryCard.tsx`, module `CategoryCard`).
  - The spec chips and their icons.
  - The picture or video.
  - The room record handed to the modal.

Shared modules:

- `Base`: Option, subsequences, distinctness, `Map`.
- `Text`: JavaScript string operations (`trim`, `toLowerCase`, `includes`, `endsWith`, `split`/`join`).
- `Numerals`: decimal printing and `parseInt`.
- `Js`: JavaScript values, truthiness, `||`, `String(v)`, `Number(v)`.
- `Specs`: a `Record<string, boolean>` as its entry list.
- `Grouping`: the "reduce into an object keyed by a string" idiom used twice.
- `Http`: a status and a JSON body.

Outside effects are not performed; they become inputs:

- the Cloudinary SDK (`uploader.upload_stream`, `uploader.destroy`);
- `fetch`;
- the Prisma client (`galleryImage.findMany` / `create`);
- `requireAdmin`;
- the zod `galleryImageSchema`;
- SWR's state;
- the `ROOM_SPECS` display-name table.

Each of these is a function or value parameter. Route handlers return the reply
together with the list of outbound calls they made, so "nothing was uploaded or stored"
is a statable property.

Behaviour worth noting:

- **Best-value card.** It is the middle card of its section (`Math.floor(length / 2)`, none below two cards), whatever the rates. `PriceTable.BestValueIgnoresRates` proves the rates play no part.
- **Section order.** The price sections are listed in `Object.entries` order. Category titles that are array indices ("2", "10") come first in ascending numeric order, ahead of word titles, whatever order the prices arrive in. `PriceTable.SectionsOrder` states this.
- **Gallery schema rejection.** A rejection is *thrown* by `parse` and lands in the catch block. The reply is therefore 401 or 500, never 400. `GalleryRoute.SchemaRejectionStoresNothing` states this.
- **Card and modal disagree on white-space video URLs.** For a URL made only of white space, the card shows the picture, because it trims the URL. The modal opens a video player, because it does not trim. See `CategoryCard.BlankVideoUrlDisagrees`.

## Model

| member | source | states |
|---|---|---|
| MediaIds.DetermineResourceType | lib/cloudinary-delete.ts:8-18 | an id is a video exactly when its lower-cased text contains "video" or one of the video extensions; anything else is an image |
| MediaIds.DetermineIgnoresCase | lib/cloudinary-delete.ts:11-15 | upper-casing the id never changes the classification |
| MediaIds.NamedVideoIsVideo | lib/cloudinary-delete.ts:13-15 | any id beginning with the word "video" is classified as a video |
| MediaIds.VideoNamedImageFoolsIdClassifier | lib/cloudinary-delete.ts:8-18 | the id "video.jpg" is classified as a video by the id heuristic |
| MediaIds.UpperCaseExtensionIsVideo | lib/cloudinary-delete.ts:93-97 | a URL ending in ".MP4" is a video, since the extension test ignores case |
| MediaIds.UrlVideoIsVideo | lib/cloudinary-delete.ts:8-18 | whatever the URL classifier (lines 90-102) calls a video, the id classifier does too |
| MediaIds.VideoNamedImageIsImageUrl | lib/cloudinary-delete.ts:90-102 | the URL classifier calls "video.jpg" an image, so the two classifiers disagree on it |
| MediaIds.Capture | lib/cloudinary-delete.ts:78-79 | the lazy capture group takes the shortest non-empty line-free prefix followed by an optional dot-free extension and the end of input |
| MediaIds.ExtractNullIff | lib/cloudinary-delete.ts:73-84 | for a URL without line breaks, the result is null exactly when no "/image/upload/" or "/video/upload/" marker is followed by at least one character |
| MediaIds.CaptureDotless | lib/cloudinary-delete.ts:78-79 | a dot-free tail is captured whole |
| MediaIds.ExtractAtFirstMarker | lib/cloudinary-delete.ts:78-83 | the id is taken after the leftmost marker, whatever later markers follow |
| MediaIds.RoundTripVersioned | lib/cloudinary-delete.ts:73-84 | a delivery URL built as prefix, marker, "v<digits>/", id and extension gives back exactly the id |
| MediaIds.RoundTripUnversioned | lib/cloudinary-delete.ts:73-84 | the same without a version segment, for ids that do not themselves start like a version |
| MediaIds.ExtractDotless | lib/cloudinary-delete.ts:73-84 | a URL whose path after the marker has no dot gives that whole path back |
| MediaIds.StraddlingPrefix | lib/cloudinary-delete.ts:78-79 | when the prefix ends in "/image/upload", the leftmost marker straddles it and the extracted id begins with "image/upload/" |
| MediaIds.ResolveResourceType | lib/cloudinary-delete.ts:26 | an explicit resource type wins; otherwise the id heuristic decides |
| MediaIds.RequestFor | lib/cloudinary-delete.ts:26-33 | the request goes to the configured base URL (or localhost), with the id and the resolved type |
| MediaIds.DeleteFromCloudinary | lib/cloudinary-delete.ts:23-47 | the result is truthy exactly when the request was answered with a 2xx status and a truthy `success` field |
| MediaIds.CountTruthy | lib/cloudinary-delete.ts:57 | the count is at most the length, equals it exactly when all are truthy, and is zero exactly when none is |
| MediaIds.BulkDeleteFromCloudinary | lib/cloudinary-delete.ts:52-68 | one result per id, each the single delete of that id; successes count the truthy results and successes plus failures make the total |
| MediaIds.CountSuccesses | lib/cloudinary-delete.ts:57 | the loop counts exactly the truthy results |
| UploadRoute.CloudName | app/api/upload/route.ts:9-10 | the server-side name wins, the public name is the fallback, and it is set when either is |
| UploadRoute.ValidateCloudinaryEnv | app/api/upload/route.ts:20-26 | each variable name is listed, in fixed order, exactly when it is missing, and the list is empty exactly when all three are set |
| UploadRoute.OptionsFor | app/api/upload/route.ts:76-82 | the folder is fixed; videos get the video resource type, a 1280x720 limit and a "60" duration cap; images get a 1200x800 limit and no duration; crop and quality are always set |
| UploadRoute.Post | app/api/upload/route.ts:28-115 | the status is 200, 400 or 500, it is 200 exactly on an uploaded body, and at most one upload is made and only of an acceptable file; a 200 body holds the media the single upload returned |
| UploadRoute.ConfigurationCheckedFirst | app/api/upload/route.ts:30-37 | with configuration missing, the reply is a 500 that ignores the body and uploads nothing |
| UploadRoute.MissingNamesInMessage | app/api/upload/route.ts:30-37 | a missing secret is named in the error message |
| UploadRoute.PostSucceedsIff | app/api/upload/route.ts:28-106 | the upload succeeds exactly when the configuration is complete, the file is present and acceptable, and the host reports success |
| UploadRoute.BadRequestRules | app/api/upload/route.ts:42-63 | with configuration present, a missing or empty file gives the no-file 400, a MIME type that is neither image nor video gives the wrong-kind 400, and a video over 50 MB gives the size 400 |
| UploadRoute.AcceptedFileUpload | app/api/upload/route.ts:68-94 | an acceptable file is uploaded exactly once, with the options for its kind, and as a video exactly when its MIME type starts with "video/" |
| UploadRoute.BadRequestsUploadNothing | app/api/upload/route.ts:42-63 | every 400 comes from a missing file, a wrong kind or an oversized video, and uploads nothing |
| UploadRoute.VideoSizeBoundary | app/api/upload/route.ts:55-63 | a video of exactly 50 MB is uploaded and one byte more is refused |
| UploadRoute.LargeImagesAccepted | app/api/upload/route.ts:47-63 | images of any size are passed on to the host |
| UploadRoute.ResourceTypeParam | app/api/upload/route.ts:121 | an empty or absent resource type becomes "image", and any other value is kept |
| UploadRoute.Delete | app/api/upload/route.ts:117-152 | the status is 200, 400 or 500, and 200 exactly on a deleted body |
| UploadRoute.DeleteSucceedsIff | app/api/upload/route.ts:123-143 | deletion succeeds exactly when an id is given and the host answers "ok" |
| UploadRoute.DeleteCalls | app/api/upload/route.ts:123-130 | without an id the host is not called; with one it is called once with the id and resource type |
| UploadRoute.ResourceTypeDefaultsToImage | app/api/upload/route.ts:121 | an absent or empty resource type behaves as "image" |
| UploadRoute.AsFetchReply | app/api/upload/route.ts:132-151 | the JSON reply's `success` field is truthy exactly for an uploaded or deleted body |
| UploadRoute.HelperAgainstRoute | app/api/upload/route.ts:117-152 | the helper reports success exactly when the route, given the helper's id and resolved type, answers 200 |
| GalleryRoute.Caught | app/api/admin/gallery/route.ts:29-42 | a thrown "Unauthorized" becomes 401 with that message; any other error becomes 500 with the handler's fallback text |
| GalleryRoute.Get | app/api/admin/gallery/route.ts:6-43 | a refused admin reads nothing, and the listing is 200 with the stored rows exactly when the admin is admitted and the query succeeds |
| GalleryRoute.NormalizeCaption | app/api/admin/gallery/route.ts:63-67 | a falsy caption is dropped and a truthy one kept |
| GalleryRoute.NormalizeCategoryId | app/api/admin/gallery/route.ts:63-67 | a falsy category id is dropped; a truthy one becomes a number (possibly NaN) |
| GalleryRoute.Save | app/api/admin/gallery/route.ts:70-92 | exactly one create is appended; the reply is 200 exactly when it succeeds, and its body is then the created row |
| GalleryRoute.PostJson | app/api/admin/gallery/route.ts:53-92 | the JSON branch makes at most one call, a create |
| GalleryRoute.UploadError | app/api/admin/gallery/route.ts:131-135 | a failed upload throws the host's error text, or "Upload failed" when it gave none |
| GalleryRoute.PostForm | app/api/admin/gallery/route.ts:95-162 | the multipart branch only ever uploads an image file |
| GalleryRoute.Post | app/api/admin/gallery/route.ts:45-178 | a refused admin causes no call at all |
| GalleryRoute.AdminGate | app/api/admin/gallery/route.ts:8-47 | a refused admin gets the same 401/500 reply from GET and POST, whatever the request |
| GalleryRoute.BranchIndependence | app/api/admin/gallery/route.ts:49-51 | a JSON content type makes the form body irrelevant, and any other content type makes the JSON body irrelevant |
| GalleryRoute.BadRequestsTouchNothing | app/api/admin/gallery/route.ts:55-114 | every 400 is one of the three validation messages and makes no call |
| GalleryRoute.SchemaRejectionStoresNothing | app/api/admin/gallery/route.ts:63-121 | when the schema rejects everything, nothing is uploaded or stored, and a 400 can only come from the earlier checks |
| GalleryRoute.SchemaRejectionJson | app/api/admin/gallery/route.ts:63-67 | the same for the JSON branch |
| GalleryRoute.SchemaRejectionForm | app/api/admin/gallery/route.ts:117-121 | the same for the multipart branch |
| GalleryRoute.JsonRequiresUrlAndId | app/api/admin/gallery/route.ts:55-60 | a JSON request whose url or public id is falsy gets the 400 "URL and public ID are required" and makes no call, whatever the other fields |
| GalleryRoute.FormFileRules | app/api/admin/gallery/route.ts:101-114 | a multipart request with no file or an empty file field gets the 400 "No file provided"; a file whose MIME type is not an image gets the 400 "Only image files are allowed"; neither makes a call |
| GalleryRoute.SuccessCarriesCreatedRow | app/api/admin/gallery/route.ts:49-162 | in either branch, a 200 reply's body is the row the database returned for the create that was the handler's last call |
| GalleryRoute.FormRejectsVideo | app/api/admin/gallery/route.ts:109-114 | a video file gets the 400 "Only image files are allowed" and no call |
| GalleryRoute.JsonRecordContents | app/api/admin/gallery/route.ts:70-92 | the stored record carries the request's URL and public id with the schema's category and normalised caption and category id |
| GalleryRoute.NormalizationExamples | app/api/admin/gallery/route.ts:63-67 | an empty caption and a zero id are dropped, and a numeric string id of a safe integer becomes its number |
| GalleryRoute.FormSavesUploadedIds | app/api/admin/gallery/route.ts:127-162 | a stored upload carries the host's secure URL and public id, and only after a successful upload |
| GalleryRoute.UploadErrorCanLookUnauthorized | app/api/admin/gallery/route.ts:131-177 | an upload failure whose text is "Unauthorized" is reported as 401 |
| PriceTable.PricesKey | components/PriceTable.tsx:24-27 | every key is under "/api/prices" |
| PriceTable.PricesKeyInjective | components/PriceTable.tsx:24-27 | different truthy category ids fetch under different keys |
| PriceTable.PricesKeyUnfiltered | components/PriceTable.tsx:25-27 | an absent or zero id fetches every price |
| PriceTable.SpecFeaturesIff | components/PriceTable.tsx:90-94 | each spec-driven feature is listed exactly when its spec flag is truthy |
| PriceTable.Perk | components/PriceTable.tsx:97-101 | stays of 12 hours or more get breakfast and shorter ones a welcome drink |
| PriceTable.CandidateNames | components/PriceTable.tsx:88-111 | the spec features, the perk and the fillers are all distinct |
| PriceTable.CollectSpecFeatures | components/PriceTable.tsx:88-94 | the pushes produce the spec features in catalogue order |
| PriceTable.TopUp | components/PriceTable.tsx:103-113 | the top-up loop followed by the slice gives the first four of the list followed by the fillers |
| PriceTable.GetFeatures | components/PriceTable.tsx:87-114 | the pushes, the top-up loop and the slice return the spec features, then the perk, then the fillers, cut to four (see FeatureListShape) |
| PriceTable.FeatureListShape | components/PriceTable.tsx:87-114 | exactly four distinct features, the spec features first, and the perk listed exactly when fewer than four specs are on |
| PriceTable.BestValueIndex | components/PriceTable.tsx:82-85 | no best value below two prices; otherwise a middle index |
| PriceTable.DurationLabel | components/PriceTable.tsx:182 | a non-empty label is shown as is, and the result is never empty |
| PriceTable.DurationLabelReadsBack | components/PriceTable.tsx:182 | for a safe-integer stay length, the generated label parses back to it and ends in " Hour" or " Hours" |
| PriceTable.Card | components/PriceTable.tsx:147-211 | best value on the chosen index, popular for 24-hour stays that are not best value, day units for stays of 24 hours or more, the stay's duration label, and its feature list of exactly four entries |
| PriceTable.CountLabel | components/PriceTable.tsx:139 | singular for one option, plural otherwise |
| PriceTable.Cards | components/PriceTable.tsx:147 | one card per price, in order |
| PriceTable.SectionsPartitionPrices | components/PriceTable.tsx:73-126 | section titles are distinct, a title appears exactly when some price has it, and each section holds its prices in fetch order |
| PriceTable.SectionsOrder | components/PriceTable.tsx:126 | titles that are array indices come before all other titles and ascend numerically; the other titles keep the order in which their first price was fetched |
| PriceTable.NumericTitleFirst | components/PriceTable.tsx:126 | a "Suite" price fetched before a "2" price yields the sections "2", then "Suite" |
| PriceTable.AtMostOneBestValue | components/PriceTable.tsx:82-85 | a section has at most one best-value card, and none when it has one price |
| PriceTable.BestValueIgnoresRates | components/PriceTable.tsx:82-85 | sections of equal size mark the same position, whatever the rates |
| PriceTable.Render | components/PriceTable.tsx:36-70 | the table appears exactly when loading is over, there is no error and the data is non-empty |
| PriceTable.TableNotEmpty | components/PriceTable.tsx:73-80 | non-empty data gives at least one section |
| Grouping.GroupByPartition | components/PriceTable.tsx:73-80 | keys are distinct, a key is present exactly when some item has it, and its group is that key's items in input order (the same reduce as RoomDetailsModal.tsx lines 107-119) |
| Grouping.GroupByKeysInOrder | components/PriceTable.tsx:73-80 | the object's keys are created in order of each key's first occurrence in the input |
| Grouping.EntriesOrder | components/PriceTable.tsx:126 | `Object.entries` lists the same groups with distinct keys: array-index keys first and ascending numerically, other keys after them in insertion order |
| Grouping.EntriesPartition | components/PriceTable.tsx:73-126 | the listed entries have distinct keys, a key is listed exactly when some item has it, and each entry holds that key's items in input order |
| Grouping.IndexValueInjective | components/PriceTable.tsx:126 | two array-index keys that denote the same integer are the same key, so numeric order has no ties |
| Grouping.GroupBySize | components/PriceTable.tsx:73-80 | no item is lost or duplicated |
| Grouping.ElementInOwnGroup | components/RoomDetailsModal.tsx:111-116 | every item lands in the group of its own key |
| Grouping.PrototypeKeyThrows | components/PriceTable.tsx:75-78 | a key named "constructor" makes the reduce into `{}` throw |
| Grouping.AsWrittenAgrees | components/PriceTable.tsx:73-80 | away from prototype names, the code as written computes the corrected grouping |
| Specs.ActiveKeys | components/RoomDetailsModal.tsx:94-95 | the switched-on keys, in entry order, are exactly those with a true value |
| Specs.FlagInIff | components/PriceTable.tsx:90 | in an object whose keys are distinct, `specs?.[key]` is true exactly when the entry (key, true) is present |
| Specs.FlagIffActive | components/PriceTable.tsx:90-94 | a feature flag read by key is on exactly when the key is among the switched-on keys the modal lists |
| RoomDetails.NextImage | components/RoomDetailsModal.tsx:65-67 | stays in range and wraps from the last image to the first |
| RoomDetails.PrevImage | components/RoomDetailsModal.tsx:69-73 | stays in range |
| RoomDetails.PrevUndoesNext | components/RoomDetailsModal.tsx:65-73 | previous and next undo each other |
| RoomDetails.NextCycles | components/RoomDetailsModal.tsx:65-67 | n clicks return to the start, and every image is reached within fewer than n clicks |
| RoomDetails.ShownImageUrl | components/RoomDetailsModal.tsx:186 | shows the current image when its URL is non-empty, else the first |
| RoomDetails.HeaderOf | components/RoomDetailsModal.tsx:130-223 | a video player exactly for a non-empty video URL, poster the first image; otherwise an image viewer when there are images, with arrows exactly for more than one |
| RoomDetails.GetRoomSpecs | components/RoomDetailsModal.tsx:76-88 | falsy fields fall back to "Double Bed", "2 Guests" and "25 sqm" |
| RoomDetails.OccupancyReadsBack | components/RoomDetailsModal.tsx:85 | the occupancy line ends in " Guests" and parses back to the room's number when it is a safe integer, or 2 |
| RoomDetails.EssentialAmenities | components/RoomDetailsModal.tsx:281-293 | the placeholder shows exactly when the list is missing or empty; otherwise the list as given |
| RoomDetails.LoadedCatalogue | components/RoomDetailsModal.tsx:49-63 | an ok reply with data yields exactly that data; any other reply leaves the catalogue empty |
| RoomDetails.FindIndex | components/RoomDetailsModal.tsx:97 | the first entry with the key, or -1 when there is none |
| RoomDetails.FindFeature | components/RoomDetailsModal.tsx:97 | none exactly when no entry has the key, else the first match |
| RoomDetails.Capitalize | components/RoomDetailsModal.tsx:100 | same length, first letter upper-cased, the rest unchanged |
| RoomDetails.CapitalizeKeepsWord | components/RoomDetailsModal.tsx:100 | capitalising changes no letter's lower-case form and is idempotent |
| RoomDetails.LabelFor | components/RoomDetailsModal.tsx:100 | the catalogue label when non-empty; the capitalised key when the key is unknown or its label is empty |
| RoomDetails.CategoryFor | components/RoomDetailsModal.tsx:101 | a known key's non-empty category is kept; an unknown key or an empty category gives "general"; never empty |
| RoomDetails.GetActiveFeatures | components/RoomDetailsModal.tsx:91-104 | one feature per switched-on key, in order, with its label and category |
| RoomDetails.ActiveFeaturesIff | components/RoomDetailsModal.tsx:91-104 | a key is shown exactly when its spec is switched on |
| RoomDetails.GroupedFeatures | components/RoomDetailsModal.tsx:107-119 | the groups hold every active feature once |
| RoomDetails.GroupedFeaturesPartition | components/RoomDetailsModal.tsx:107-119 | categories are distinct, each feature is in its category's group, and each group is that category's features in order |
| RoomDetails.Labels | components/RoomDetailsModal.tsx:304 | one label per feature |
| RoomDetails.AdditionalFeatures | components/RoomDetailsModal.tsx:301-323 | the placeholder never shows alongside labels |
| RoomDetails.AdditionalFeaturesRule | components/RoomDetailsModal.tsx:301-323 | the placeholder shows exactly when nothing is on; otherwise the 'feature' group's labels when it has any, else every active label |
| CategoryCard.SpecIcon | components/CategoryCard.tsx:36-55 | an icon exactly for the seven known keys |
| CategoryCard.SpecIconInjective | components/CategoryCard.tsx:36-55 | different keys never share an icon |
| CategoryCard.Chips | components/CategoryCard.tsx:131-140 | one chip per switched-on spec, in order, with its icon; the label is the table's non-empty name, else the key, except that a key the table lacks which names an inherited `Object.prototype` member yields that member |
| CategoryCard.ChipLabelIsText | components/CategoryCard.tsx:138 | a label is text exactly when the table holds the key or the key names no inherited member |
| CategoryCard.ConstructorSpecChip | components/CategoryCard.tsx:138 | a switched-on "constructor" spec absent from the table is labelled with the inherited member, not the word |
| CategoryCard.ChipsIff | components/CategoryCard.tsx:131-140 | a chip is shown exactly for each switched-on spec |
| CategoryCard.MainImage | components/CategoryCard.tsx:59 | the first image's URL when non-empty, else the placeholder, never empty |
| CategoryCard.HasVideoIff | components/CategoryCard.tsx:60 | the card has a video exactly when the URL is present and not all white space |
| CategoryCard.MediaOf | components/CategoryCard.tsx:85-117 | a video with the main image as poster exactly when the card has a video; the main image otherwise |
| CategoryCard.NonEmpty | components/CategoryCard.tsx:73-77 | `s \|\| undefined`: absent exactly for null or empty |
| CategoryCard.ToRoom | components/CategoryCard.tsx:67-78 | null description becomes empty, absent amenities an empty list, falsy fields undefined, the rest passes through |
| CategoryCard.NormalisationInvisible | components/CategoryCard.tsx:67-78 | the modal shows the same specifications, amenities and header for the normalised record as for the raw fields |
| CategoryCard.CardAndModalAgreeOnVideo | components/CategoryCard.tsx:60 | the modal opens on a video exactly when the card shows one, or the URL is non-empty white space |
| CategoryCard.BlankVideoUrlDisagrees | components/CategoryCard.tsx:60 | for a one-space URL the card shows no video while the modal does |
| CategoryCard.CardOccupancy | components/CategoryCard.tsx:74 | the modal's occupancy (RoomDetailsModal.tsx line 85) for a card is the category's number, or the default when null or zero |

## Findings

| source | as written | input that shows it | evidently intended | confidence | as-written member | corrected member |
|---|---|---|---|---|---|---|
| components/PriceTable.tsx:73-80 | prices are grouped with `reduce` into `{}`; `!acc[title]` is false for inherited names, so `acc[title].push` is called on a function | a price whose category title is "constructor" (likewise "toString", "valueOf", ...) throws a TypeError and the table fails to render | group by title for every title | not executed | Grouping.PrototypeKeyThrows | Grouping.GroupByPartition |
| components/RoomDetailsModal.tsx:107-119 | the same pattern with `grouped = {}` keyed by feature category | a room feature whose catalogue category is "constructor" throws while rendering the modal | group by category for every category | not executed | Grouping.PrototypeKeyThrows | RoomDetails.GroupedFeaturesPartition |

The code as written is `Grouping.GroupByAsWritten`. The corrected `Grouping.GroupBy` is what the
price table and the modal use. `Grouping.AsWrittenAgrees` proves the two coincide whenever no key
is an inherited property name.

## Left out

- `app/contact/page.tsx` and `components/Carousal.tsx`: presentation only, with no logic the core depends on.
- I/O is modelled only as inputs:
  - the Cloudinary SDK, `fetch`, Prisma and SWR are parameters;
  - their failures are explicit alternatives;
  - time, retries and the 30-second refresh interval are not modelled.
- `requireAdmin`, `galleryImageSchema` and `ROOM_SPECS` are not part of this model. They are imported from files outside the core, so each is a parameter: an admission outcome, a validation function and a name map holding the table's own entries. A lookup of a key the table lacks still sees the members a plain object inherits (`Grouping` and `CategoryCard` use the shared `Js.PrototypeNames`).
- `Promise.allSettled`: the concurrent deletes are modelled one after another, because each settled result depends only on its own request. `deleteFromCloudinary` catches its own errors, so no promise rejects, and each settled result is modelled by its value.
- Floating point: `(rateCents / 100).toLocaleString()` is not modelled, and neither is the image counter text. Hours, sizes and ids are integers, so NaN or fractional `hourlyHours` and occupancy are left out.
- Js.ToStr: prints every integer as its exact decimal digits. JavaScript does so only for safe integers (|n| <= 2^53 - 1). Beyond that `String(n)` keeps the shortest round-trip digits, e.g. `String(2 ** 60)` is "1152921504606847000". From 10^21 it uses exponent form ("1e+21"). Every claim that reads a printed number back is therefore stated for safe integers only.
- Js.ParseIntOfNumber: requires a safe integer, for the reason on the line above. `parseInt(String(1e21))` is 1, so no read-back holds without that bound.
- GalleryRoute.NormalizationExamples: the numeric-id example is stated for safe integers only. A larger id string is parsed to a rounded double, which the model does not represent.
- PriceTable.DurationLabelReadsBack: stated for safe-integer stay lengths only. For larger ones JavaScript prints rounded or exponent digits, and the label no longer reads back to the stay length.
- RoomDetails.OccupancyReadsBack: the read-back of the room's own number is stated for safe integers only, for the same reason.
- `Object.entries` order of specs: specs are modelled as their entry list, in entry order. JavaScript lists array-index keys first; spec keys are words, so that reordering is not modelled for specs. The price sections do follow it (`Grouping.Entries`).
- `encodeURIComponent` of the id and resource type in the delete URL is not modelled: `RequestFor` keeps them as separate fields.
- Error text from the JavaScript runtime (the TypeError message) is not modelled: only the fact that an error is thrown.
- `file.arrayBuffer()` failing, and the upload stream erroring before its callback, fold into the host reply's failure alternative.
- JSX layout, CSS classes, animation delays and `console` logging are not modelled.
- How React renders an inherited member used as a chip label is not modelled: it renders nothing for a function and throws for the `__proto__` object. `CategoryCard.Chips` stops at the value the lookup yields.
- RoomDetails.Capitalize: upper-cases only ASCII letters. JavaScript's `toUpperCase` also maps non-ASCII letters, so for a key starting with one the model is weaker.
- RoomDetails.NextImage: requires at least one image. The arrows render only for more than one image, so `% 0` is never reached in the component.
- MediaIds.DetermineResourceType: the lower-casing is exact for ASCII, U+212A and U+0130 and leaves other non-ASCII characters unchanged. No video marker contains them, so the classification is unaffected.
