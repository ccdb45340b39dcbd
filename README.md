# Scene switch showcase: a verified model of the scene pipeline

The showcase is a page that switches between interior renderings. `parseFileName`
expects image files named `order_scene_version.ext` (src/utils/sceneParser.ts:21-28).
In the files shown, nothing calls the parser, the grouping or the Cloud Storage lister:
the page mounts only the image widget (src/pages/Index.tsx:14), and the widget shows its
own fixed table of images (src/components/ImageWidget.tsx:15-79). This project models
and proves the four pieces of the application that carry logic, each on its own.

- **The file-name parser** (`parseFileName`, module `SceneParser`). It strips one
  trailing image extension, matching case-insensitively, and splits the rest on `_`
  into exactly three parts. It reads the order with `parseInt(_, 10)` (module
  `Numbers`) and turns the dashes of the scene and version parts into spaces.
- **The grouping of parsed records into scenes** (`groupScenesAndVersions`).
  - The method `SceneGrouping.GroupScenesAndVersions` follows the program step by step:
    - a `Map` keyed by scene name, filled record by record (`OrderedMaps` models a
      JavaScript `Map`, which keeps insertion order);
    - one nested `Map` of versions per scene;
    - `push` loops that build the scene and version lists;
    - two in-place stable sorts (`StableSort.SortInPlace` on an array).
  - The method is proved equal to the specification function `Grouped`.
  - Module `GroupingProperties` proves what the result means in terms of the input
    records: which scenes and versions appear, which record wins, their order, the ids
    and the count.
- **The image widget** (`ImageWidget`, module `SceneWidget`). It holds a fixed table of
  three scenes with three versions each, and a class with the three pieces of
  selection state and their three event handlers.
- **The Cloud Storage listing adapter** (module `CloudStorage`), without the network
  request. It covers:
  - the listing prefix;
  - the filter that keeps image objects that are not folders;
  - the map to file records;
  - the image URL accessor.

Host-library behaviour is modelled as follows:

- `Array.prototype.sort` is stable, and both comparators are total preorders, so the
  sorted result is the one insertion sort gives. `StableSort.Sort` is that function.
- `localeCompare` is lexicographic order on character codes (`Text.StrLe`).
- `toLowerCase` lowers ASCII letters only. For the extension pattern with flag `i` this
  is exact.
- `\s` is the fixed ECMAScript white-space and line-terminator set (`Text.IsWhitespace`).
- `parseInt(s, 10)` does three steps:
  - skips leading white space;
  - reads an optional sign;
  - takes the value of the longest digit prefix.

  When there is no digit the result is NaN, modelled as `None`.

## Model

| member | source | states |
|---|---|---|
| SceneParser.StripImageExtension | src/utils/sceneParser.ts:23 | The result is a prefix of the name. It equals the name exactly when the name has no recognised extension. Otherwise the removed suffix, lowered, is one of `.png .jpg .jpeg .webp`. |
| SceneParser.StripAddedExtension | src/utils/sceneParser.ts:23 | Appending any recognised extension, in any letter case, and stripping gives back the stem, so exactly one trailing extension is removed. |
| SceneParser.ParseFileName | src/utils/sceneParser.ts:21-52 | On success the record keeps the file name unchanged and has an empty image URL. The stripped name holds exactly two `_`. Neither display name contains `-` or `_`. |
| SceneParser.ParseFileNameFails | src/utils/sceneParser.ts:23-39 | The result is null if and only if the stripped name does not hold exactly two `_`, or its first part has no leading integer. |
| SceneParser.ParseFileNameParts | src/utils/sceneParser.ts:26-51 | On success the stripped name is the three parts joined by `_`. The order is `parseInt` of the first part. The display names are the other two parts with `-` made a space, of the same lengths. |
| SceneParser.ParseStem | src/utils/sceneParser.ts:26-51 | Any three underscore-free parts whose first part has a leading integer are accepted, with exactly those parts. |
| SceneParser.ParseStemRejects | src/utils/sceneParser.ts:35-39 | Three underscore-free parts whose first part has no leading integer are rejected. |
| SceneParser.ParseComposed | src/utils/sceneParser.ts:21-52 | Round trip: composing `order_scene_version.ext` from any integer, two underscore-free parts and any recognised extension, then parsing, gives back the order and the parts with dashes made spaces. |
| ParserExamples.ExampleDashes | src/utils/sceneParser.ts:21-51 | `1_living-room_opt-a.png` parses to order 1, scene `living room`, version `opt a`. |
| ParserExamples.ComposedExampleName | src/utils/sceneParser.ts:21 | The name composed in `ExampleDashes` from order 1, `living-room`, `opt-a` and `.png` is `1_living-room_opt-a.png`. |
| ParserExamples.ExampleUpperCaseExtension | src/utils/sceneParser.ts:23 | An upper-case `.PNG` is removed. |
| ParserExamples.ExampleDoubleExtension | src/utils/sceneParser.ts:23 | In `…_b.png.png` only the last extension is removed, so the version is `b.png`. |
| ParserExamples.ExampleUnknownExtension | src/utils/sceneParser.ts:23-51 | `.gif` is not an image extension here, so the version part keeps it, as in `b.gif`. |
| Numbers.ParseIntOfDecimal | src/utils/sceneParser.ts:35 | `parseInt` reads back the decimal form of any integer followed by any text that does not start with a digit. For example `3x` gives 3. |
| Numbers.ParseIntWithoutDigits | src/utils/sceneParser.ts:35-36 | A string without any digit gives NaN. |
| Text.ReplaceChar | src/utils/sceneParser.ts:42-43 | Same length. Each character equal to `from` becomes `to`, and every other character is kept. |
| Text.SlugShape | src/utils/sceneParser.ts:71 | An id has no white space and no ASCII upper-case letter. Other letters keep their case, because `toLowerCase` is modelled on ASCII only. |
| Text.CollapseRun | src/utils/sceneParser.ts:71 | A maximal run of white space between two words becomes exactly one `-`. |
| Text.SlugIdempotent | src/utils/sceneParser.ts:81 | Taking the id of an id changes nothing. |
| Text.SlugIgnoresCase | src/utils/sceneParser.ts:71 | Names differing only in the case of ASCII letters get the same id, so ids of distinct names can coincide. |
| Text.StrLeTotal | src/utils/sceneParser.ts:78 | The name order is total. |
| Text.StrLeTransitive | src/utils/sceneParser.ts:78 | The name order is transitive. |
| Text.StrLeAntisymmetric | src/utils/sceneParser.ts:78 | Two names each ordered before the other are equal. With totality and transitivity this makes the stand-in for `localeCompare` a total order, one that never ties two distinct names. |
| SceneGrouping.BuildSceneMap | src/utils/sceneParser.ts:58-63 | The `forEach` over the records, with its `has`/`set` and the overwriting `versions.set`, builds the map `SceneMapOf` specifies. |
| SceneGrouping.AddRecord | src/utils/sceneParser.ts:58-62 | The callback for one record creates the scene's entry with the record's order only when the scene is new, then sets the record under its version name, replacing an earlier one. Its result is `AddFile`, the step whose effect `GroupingProperties.AddFileEffect` states. |
| SceneGrouping.CollectVersions | src/utils/sceneParser.ts:68-75 | The versions pushed for one scene are one per stored record, in the map's insertion order. |
| SceneGrouping.CollectScenes | src/utils/sceneParser.ts:66-86 | The scenes pushed are one per map entry in insertion order, each with its slugged id, its order and its versions sorted by name. |
| SceneGrouping.GroupScenesAndVersions | src/utils/sceneParser.ts:54-92 | The method's result is `Grouped(parsedFiles)`, about which the lemmas below are proved. |
| GroupingProperties.GroupedEmpty | src/utils/sceneParser.ts:54-92 | No records give no scenes. |
| GroupingProperties.SceneMapKeys | src/utils/sceneParser.ts:58-63 | The map has an entry for exactly the scene names of the input. |
| GroupingProperties.SceneMapOrder | src/utils/sceneParser.ts:59-60 | The map lists the scenes in the order of their first records. |
| GroupingProperties.SceneMapOrders | src/utils/sceneParser.ts:59-60 | Each scene keeps the order of its first record. |
| GroupingProperties.SceneMapVersionKeys | src/utils/sceneParser.ts:62 | Each scene has an entry for exactly the version names of its records. |
| GroupingProperties.SceneMapRecords | src/utils/sceneParser.ts:62 | Each version holds the last record with its scene and version names, so a later duplicate wins. |
| GroupingProperties.GroupedSceneNames | src/utils/sceneParser.ts:58-86 | The result has exactly one scene per distinct scene name of the input. |
| GroupingProperties.GroupedSceneFields | src/utils/sceneParser.ts:58-85 | Each scene's id is the slug of its name, and its order is that of the first record with that scene name. |
| GroupingProperties.GroupedSceneOrder | src/utils/sceneParser.ts:89 | Scenes come in ascending order. Scenes with equal order keep the order in which their names first appear in the input. |
| GroupingProperties.SortedVersions | src/utils/sceneParser.ts:69-78 | A scene's versions are sorted strictly by name and are one per stored version name, each built from the record stored under it. |
| GroupingProperties.GroupedVersions | src/utils/sceneParser.ts:62-78 | Each scene has one version per distinct version name of its records, sorted ascending by name. Each has the slug of its name as id and the image URL of the last such record. |
| GroupingProperties.GroupedVersionCount | src/utils/sceneParser.ts:55-86 | The number of versions over all scenes is the number of distinct (scene name, version name) pairs of the input. |
| GroupingProperties.VersionGreaterIsTotalPreorder | src/utils/sceneParser.ts:78 | The version comparator is a total preorder, so the stable sort is well defined. |
| GroupingProperties.SceneGreaterIsTotalPreorder | src/utils/sceneParser.ts:89 | The same holds for the scene comparator. |
| StableSort.SortInPlace | src/utils/sceneParser.ts:78-89 | The in-place sort of an array leaves the stable sort of its old contents. |
| StableSort.SortSeq | src/utils/sceneParser.ts:78-89 | The sort of a list, by copying it into an array, returns the stable sort. |
| StableSort.SortPermutes | src/utils/sceneParser.ts:78-89 | Sorting is a permutation. |
| StableSort.SortSorted | src/utils/sceneParser.ts:78-89 | With a total preorder as comparator the result is sorted. |
| StableSort.SortStable | src/utils/sceneParser.ts:89 | Elements the comparator ties keep their relative input order. |
| StableSort.SortSum | src/utils/sceneParser.ts:55-86 | Sorting keeps any sum over the elements. |
| SceneWidget.SceneTableWellFormed | src/components/ImageWidget.tsx:15-79 | The table has three scenes. Each has a first version. Scene ids, the keys at line 117, are pairwise distinct. Version ids within a scene, the keys at line 160, are pairwise distinct. |
| SceneWidget.ImageWidget.constructor | src/components/ImageWidget.tsx:82-84 | The initial state is first scene, first version, not loading, and both indices are in bounds. |
| SceneWidget.ImageWidget.CurrentImage | src/components/ImageWidget.tsx:86-87 | While the indices are in bounds, the current image exists and is a version of the current scene. |
| SceneWidget.ImageWidget.HandleSceneChange | src/components/ImageWidget.tsx:89-95 | Another scene becomes selected, with version 0 and loading on. The selected scene again changes nothing. The bounds invariant is kept. |
| SceneWidget.ImageWidget.HandleVersionChange | src/components/ImageWidget.tsx:97-102 | Another version becomes selected with loading on, and the scene never changes. The selected version again changes nothing. The bounds invariant is kept. |
| SceneWidget.ImageWidget.HandleImageLoad | src/components/ImageWidget.tsx:104-106 | Loading ends and both indices stay. |
| CloudStorage.ListingPrefix | src/services/googleCloudStorageService.ts:14 | The prefix is empty exactly for an empty folder path. Otherwise it is the path followed by `/`. |
| CloudStorage.KeptIndicesExact | src/services/googleCloudStorageService.ts:32-38 | Listing positions are kept in increasing order, and a position is kept if and only if its object has a content type starting with `image/` and a name not ending in `/`. |
| CloudStorage.ListImageFiles | src/services/googleCloudStorageService.ts:32-44 | An absent `items` field lists nothing. Otherwise there is one file per kept object. |
| CloudStorage.BaseName | src/services/googleCloudStorageService.ts:40 | The name is the part after the last `/`, or the whole path when it has none. It contains no `/`. |
| CloudStorage.ImageUrl | src/services/googleCloudStorageService.ts:55-59 | The image URL of a file is its media link, unchanged. |
| CloudStorage.ListedFiles | src/services/googleCloudStorageService.ts:32-44 | There is exactly one file per kept object, so at most as many files as objects and, with `KeptIndicesExact`, one for every image object that is not a folder. The j-th file comes from the j-th kept object, with its base name, the requested bucket and its content type. Its image URL is the media host, the bucket, `/` and the full object name. |

## Left out

- The network request of `fetchCloudStorageFiles` is not modelled. This covers the listing URL with `encodeURIComponent`, `fetch`, the `response.ok` check with its thrown error, and `response.json()`. The model starts from the decoded `items` field.
- Console logging is not modelled, because it has no effect on results.
- `CloudStorage.ListImageFiles` assumes every listed object has a `name`. The storage listing always sends one, and a missing name would throw in the filter.
- `localeCompare` is modelled as plain lexicographic order on character codes, and not as locale collation.
- `toLowerCase` lowers ASCII letters only, and not the full Unicode mapping.
- `a.order - b.order` is computed on unbounded integers. Floating-point overflow and the numeric range of `parseInt` results are not modelled.
- `SceneWidget.ImageWidget.HandleSceneChange` requires an index of a rendered scene button, and `SceneWidget.ImageWidget.HandleVersionChange` requires an index of a rendered version button. These are the only callers, at src/components/ImageWidget.tsx:118 and 161, so the precondition states what the rendering guarantees.
- React rendering and JSX are not modelled, because they are presentation only. The same holds for class names and the page src/pages/Index.tsx.
- The Google Drive service src/services/googleDriveService.ts is not part of this model, because it is a remote function call with two error checks and `getImageUrl`, a URL concatenation.
- The Supabase function supabase/functions/google-drive-files/index.ts is not part of this model, because it is an HTTP handler around a Drive listing. Its filter tests `mimeType` for `image/` and has no folder check.
