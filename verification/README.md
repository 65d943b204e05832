# Responsive image lookup — a Dafny model

This project models the image-variant lookup of the local responsive-image
service of `ember-responsive-image`. A build step writes every image in
several widths and formats and records, per image name, its `widths`,
`formats`, `aspectRatio` and an optional `fingerprint`. The service answers
template queries against that read-only table: it normalises the image name,
looks up its metadata, picks the variant that fits a requested width
(the smallest listed width that reaches the request, else the largest one),
and composes the variant's URL as
`rootURL + stem + width + "w" + ("-" + fingerprint)? + "." + extension`.

Modules, one per concern:

- `Wrappers` (`wrappers.dfy`): `Option` (JavaScript `undefined`) and `Result`
  (a failed `assert` becomes `Err`).
- `Strings` (`strings.dfy`): `lastIndexOf`, `split('.').pop()`,
  `substr(0, lastIndexOf('.'))` and the decimal rendering of an integer.
- `ImageTypes` (`image_types.dfy`): the `jpg`→`jpeg` and `jpeg`→`jpg` alias tables.
- `WidthSelection` (`width_selection.dfy`): the width fold, its reference
  definition and the lemmas about it.
- `ResponsiveImageLocal` (`responsive_image_local.dfy`): the metadata table,
  name normalisation, type inference, file names and the public queries.

The service's state is the datatype `Service(rootURL, images)`; the metadata
table is a `map<string, ImageMeta>`. The sizing policy that turns a viewport
size into a pixel width belongs to another service and is a function-typed
parameter of `GetImageMetaBySize`.

The width fold is characterised exactly, with no preconditions: its
candidates are the initial accumulator 0 and every listed width, and it
returns the least candidate that reaches the requested width, or the greatest
candidate when none does (`WidthSelection.Selects`). The familiar statement
"smallest width at least the request, else the largest width" is the
corollary for a positive request over non-negative widths.

Three behaviours of the code that a reader might not expect are modelled as written:

- A name without any `.` is not an error for type inference. `split('.')`
  then has one piece, the whole name, and that becomes the type. Only an
  empty last piece fails the assertion, that is an empty name or one ending in `.`.
- `getMeta` normalises its argument itself. Callers that normalise first
  therefore strip up to two leading slashes before the lookup:
  `getAvailableWidths` and `getImageFilename` look up the twice-normalised
  name. `getImages` normalises once more before it calls
  `getImageMetaByWidth`, so the file names it composes are looked up under
  the three-times-normalised name. For `//x` the lookup key is `x`, not `/x`.
- An empty width list selects width 0, the initial accumulator. Over
  non-negative widths, a request of 0 or less also selects 0, whether or not
  0 is a listed width. With negative widths listed, a request of 0 or less
  selects the least value among 0 and the listed widths that reaches it
  (`WidthSelection.Selects`). Since 0 always reaches such a request, the
  result is never a positive width.

## Model

| member | source | states |
|---|---|---|
| `WidthSelection.Step` | addon/services/responsive-image-local.ts:101-107 | the reducer keeps the accumulator or takes the candidate; when either reaches the request the result reaches it and is no larger than any of the two that does; when neither does it is the larger of the two |
| `WidthSelection.SelectWidth` | addon/services/responsive-image-local.ts:100-109 | the fold's result meets the reference definition: among 0 and the listed widths, the least that reaches the request, else the greatest |
| `WidthSelection.StepKeepsSelection` | addon/services/responsive-image-local.ts:101-107 | the loop invariant: one reducer step turns the selection over a prefix into the selection over the prefix plus one width |
| `WidthSelection.SelectsUnique` | addon/services/responsive-image-local.ts:100-109 | the reference definition determines the selected width uniquely |
| `WidthSelection.SelectionIgnoresOrder` | addon/services/responsive-image-local.ts:100-109 | two width lists with the same members select the same width for every request, so the result ignores order and duplicates |
| `WidthSelection.SelectionIsCeilingElseMax` | addon/services/responsive-image-local.ts:100-109 | for a positive request over non-empty, non-negative widths, the result is a listed width: the smallest one at least the request when there is one, else the largest |
| `WidthSelection.EmptyWidthsSelectZero` | addon/services/responsive-image-local.ts:108 | an empty width list selects the initial accumulator 0 |
| `WidthSelection.NonPositiveRequestSelectsZero` | addon/services/responsive-image-local.ts:102-108 | a request of 0 or less over non-negative widths selects 0 |
| `WidthSelection.ListedWidthSelectsItself` | addon/services/responsive-image-local.ts:100-109 | requesting any listed width selects exactly that width |
| `WidthSelection.SelectionExamples` | addon/services/responsive-image-local.ts:100-109 | over widths 320, 640 and 960, a request of 500 selects 640 and a request of 1200 selects 960 |
| `Strings.LastIndexOf` | addon/services/responsive-image-local.ts:127 | the result is -1 exactly when the character is absent; otherwise it is an index holding the character, with no later index holding it |
| `Strings.LastSegment` | addon/services/responsive-image-local.ts:71 | the last piece of `split(sep)` is a suffix free of `sep`, preceded by `sep` unless it is the whole string, which happens exactly when `sep` is absent |
| `Strings.BeforeLast` | addon/services/responsive-image-local.ts:127 | the stem before the last `.` and the last piece rebuild the string around that `.`; without a `.` the stem is empty |
| `Strings.LastSegmentOfSuffix` | addon/services/responsive-image-local.ts:71 | the last piece of `p + sep + t` is `t` when `t` has no `sep` |
| `Strings.BeforeLastOfSuffix` | addon/services/responsive-image-local.ts:127 | the stem of `p + sep + t` is `p` when `t` has no `sep` |
| `Strings.NatToDecimal` | addon/services/responsive-image-local.ts:129 | a width renders as a non-empty string of decimal digits without a leading zero |
| `Strings.IntToDecimal` | addon/services/responsive-image-local.ts:129 | the rendered width is non-empty, has no `.` and starts with `-` exactly for negative numbers |
| `Strings.IntToDecimalValue` | addon/services/responsive-image-local.ts:129 | the rendered width reads back as the width: all digits denoting it when it is non-negative, otherwise `-` followed by digits denoting its magnitude |
| `Strings.DecimalRoundTrip` | addon/services/responsive-image-local.ts:129 | reading back the decimal rendering of a natural number gives the number |
| `ImageTypes.TypeOfExtension` | addon/services/responsive-image-local.ts:73 | the extension `jpg` reads as type `jpeg` and every other extension as itself, so the type is never `jpg` |
| `ImageTypes.ExtensionOfType` | addon/services/responsive-image-local.ts:126 | the type `jpeg` is written with extension `jpg` and every other type as itself, so the extension is never `jpeg` |
| `ImageTypes.TablesAreInverse` | addon/services/responsive-image-local.ts:13-15 | the extension-to-type table and the type-to-extension table are inverse to each other |
| `ImageTypes.TypeExtensionRoundTrip` | addon/services/responsive-image-local.ts:13-15 | the type read back from a type's extension is that type exactly when the type is not `jpg` |
| `ImageTypes.ExtensionTypeRoundTrip` | addon/services/responsive-image-local.ts:13-15 | the extension written for an extension's type is that extension exactly when it is not `jpeg` |
| `ImageTypes.ExtensionShape` | addon/services/responsive-image-local.ts:15 | a type's extension is empty, or contains a `.`, exactly when the type is or does |
| `ResponsiveImageLocal.NormalizeImageName` | addon/services/responsive-image-local.ts:66-68 | a name starting with `/` is `/` followed by the result; any other name, including the empty one, is returned unchanged |
| `ResponsiveImageLocal.NormalizeIdempotentIff` | addon/services/responsive-image-local.ts:66-68 | normalising twice equals normalising once exactly when the name does not start with `//` |
| `ResponsiveImageLocal.GetMeta` | addon/services/responsive-image-local.ts:56-64 | succeeds exactly when the normalised name is in the table, returns that entry unchanged, and otherwise reports the missing normalised name |
| `ResponsiveImageLocal.LeadingSlashIgnored` | addon/services/responsive-image-local.ts:56-68 | looking up `/name` and `name` give the same answer for a name without a leading slash |
| `ResponsiveImageLocal.GetType` | addon/services/responsive-image-local.ts:70-74 | fails exactly when the name is empty or ends in `.`; an inferred type is non-empty, has no `.` and is never `jpg`; for a name without `.` it is the aliased whole name |
| `ResponsiveImageLocal.GetTypeOfDotted` | addon/services/responsive-image-local.ts:70-74 | the type of `p.e`, for a non-empty last piece `e` without `.`, is `e` with the alias applied |
| `ResponsiveImageLocal.FingerprintSuffix` | addon/services/responsive-image-local.ts:129-131 | the suffix is empty exactly when the fingerprint is absent or empty, and is otherwise `-` followed by the fingerprint |
| `ResponsiveImageLocal.ComposeFilenameShape` | addon/services/responsive-image-local.ts:129-131 | a composed file name starts with the root URL and, for an extension without `.`, its last `.`-piece is the extension |
| `ResponsiveImageLocal.GetImageFilename` | addon/services/responsive-image-local.ts:123-132 | succeeds exactly when the twice-normalised name has metadata, and otherwise reports that name as missing |
| `ResponsiveImageLocal.FilenameShape` | addon/services/responsive-image-local.ts:123-132 | every file name starts with the root URL and, for a format without `.`, ends in `.` and the format's extension |
| `ResponsiveImageLocal.FilenameFormat` | addon/services/responsive-image-local.ts:123-132 | for a name `stem.ext`, the file name is root URL, stem, decimal width, `w`, `-fingerprint` for a non-empty fingerprint, `.` and the format's extension |
| `ResponsiveImageLocal.FilenameWithoutExtension` | addon/services/responsive-image-local.ts:127 | a name without `.` contributes an empty stem, so the width follows the root URL directly |
| `ResponsiveImageLocal.FilenameTypeRoundTrip` | addon/services/responsive-image-local.ts:123-132 | for a name with metadata, inferring the type of a composed file name gives back the format, for every non-empty format without `.` other than `jpg` |
| `ResponsiveImageLocal.FilenameTypeJpgAlias` | addon/services/responsive-image-local.ts:13-15 | for a name with metadata, a file composed for type `jpg` reads back as `jpeg` |
| `ResponsiveImageLocal.TypeArgument` | addon/services/responsive-image-local.ts:95-98 | a passed type is used as given; without one the type is inferred from the name, and a failure reports the name |
| `ResponsiveImageLocal.GetImageMetaByWidth` | addon/services/responsive-image-local.ts:95-117 | errors in source order (missing extension, then missing metadata); on success the width meets the selection definition over the entry's widths, the type is the given or inferred one, and the image is that variant's file name |
| `ResponsiveImageLocal.VariantTypeRoundTrip` | addon/services/responsive-image-local.ts:95-117 | for a name with metadata, a variant's file name reads back as its type: always when the type is inferred, and for a given type that is non-empty, has no `.` and is not `jpg` |
| `ResponsiveImageLocal.GetImageMetaBySize` | addon/services/responsive-image-local.ts:83-90 | equals the lookup by the width the sizing policy gives for the size, or for size 0 when none is given |
| `ResponsiveImageLocal.GetAspectRatio` | addon/services/responsive-image-local.ts:119-121 | succeeds exactly when the normalised name has metadata and returns its aspect ratio |
| `ResponsiveImageLocal.GetAvailableWidths` | addon/services/responsive-image-local.ts:51-54 | succeeds exactly when the twice-normalised name has metadata and returns exactly its widths |
| `ResponsiveImageLocal.GetAvailableTypes` | addon/services/responsive-image-local.ts:76-78 | succeeds exactly when the normalised name has metadata and returns exactly its formats |
| `ResponsiveImageLocal.RequestedTypes` | addon/services/responsive-image-local.ts:39-45 | a non-empty type is the only format enumerated; an absent or empty type enumerates all listed formats |
| `ResponsiveImageLocal.WidthRow` | addon/services/responsive-image-local.ts:42-44 | the variants of one listed width, one per format in order, each with that width, that format and its file name |
| `ResponsiveImageLocal.WidthRows` | addon/services/responsive-image-local.ts:38-46 | fails exactly on missing metadata for a non-empty product; otherwise one row of variants per width, in width order, each row holding that width's variants in format order |
| `ResponsiveImageLocal.WidthMajorLength` | addon/services/responsive-image-local.ts:38-46 | a width-major list has exactly widths times formats entries |
| `ResponsiveImageLocal.WidthMajorEntry` | addon/services/responsive-image-local.ts:38-46 | entry `i * n + j` of a width-major list is the one for the `i`-th width and the `j`-th of `n` formats |
| `ResponsiveImageLocal.WidthMajorSingleType` | addon/services/responsive-image-local.ts:38-40 | with a single format, entry `i` is the one for the `i`-th width |
| `ResponsiveImageLocal.WidthMajorCons` | addon/services/responsive-image-local.ts:38-46 | the row of the first width followed by the width-major variants of the rest are the width-major variants of all widths |
| `ResponsiveImageLocal.GetImages` | addon/services/responsive-image-local.ts:33-49 | fails exactly on missing metadata; otherwise the variants are width-major over the listed widths and the requested formats: the given type if non-empty, else all formats |
| `ResponsiveImageLocal.GetImagesCount` | addon/services/responsive-image-local.ts:33-49 | with a non-empty type there is one variant per width, otherwise one per width and format |
| `ResponsiveImageLocal.GetImagesFollowsAvailableWidths` | addon/services/responsive-image-local.ts:33-54 | with a type, the variants carry exactly the available widths in order, each in that type |
| `ResponsiveImageLocal.GetImagesFollowsAvailableTypes` | addon/services/responsive-image-local.ts:33-78 | for a name with at most one leading slash and no type, the variants are width-major over exactly the available widths and the available types |
| `ResponsiveImageLocal.GetImagesPlainName` | addon/services/responsive-image-local.ts:33-35 | for a name with at most one leading slash, listing variants succeeds exactly when the normalised name has metadata |
| `ResponsiveImageLocal.ServerRenderedImage` | tests/fastboot/image-test.js:14-24 | the 640 pixel PNG of `assets/images/tests/test.png` under root `/` is `/assets/images/tests/test640w.png`, with `-fingerprint` before `.png` when there is one |

## Left out

- Image height: the source computes `Math.round(width / aspectRatio)` in floating point. `Image` has no height, and `aspectRatio` is carried as an opaque `real` that only `GetAspectRatio` returns.
- Framework plumbing: service injection and reading `rootURL` from the application configuration. `rootURL` and the metadata table are fields of `Service`.
- The sizing policy `getDestinationWidthBySize` lives in another service that is not part of this model. It is the parameter `destinationWidth`.
- Numbers are integers: widths, requested widths and sizes are `int`. Fractional widths are not modelled.
- `Strings.IntToDecimal`: does not model the exponent notation JavaScript uses for magnitudes of 10^21 and above, nor `-0`.
- Debug assertions: the model treats every failed `assert` as an error result. Production builds strip these assertions, and the later failure then shows up differently. That behaviour is not modelled.
- Lookup keys are the table's own entries. Inherited object properties such as `constructor`, which a JavaScript object lookup would also find, are not modelled.
- Image types are free strings. The type union of image types is defined in a types module that is not part of this model.
- `getImageMetaBySize` declares `Image | undefined` as its return type but always returns an image or fails an assertion. It is modelled as a `Result`.
- The server-rendering test files are used only as evidence for `ServerRenderedImage`: the real widths of the test image are unknown, and the lemma uses 640, 750 and 1920.
