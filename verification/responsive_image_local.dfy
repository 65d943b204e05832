/** The image-variant lookup of the local responsive-image service
    (addon/services/responsive-image-local.ts). The service's metadata table
    and its `rootURL` are the fields of `Service`; every query is a pure
    function of them. The source's `assert` calls become `Err` results. */
module ResponsiveImageLocal {
  import opened Wrappers
  import opened Strings
  import opened ImageTypes
  import opened WidthSelection

  /** Build-time metadata of one image. `aspectRatio` is carried but only
      feeds the height computation, which is not modelled. */
  datatype ImageMeta = ImageMeta(
    widths: seq<int>,
    formats: seq<ImageType>,
    aspectRatio: real,
    fingerprint: Option<string>)

  /** One variant of an image: its file name, its width and its format. */
  datatype Image = Image(image: string, width: int, imageType: ImageType)

  /** The two failed assertions: no metadata for a name, no extension in a name. */
  datatype Error = NoData(imageName: string) | NoExtension(imageName: string)

  /** The service state: the configured URL prefix and the metadata table
      keyed by normalised image name. */
  datatype Service = Service(rootURL: string, images: map<string, ImageMeta>)

  /** Drops one leading `/`; every other name is returned unchanged. */
  function NormalizeImageName(name: string): (r: string)
    ensures |name| > 0 && name[0] == '/' ==> "/" + r == name
    ensures (|name| == 0 || name[0] != '/') ==> r == name
  {
    if |name| > 0 && name[0] == '/' then name[1..] else name
  }

  /** A name is left alone by a second normalisation exactly when it does
      not start with two slashes: `//x` becomes `/x` and then `x`. */
  lemma NormalizeIdempotentIff(name: string)
    ensures NormalizeImageName(NormalizeImageName(name)) == NormalizeImageName(name)
        <==> !(|name| >= 2 && name[0] == '/' && name[1] == '/')
  {
    if |name| >= 2 && name[0] == '/' && name[1] == '/' {
      assert |NormalizeImageName(NormalizeImageName(name))| == |name| - 2;
    }
  }

  /** The metadata of a name: the table entry under its normalised form. */
  function GetMeta(s: Service, name: string): (r: Result<ImageMeta, Error>)
    ensures r.Ok? <==> NormalizeImageName(name) in s.images
    ensures r.Ok? ==> r.value == s.images[NormalizeImageName(name)]
    ensures r.Err? ==> r.error == NoData(NormalizeImageName(name))
  {
    var key := NormalizeImageName(name);
    if key in s.images then Ok(s.images[key]) else Err(NoData(key))
  }

  /** A leading `/` in front of a name that has none does not change the lookup. */
  lemma LeadingSlashIgnored(s: Service, name: string)
    requires |name| == 0 || name[0] != '/'
    ensures GetMeta(s, "/" + name) == GetMeta(s, name)
  {
    assert ("/" + name)[1..] == name;
  }

  /** The type of a file name: the text after its last `.` (the whole name
      when it has none), with the extension alias applied. Fails exactly
      when that text is empty. */
  function GetType(name: string): (r: Result<ImageType, Error>)
    ensures r.Err? <==> |name| == 0 || name[|name| - 1] == '.'
    ensures r.Err? ==> r.error == NoExtension(name)
    ensures r.Ok? && '.' !in name ==> r.value == TypeOfExtension(name)
    ensures r.Ok? ==> r.value != "" && '.' !in r.value && r.value != "jpg"
  {
    var extension := LastSegment(name, '.');
    if extension == "" then Err(NoExtension(name)) else Ok(TypeOfExtension(extension))
  }

  /** A name whose last `.`-segment is non-empty has that segment's type. */
  lemma GetTypeOfSegment(name: string, e: string)
    requires LastSegment(name, '.') == e && e != ""
    ensures GetType(name) == Ok(TypeOfExtension(e))
  {
  }

  /** The type of a name `p.e`, whose last piece `e` is non-empty and free of
      `.`, is `e` with the extension alias applied: `jpg` gives `jpeg`, any
      other extension is its own type. */
  lemma GetTypeOfDotted(p: string, e: string)
    requires '.' !in e && e != ""
    ensures GetType(p + "." + e) == Ok(TypeOfExtension(e))
  {
    assert p + "." + e == p + ['.'] + e;
    LastSegmentOfSuffix(p, '.', e);
  }

  /** The `-fingerprint` part of a file name; an absent or empty fingerprint
      adds nothing. */
  function FingerprintSuffix(fingerprint: Option<string>): (r: string)
    ensures r == "" <==> fingerprint.None? || fingerprint.value == ""
    ensures r != "" ==> r[0] == '-' && r[1..] == fingerprint.value
  {
    if fingerprint.Some? && fingerprint.value != "" then "-" + fingerprint.value else ""
  }

  /** The file name format shared with the build step that writes the
      files: root URL, stem, width, `w`, fingerprint suffix, `.`, extension. */
  function ComposeFilename(rootURL: string, base: string, width: int, fingerprint: Option<string>, ext: string): (r: string)
  {
    rootURL + (base + IntToDecimal(width) + "w" + FingerprintSuffix(fingerprint)) + ("." + ext)
  }

  /** A composed file name starts with the root URL and, when the extension
      has no `.`, its last `.`-segment is the extension. */
  lemma ComposeFilenameShape(rootURL: string, base: string, width: int, fingerprint: Option<string>, ext: string)
    ensures var f := ComposeFilename(rootURL, base, width, fingerprint, ext);
      |rootURL| <= |f| && f[..|rootURL|] == rootURL
    ensures '.' !in ext ==> LastSegment(ComposeFilename(rootURL, base, width, fingerprint, ext), '.') == ext
  {
    var middle := base + IntToDecimal(width) + "w" + FingerprintSuffix(fingerprint);
    var f := ComposeFilename(rootURL, base, width, fingerprint, ext);
    assert f == (rootURL + middle) + ['.'] + ext;
    if '.' !in ext {
      LastSegmentOfSuffix(rootURL + middle, '.', ext);
    }
  }

  /** The composed file name, read as one left-to-right concatenation. */
  lemma ComposeFilenameAssoc(rootURL: string, base: string, width: int, fingerprint: Option<string>, ext: string)
    ensures ComposeFilename(rootURL, base, width, fingerprint, ext)
      == rootURL + base + IntToDecimal(width) + "w" + FingerprintSuffix(fingerprint) + "." + ext
  {
    var d, fs := IntToDecimal(width), FingerprintSuffix(fingerprint);
    var middle := base + d + "w" + fs;
    assert rootURL + middle == rootURL + base + d + "w" + fs;
    assert (rootURL + middle) + ("." + ext) == (rootURL + middle) + "." + ext;
  }

  /** The URL of the variant of `image` with the given width and format:
      root URL, name without extension, width, `w`, fingerprint suffix,
      `.` and the format's extension. */
  function GetImageFilename(s: Service, image: string, width: int, format: ImageType): (r: Result<string, Error>)
    ensures r.Ok? <==> NormalizeImageName(NormalizeImageName(image)) in s.images
    ensures r.Err? ==> r.error == NoData(NormalizeImageName(NormalizeImageName(image)))
  {
    var name := NormalizeImageName(image);
    var ext := ExtensionOfType(format);
    var base := BeforeLast(name, '.');
    var m :- GetMeta(s, name);
    Ok(ComposeFilename(s.rootURL, base, width, m.fingerprint, ext))
  }

  /** Every composed file name starts with the root URL and, for a format
      without `.`, ends in `.` followed by the format's extension. */
  lemma FilenameShape(s: Service, image: string, width: int, format: ImageType)
    requires GetImageFilename(s, image, width, format).Ok?
    ensures var f := GetImageFilename(s, image, width, format).value;
      |s.rootURL| <= |f| && f[..|s.rootURL|] == s.rootURL
    ensures '.' !in format ==>
      LastSegment(GetImageFilename(s, image, width, format).value, '.') == ExtensionOfType(format)
  {
    var name := NormalizeImageName(image);
    var m := GetMeta(s, name).value;
    ExtensionShape(format);
    ComposeFilenameShape(s.rootURL, BeforeLast(name, '.'), width, m.fingerprint, ExtensionOfType(format));
  }

  /** The file name in terms of the parts of the normalised name: its stem
      before the last `.`, then the width in decimal, `w`, `-` and the
      fingerprint when there is a non-empty one, and the format's extension
      after a final `.`. */
  lemma FilenameFormat(s: Service, image: string, width: int, format: ImageType, stem: string, ext: string)
    requires NormalizeImageName(image) == stem + "." + ext && '.' !in ext
    requires NormalizeImageName(NormalizeImageName(image)) in s.images
    ensures var fp := s.images[NormalizeImageName(NormalizeImageName(image))].fingerprint;
      GetImageFilename(s, image, width, format) == Ok(
        s.rootURL + stem + IntToDecimal(width) + "w"
        + (if fp.Some? && fp.value != "" then "-" + fp.value else "")
        + "." + ExtensionOfType(format))
  {
    var fp := s.images[NormalizeImageName(NormalizeImageName(image))].fingerprint;
    var e := ExtensionOfType(format);
    assert stem + "." + ext == stem + ['.'] + ext;
    BeforeLastOfSuffix(stem, '.', ext);
    assert GetImageFilename(s, image, width, format) == Ok(ComposeFilename(s.rootURL, stem, width, fp, e));
    ComposeFilenameAssoc(s.rootURL, stem, width, fp, e);
  }

  /** A name without any `.` contributes an empty stem: the file name has
      the width right after the root URL. */
  lemma FilenameWithoutExtension(s: Service, image: string, width: int, format: ImageType)
    requires '.' !in NormalizeImageName(image)
    requires NormalizeImageName(NormalizeImageName(image)) in s.images
    ensures var fp := s.images[NormalizeImageName(NormalizeImageName(image))].fingerprint;
      GetImageFilename(s, image, width, format) == Ok(
        s.rootURL + IntToDecimal(width) + "w"
        + (if fp.Some? && fp.value != "" then "-" + fp.value else "")
        + "." + ExtensionOfType(format))
  {
    var fp := s.images[NormalizeImageName(NormalizeImageName(image))].fingerprint;
    var e := ExtensionOfType(format);
    assert BeforeLast(NormalizeImageName(image), '.') == "";
    assert GetImageFilename(s, image, width, format) == Ok(ComposeFilename(s.rootURL, "", width, fp, e));
    ComposeFilenameAssoc(s.rootURL, "", width, fp, e);
    assert s.rootURL + "" == s.rootURL;
  }

  /** Reading the type back from a composed file name gives the format it
      was composed for, for every non-empty format without `.` other than
      the literal `jpg`. */
  lemma FilenameTypeRoundTrip(s: Service, image: string, width: int, format: ImageType)
    requires format != "" && '.' !in format && format != "jpg"
    requires NormalizeImageName(NormalizeImageName(image)) in s.images
    ensures GetImageFilename(s, image, width, format).Ok?
    ensures GetType(GetImageFilename(s, image, width, format).value) == Ok(format)
  {
    FilenameShape(s, image, width, format);
    ExtensionShape(format);
    TypeExtensionRoundTrip(format);
  }

  /** The `jpg`/`jpeg` alias is lossy in one direction: a file composed for
      type `jpg` reads back as `jpeg`. */
  lemma FilenameTypeJpgAlias(s: Service, image: string, width: int)
    requires NormalizeImageName(NormalizeImageName(image)) in s.images
    ensures GetImageFilename(s, image, width, "jpg").Ok?
    ensures GetType(GetImageFilename(s, image, width, "jpg").value) == Ok("jpeg")
  {
    var f := GetImageFilename(s, image, width, "jpg").value;
    JpgTypeAlias();
    FilenameShape(s, image, width, "jpg");
    GetTypeOfSegment(f, ExtensionOfType("jpg"));
  }

  /** The type the caller passed, or the one inferred from the name when it
      passed none (the default parameter value). */
  function TypeArgument(imageName: string, imageType: Option<ImageType>): (r: Result<ImageType, Error>)
    ensures imageType.Some? ==> r == Ok(imageType.value)
    ensures imageType.None? ==> r == GetType(imageName)
    ensures r.Err? ==> r.error == NoExtension(imageName)
  {
    if imageType.Some? then Ok(imageType.value) else GetType(imageName)
  }

  /** The variant of an image for a requested pixel width: the width the
      fold selects among the listed ones, and its file name. */
  function GetImageMetaByWidth(s: Service, imageName: string, width: int, imageType: Option<ImageType>): (r: Result<Image, Error>)
    ensures r.Ok? <==>
      && (imageType.Some? || GetType(imageName).Ok?)
      && NormalizeImageName(imageName) in s.images
      && NormalizeImageName(NormalizeImageName(imageName)) in s.images
    ensures imageType.None? && GetType(imageName).Err? ==> r == Err(NoExtension(imageName))
    ensures imageType.Some? || GetType(imageName).Ok? ==>
      NormalizeImageName(imageName) !in s.images ==> r == Err(NoData(NormalizeImageName(imageName)))
    ensures r.Ok? ==> Selects(s.images[NormalizeImageName(imageName)].widths, width, r.value.width)
    ensures r.Ok? && imageType.Some? ==> r.value.imageType == imageType.value
    ensures r.Ok? && imageType.None? ==> GetType(imageName) == Ok(r.value.imageType)
    ensures r.Ok? ==> GetImageFilename(s, imageName, r.value.width, r.value.imageType) == Ok(r.value.image)
  {
    var t :- TypeArgument(imageName, imageType);
    var m :- GetMeta(s, imageName);
    var w := SelectWidth(m.widths, width);
    var f :- GetImageFilename(s, imageName, w, t);
    Ok(Image(f, w, t))
  }

  /** The variant for a viewport size: the size (0 when absent) is turned
      into a pixel width by the sizing policy `destinationWidth`, then
      looked up by width. */
  function GetImageMetaBySize(
    s: Service, destinationWidth: int -> int, imageName: string, size: Option<int>, imageType: Option<ImageType>
  ): (r: Result<Image, Error>)
    ensures r == GetImageMetaByWidth(s, imageName, destinationWidth(if size.Some? then size.value else 0), imageType)
  {
    var t :- TypeArgument(imageName, imageType);
    var width := destinationWidth(size.GetOr(0));
    GetImageMetaByWidth(s, imageName, width, Some(t))
  }

  /** The aspect ratio recorded for a name. */
  function GetAspectRatio(s: Service, name: string): (r: Result<real, Error>)
    ensures r.Ok? <==> NormalizeImageName(name) in s.images
    ensures r.Ok? ==> r.value == s.images[NormalizeImageName(name)].aspectRatio
  {
    var m :- GetMeta(s, name);
    Ok(m.aspectRatio)
  }

  /** The widths listed for a name; the name is normalised here and once
      more by the lookup. */
  function GetAvailableWidths(s: Service, name: string): (r: Result<seq<int>, Error>)
    ensures r.Ok? <==> NormalizeImageName(NormalizeImageName(name)) in s.images
    ensures r.Ok? ==> r.value == s.images[NormalizeImageName(NormalizeImageName(name))].widths
    ensures r.Err? ==> r.error == NoData(NormalizeImageName(NormalizeImageName(name)))
  {
    var m :- GetMeta(s, NormalizeImageName(name));
    Ok(m.widths)
  }

  /** The formats listed for a name. */
  function GetAvailableTypes(s: Service, name: string): (r: Result<seq<ImageType>, Error>)
    ensures r.Ok? <==> NormalizeImageName(name) in s.images
    ensures r.Ok? ==> r.value == s.images[NormalizeImageName(name)].formats
    ensures r.Err? ==> r.error == NoData(NormalizeImageName(name))
  {
    var m :- GetMeta(s, name);
    Ok(m.formats)
  }

  /** The formats `getImages` enumerates: the requested one when it is a
      non-empty string (JavaScript truthiness), otherwise all listed formats. */
  function RequestedTypes(m: ImageMeta, imageType: Option<ImageType>): (types: seq<ImageType>)
    ensures imageType.Some? && imageType.value != "" ==> types == [imageType.value]
    ensures imageType.None? || imageType.value == "" ==> types == m.formats
  {
    if imageType.Some? && imageType.value != "" then [imageType.value] else m.formats
  }

  /** `img` is the variant of `name` at listed width `w` in format `t`. */
  predicate IsVariant(s: Service, name: string, img: Image, w: int, t: ImageType) {
    && img.width == w
    && img.imageType == t
    && GetImageFilename(s, name, w, t) == Ok(img.image)
  }

  /** The entry check of `getImages`: an image is the variant of `name` at
      the given width and format. */
  function VariantCheck(s: Service, name: string): (Image, int, ImageType) -> bool {
    (img: Image, w: int, t: ImageType) => IsVariant(s, name, img, w, t)
  }

  /** `images` is laid out width-major: one row of `|types|` entries per
      width, entry `j` of row `i` passing the check `p` for `widths[i]` and
      `types[j]` (WidthMajorLength and WidthMajorEntry give the flat index
      `i * |types| + j`). */
  predicate WidthMajorBy<T>(images: seq<T>, widths: seq<int>, types: seq<ImageType>, p: (T, int, ImageType) -> bool)
    decreases |widths|
  {
    if |widths| == 0 then |images| == 0
    else
      && |types| <= |images|
      && (forall j :: 0 <= j < |types| ==> p(images[j], widths[0], types[j]))
      && WidthMajorBy(images[|types|..], widths[1..], types, p)
  }

  /** `images` lists the variants of `name` width-major: entry `i * |types| + j`
      is the variant at `widths[i]` in format `types[j]`. */
  predicate WidthMajor(s: Service, name: string, images: seq<Image>, widths: seq<int>, types: seq<ImageType>) {
    WidthMajorBy(images, widths, types, VariantCheck(s, name))
  }

  /** The variants of one listed width, one per format, in format order. */
  function WidthRow(s: Service, name: string, w: int, types: seq<ImageType>): (r: Result<seq<Image>, Error>)
    requires GetMeta(s, name).Ok? && w in GetMeta(s, name).value.widths
    ensures r.Ok? <==> |types| == 0 || NormalizeImageName(NormalizeImageName(name)) in s.images
    ensures r.Err? ==> r.error == NoData(NormalizeImageName(NormalizeImageName(name)))
    ensures r.Ok? ==> |r.value| == |types|
    ensures r.Ok? ==> forall j :: 0 <= j < |types| ==> IsVariant(s, name, r.value[j], w, types[j])
    decreases |types|
  {
    if |types| == 0 then Ok([])
    else
      ListedWidthSelectsItself(GetMeta(s, name).value.widths, w);
      var img := GetImageMetaByWidth(s, name, w, Some(types[0]));
      if img.Err? then Err(img.error)
      else
        // the first variant's lookup succeeded, so the others' do too
        var rest := WidthRow(s, name, w, types[1..]);
        Ok([img.value] + rest.value)
  }

  /** The variants of the given listed widths, width-major: all formats of
      the first width, then all formats of the next, and so on. */
  function WidthRows(s: Service, name: string, widths: seq<int>, types: seq<ImageType>): (r: Result<seq<Image>, Error>)
    requires GetMeta(s, name).Ok?
    requires forall w :: w in widths ==> w in GetMeta(s, name).value.widths
    ensures r.Ok? <==> |widths| == 0 || |types| == 0 || NormalizeImageName(NormalizeImageName(name)) in s.images
    ensures r.Err? ==> r.error == NoData(NormalizeImageName(NormalizeImageName(name)))
    ensures r.Ok? ==> WidthMajor(s, name, r.value, widths, types)
    decreases |widths|
  {
    if |widths| == 0 then Ok([])
    else
      var row := WidthRow(s, name, widths[0], types);
      if row.Err? then Err(row.error)
      else
        var rest := WidthRows(s, name, widths[1..], types);
        WidthMajorCons(row.value, rest.value, widths, types, VariantCheck(s, name));
        Ok(row.value + rest.value)
  }

  /** Putting the row of the first width in front of the width-major
      entries of the remaining widths gives the width-major entries of all. */
  lemma WidthMajorCons<T>(row: seq<T>, rest: seq<T>, widths: seq<int>, types: seq<ImageType>, p: (T, int, ImageType) -> bool)
    requires |widths| > 0
    requires |row| == |types|
    requires forall j :: 0 <= j < |types| ==> p(row[j], widths[0], types[j])
    requires WidthMajorBy(rest, widths[1..], types, p)
    ensures WidthMajorBy(row + rest, widths, types, p)
  {
    assert (row + rest)[|types|..] == rest;
    assert forall j :: 0 <= j < |types| ==> (row + rest)[j] == row[j];
  }

  /** Entry `i * n + j` of `row + rest`, for a row of length `n` and `i >= 1`,
      is entry `(i - 1) * n + j` of `rest`. */
  lemma ShiftIndex(i: int, j: int, n: int)
    ensures i * n + j == n + ((i - 1) * n + j)
  {
  }

  /** A width-major layout holds exactly one entry per width and type. */
  lemma {:induction false} WidthMajorLength<T>(images: seq<T>, widths: seq<int>, types: seq<ImageType>, p: (T, int, ImageType) -> bool)
    requires WidthMajorBy(images, widths, types, p)
    ensures |images| == |widths| * |types|
    decreases |widths|
  {
    if |widths| > 0 {
      WidthMajorLength(images[|types|..], widths[1..], types, p);
      ShiftIndex(|widths|, 0, |types|);
    }
  }

  /** In a width-major layout, entry `i * |types| + j` is the one for
      `widths[i]` and `types[j]`. */
  lemma {:induction false} WidthMajorEntry<T>(images: seq<T>, widths: seq<int>, types: seq<ImageType>, p: (T, int, ImageType) -> bool, i: int, j: int)
    requires WidthMajorBy(images, widths, types, p)
    requires 0 <= i < |widths| && 0 <= j < |types|
    ensures i * |types| + j < |images|
    ensures p(images[i * |types| + j], widths[i], types[j])
    decreases i
  {
    var n := |types|;
    if i == 0 {
      assert i * n + j == j;
    } else {
      var tail := images[n..];
      WidthMajorEntry(tail, widths[1..], types, p, i - 1, j);
      ShiftIndex(i, j, n);
      assert tail[(i - 1) * n + j] == images[i * n + j];
      assert widths[1..][i - 1] == widths[i];
    }
  }

  /** With a single type, a width-major layout has one entry per width,
      in width order. */
  lemma WidthMajorSingleType<T>(images: seq<T>, widths: seq<int>, t: ImageType, p: (T, int, ImageType) -> bool)
    requires WidthMajorBy(images, widths, [t], p)
    ensures |images| == |widths|
    ensures forall i :: 0 <= i < |images| ==> p(images[i], widths[i], t)
  {
    WidthMajorLength(images, widths, [t], p);
    forall i | 0 <= i < |images|
      ensures p(images[i], widths[i], t)
    {
      WidthMajorEntry(images, widths, [t], p, i, 0);
      assert i * 1 + 0 == i;
    }
  }

  /** All variants of an image, width-major with formats inner: with a
      non-empty type one per listed width, otherwise one per listed width
      and format. */
  function GetImages(s: Service, imageName: string, imageType: Option<ImageType>): (r: Result<seq<Image>, Error>)
    ensures NormalizeImageName(NormalizeImageName(imageName)) !in s.images ==>
      r == Err(NoData(NormalizeImageName(NormalizeImageName(imageName))))
    ensures NormalizeImageName(NormalizeImageName(imageName)) in s.images ==>
      var m := s.images[NormalizeImageName(NormalizeImageName(imageName))];
      r.Ok? <==> |m.widths| == 0 || |RequestedTypes(m, imageType)| == 0
                 || NormalizeImageName(NormalizeImageName(NormalizeImageName(imageName))) in s.images
    ensures r.Ok? ==>
      && NormalizeImageName(NormalizeImageName(imageName)) in s.images
      && var m := s.images[NormalizeImageName(NormalizeImageName(imageName))];
         WidthMajor(s, NormalizeImageName(imageName), r.value, m.widths, RequestedTypes(m, imageType))
  {
    var name := NormalizeImageName(imageName);
    var m :- GetMeta(s, name);
    WidthRows(s, name, m.widths, RequestedTypes(m, imageType))
  }

  /** With a non-empty type `getImages` yields one variant per listed width,
      without one a variant per listed width and format. */
  lemma GetImagesCount(s: Service, imageName: string, imageType: Option<ImageType>)
    requires GetImages(s, imageName, imageType).Ok?
    ensures var m := s.images[NormalizeImageName(NormalizeImageName(imageName))];
      |GetImages(s, imageName, imageType).value|
        == if imageType.Some? && imageType.value != "" then |m.widths| else |m.widths| * |m.formats|
  {
    var m := s.images[NormalizeImageName(NormalizeImageName(imageName))];
    WidthMajorLength(GetImages(s, imageName, imageType).value, m.widths, RequestedTypes(m, imageType),
      VariantCheck(s, NormalizeImageName(imageName)));
  }

  /** With a non-empty type the variants carry, in order, exactly the widths
      `getAvailableWidths` reports, each in the requested type. */
  lemma GetImagesFollowsAvailableWidths(s: Service, imageName: string, t: ImageType)
    requires t != ""
    requires GetImages(s, imageName, Some(t)).Ok?
    ensures GetAvailableWidths(s, imageName).Ok?
    ensures var images := GetImages(s, imageName, Some(t)).value;
      var widths := GetAvailableWidths(s, imageName).value;
      && |images| == |widths|
      && forall i :: 0 <= i < |images| ==> images[i].width == widths[i] && images[i].imageType == t
  {
    var images := GetImages(s, imageName, Some(t)).value;
    var m := s.images[NormalizeImageName(NormalizeImageName(imageName))];
    assert RequestedTypes(m, Some(t)) == [t];
    var p := VariantCheck(s, NormalizeImageName(imageName));
    WidthMajorSingleType(images, m.widths, t, p);
    forall i | 0 <= i < |images|
      ensures images[i].width == m.widths[i] && images[i].imageType == t
    {
      assert p(images[i], m.widths[i], t);
    }
  }

  /** For a name that needs at most one slash stripped, the variants listed
      without a type run over exactly the widths and the formats that
      `getAvailableWidths` and `getAvailableTypes` report, width-major. */
  lemma GetImagesFollowsAvailableTypes(s: Service, imageName: string)
    requires |NormalizeImageName(imageName)| == 0 || NormalizeImageName(imageName)[0] != '/'
    requires GetImages(s, imageName, None).Ok?
    ensures GetAvailableWidths(s, imageName).Ok? && GetAvailableTypes(s, imageName).Ok?
    ensures WidthMajor(s, NormalizeImageName(imageName), GetImages(s, imageName, None).value,
      GetAvailableWidths(s, imageName).value, GetAvailableTypes(s, imageName).value)
  {
    assert NormalizeImageName(NormalizeImageName(imageName)) == NormalizeImageName(imageName);
  }

  /** For a name that needs at most one slash stripped, `getImages` succeeds
      exactly when the normalised name has metadata. */
  lemma GetImagesPlainName(s: Service, imageName: string, imageType: Option<ImageType>)
    requires |NormalizeImageName(imageName)| == 0 || NormalizeImageName(imageName)[0] != '/'
    ensures GetImages(s, imageName, imageType).Ok? <==> NormalizeImageName(imageName) in s.images
  {
  }

  /** A variant's file name reads back as the variant's type: always when
      the type is inferred from the name, and for a given type when it is
      non-empty, free of `.` and not the literal `jpg`. */
  lemma VariantTypeRoundTrip(s: Service, imageName: string, width: int, imageType: Option<ImageType>)
    requires NormalizeImageName(imageName) in s.images
    requires NormalizeImageName(NormalizeImageName(imageName)) in s.images
    requires imageType.None? ==> |imageName| > 0 && imageName[|imageName| - 1] != '.'
    requires imageType.Some? ==> imageType.value != "" && '.' !in imageType.value && imageType.value != "jpg"
    ensures GetImageMetaByWidth(s, imageName, width, imageType).Ok?
    ensures var img := GetImageMetaByWidth(s, imageName, width, imageType).value;
      GetType(img.image) == Ok(img.imageType)
  {
    var img := GetImageMetaByWidth(s, imageName, width, imageType).value;
    assert GetImageFilename(s, imageName, img.width, img.imageType) == Ok(img.image);
    FilenameTypeRoundTrip(s, imageName, img.width, img.imageType);
  }

  /** The image the server-rendered page shows: the 640 pixel PNG variant of
      `assets/images/tests/test.png` under root URL `/`, named
      `/assets/images/tests/test640w.png`, with `-` and the fingerprint
      before `.png` when there is one. */
  lemma ServerRenderedImage(fingerprint: Option<string>)
    ensures var stem := "assets/images/tests/test";
      var s := Service("/", map[stem + ".png" := ImageMeta([640, 750, 1920], ["png", "webp"], 1.5, fingerprint)]);
      GetImageMetaByWidth(s, "/" + (stem + ".png"), 640, None)
        == Ok(Image("/" + stem + "640w" + FingerprintSuffix(fingerprint) + ".png", 640, "png"))
  {
    var stem := "assets/images/tests/test";
    var m := ImageMeta([640, 750, 1920], ["png", "webp"], 1.5, fingerprint);
    var s := Service("/", map[stem + ".png" := m]);
    assert stem[0] == 'a';
    PngVariantName(stem);
    ListedWidthSelectsItself(m.widths, 640);
    PngVariantFilename(s, stem, m);
    assert GetImageMetaByWidth(s, "/" + (stem + ".png"), 640, None)
      == Ok(Image("/" + stem + "640w" + FingerprintSuffix(fingerprint) + ".png", SelectWidth(m.widths, 640), "png"));
  }

  /** `stem.png`, with and without a leading slash, for a stem that starts
      with neither `/` nor `.`. */
  lemma PngVariantName(stem: string)
    requires |stem| > 0 && stem[0] != '/'
    ensures NormalizeImageName("/" + (stem + ".png")) == stem + ".png"
    ensures NormalizeImageName(stem + ".png") == stem + ".png"
    ensures GetType("/" + (stem + ".png")) == Ok("png")
  {
    var name := stem + ".png";
    assert ("/" + name)[1..] == name;
    assert "/" + name == ("/" + stem) + ['.'] + "png";
    LastSegmentOfSuffix("/" + stem, '.', "png");
  }

  /** The 640 pixel PNG file name of `stem.png` under root URL `/`. */
  lemma PngVariantFilename(s: Service, stem: string, m: ImageMeta)
    requires |stem| > 0 && stem[0] != '/'
    requires s == Service("/", map[stem + ".png" := m])
    ensures GetImageFilename(s, "/" + (stem + ".png"), 640, "png")
      == Ok("/" + stem + "640w" + FingerprintSuffix(m.fingerprint) + ".png")
  {
    var name := stem + ".png";
    PngVariantName(stem);
    assert name == stem + "." + "png";
    assert ExtensionOfType("png") == "png";
    FilenameFormat(s, "/" + name, 640, "png", stem, "png");
    DecimalOf640();
    var fs := FingerprintSuffix(m.fingerprint);
    assert GetImageFilename(s, "/" + name, 640, "png") == Ok("/" + stem + "640" + "w" + fs + "." + "png");
    FilenamePieces("/" + stem, fs);
  }

  /** Regrouping the literal pieces of the test image's file name. */
  lemma FilenamePieces(head: string, fs: string)
    ensures head + "640" + "w" + fs + "." + "png" == head + "640w" + fs + ".png"
  {
    assert "640" + "w" == "640w";
    assert "." + "png" == ".png";
    assert head + "640" + "w" == head + ("640" + "w");
    assert head + "640w" + fs + "." + "png" == (head + "640w" + fs) + ("." + "png");
  }

  lemma DecimalOf640()
    ensures IntToDecimal(640) == "640"
  {
    assert NatToDecimal(6) == "6";
    assert NatToDecimal(64) == "64";
  }
}
