/** The two alias tables between image types and file extensions
    (addon/services/responsive-image-local.ts:13 and :15). */
module ImageTypes {

  /** An image format such as `png`, `jpeg`, `webp` or `avif`. */
  type ImageType = string

  /** Extensions whose image type has another name. */
  const ExtensionTypeMapping: map<string, ImageType> := map["jpg" := "jpeg"]

  /** Image types whose files carry another extension. */
  const ImageExtensions: map<ImageType, string> := map["jpeg" := "jpg"]

  /** The type an extension denotes: its entry in `ExtensionTypeMapping`,
      or the extension itself when it has none. */
  function TypeOfExtension(ext: string): (t: ImageType)
    ensures t != "jpg"
    ensures t == ext <==> ext != "jpg"
    ensures ext == "jpg" ==> t == "jpeg"
  {
    if ext in ExtensionTypeMapping then ExtensionTypeMapping[ext] else ext
  }

  /** The extension a type's files carry: its entry in `ImageExtensions`,
      or the type itself when it has none. */
  function ExtensionOfType(t: ImageType): (ext: string)
    ensures ext != "jpeg"
    ensures ext == t <==> t != "jpeg"
    ensures t == "jpeg" ==> ext == "jpg"
  {
    if t in ImageExtensions then ImageExtensions[t] else t
  }

  /** Each table is the inverse of the other. */
  lemma TablesAreInverse()
    ensures forall e :: e in ExtensionTypeMapping ==>
      ExtensionTypeMapping[e] in ImageExtensions && ImageExtensions[ExtensionTypeMapping[e]] == e
    ensures forall t :: t in ImageExtensions ==>
      ImageExtensions[t] in ExtensionTypeMapping && ExtensionTypeMapping[ImageExtensions[t]] == t
  {
  }

  /** Reading back the extension written for a type gives the type, except
      for the literal type `jpg`: its files get extension `jpg`, which reads
      back as `jpeg`. */
  lemma TypeExtensionRoundTrip(t: ImageType)
    ensures t != "jpg" <==> TypeOfExtension(ExtensionOfType(t)) == t
  {
  }

  /** Writing the type read from an extension gives the extension back,
      except for the literal extension `jpeg`, written back as `jpg`. */
  lemma ExtensionTypeRoundTrip(ext: string)
    ensures ext != "jpeg" <==> ExtensionOfType(TypeOfExtension(ext)) == ext
  {
  }

  /** The extension written for a type is empty only for the empty type and has a `.` only when the type has one. */
  lemma ExtensionShape(t: ImageType)
    ensures ExtensionOfType(t) == "" <==> t == ""
    ensures '.' in ExtensionOfType(t) <==> '.' in t
  {
  }

  /** The literal type `jpg` keeps its name as extension, which reads back
      as `jpeg`. */
  lemma JpgTypeAlias()
    ensures ExtensionOfType("jpg") == "jpg"
    ensures TypeOfExtension(ExtensionOfType("jpg")) == "jpeg"
  {
  }
}
