/** `get_media_to_send(obj, tweet_image_field, default_image=None)`: which
    image, if any, goes with a tweet. */
module MediaChoice {
  import opened Wrappers

  /** A file object: a name for it, and whether it has a `close` method. */
  datatype FileObject = FileObject(name: string, closable: bool)

  /** A value read from an item's image field, or passed as default_image:
      its Python truth value and its `file` and `path` attributes, when it
      has them. `None` is NO_IMAGE. */
  datatype ImageValue = ImageValue(truthy: bool, file: Option<FileObject>, path: Option<string>)

  const NO_IMAGE := ImageValue(false, None, None)

  /** What get_media_to_send returns: the value's own file, the file opened
      at a path under the media root, or the value itself. */
  datatype Media =
    | FileAttribute(f: FileObject)
    | OpenedFile(fullPath: string)
    | RawValue(v: ImageValue)

  /** Python's truth value of the returned media (file objects are true). */
  predicate Truthy(m: Media) {
    match m
    case RawValue(v) => v.truthy
    case _ => true
  }

  /** Whether the returned media has a `close` method; a raw value (a URL
      string or None) has none. */
  predicate Closable(m: Media) {
    match m
    case FileAttribute(f) => f.closable
    case OpenedFile(_) => true
    case RawValue(_) => false
  }

  /** The image chosen for `image` (the field's value), falling back to
      `defaultImage`; `mediaRoot` is settings.MEDIA_ROOT. */
  function GetMediaToSend(image: ImageValue, defaultImage: ImageValue, mediaRoot: string): (m: Media)
    ensures Truthy(m) <==> image.truthy || defaultImage.truthy
    ensures m.RawValue? ==> m.v == image || m.v == defaultImage
  {
    var theImage := if image.truthy then image else defaultImage;
    if theImage.truthy && theImage.file.Some? then
      FileAttribute(theImage.file.value)
    else if theImage.truthy && theImage.path.Some? then
      OpenedFile(mediaRoot + theImage.path.value)
    else
      RawValue(theImage)
  }

  /** The fixed fallback order: a false field value is replaced by the
      default; a `file` attribute wins even over a `path`; a value with only a
      `path` is opened under the media root; anything else, possibly None,
      is returned unchanged. */
  lemma MediaFallbackOrder(image: ImageValue, defaultImage: ImageValue, mediaRoot: string)
    ensures !image.truthy ==>
      GetMediaToSend(image, defaultImage, mediaRoot) == GetMediaToSend(defaultImage, defaultImage, mediaRoot)
    ensures image.truthy && image.file.Some? ==>
      GetMediaToSend(image, defaultImage, mediaRoot) == FileAttribute(image.file.value)
    ensures image.truthy && image.file.None? && image.path.Some? ==>
      GetMediaToSend(image, defaultImage, mediaRoot) == OpenedFile(mediaRoot + image.path.value)
    ensures image.truthy && image.file.None? && image.path.None? ==>
      GetMediaToSend(image, defaultImage, mediaRoot) == RawValue(image)
  {
  }
}
