/** `_image_to_data_uri`: an image file embedded as a base64 data URI. */
module DataUris {
  import opened Paths

  /** `data:<mime>;base64,<base64 of the bytes of file>`; the encoding itself is not modelled. */
  datatype DataUri = DataUri(mime: string, file: string)

  /** The MIME map keyed by lower-cased extension, with `image/png` as its default. */
  function MimeType(ext: string): string
  {
    var table := map[".png" := "image/png", ".jpg" := "image/jpeg", ".jpeg" := "image/jpeg", ".gif" := "image/gif"];
    if ext in table then table[ext] else "image/png"
  }

  /** Every extension maps to one of three types: JPEG exactly for `.jpg` and `.jpeg`, GIF exactly
      for `.gif`, and PNG for `.png` and for everything the table does not list. */
  lemma MimeTypeSpec(ext: string)
    ensures MimeType(ext) in {"image/png", "image/jpeg", "image/gif"}
    ensures MimeType(ext) == "image/jpeg" <==> ext == ".jpg" || ext == ".jpeg"
    ensures MimeType(ext) == "image/gif" <==> ext == ".gif"
    ensures MimeType(ext) == "image/png" <==> ext != ".jpg" && ext != ".jpeg" && ext != ".gif"
  {
  }

  function ImageToDataUri(path: string): DataUri
  {
    DataUri(MimeType(Lower(Suffix(path))), path)
  }

  /** The text before the payload. */
  function Header(u: DataUri): string
  {
    "data:" + u.mime + ";base64,"
  }

  /** A file named `<stem>.<tail>` with a dot-free tail is typed by its tail, whatever the case of
      its ASCII letters. */
  lemma MimeOfDottedName(stem: string, tail: string)
    requires stem != [] && tail != []
    requires forall i :: 0 <= i < |tail| ==> tail[i] != '.'
    ensures ImageToDataUri(stem + "." + tail).mime == MimeType(Lower("." + tail))
    ensures ImageToDataUri(stem + "." + tail).file == stem + "." + tail
  {
    SuffixOfDotted(stem, tail);
  }
}
