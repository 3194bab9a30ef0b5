/** The MIME type under which a rendered image is published: the fixed
    `_MIME_TYPES` table, with `image/<format>` for every other format. */
module Mime {
  import opened PyStr

  const MimeTypes: map<string, string> := map[
    "png" := "image/png",
    "svg" := "image/svg+xml",
    "jpg" := "image/jpeg",
    "jpeg" := "image/jpeg"
  ]

  /** `_MIME_TYPES.get(fmt, 'image/%s' % fmt)`: the subtype is the format
      name itself, except that `svg` is published as `svg+xml` and `jpg` as
      `jpeg`. */
  function MimeType(fmt: string): (r: string)
    ensures StartsWith(r, "image/")
    ensures fmt != "svg" && fmt != "jpg" ==> r == "image/" + fmt
    ensures fmt == "svg" ==> r == "image/svg+xml"
    ensures fmt == "jpg" ==> r == "image/jpeg"
  {
    if fmt in MimeTypes then MimeTypes[fmt] else "image/" + fmt
  }

  lemma SubtypeOf(fmt: string)
    ensures (MimeType(fmt) == "image/" + fmt) || fmt == "svg" || fmt == "jpg"
    ensures MimeType(fmt)[6..] == if fmt == "svg" then "svg+xml" else if fmt == "jpg" then "jpeg" else fmt
  {
    if fmt != "svg" && fmt != "jpg" {
      assert ("image/" + fmt)[6..] == fmt;
    }
  }

  /** Two formats are published under the same MIME type only when they are
      `jpg` and `jpeg`, or `svg` and the literal format `svg+xml`. */
  lemma MimeTypeCollisions(f: string, g: string)
    requires f != g && MimeType(f) == MimeType(g)
    ensures {f, g} == {"jpg", "jpeg"} || {f, g} == {"svg", "svg+xml"}
  {
    SubtypeOf(f);
    SubtypeOf(g);
  }
}
