/** The browser objects both upload components handle. */
module BrowserFile {

  /** A browser `File`: its name, its size in bytes and its MIME type. */
  datatype File = File(name: string, size: nat, mimeType: string)

  /** Where a preview is loaded from: a URL string, or the object URL that
      `URL.createObjectURL` makes for a local file (kept opaque). */
  datatype Source = Url(url: string) | ObjectUrl(file: File)

  /** `file.type.startsWith('image/')`. */
  predicate HasImageType(file: File) {
    "image/" <= file.mimeType
  }
}
