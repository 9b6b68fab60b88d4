/** The values that flow through the file-info rule of the cropper components:
    the picked file, the optional MIME override, and the exported name and type. */
module Files {

  /** The only MIME override that triggers a rename. */
  const JpegMime: string := "image/jpeg"

  /** The extension written under a JPEG override. */
  const JpgSuffix: string := ".jpg"

  /** The two properties of a browser `File` that the rule reads: `name` and `type`. */
  datatype File = File(name: string, fileType: string)

  /** What the rule returns: the name and the MIME type of the exported image. */
  datatype FileInfo = FileInfo(filename: string, mime: string)

  /** The JavaScript value passed as the MIME override: absent, `null`, or a string. */
  datatype MimeArg = Undefined | Null | Text(value: string)

  /** The source's strict comparison `mime === 'image/jpeg'`: only that exact string matches. */
  predicate IsJpegRequest(mime: MimeArg) {
    mime.Text? && mime.value == JpegMime
  }

  predicate EndsWith(s: string, suffix: string) {
    |suffix| <= |s| && s[|s| - |suffix|..] == suffix
  }
}
