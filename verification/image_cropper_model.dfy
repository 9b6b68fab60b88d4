/** The `getFileInfo` closure of the `ImageCropperModel` component, which reads
    the file and the MIME override from the component's props. */
module ImageCropperModel {
  import opened Files
  import opened FileNames
  import CropperUtils

  /** The two props the closure reads. */
  datatype Props = Props(file: File, mime: MimeArg)

  /** The component's declared default for the `mime` prop. */
  const DefaultMime: MimeArg := Null

  /** Props as the component sees them: an absent `mime` takes the default. */
  function WithDefaultProps(file: File, mime: MimeArg): (p: Props)
    ensures p.file == file
    ensures p.mime != Undefined
    ensures mime != Undefined ==> p.mime == mime
    ensures IsJpegRequest(p.mime) <==> IsJpegRequest(mime)
  {
    Props(file, if mime.Undefined? then DefaultMime else mime)
  }

  function GetFileInfo(props: Props): (r: FileInfo)
    ensures IsJpegRequest(props.mime) ==> r.mime == JpegMime && CropperUtils.RenamedToJpg(props.file.name, r.filename)
    ensures !IsJpegRequest(props.mime) ==> r.filename == props.file.name && r.mime == props.file.fileType
  {
    var pos := LastIndexOf(props.file.name, '.');
    if props.mime == Text(JpegMime) then
      var filename := Substr(props.file.name, 0, if pos < 0 then |props.file.name| else pos) + JpgSuffix;
      StemSplitsName(props.file.name);
      FileInfo(filename, JpegMime)
    else
      FileInfo(props.file.name, props.file.fileType)
  }

  /** The closure and the shared helper give the same answer on every input. */
  lemma AgreesWithUtils(props: Props)
    ensures GetFileInfo(props) == CropperUtils.GetFileInfo(props.file, props.mime)
  {
  }

  /** The jpeg branch keeps the text before the last dot (or the whole dotless name). */
  lemma JpegBranch(props: Props)
    requires IsJpegRequest(props.mime)
    ensures GetFileInfo(props).mime == JpegMime
    ensures '.' in props.file.name ==>
      GetFileInfo(props).filename == props.file.name[..LastIndexOf(props.file.name, '.')] + JpgSuffix
    ensures '.' !in props.file.name ==> GetFileInfo(props).filename == props.file.name + JpgSuffix
  {
    AgreesWithUtils(props);
    if '.' in props.file.name {
      CropperUtils.JpegKeepsTextBeforeLastDot(props.file);
    } else {
      CropperUtils.JpegAppendsToDotlessName(props.file);
    }
  }

  /** Left at its default, the `mime` prop never triggers a rename. */
  lemma DefaultMimePassesThrough(file: File)
    ensures GetFileInfo(WithDefaultProps(file, Undefined)) == FileInfo(file.name, file.fileType)
  {
  }
}
