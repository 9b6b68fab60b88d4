/** The exported `getFileInfo(file, mime = '')` helper of the cropper modal:
    the name and MIME type under which a cropped image is exported. */
module CropperUtils {
  import opened Files
  import opened FileNames

  /** The parameter default `mime = ''`: it replaces only an absent argument, never `null`. */
  function WithDefaultMime(mime: MimeArg): (m: MimeArg)
    ensures m != Undefined
    ensures mime != Undefined ==> m == mime
    ensures IsJpegRequest(m) <==> IsJpegRequest(mime)
  {
    if mime.Undefined? then Text("") else mime
  }

  /** `filename` is `name` with its final extension (if any) replaced by `.jpg`. */
  ghost predicate RenamedToJpg(name: string, filename: string) {
    && EndsWith(filename, JpgSuffix)
    && var stem := filename[..|filename| - |JpgSuffix|];
       |stem| <= |name| && IsExtensionSplit(name, stem, name[|stem|..])
  }

  function GetFileInfo(file: File, mime: MimeArg): (r: FileInfo)
    ensures IsJpegRequest(mime) ==> r.mime == JpegMime && RenamedToJpg(file.name, r.filename)
    ensures !IsJpegRequest(mime) ==> r.filename == file.name && r.mime == file.fileType
  {
    var mime := WithDefaultMime(mime);
    var pos := LastIndexOf(file.name, '.');
    if mime == Text(JpegMime) then
      var filename := Substr(file.name, 0, if pos < 0 then |file.name| else pos) + JpgSuffix;
      StemSplitsName(file.name);
      FileInfo(filename, JpegMime)
    else
      FileInfo(file.name, file.fileType)
  }

  /** With a dot in the name, the JPEG rename keeps the text before the last dot. */
  lemma JpegKeepsTextBeforeLastDot(file: File)
    requires '.' in file.name
    ensures GetFileInfo(file, Text(JpegMime)).filename
         == file.name[..LastIndexOf(file.name, '.')] + JpgSuffix
  {
    var r := GetFileInfo(file, Text(JpegMime));
    var stem := r.filename[..|r.filename| - |JpgSuffix|];
    StemIsUniqueSplit(file.name, stem, file.name[|stem|..]);
    LastIndexOfCharacterised(file.name, '.', |stem|);
    assert r.filename == stem + JpgSuffix;
  }

  /** Without a dot, the JPEG rename appends `.jpg` to the whole name. */
  lemma JpegAppendsToDotlessName(file: File)
    requires '.' !in file.name
    ensures GetFileInfo(file, Text(JpegMime)).filename == file.name + JpgSuffix
  {
    var r := GetFileInfo(file, Text(JpegMime));
    var stem := r.filename[..|r.filename| - |JpgSuffix|];
    assert r.filename == stem + JpgSuffix;
  }

  /** Every dot of the name except the last survives, in place, in the new name. */
  lemma JpegKeepsEarlierDots(file: File, j: int)
    requires 0 <= j < |file.name| && file.name[j] == '.'
    requires j != LastIndexOf(file.name, '.')
    ensures j < |GetFileInfo(file, Text(JpegMime)).filename| - |JpgSuffix|
    ensures GetFileInfo(file, Text(JpegMime)).filename[j] == '.'
  {
    JpegKeepsTextBeforeLastDot(file);
  }

  /** A name whose only dot leads it (a "hidden" name such as `.png`) becomes `.jpg`. */
  lemma JpegLeadingDotOnly(file: File)
    requires |file.name| > 0 && file.name[0] == '.' && '.' !in file.name[1..]
    ensures GetFileInfo(file, Text(JpegMime)).filename == JpgSuffix
  {
    assert forall j :: 0 < j < |file.name| ==> file.name[j] == file.name[1..][j - 1];
    LastIndexOfCharacterised(file.name, '.', 0);
    JpegKeepsTextBeforeLastDot(file);
  }

  /** A name that already ends in `.jpg` keeps its text before that suffix. */
  lemma JpgNameKeepsStem(stem: string)
    ensures Stem(stem + JpgSuffix) == stem
  {
    var name := stem + JpgSuffix;
    assert '.' !in JpgSuffix[1..];
    assert IsExtensionSplit(name, stem, JpgSuffix);
    StemIsUniqueSplit(name, stem, JpgSuffix);
  }

  /** Renaming an already renamed file (whatever its type) changes nothing. */
  lemma JpegRenameIdempotent(file: File, fileType: string)
    ensures var r := GetFileInfo(file, Text(JpegMime));
            GetFileInfo(File(r.filename, fileType), Text(JpegMime)) == r
  {
    var r := GetFileInfo(file, Text(JpegMime));
    var stem := r.filename[..|r.filename| - |JpgSuffix|];
    assert r.filename == stem + JpgSuffix;
    JpgNameKeepsStem(stem);
    var r' := GetFileInfo(File(r.filename, fileType), Text(JpegMime));
    var stem' := r'.filename[..|r'.filename| - |JpgSuffix|];
    assert r'.filename == stem' + JpgSuffix;
    StemIsUniqueSplit(r.filename, stem', r.filename[|stem'|..]);
  }

  /** The defaults and near-misses all leave the file as it is. */
  lemma PassThroughExamples(file: File)
    ensures GetFileInfo(file, Undefined) == FileInfo(file.name, file.fileType)
    ensures GetFileInfo(file, Null) == FileInfo(file.name, file.fileType)
    ensures GetFileInfo(file, Text("")) == FileInfo(file.name, file.fileType)
    ensures GetFileInfo(file, Text("image/jpg")) == FileInfo(file.name, file.fileType)
    ensures GetFileInfo(file, Text("IMAGE/JPEG")) == FileInfo(file.name, file.fileType)
  {
  }

  /** A lone extension is replaced as a whole. */
  lemma LeadingDotExample()
    ensures GetFileInfo(File(".png", "image/png"), Text(JpegMime)) == FileInfo(".jpg", "image/jpeg")
  {
    assert ".png"[1..] == "png";
    JpegLeadingDotOnly(File(".png", "image/png"));
  }

  /** Only the last of several extensions is replaced. */
  lemma DoubleExtensionExample()
    ensures GetFileInfo(File("photo.tar.gz", ""), Text(JpegMime)).filename == "photo.tar.jpg"
  {
    var name := "photo.tar.gz";
    assert name == "photo.tar" + ".gz";
    assert ".gz"[1..] == "gz";
    assert IsExtensionSplit(name, "photo.tar", ".gz");
    StemIsUniqueSplit(name, "photo.tar", ".gz");
  }

  /** A dotless name keeps all of its text. */
  lemma DotlessExample()
    ensures GetFileInfo(File("README", "text/plain"), Text(JpegMime)).filename == "README.jpg"
  {
    assert '.' !in "README";
    JpegAppendsToDotlessName(File("README", "text/plain"));
  }
}
