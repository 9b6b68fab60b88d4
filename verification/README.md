# Cropped-image file naming

A model of the rule the React cropper modal uses to name and type the image
it exports after a crop. Given the picked file's `name` and `type` and an
optional MIME override, `getFileInfo` returns `{filename, mime}`:

- when the override is exactly the string `image/jpeg`, the name loses its
  final extension (everything from the last `.` on, or nothing when there is
  no dot), gains `.jpg`, and the MIME becomes `image/jpeg`;
- for any other override (the default `''`, `null`, `image/jpg`, any other
  spelling) the file's own name and type are returned unchanged.

The rule exists twice: as the exported helper in
`src/components/cropper-modal/utils.js` and as a closure over the component's
props in `src/image-cropper-model/ImageCropperModel.js`. Both are modelled
and proved to agree.

Files:

- `files.dfy` (module `Files`): the data model — `File`, `FileInfo`, the
  JavaScript value of the MIME argument (`Undefined`, `Null`, `Text`), the
  constants `image/jpeg` and `.jpg`, and the strict-equality test.
- `file_names.dfy` (module `FileNames`): JavaScript's `lastIndexOf` and
  `substr` over `seq<char>`, the stem they cut out of a name, and an
  independent description of a name as stem plus final extension.
- `cropper_utils.dfy` (module `CropperUtils`): the exported `getFileInfo`
  with its `mime = ''` default, and the properties of the rename.
- `image_cropper_model.dfy` (module `ImageCropperModel`): the closure, the
  component's `mime: null` default prop, and the agreement with the helper.

## Model

| member | source | states |
|---|---|---|
| FileNames.LastIndexOf | src/components/cropper-modal/utils.js:14 | the result is -1 or an index holding `.`, and no `.` occurs after it (so -1 means the name has no dot) |
| FileNames.LastIndexOfCharacterised | src/components/cropper-modal/utils.js:14 | a position is the last occurrence of the character (or -1 for none) if and only if `lastIndexOf` returns it |
| FileNames.Substr | src/components/cropper-modal/utils.js:17-18 | `substr` returns at most the whole string, exactly `s[start..start+length]` when that range lies inside `s`, the empty string for a start past the end or a non-positive length, and a prefix when it starts at 0 |
| FileNames.Stem | src/components/cropper-modal/utils.js:14-18 | the kept text is a prefix of the name; it is the whole name when there is no dot; otherwise the next character is a `.` and no `.` follows it |
| FileNames.StemSplitsName | src/components/cropper-modal/utils.js:14-18 | the name is the kept stem followed by its final extension: empty when there is no dot, else a dot followed by dot-free text |
| FileNames.StemIsUniqueSplit | src/components/cropper-modal/utils.js:14-18 | any split of a name into stem and final extension has exactly the stem the rename keeps |
| CropperUtils.WithDefaultMime | src/components/cropper-modal/utils.js:13 | the `''` default replaces only an absent argument, keeps `null` and strings, and never turns a non-JPEG request into a JPEG one |
| CropperUtils.GetFileInfo | src/components/cropper-modal/utils.js:13-30 | under exactly `image/jpeg` the MIME is `image/jpeg` and the filename is the name with its final extension replaced by `.jpg` (ends with `.jpg`, stem is a prefix of the name); under any other argument name and type come back unchanged |
| CropperUtils.JpegKeepsTextBeforeLastDot | src/components/cropper-modal/utils.js:14-18 | with a dot in the name, the new filename is the name's prefix before its last dot followed by `.jpg` |
| CropperUtils.JpegAppendsToDotlessName | src/components/cropper-modal/utils.js:14-18 | without a dot, the new filename is the whole name followed by `.jpg` |
| CropperUtils.JpegKeepsEarlierDots | src/components/cropper-modal/utils.js:14-18 | every dot of the name other than the last lies in the kept prefix and stays at its position in the new filename |
| CropperUtils.JpegLeadingDotOnly | src/components/cropper-modal/utils.js:14-18 | a name whose only dot is at index 0 becomes exactly `.jpg` |
| CropperUtils.JpgNameKeepsStem | src/components/cropper-modal/utils.js:14-18 | a name that already ends in `.jpg` keeps exactly the text before that suffix, so the rename puts back the same `.jpg` |
| CropperUtils.JpegRenameIdempotent | src/components/cropper-modal/utils.js:14-23 | renaming the renamed file again with `image/jpeg`, whatever its type, returns the same filename and MIME |
| CropperUtils.PassThroughExamples | src/components/cropper-modal/utils.js:13-29 | an absent argument, `null`, `''`, `image/jpg` and `IMAGE/JPEG` all return the file's own name and type |
| CropperUtils.LeadingDotExample | src/components/cropper-modal/utils.js:14-23 | `.png` under `image/jpeg` becomes `.jpg` with MIME `image/jpeg` |
| CropperUtils.DoubleExtensionExample | src/components/cropper-modal/utils.js:14-18 | `photo.tar.gz` under `image/jpeg` becomes `photo.tar.jpg` |
| CropperUtils.DotlessExample | src/components/cropper-modal/utils.js:14-18 | `README` under `image/jpeg` becomes `README.jpg` |
| ImageCropperModel.WithDefaultProps | src/image-cropper-model/ImageCropperModel.js:210-218 | an absent `mime` prop takes the default `null`; a given one is kept; the default never requests JPEG |
| ImageCropperModel.GetFileInfo | src/image-cropper-model/ImageCropperModel.js:80-97 | under exactly `image/jpeg` the closure yields MIME `image/jpeg` and the name with its final extension replaced by `.jpg`; otherwise `props.file.name` and `props.file.type` unchanged |
| ImageCropperModel.AgreesWithUtils | src/image-cropper-model/ImageCropperModel.js:80-97 | for every file and MIME value the closure returns the same `{filename, mime}` as the exported helper |
| ImageCropperModel.JpegBranch | src/image-cropper-model/ImageCropperModel.js:81-90 | the closure's JPEG branch yields the text before the last dot (or the whole dotless name) plus `.jpg`, with MIME `image/jpeg` |
| ImageCropperModel.DefaultMimePassesThrough | src/image-cropper-model/ImageCropperModel.js:83-96 | with the `mime` prop left at its default `null` (declared at line 218) the closure always returns the file's own name and type |

## Left out

- JavaScript strings are sequences of UTF-16 code units, Dafny strings of Unicode scalar values. A `.` can never be half of a surrogate pair, so the kept stem is the same text either way; positions are counted differently for names outside the Basic Multilingual Plane.
- The `String(file.name)` coercion of a name that is not a string: names are assumed to be strings already.
- FileNames.LastIndexOf: models a one-character search with no `fromIndex` argument, the only form the rename uses.
- FileNames.Substr: takes integer arguments only; JavaScript's conversion of fractional, infinite or non-numeric arguments is not modelled because the rename always passes integers.
- The `CropperModel` and `ImageCropperModel` components beyond the rename: React state, effects and modal visibility are UI plumbing with no invariant of their own.
- `FileReader.readAsDataURL`, `canvas.toBlob`, the `File` constructor and the cropper library's `getCroppedCanvas`, `zoomTo` and `rotateTo`: browser and library calls whose behaviour is not visible in this code. In particular the exported blob's real type is whatever the browser produces, not the computed MIME.
- Zoom and rotate slider values and export quality: floating-point or numeric settings passed straight to the cropper library.
- The merge of default and caller-supplied cropped-canvas options in `CropperModel`: a plain object spread.
- The demo and bootstrap files (`App.js`, `index.js`, the file-input and modal demos): rendering and wiring only.
