/** The string operations behind the rename: JavaScript's `lastIndexOf` and
    `substr`, and the stem they carve out of a file name. */
module FileNames {

  function Min(a: int, b: int): int { if a <= b then a else b }

  function Max(a: int, b: int): int { if a <= b then b else a }

  /** `s.lastIndexOf(c)` for a one-character search string: the position of the
      last `c` in `s`, or -1 when `s` holds no `c`. */
  function LastIndexOf(s: string, c: char): (r: int)
    ensures -1 <= r < |s|
    ensures r >= 0 ==> s[r] == c
    ensures forall j :: r < j < |s| ==> s[j] != c
  {
    if |s| == 0 then -1
    else if s[|s| - 1] == c then |s| - 1
    else LastIndexOf(s[..|s| - 1], c)
  }

  /** Independent description of "k is where the last `c` of `s` sits (or -1)". */
  ghost predicate IsLastIndex(s: string, c: char, k: int) {
    || (k == -1 && c !in s)
    || (0 <= k < |s| && s[k] == c && forall j :: k < j < |s| ==> s[j] != c)
  }

  lemma LastIndexOfCharacterised(s: string, c: char, k: int)
    ensures IsLastIndex(s, c, k) <==> k == LastIndexOf(s, c)
  {
    var r := LastIndexOf(s, c);
    if r < 0 {
      assert forall j :: 0 <= j < |s| ==> s[j] != c;
    }
  }

  /** `s.substr(start, length)` with JavaScript's clamping: a negative start
      counts from the end, and the piece never runs past either end of `s`. */
  function Substr(s: string, start: int, length: int): (r: string)
    ensures |r| <= |s|
    ensures 0 <= start && 0 <= length && start + length <= |s| ==> r == s[start..start + length]
    ensures start >= |s| || length <= 0 ==> r == []
    ensures start == 0 ==> r <= s
  {
    var size := |s|;
    var from := if start < 0 then Max(size + start, 0) else Min(start, size);
    var count := Min(Max(length, 0), size);
    var to := Min(from + count, size);
    s[from..to]
  }

  /** The part of a file name the JPEG rename keeps: everything before the last
      dot, or the whole name when it has no dot. */
  function Stem(name: string): (stem: string)
    ensures stem <= name
    ensures '.' !in name ==> stem == name
    ensures '.' in name ==> |stem| < |name| && name[|stem|] == '.' && '.' !in name[|stem| + 1..]
  {
    var pos := LastIndexOf(name, '.');
    Substr(name, 0, if pos < 0 then |name| else pos)
  }

  /** `name` is `stem` followed by `ext`, where `ext` is the final extension:
      either empty (the name has no dot) or a dot followed by dot-free text. */
  ghost predicate IsExtensionSplit(name: string, stem: string, ext: string) {
    && name == stem + ext
    && ((ext == [] && '.' !in name) || (|ext| > 0 && ext[0] == '.' && '.' !in ext[1..]))
  }

  lemma StemSplitsName(name: string)
    ensures IsExtensionSplit(name, Stem(name), name[|Stem(name)|..])
  {
    var stem := Stem(name);
    assert name == stem + name[|stem|..];
    if '.' in name {
      assert name[|stem|..][1..] == name[|stem| + 1..];
    }
  }

  /** The stem is the only split of a name into stem and final extension. */
  lemma {:induction false} StemIsUniqueSplit(name: string, stem: string, ext: string)
    requires IsExtensionSplit(name, stem, ext)
    ensures stem == Stem(name)
    ensures ext == name[|Stem(name)|..]
  {
    if ext == [] {
      assert stem == name;
    } else {
      assert forall j :: |stem| < j < |name| ==> name[j] == ext[1..][j - |stem| - 1];
      assert name[|stem|] == '.';
      LastIndexOfCharacterised(name, '.', |stem|);
      assert stem == name[..|stem|];
    }
  }
}
