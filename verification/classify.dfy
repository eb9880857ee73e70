/** Classification by file name (`isImage`, `isText`, `isArchive`).  Each is
    `preg_match` of an unanchored, case-sensitive alternation of fixed words
    against the whole stored path, so it holds exactly when one of the words
    occurs anywhere in the path. */
module Classify {
  import opened Strings

  const ImageWords: seq<string> := ["png", "gif", "jpg"]
  const TextWords: seq<string> := ["txt", "doc", "rtf"]
  const ArchiveWords: seq<string> := ["rar", "zip"]

  /** Some alternative matches at position `i`, trying the alternatives in order. */
  function MatchAt(s: string, alts: seq<string>, i: nat): (r: bool)
    ensures r <==> exists j :: 0 <= j < |alts| && OccursAt(s, alts[j], i)
  {
    if |alts| == 0 then false
    else
      var r := OccursAt(s, alts[0], i) || MatchAt(s, alts[1..], i);
      assert forall j :: 1 <= j < |alts| ==> alts[j] == alts[1..][j - 1];
      r
  }

  /** The regex scan: tries every start position from `i` to the end. */
  function SearchFrom(s: string, alts: seq<string>, i: nat): (r: bool)
    ensures r <==> exists k, j :: i <= k <= |s| && 0 <= j < |alts| && OccursAt(s, alts[j], k)
    decreases |s| + 1 - i
  {
    if i > |s| then false
    else MatchAt(s, alts, i) || SearchFrom(s, alts, i + 1)
  }

  /** `preg_match('/w1|w2|.../', s)` for literal words: true exactly when one of
      the words occurs in `s`. */
  function PregMatch(s: string, alts: seq<string>): (r: bool)
    ensures r <==> exists j :: 0 <= j < |alts| && Contains(s, alts[j])
  {
    var r := SearchFrom(s, alts, 0);
    if r then
      var k, j :| 0 <= k <= |s| && 0 <= j < |alts| && OccursAt(s, alts[j], k);
      assert Contains(s, alts[j]);
      r
    else
      assert forall j :: 0 <= j < |alts| ==> !Contains(s, alts[j]);
      r
  }

  /** `isImage`: the path mentions `png`, `gif` or `jpg`. */
  function IsImage(file: string): (r: bool)
    ensures r <==> Contains(file, "png") || Contains(file, "gif") || Contains(file, "jpg")
  {
    assert |ImageWords| == 3;
    assert Contains(file, "png") ==> Contains(file, ImageWords[0]);
    assert Contains(file, "gif") ==> Contains(file, ImageWords[1]);
    assert Contains(file, "jpg") ==> Contains(file, ImageWords[2]);
    PregMatch(file, ImageWords)
  }

  /** `isText`: the path mentions `txt`, `doc` or `rtf`. */
  function IsText(file: string): (r: bool)
    ensures r <==> Contains(file, "txt") || Contains(file, "doc") || Contains(file, "rtf")
  {
    assert |TextWords| == 3;
    assert Contains(file, "txt") ==> Contains(file, TextWords[0]);
    assert Contains(file, "doc") ==> Contains(file, TextWords[1]);
    assert Contains(file, "rtf") ==> Contains(file, TextWords[2]);
    PregMatch(file, TextWords)
  }

  /** `isArchive`: the path mentions `rar` or `zip`. */
  function IsArchive(file: string): (r: bool)
    ensures r <==> Contains(file, "rar") || Contains(file, "zip")
  {
    assert |ArchiveWords| == 2;
    assert Contains(file, "rar") ==> Contains(file, ArchiveWords[0]);
    assert Contains(file, "zip") ==> Contains(file, ArchiveWords[1]);
    PregMatch(file, ArchiveWords)
  }

  /** The match is case-sensitive: an upper-case extension is not recognised. */
  lemma CaseSensitive()
    ensures !IsImage("photo.JPG")
    ensures IsImage("photo.jpg")
  {
    var up := "photo.JPG";
    AbsentCharacter(up, "png", 'n');
    AbsentCharacter(up, "gif", 'g');
    AbsentCharacter(up, "jpg", 'j');
    assert OccursAt("photo.jpg", "jpg", 6);
  }

  /** The match is loose: a word anywhere in the path counts, so `rarely.txt` is
      both an archive and a text file. */
  lemma Loose()
    ensures IsArchive("rarely.txt")
    ensures IsText("rarely.txt")
  {
    assert OccursAt("rarely.txt", "rar", 0);
    assert OccursAt("rarely.txt", "txt", 7);
  }
}
