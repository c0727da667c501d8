/** The client's file helpers (frontend/fileShare/src/utils/fileHelpers.js):
    classifying a MIME type or extension into an icon and a colour by
    first-match substring tests on the lower-cased type, the inclusive size
    limit, and the share link. */
module FileHelpers {
  import opened Wrappers
  import opened Strings

  /** The icon components `getFileIcon` picks from. */
  datatype Icon =
    | FaFilePdf
    | FaFileWord
    | FaFileExcel
    | FaFilePowerpoint
    | FaFileImage
    | FaFileVideo
    | FaFileAudio
    | FaFileArchive
    | FaFileCode
    | FaFile

  // ---------------------------------------------------------------------
  // A first-match rule table, the reference reading of both classifiers
  // ---------------------------------------------------------------------

  /** Some keyword of `ks` occurs in `t`. */
  predicate AnyOf(t: string, ks: seq<string>)
    decreases |ks|
  {
    |ks| > 0 && (Contains(t, ks[0]) || AnyOf(t, ks[1..]))
  }

  lemma {:induction false} AnyOfIff(t: string, ks: seq<string>)
    ensures AnyOf(t, ks) <==> exists i :: 0 <= i < |ks| && Contains(t, ks[i])
    decreases |ks|
  {
    if |ks| > 0 {
      AnyOfIff(t, ks[1..]);
      if AnyOf(t, ks[1..]) {
        var i :| 0 <= i < |ks[1..]| && Contains(t, ks[1..][i]);
        assert Contains(t, ks[i + 1]);
      }
      if exists i :: 0 <= i < |ks| && Contains(t, ks[i]) {
        var i :| 0 <= i < |ks| && Contains(t, ks[i]);
        if i > 0 {
          assert Contains(t, ks[1..][i - 1]);
        }
      }
    }
  }

  /** "If the type contains one of these keywords, answer this." */
  datatype Rule<T> = Rule(keywords: seq<string>, result: T)

  /** The result of the first rule with a matching keyword, or `default`. */
  function FirstMatch<T>(rules: seq<Rule<T>>, t: string, default: T): (r: T)
    decreases |rules|
  {
    if |rules| == 0 then default
    else if AnyOf(t, rules[0].keywords) then rules[0].result
    else FirstMatch(rules[1..], t, default)
  }

  /** First-match semantics: the answer is rule `k`'s exactly when rule `k`
      matches and no earlier rule does. */
  lemma {:induction false} FirstMatchAt<T>(rules: seq<Rule<T>>, t: string, default: T, k: nat)
    requires k < |rules| && AnyOf(t, rules[k].keywords)
    requires forall j :: 0 <= j < k ==> !AnyOf(t, rules[j].keywords)
    ensures FirstMatch(rules, t, default) == rules[k].result
    decreases k
  {
    if k > 0 {
      assert !AnyOf(t, rules[0].keywords);
      FirstMatchAt(rules[1..], t, default, k - 1);
    }
  }

  /** Reading two tables one after the other is reading the first with
      the second's answer as its default. */
  lemma {:induction false} FirstMatchAppend<T>(a: seq<Rule<T>>, b: seq<Rule<T>>, t: string, default: T)
    ensures FirstMatch(a + b, t, default) == FirstMatch(a, t, FirstMatch(b, t, default))
    decreases |a|
  {
    if |a| > 0 {
      assert (a + b)[0] == a[0] && (a + b)[1..] == a[1..] + b;
      FirstMatchAppend(a[1..], b, t, default);
      FirstMatchStep(a + b, t, default);
      FirstMatchStep(a, t, FirstMatch(b, t, default));
    } else {
      assert a + b == b;
    }
  }

  /** One step of the reading: the first rule, or the rest. */
  lemma FirstMatchStep<T>(rules: seq<Rule<T>>, t: string, default: T)
    requires |rules| > 0
    ensures FirstMatch(rules, t, default)
         == if AnyOf(t, rules[0].keywords) then rules[0].result else FirstMatch(rules[1..], t, default)
  {
  }

  /** When no rule answers the default itself, the default comes out
      exactly when no rule matches. */
  lemma {:induction false} FirstMatchDefaultIff<T>(rules: seq<Rule<T>>, t: string, default: T)
    requires forall j :: 0 <= j < |rules| ==> rules[j].result != default
    ensures FirstMatch(rules, t, default) == default
        <==> forall j :: 0 <= j < |rules| ==> !AnyOf(t, rules[j].keywords)
    decreases |rules|
  {
    if |rules| > 0 {
      var tail := rules[1..];
      forall j | 0 <= j < |tail| ensures tail[j].result != default {
        assert tail[j] == rules[j + 1];
      }
      FirstMatchDefaultIff(tail, t, default);
      if forall j :: 0 <= j < |rules| ==> !AnyOf(t, rules[j].keywords) {
        forall j | 0 <= j < |tail| ensures !AnyOf(t, tail[j].keywords) {
          assert tail[j] == rules[j + 1];
        }
      }
      if !AnyOf(t, rules[0].keywords) && forall j :: 0 <= j < |tail| ==> !AnyOf(t, tail[j].keywords) {
        forall j | 0 <= j < |rules| ensures !AnyOf(t, rules[j].keywords) {
          if j > 0 { assert rules[j] == tail[j - 1]; }
        }
      }
    }
  }

  /** `getFileIcon(fileType)`: one `if` chain on the lower-cased type,
      written here in three parts (documents, media, the rest). */
  function GetFileIcon(fileType: string): (r: Icon) {
    DocumentIcon(ToLower(fileType))
  }

  function DocumentIcon(t: string): (r: Icon) {
    if Contains(t, "pdf") then FaFilePdf
    else if Contains(t, "word") || Contains(t, "doc") then FaFileWord
    else if Contains(t, "excel") || Contains(t, "sheet") || Contains(t, "xls") then FaFileExcel
    else if Contains(t, "powerpoint") || Contains(t, "presentation") || Contains(t, "ppt") then FaFilePowerpoint
    else MediaIcon(t)
  }

  function MediaIcon(t: string): (r: Icon) {
    if Contains(t, "image") || Contains(t, "png") || Contains(t, "jpg") || Contains(t, "jpeg")
      || Contains(t, "gif") || Contains(t, "svg") then FaFileImage
    else if Contains(t, "video") || Contains(t, "mp4") || Contains(t, "avi") || Contains(t, "mov") then FaFileVideo
    else if Contains(t, "audio") || Contains(t, "mp3") || Contains(t, "wav") then FaFileAudio
    else OtherIcon(t)
  }

  function OtherIcon(t: string): (r: Icon) {
    if Contains(t, "zip") || Contains(t, "rar") || Contains(t, "7z") || Contains(t, "tar")
      || Contains(t, "gz") then FaFileArchive
    else if Contains(t, "javascript") || Contains(t, "python") || Contains(t, "java") || Contains(t, "html")
      || Contains(t, "css") || Contains(t, "json") || Contains(t, "xml") then FaFileCode
    else FaFile
  }

  /** The icon categories in the order they are tried. */
  const DocumentIconRules: seq<Rule<Icon>> := [
    Rule(["pdf"], FaFilePdf),
    Rule(["word", "doc"], FaFileWord),
    Rule(["excel", "sheet", "xls"], FaFileExcel),
    Rule(["powerpoint", "presentation", "ppt"], FaFilePowerpoint)
  ]

  const MediaIconRules: seq<Rule<Icon>> := [
    Rule(["image", "png", "jpg", "jpeg", "gif", "svg"], FaFileImage),
    Rule(["video", "mp4", "avi", "mov"], FaFileVideo),
    Rule(["audio", "mp3", "wav"], FaFileAudio)
  ]

  const OtherIconRules: seq<Rule<Icon>> := [
    Rule(["zip", "rar", "7z", "tar", "gz"], FaFileArchive),
    Rule(["javascript", "python", "java", "html", "css", "json", "xml"], FaFileCode)
  ]

  const IconRules: seq<Rule<Icon>> := DocumentIconRules + MediaIconRules + OtherIconRules

  /** The if-chain is the rule table read first-match-wins, with `FaFile`
      when no keyword occurs. */
  lemma GetFileIconIsFirstMatch(fileType: string)
    ensures GetFileIcon(fileType) == FirstMatch(IconRules, ToLower(fileType), FaFile)
  {
    var t := ToLower(fileType);
    OtherIconIsFirstMatch(t);
    MediaIconIsFirstMatch(t);
    DocumentIconIsFirstMatch(t);
    FirstMatchAppend(MediaIconRules, OtherIconRules, t, FaFile);
    FirstMatchAppend(DocumentIconRules, MediaIconRules + OtherIconRules, t, FaFile);
    assert IconRules == DocumentIconRules + (MediaIconRules + OtherIconRules);
  }

  lemma DocumentIconIsFirstMatch(t: string)
    ensures DocumentIcon(t) == FirstMatch(DocumentIconRules, t, MediaIcon(t))
  {
    var r := DocumentIconRules;
    assert AnyOf(t, r[0].keywords) <==> Contains(t, "pdf");
    assert AnyOf(t, r[1].keywords) <==> Contains(t, "word") || Contains(t, "doc");
    assert AnyOf(t, r[2].keywords) <==> Contains(t, "excel") || Contains(t, "sheet") || Contains(t, "xls");
    assert AnyOf(t, r[3].keywords) <==> Contains(t, "powerpoint") || Contains(t, "presentation") || Contains(t, "ppt");
    FirstMatchStep(r, t, MediaIcon(t));
    FirstMatchStep(r[1..], t, MediaIcon(t));
    FirstMatchStep(r[1..][1..], t, MediaIcon(t));
    FirstMatchStep(r[1..][1..][1..], t, MediaIcon(t));
    assert r[1..][1..][1..][1..] == [];
  }

  lemma MediaIconIsFirstMatch(t: string)
    ensures MediaIcon(t) == FirstMatch(MediaIconRules, t, OtherIcon(t))
  {
    var r := MediaIconRules;
    assert AnyOf(t, r[0].keywords) <==>
      (Contains(t, "image") || Contains(t, "png") || Contains(t, "jpg") || Contains(t, "jpeg")
       || Contains(t, "gif") || Contains(t, "svg"));
    assert AnyOf(t, r[1].keywords) <==> Contains(t, "video") || Contains(t, "mp4") || Contains(t, "avi") || Contains(t, "mov");
    assert AnyOf(t, r[2].keywords) <==> Contains(t, "audio") || Contains(t, "mp3") || Contains(t, "wav");
    FirstMatchStep(r, t, OtherIcon(t));
    FirstMatchStep(r[1..], t, OtherIcon(t));
    FirstMatchStep(r[1..][1..], t, OtherIcon(t));
    assert r[1..][1..][1..] == [];
  }

  lemma OtherIconIsFirstMatch(t: string)
    ensures OtherIcon(t) == FirstMatch(OtherIconRules, t, FaFile)
  {
    var r := OtherIconRules;
    assert AnyOf(t, r[0].keywords) <==>
      Contains(t, "zip") || Contains(t, "rar") || Contains(t, "7z") || Contains(t, "tar") || Contains(t, "gz");
    assert AnyOf(t, r[1].keywords) <==>
      (Contains(t, "javascript") || Contains(t, "python") || Contains(t, "java") || Contains(t, "html")
       || Contains(t, "css") || Contains(t, "json") || Contains(t, "xml"));
    FirstMatchStep(r, t, FaFile);
    FirstMatchStep(r[1..], t, FaFile);
    assert r[1..][1..] == [];
  }

  /** Lower-casing first changes nothing. */
  lemma GetFileIconCaseInsensitive(fileType: string)
    ensures GetFileIcon(ToLower(fileType)) == GetFileIcon(fileType)
  {
    ToLowerIdempotent(fileType);
  }

  /** `FaFile` exactly when no icon keyword occurs anywhere in the type. */
  lemma GetFileIconDefaultIff(fileType: string)
    ensures GetFileIcon(fileType) == FaFile
      <==> forall j :: 0 <= j < |IconRules| ==> !AnyOf(ToLower(fileType), IconRules[j].keywords)
  {
    GetFileIconIsFirstMatch(fileType);
    assert forall j :: 0 <= j < |IconRules| ==> IconRules[j].result != FaFile;
    FirstMatchDefaultIff(IconRules, ToLower(fileType), FaFile);
  }

  /** "doc" is tried before "sheet" and "presentation": without "pdf", any
      type containing "doc" is a Word file, which is what the OOXML
      spreadsheet and presentation types
      (application/vnd.openxmlformats-officedocument.spreadsheetml.sheet)
      become. The colour follows the same order. */
  lemma DocWinsOverSheet(fileType: string)
    requires !Contains(ToLower(fileType), "pdf") && Contains(ToLower(fileType), "doc")
    ensures GetFileIcon(fileType) == FaFileWord
    ensures GetFileIconColor(fileType) == WordColor
  {
  }

  // ---------------------------------------------------------------------
  // getFileIconColor
  // ---------------------------------------------------------------------

  const PdfColor: string := "#ff6b6b"
  const WordColor: string := "#4facfe"
  const ExcelColor: string := "#38ef7d"
  const PowerpointColor: string := "#f093fb"
  const ImageColor: string := "#ffd93d"
  const VideoColor: string := "#667eea"
  const AudioColor: string := "#f5576c"
  const ArchiveColor: string := "#b4b9d4"
  const CodeColor: string := "#00f2fe"
  const DefaultColor: string := "#8b9eff"

  /** `getFileIconColor(fileType)`: its own, shorter keyword lists, in the
      same three parts. */
  function GetFileIconColor(fileType: string): (r: string) {
    DocumentColor(ToLower(fileType))
  }

  function DocumentColor(t: string): (r: string) {
    if Contains(t, "pdf") then PdfColor
    else if Contains(t, "word") || Contains(t, "doc") then WordColor
    else if Contains(t, "excel") || Contains(t, "sheet") then ExcelColor
    else if Contains(t, "powerpoint") || Contains(t, "presentation") then PowerpointColor
    else MediaColor(t)
  }

  function MediaColor(t: string): (r: string) {
    if Contains(t, "image") then ImageColor
    else if Contains(t, "video") then VideoColor
    else if Contains(t, "audio") then AudioColor
    else OtherColor(t)
  }

  function OtherColor(t: string): (r: string) {
    if Contains(t, "zip") || Contains(t, "rar") || Contains(t, "archive") then ArchiveColor
    else if Contains(t, "code") || Contains(t, "javascript") || Contains(t, "python") then CodeColor
    else DefaultColor
  }

  const DocumentColorRules: seq<Rule<string>> := [
    Rule(["pdf"], PdfColor),
    Rule(["word", "doc"], WordColor),
    Rule(["excel", "sheet"], ExcelColor),
    Rule(["powerpoint", "presentation"], PowerpointColor)
  ]

  const MediaColorRules: seq<Rule<string>> := [
    Rule(["image"], ImageColor),
    Rule(["video"], VideoColor),
    Rule(["audio"], AudioColor)
  ]

  const OtherColorRules: seq<Rule<string>> := [
    Rule(["zip", "rar", "archive"], ArchiveColor),
    Rule(["code", "javascript", "python"], CodeColor)
  ]

  const ColorRules: seq<Rule<string>> := DocumentColorRules + MediaColorRules + OtherColorRules

  lemma GetFileIconColorIsFirstMatch(fileType: string)
    ensures GetFileIconColor(fileType) == FirstMatch(ColorRules, ToLower(fileType), DefaultColor)
  {
    var t := ToLower(fileType);
    OtherColorIsFirstMatch(t);
    MediaColorIsFirstMatch(t);
    DocumentColorIsFirstMatch(t);
    FirstMatchAppend(MediaColorRules, OtherColorRules, t, DefaultColor);
    FirstMatchAppend(DocumentColorRules, MediaColorRules + OtherColorRules, t, DefaultColor);
    assert ColorRules == DocumentColorRules + (MediaColorRules + OtherColorRules);
  }

  lemma DocumentColorIsFirstMatch(t: string)
    ensures DocumentColor(t) == FirstMatch(DocumentColorRules, t, MediaColor(t))
  {
    var r := DocumentColorRules;
    assert AnyOf(t, r[0].keywords) <==> Contains(t, "pdf");
    assert AnyOf(t, r[1].keywords) <==> Contains(t, "word") || Contains(t, "doc");
    assert AnyOf(t, r[2].keywords) <==> Contains(t, "excel") || Contains(t, "sheet");
    assert AnyOf(t, r[3].keywords) <==> Contains(t, "powerpoint") || Contains(t, "presentation");
    FirstMatchStep(r, t, MediaColor(t));
    FirstMatchStep(r[1..], t, MediaColor(t));
    FirstMatchStep(r[1..][1..], t, MediaColor(t));
    FirstMatchStep(r[1..][1..][1..], t, MediaColor(t));
    assert r[1..][1..][1..][1..] == [];
  }

  lemma MediaColorIsFirstMatch(t: string)
    ensures MediaColor(t) == FirstMatch(MediaColorRules, t, OtherColor(t))
  {
    var r := MediaColorRules;
    assert AnyOf(t, r[0].keywords) <==> Contains(t, "image");
    assert AnyOf(t, r[1].keywords) <==> Contains(t, "video");
    assert AnyOf(t, r[2].keywords) <==> Contains(t, "audio");
    FirstMatchStep(r, t, OtherColor(t));
    FirstMatchStep(r[1..], t, OtherColor(t));
    FirstMatchStep(r[1..][1..], t, OtherColor(t));
    assert r[1..][1..][1..] == [];
  }

  lemma OtherColorIsFirstMatch(t: string)
    ensures OtherColor(t) == FirstMatch(OtherColorRules, t, DefaultColor)
  {
    var r := OtherColorRules;
    assert AnyOf(t, r[0].keywords) <==> Contains(t, "zip") || Contains(t, "rar") || Contains(t, "archive");
    assert AnyOf(t, r[1].keywords) <==> Contains(t, "code") || Contains(t, "javascript") || Contains(t, "python");
    FirstMatchStep(r, t, DefaultColor);
    FirstMatchStep(r[1..], t, DefaultColor);
    assert r[1..][1..] == [];
  }

  /** `DefaultColor` exactly when no colour keyword occurs anywhere in the
      type. */
  lemma GetFileIconColorDefaultIff(fileType: string)
    ensures GetFileIconColor(fileType) == DefaultColor
      <==> forall j :: 0 <= j < |ColorRules| ==> !AnyOf(ToLower(fileType), ColorRules[j].keywords)
  {
    GetFileIconColorIsFirstMatch(fileType);
    assert forall j :: 0 <= j < |ColorRules| ==> ColorRules[j].result != DefaultColor;
    FirstMatchDefaultIff(ColorRules, ToLower(fileType), DefaultColor);
  }

  lemma GetFileIconColorCaseInsensitive(fileType: string)
    ensures GetFileIconColor(ToLower(fileType)) == GetFileIconColor(fileType)
  {
    ToLowerIdempotent(fileType);
  }

  /** The two classifiers agree on PDF and Word files, in both directions. */
  lemma PdfAndWordAgree(fileType: string)
    ensures GetFileIcon(fileType) == FaFilePdf <==> GetFileIconColor(fileType) == PdfColor
    ensures GetFileIcon(fileType) == FaFileWord <==> GetFileIconColor(fileType) == WordColor
  {
  }

  /** A type that matches an image keyword other than "image" (and no earlier
      category) gets the image icon but, unless a later colour keyword
      occurs, the default colour: the colour list for images has only
      "image". */
  lemma ImageIconDefaultColor(fileType: string)
    requires var t := ToLower(fileType);
      (Contains(t, "png") || Contains(t, "jpg") || Contains(t, "gif") || Contains(t, "svg"))
      && (forall j :: 0 <= j < |ColorRules| ==> !AnyOf(t, ColorRules[j].keywords))
      && !Contains(t, "xls") && !Contains(t, "ppt")
    ensures GetFileIcon(fileType) == FaFileImage
    ensures GetFileIconColor(fileType) == DefaultColor
  {
    var t := ToLower(fileType);
    GetFileIconColorDefaultIff(fileType);
    var r := DocumentColorRules;
    forall j | 0 <= j < |r| ensures !AnyOf(t, r[j].keywords) {
      assert r[j] == ColorRules[j];
    }
    assert !AnyOf(t, r[0].keywords) && !AnyOf(t, r[1].keywords);
    assert !AnyOf(t, r[2].keywords) && !AnyOf(t, r[3].keywords);
  }

  // ---------------------------------------------------------------------
  // validateFileSize
  // ---------------------------------------------------------------------

  const DefaultMaxSizeMB: int := 100

  /** `validateFileSize(file, maxSizeMB)`: at most `maxSizeMB` MiB, inclusive. */
  predicate ValidateFileSize(size: int, maxSizeMB: int) {
    size <= maxSizeMB * 1024 * 1024
  }

  /** With the default limit, exactly the files of at most 104857600 bytes
      pass; a larger limit never rejects a file a smaller one accepts. */
  lemma ValidateFileSizeDefault(size: int, small: int, large: int)
    requires small <= large
    ensures ValidateFileSize(size, DefaultMaxSizeMB) <==> size <= 104857600
    ensures ValidateFileSize(size, small) ==> ValidateFileSize(size, large)
  {
  }

  // ---------------------------------------------------------------------
  // generateShareLink
  // ---------------------------------------------------------------------

  const DownloadPath: string := "/download/"

  /** `${baseUrl}/download/${shareId}`; the client passes its own origin, the
      upload handler its configured front-end URL. */
  function GenerateShareLink(baseUrl: string, shareId: string): (r: string)
    ensures StartsWith(r, baseUrl + DownloadPath)
    ensures |r| == |baseUrl| + |DownloadPath| + |shareId|
  {
    baseUrl + DownloadPath + shareId
  }

  /** The share id a link carries, if it is a download link under `baseUrl`. */
  function ShareIdOfLink(baseUrl: string, link: string): (r: Option<string>)
    ensures r.Some? <==> StartsWith(link, baseUrl + DownloadPath)
  {
    var prefix := baseUrl + DownloadPath;
    if StartsWith(link, prefix) then Some(link[|prefix|..]) else None
  }

  /** The link hands back the id it was made from. */
  lemma ShareLinkRoundTrip(baseUrl: string, shareId: string)
    ensures ShareIdOfLink(baseUrl, GenerateShareLink(baseUrl, shareId)) == Some(shareId)
  {
    var link := GenerateShareLink(baseUrl, shareId);
    assert link[|baseUrl + DownloadPath|..] == shareId;
  }

  /** Different ids give different links under the same base. */
  lemma ShareLinkInjective(baseUrl: string, a: string, b: string)
    requires GenerateShareLink(baseUrl, a) == GenerateShareLink(baseUrl, b)
    ensures a == b
  {
    ShareLinkRoundTrip(baseUrl, a);
    ShareLinkRoundTrip(baseUrl, b);
  }
}
