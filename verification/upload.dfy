/** The upload page's handling of a chosen file and the name it gives the
    exported PDF. */
module Upload {
  import opened Base
  import opened Text
  import Sanitizer

  /** A file as the browser hands it over: its name, its MIME type and the
      text the file reader decodes from it. */
  datatype File = File(name: string, mimeType: string, text: string)

  const HtmlMime := "text/html"

  // ----- Which files are accepted -----

  /** The page's `isHtml` test: the name ends, with exactly this case, in
      `.html` or `.htm`, or the browser reports the HTML MIME type. */
  predicate IsHtmlFile(f: File) {
    EndsWith(f.name, ".html") || EndsWith(f.name, ".htm") || f.mimeType == HtmlMime
  }

  /** Where the last `.` of a name is. */
  function LastDot(s: string): (r: Option<nat>)
    ensures r.Some? ==> r.value < |s| && s[r.value] == '.'
    ensures r.Some? ==> forall k :: r.value < k < |s| ==> s[k] != '.'
    ensures r.None? ==> '.' !in s
  {
    if |s| == 0 then None
    else if s[|s| - 1] == '.' then Some(|s| - 1)
    else LastDot(s[..|s| - 1])
  }

  /** The extension of a name: what follows its last `.`, if it has one. */
  function Extension(s: string): Option<string> {
    match LastDot(s)
    case None => None
    case Some(i) => Some(s[i + 1..])
  }

  /** A name ends in `.e`, for `e` without dots, exactly when `e` is its
      extension. */
  lemma EndsWithExtension(s: string, e: string)
    requires '.' !in e
    ensures EndsWith(s, "." + e) <==> Extension(s) == Some(e)
  {
    if EndsWith(s, "." + e) {
      var i := |s| - |e| - 1;
      assert s[i] == ("." + e)[0];
      forall k | i < k < |s|
        ensures s[k] != '.'
      {
        assert s[k] == e[k - i - 1];
      }
      assert LastDot(s) == Some(i);
      assert s[i + 1..] == s[i..][1..] == e;
    }
    if Extension(s) == Some(e) {
      var i := LastDot(s).value;
      assert s[i..] == [s[i]] + s[i + 1..] == "." + e;
      assert |s| - |"." + e| == i;
    }
  }

  /** A file is accepted exactly when its extension is `html` or `htm`,
      compared with case, or its MIME type is the HTML type. */
  lemma AcceptedByExtensionOrType(f: File)
    ensures IsHtmlFile(f) <==>
      Extension(f.name) == Some("html") || Extension(f.name) == Some("htm") || f.mimeType == HtmlMime
  {
    EndsWithExtension(f.name, "html");
    EndsWithExtension(f.name, "htm");
    assert "." + "html" == ".html";
    assert "." + "htm" == ".htm";
  }

  /** An upper-case extension does not count: such a file gets in only on
      its MIME type. */
  lemma UpperCaseNeedsMime(text: string, mimeType: string)
    ensures IsHtmlFile(File("REPORT.HTML", mimeType, text)) <==> mimeType == HtmlMime
  {
    AcceptedByExtensionOrType(File("REPORT.HTML", mimeType, text));
    assert LastDot("REPORT.HTML") == Some(6);
  }

  // ----- What the page remembers -----

  /** The page state that `handleFile` writes: the file name and the
      original and cleaned text, both absent until a file is read. */
  datatype Session = Session(fileName: string, htmlContent: Option<string>, cleanedHtml: Option<string>)

  /** The state before any file is chosen, and after a reset. */
  const Initial := Session("", None, None)

  /** The cleaned text is always `cleanHtml` of the original, and present
      exactly when the original is. */
  predicate Consistent(s: Session) {
    match s.htmlContent
    case None => s.cleanedHtml == None
    case Some(text) => s.cleanedHtml == Some(Sanitizer.CleanHtml(text))
  }

  /** The synchronous half of `handleFile`: an accepted file's name is
      recorded at once; anything else is ignored. */
  function Select(s: Session, f: File): (r: Session)
    ensures !IsHtmlFile(f) ==> r == s
    ensures IsHtmlFile(f) ==> r.fileName == f.name
    ensures r.htmlContent == s.htmlContent && r.cleanedHtml == s.cleanedHtml
  {
    if IsHtmlFile(f) then s.(fileName := f.name) else s
  }

  /** The file reader's `onload`: the text read becomes the content and its
      cleaned form the cleaned content; the name stays as it is. */
  function Loaded(s: Session, text: string): (r: Session)
    ensures r.fileName == s.fileName
    ensures r.htmlContent == Some(text)
    ensures Consistent(r)
  {
    s.(htmlContent := Some(text), cleanedHtml := Some(Sanitizer.CleanHtml(text)))
  }

  /** `handleFile` with the read completing before anything else happens. */
  function HandleFile(s: Session, f: File): (r: Session)
    ensures !IsHtmlFile(f) ==> r == s
    ensures IsHtmlFile(f) ==> r.fileName == f.name && r.htmlContent == Some(f.text)
    ensures Consistent(s) ==> Consistent(r)
  {
    if IsHtmlFile(f) then Loaded(Select(s, f), f.text) else s
  }

  /** Whatever files were handled since the start, the cleaned text in the
      state is `cleanHtml` of the original text in it, and removing the
      injected blocks from it gives the original back. */
  lemma {:induction false} HandledFilesStayConsistent(files: seq<File>)
    ensures Consistent(HandleAll(Initial, files))
    ensures var s := HandleAll(Initial, files);
      s.htmlContent.Some? ==>
        && |s.cleanedHtml.value| == |s.htmlContent.value| +
             Sanitizer.Injected(Sanitizer.PlacementFor(s.htmlContent.value), Sanitizer.OverrideCss, Sanitizer.FitScript)
        && Sanitizer.Strip(s.cleanedHtml.value, Sanitizer.PlacementFor(s.htmlContent.value),
                        Sanitizer.OverrideCss, Sanitizer.FitScript) == s.htmlContent.value
    decreases |files|
  {
    if |files| > 0 {
      HandledFilesStayConsistent(files[..|files| - 1]);
      assert files == files[..|files| - 1] + [files[|files| - 1]];
      HandleAllLast(Initial, files[..|files| - 1], files[|files| - 1]);
    }
    var s := HandleAll(Initial, files);
    if s.htmlContent.Some? {
      Sanitizer.CleanHtmlRecoversRaw(s.htmlContent.value);
    }
  }

  /** Handling files one after another, each read completing in turn. */
  function HandleAll(s: Session, files: seq<File>): Session
    decreases |files|
  {
    if |files| == 0 then s else HandleAll(HandleFile(s, files[0]), files[1..])
  }

  lemma {:induction false} HandleAllLast(s: Session, files: seq<File>, f: File)
    ensures HandleAll(s, files + [f]) == HandleFile(HandleAll(s, files), f)
    decreases |files|
  {
    if |files| > 0 {
      assert (files + [f])[1..] == files[1..] + [f];
      HandleAllLast(HandleFile(s, files[0]), files[1..], f);
    }
  }

  /** Handling the same file twice is handling it once. */
  lemma HandleFileIdempotent(s: Session, f: File)
    ensures HandleFile(HandleFile(s, f), f) == HandleFile(s, f)
  {
  }

  /** The name is recorded when the file is chosen and the text when its
      read completes, so two reads completing in the opposite order leave
      the second file's name beside the first file's text. */
  lemma CrossedReadsMismatch(s: Session, f1: File, f2: File)
    requires IsHtmlFile(f1) && IsHtmlFile(f2)
    ensures var r := Loaded(Loaded(Select(Select(s, f1), f2), f2.text), f1.text);
      r.fileName == f2.name && r.htmlContent == Some(f1.text) && Consistent(r)
  {
  }

  // ----- The name of the exported PDF -----

  /** The name used when stripping the extension leaves nothing. */
  const DefaultBase := "belge"

  /** Whether the pattern `\.(html|htm)$`, ignoring case, matches at `i`:
      the rest of the text from `i` is one of the two extensions. */
  predicate MatchesAt(s: string, i: nat)
    requires i <= |s|
  {
    EqualIgnoringCase(s[i..], ".html") || EqualIgnoringCase(s[i..], ".htm")
  }

  /** The leftmost position at or after `i` where the pattern matches, found
      as a regular expression engine does, one start position at a time. */
  function MatchFrom(s: string, i: nat): (r: Option<nat>)
    requires i <= |s|
    ensures r.Some? ==> i <= r.value <= |s| && MatchesAt(s, r.value)
    ensures r.Some? ==> forall k :: i <= k < r.value ==> !MatchesAt(s, k)
    ensures r.None? ==> forall k :: i <= k <= |s| ==> !MatchesAt(s, k)
    decreases |s| - i
  {
    if MatchesAt(s, i) then Some(i)
    else if i == |s| then None
    else MatchFrom(s, i + 1)
  }

  /** `String.replace` with the pattern and an empty replacement: the first
      match, if any, is cut out. */
  function StripByPattern(s: string): (r: string)
    ensures |r| <= |s|
  {
    match MatchFrom(s, 0)
    case None => s
    case Some(i) => s[..i]
  }

  /** The same, said directly: one trailing `.html` or `.htm`, in any case,
      is dropped. */
  function StripExtension(s: string): (r: string)
    ensures |r| <= |s| && r == s[..|r|]
    ensures |s| - |r| in {0, 4, 5}
  {
    if EndsWithIgnoringCase(s, ".html") then s[..|s| - 5]
    else if EndsWithIgnoringCase(s, ".htm") then s[..|s| - 4]
    else s
  }

  /** The pattern can only match where one of the extensions ends the text. */
  lemma MatchesOnlyAtEnd(s: string, i: nat)
    requires i <= |s|
    ensures MatchesAt(s, i) <==>
      (i + 5 == |s| && EndsWithIgnoringCase(s, ".html")) || (i + 4 == |s| && EndsWithIgnoringCase(s, ".htm"))
  {
  }

  /** Both extensions never end the same text: the character before `htm`
      would have to be both `.` and a letter. */
  lemma ExtensionsExclusive(s: string)
    ensures !(EndsWithIgnoringCase(s, ".html") && EndsWithIgnoringCase(s, ".htm"))
  {
    if |s| >= 5 && EndsWithIgnoringCase(s, ".htm") {
      assert LowerAscii(s[|s| - 4]) == LowerAscii(".htm"[0]);
      assert LowerAscii(s[|s| - 4]) != LowerAscii(".html"[1]);
    }
  }

  /** The leftmost-match search removes exactly the trailing extension. */
  lemma PatternStripsExtension(s: string)
    ensures StripByPattern(s) == StripExtension(s)
  {
    ExtensionsExclusive(s);
    match MatchFrom(s, 0)
    case None =>
      if EndsWithIgnoringCase(s, ".html") {
        MatchesOnlyAtEnd(s, |s| - 5);
      } else if EndsWithIgnoringCase(s, ".htm") {
        MatchesOnlyAtEnd(s, |s| - 4);
      }
    case Some(i) =>
      MatchesOnlyAtEnd(s, i);
  }

  /** The name `pdf.save` is given: the file name without its extension, or
      the default when that leaves nothing, followed by `.pdf`. */
  function PdfName(fileName: string): (r: string)
    ensures EndsWith(r, ".pdf")
    ensures |r| > 4
  {
    var stripped := StripByPattern(fileName);
    var base := if stripped == "" then DefaultBase else stripped;
    base + ".pdf"
  }

  /** The base of the PDF name is never empty, and it is the file name with
      one trailing extension removed unless that would leave nothing. */
  lemma PdfNameBase(fileName: string)
    ensures var r := PdfName(fileName); var base := StripExtension(fileName);
      && r[..|r| - 4] != ""
      && r[..|r| - 4] == (if base == "" then DefaultBase else base)
  {
    PatternStripsExtension(fileName);
  }

  /** A name that does not end in either extension keeps all of itself. */
  lemma PdfNameKeepsOtherNames(fileName: string)
    requires fileName != ""
    requires !EndsWithIgnoringCase(fileName, ".html") && !EndsWithIgnoringCase(fileName, ".htm")
    ensures PdfName(fileName) == fileName + ".pdf"
  {
    PatternStripsExtension(fileName);
  }

  /** Exactly one extension comes off, whatever the case of its letters and
      whatever the rest of the name ends in. */
  lemma PdfNameStripsOne(base: string, ext: string)
    requires base != ""
    requires EqualIgnoringCase(ext, ".html") || EqualIgnoringCase(ext, ".htm")
    ensures PdfName(base + ext) == base + ".pdf"
  {
    var s := base + ext;
    PatternStripsExtension(s);
    assert s[|s| - |ext|..] == ext;
    assert s[..|s| - |ext|] == base;
    ExtensionsExclusive(s);
  }

  /** A name that is only an extension, or no name at all, gives the
      default. */
  lemma PdfNameDefault(ext: string)
    requires ext == "" || EqualIgnoringCase(ext, ".html") || EqualIgnoringCase(ext, ".htm")
    ensures PdfName(ext) == DefaultBase + ".pdf"
  {
    PatternStripsExtension(ext);
    ExtensionsExclusive(ext);
    assert ext[|ext| - |ext|..] == ext;
  }
}
