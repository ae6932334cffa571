/** The upload endpoint of the books API: the uploaded text is normalised
    to one line of trimmed, non-blank lines joined by spaces, and the
    request is checked in a fixed order before a book record is built. */
module BooksController {
  import opened Base
  import opened Text
  import opened Entities

  predicate IsLineBreak(c: char) {
    c == '\r' || c == '\n'
  }

  // ---------------------------------------------------------------------
  // Text normalisation

  /** .NET `s.Split(new[] { '\r', '\n' })`: the pieces between line-break
      characters, empty pieces kept. */
  function SplitLines(s: string): (r: seq<string>)
    ensures |r| >= 1
  {
    if s == [] then [[]]
    else
      var rest := SplitLines(s[1..]);
      if IsLineBreak(s[0]) then [[]] + rest else [[s[0]] + rest[0]] + rest[1..]
  }

  /** The pieces hold no line break, and every other character of `s`
      lands in some piece. */
  lemma {:induction false} SplitLinesPieces(s: string)
    ensures forall i :: 0 <= i < |SplitLines(s)| ==> forall c :: c in SplitLines(s)[i] ==> !IsLineBreak(c)
    ensures forall c :: c in s && !IsLineBreak(c) ==> exists i :: 0 <= i < |SplitLines(s)| && c in SplitLines(s)[i]
  {
    if s != [] {
      SplitLinesPieces(s[1..]);
      var rest := SplitLines(s[1..]);
      var r := SplitLines(s);
      if IsLineBreak(s[0]) {
        assert forall i :: 1 <= i < |r| ==> r[i] == rest[i - 1];
        forall c | c in s && !IsLineBreak(c)
          ensures exists i :: 0 <= i < |r| && c in r[i]
        {
          assert c in s[1..];
          var i :| 0 <= i < |rest| && c in rest[i];
          assert c in r[i + 1];
        }
      } else {
        assert forall i :: 1 <= i < |r| ==> r[i] == rest[i];
        assert r[0] == [s[0]] + rest[0];
        forall c | c in s && !IsLineBreak(c)
          ensures exists i :: 0 <= i < |r| && c in r[i]
        {
          if c == s[0] {
            assert c in r[0];
          } else {
            assert c in s[1..];
            var i :| 0 <= i < |rest| && c in rest[i];
            assert c in r[i];
          }
        }
      }
    }
  }

  /** A string without line breaks is one piece. */
  lemma {:induction false} SplitLinesNone(s: string)
    requires forall c :: c in s ==> !IsLineBreak(c)
    ensures SplitLines(s) == [s]
  {
    if s != [] {
      assert s == [s[0]] + s[1..];
      SplitLinesNone(s[1..]);
    }
  }

  /** `StringSplitOptions.RemoveEmptyEntries`: the non-empty pieces, in
      order. */
  function RemoveEmpty(ws: seq<string>): (r: seq<string>)
    ensures forall w :: w in r ==> w in ws && w != []
  {
    if ws == [] then []
    else if ws[0] != [] then [ws[0]] + RemoveEmpty(ws[1..])
    else RemoveEmpty(ws[1..])
  }

  lemma {:induction false} RemoveEmptyComplete(ws: seq<string>, w: string)
    requires w in ws && w != []
    ensures w in RemoveEmpty(ws)
  {
    if ws[0] != w {
      assert w in ws[1..];
      RemoveEmptyComplete(ws[1..], w);
    }
  }

  /** `.Select(line => line.Trim())`. */
  function TrimEach(ws: seq<string>): (r: seq<string>)
    ensures |r| == |ws| && forall i :: 0 <= i < |ws| ==> r[i] == Trim(ws[i])
  {
    seq(|ws|, i requires 0 <= i < |ws| => Trim(ws[i]))
  }

  /** The lines `CleanTextContent` keeps: split at line breaks, empty
      pieces dropped, each trimmed, blank ones dropped. */
  function CleanLines(content: string): (r: seq<string>)
    ensures forall w :: w in r ==> !IsBlank(w)
  {
    KeepNonBlank(TrimEach(RemoveEmpty(SplitLines(content))))
  }

  /** `CleanTextContent`: the empty string for blank input; otherwise the
      kept lines joined by single spaces. */
  function CleanTextContent(content: string): (r: string)
    ensures IsBlank(content) ==> r == []
  {
    if IsBlank(content) then [] else Join(CleanLines(content), " ")
  }

  /** Every kept line is non-empty, holds no line break, and starts and ends
      with a non-white character. */
  lemma CleanLinesShape(content: string)
    ensures forall w :: w in CleanLines(content) ==>
      && w != [] && !IsWhite(w[0]) && !IsWhite(w[|w| - 1])
      && forall c :: c in w ==> !IsLineBreak(c)
  {
    var pieces := SplitLines(content);
    var nonEmpty := RemoveEmpty(pieces);
    var trimmed := TrimEach(nonEmpty);
    SplitLinesPieces(content);
    forall w | w in CleanLines(content)
      ensures w != [] && !IsWhite(w[0]) && !IsWhite(w[|w| - 1])
      ensures forall c :: c in w ==> !IsLineBreak(c)
    {
      assert w in trimmed && !IsBlank(w);
      var i :| 0 <= i < |trimmed| && trimmed[i] == w;
      var p := nonEmpty[i];
      TrimProperties(p);
      assert p in pieces;
      var k :| 0 <= k < |pieces| && pieces[k] == p;
    }
  }

  /** The cleaned text holds no line break. */
  lemma CleanHasNoLineBreaks(content: string)
    ensures forall c :: c in CleanTextContent(content) ==> !IsLineBreak(c)
  {
    if !IsBlank(content) {
      var ws := CleanLines(content);
      CleanLinesShape(content);
      forall c | c in CleanTextContent(content) ensures !IsLineBreak(c) {
        JoinChars(ws, " ", c);
        if c !in " " {
          var i :| 0 <= i < |ws| && c in ws[i];
          assert ws[i] in ws;
        }
      }
    }
  }

  /** The cleaned text neither starts nor ends with white space. */
  lemma CleanIsTrimmed(content: string)
    ensures var r := CleanTextContent(content);
            r == [] || (!IsWhite(r[0]) && !IsWhite(r[|r| - 1]))
  {
    var ws := CleanLines(content);
    if !IsBlank(content) && ws != [] {
      CleanLinesShape(content);
      assert ws[0] in ws && ws[|ws| - 1] in ws;
      JoinEnds(ws, " ");
    }
  }

  /** The cleaned text is empty exactly when the input is blank. */
  lemma CleanEmptyIffBlank(content: string)
    ensures CleanTextContent(content) == [] <==> IsBlank(content)
  {
    if !IsBlank(content) {
      var k :| 0 <= k < |content| && !IsWhite(content[k]);
      var c := content[k];
      assert c in content && !IsLineBreak(c);
      var pieces := SplitLines(content);
      SplitLinesPieces(content);
      var i :| 0 <= i < |pieces| && c in pieces[i];
      var p := pieces[i];
      RemoveEmptyComplete(pieces, p);
      var nonEmpty := RemoveEmpty(pieces);
      var j :| 0 <= j < |nonEmpty| && nonEmpty[j] == p;
      var trimmed := TrimEach(nonEmpty);
      TrimProperties(p);
      var t := trimmed[j];
      assert t != [] && !IsWhite(t[0]);
      assert !IsBlank(t);
      KeepNonBlankComplete(trimmed, t);
      var ws := CleanLines(content);
      CleanLinesShape(content);
      JoinEnds(ws, " ");
    }
  }

  /** Cleaning cleaned text changes nothing. */
  lemma CleanIdempotent(content: string)
    ensures CleanTextContent(CleanTextContent(content)) == CleanTextContent(content)
  {
    var r := CleanTextContent(content);
    if r != [] {
      CleanHasNoLineBreaks(content);
      CleanIsTrimmed(content);
      assert !IsBlank(r);
      SplitLinesNone(r);
      assert RemoveEmpty([r]) == [r];
      TrimOfTrimmed(r);
      assert TrimEach([r]) == [r];
      assert KeepNonBlank([r]) == [r];
    }
  }

  // ---------------------------------------------------------------------
  // Upload

  /** The uploaded file, as the form delivers it: its name, its length in
      bytes and the text a UTF-8 reader gets from it. */
  datatype UploadedFile = UploadedFile(fileName: string, length: nat, text: string)

  /** `FileUploadRequest`. */
  datatype UploadRequest = UploadRequest(
    file: Option<UploadedFile>,
    title: Option<string>,
    author: Option<string>,
    description: Option<string>,
    isPublic: bool,
    userId: int)

  /** A `400 Bad Request` answer with its message. */
  datatype UploadError = BadRequest(message: string)

  const NoFileUploaded := "No file uploaded"
  const WrongFileType := "Only .txt, .doc, and .docx files are allowed"
  const FileTooLarge := "File size cannot exceed 5MB"
  const EmptyContent := "File content is empty or invalid"

  /** The largest accepted upload: 5 MiB. */
  const MaxUploadBytes := 5 * 1024 * 1024

  const AllowedExtensions: seq<string> := [".txt", ".doc", ".docx"]

  /** Index of the last occurrence of `c` in `s`, or -1. */
  function LastIndexOf(s: string, c: char): (r: int)
    ensures -1 <= r < |s|
    ensures r >= 0 ==> s[r] == c
    ensures forall k :: r < k < |s| ==> s[k] != c
  {
    if s == [] then -1
    else if s[|s| - 1] == c then |s| - 1
    else LastIndexOf(s[..|s| - 1], c)
  }

  /** `Path.GetFileName`: what follows the last directory separator. */
  function FileName(path: string): (r: string)
    ensures '/' !in r
  {
    var k := LastIndexOf(path, '/');
    path[k + 1..]
  }

  /** `Path.GetExtension`: from the last dot of the file name on; empty
      when the name has no dot or ends with it. */
  function Extension(path: string): (r: string)
    ensures r == [] || (r[0] == '.' && '.' !in r[1..] && |r| >= 2)
  {
    var name := FileName(path);
    var k := LastIndexOf(name, '.');
    if k < 0 || k == |name| - 1 then [] else name[k..]
  }

  /** `Path.GetFileNameWithoutExtension`: the file name up to its last
      dot. */
  function FileNameWithoutExtension(path: string): (r: string)
    ensures '/' !in r
  {
    var name := FileName(path);
    var k := LastIndexOf(name, '.');
    if k < 0 then name else name[..k]
  }

  /** The file name is the end of the path after its last '/', or the whole
      path when it has none. */
  lemma FileNameOfPath(path: string)
    ensures var name := FileName(path);
      && |name| <= |path| && name == path[|path| - |name|..]
      && (|name| < |path| ==> path[|path| - |name| - 1] == '/')
  {
  }

  /** The extension is empty exactly when the file name has no dot or ends
      with one; otherwise it is the end of the file name from its last dot. */
  lemma ExtensionOfPath(path: string)
    ensures var name := FileName(path); var e := Extension(path);
      && (e == [] <==> '.' !in name || name[|name| - 1] == '.')
      && (e != [] ==> |e| <= |name| && e == name[|name| - |e|..])
  {
    var name := FileName(path);
    var k := LastIndexOf(name, '.');
    if k < 0 {
      assert '.' !in name;
    }
  }

  /** The name without extension is the file name when it has no dot, and
      otherwise the part of the file name before its last dot. */
  lemma FileNameWithoutExtensionOfPath(path: string)
    ensures var name := FileName(path); var stem := FileNameWithoutExtension(path);
      && |stem| <= |name| && stem == name[..|stem|]
      && ('.' !in name ==> stem == name)
      && ('.' in name ==> |stem| < |name| && name[|stem|] == '.' && '.' !in name[|stem| + 1..])
  {
    var name := FileName(path);
    var k := LastIndexOf(name, '.');
    if k < 0 {
      assert '.' !in name;
    }
  }

  /** A file name is its name without extension followed by its extension,
      except that a trailing dot belongs to neither. */
  lemma {:induction false} NameSplitsAtExtension(path: string)
    ensures var name := FileName(path);
      FileNameWithoutExtension(path) + Extension(path) == name
      || (name != [] && name[|name| - 1] == '.' && FileNameWithoutExtension(path) + "." == name)
  {
    var name := FileName(path);
    var k := LastIndexOf(name, '.');
    if k >= 0 {
      assert name[..k] + name[k..] == name;
    }
  }

  /** `UploadFile`, up to handing the book to the book service: the checks
      run in order (a file of some length, an allowed extension in any case,
      at most 5 MiB, some text left after cleaning), and the book gets the
      cleaned text, a personal best of 0, the time `now`, and defaults for
      a missing title (the file name without extension) and author
      ("Unknown"). The id is left 0 for the database to assign. */
  function UploadFile(request: UploadRequest, now: int): (r: Result<Book, UploadError>)
    ensures request.file.None? || request.file.value.length == 0 <==> r == Failure(BadRequest(NoFileUploaded))
    ensures r == Failure(BadRequest(WrongFileType)) <==>
      request.file.Some? && request.file.value.length != 0
      && Lower(Extension(request.file.value.fileName)) !in AllowedExtensions
    ensures r == Failure(BadRequest(FileTooLarge)) <==>
      request.file.Some? && request.file.value.length != 0
      && Lower(Extension(request.file.value.fileName)) in AllowedExtensions
      && request.file.value.length > MaxUploadBytes
    ensures r.Success? <==>
      && request.file.Some? && 0 < request.file.value.length <= MaxUploadBytes
      && Lower(Extension(request.file.value.fileName)) in AllowedExtensions
      && !IsBlank(request.file.value.text)
    ensures r.Success? ==>
      var f := request.file.value;
      && request.file.Some? && 0 < f.length <= MaxUploadBytes
      && Lower(Extension(f.fileName)) in AllowedExtensions
      && r.value.content == CleanTextContent(f.text) && !IsBlank(r.value.content)
      && (forall c :: c in r.value.content ==> !IsLineBreak(c))
      && !IsWhite(r.value.content[0]) && !IsWhite(r.value.content[|r.value.content| - 1])
      && r.value.personalBest == 0 && r.value.addedAt == now
      && r.value.title == request.title.GetOr(FileNameWithoutExtension(f.fileName))
      && r.value.author == Some(request.author.GetOr("Unknown"))
      && r.value.description == request.description
      && r.value.isPublic == request.isPublic && r.value.userId == Some(request.userId)
  {
    if request.file.None? || request.file.value.length == 0 then Failure(BadRequest(NoFileUploaded))
    else
      var file := request.file.value;
      var fileExtension := Lower(Extension(file.fileName));
      if fileExtension !in AllowedExtensions then Failure(BadRequest(WrongFileType))
      else if file.length > MaxUploadBytes then Failure(BadRequest(FileTooLarge))
      else
        var content := CleanTextContent(file.text);
        CleanHasNoLineBreaks(file.text);
        CleanIsTrimmed(file.text);
        CleanEmptyIffBlank(file.text);
        if IsBlank(content) then Failure(BadRequest(EmptyContent))
        else
          Success(Book(
            id := 0,
            title := request.title.GetOr(FileNameWithoutExtension(file.fileName)),
            author := Some(request.author.GetOr("Unknown")),
            description := request.description,
            personalBest := 0,
            content := content,
            isPublic := request.isPublic,
            addedAt := now,
            userId := Some(request.userId)))
  }

  /** An upload is refused for empty content exactly when the file passes
      the earlier checks and holds only white space. */
  lemma UploadEmptyContent(request: UploadRequest, now: int)
    ensures UploadFile(request, now) == Failure(BadRequest(EmptyContent)) <==>
      && request.file.Some? && 0 < request.file.value.length <= MaxUploadBytes
      && Lower(Extension(request.file.value.fileName)) in AllowedExtensions
      && IsBlank(request.file.value.text)
  {
    if request.file.Some? {
      var text := request.file.value.text;
      CleanEmptyIffBlank(text);
      CleanIsTrimmed(text);
      assert IsBlank(CleanTextContent(text)) <==> IsBlank(text);
    }
  }
}
