/**
 * What the photo screen (`VER_FOTO`) derives from the row under the cursor:
 * the folder and file name that make the photo's public address, the list
 * of people in the photo, and whether the file is shown as an image, as a
 * video or not at all.
 */
module PhotoView {
  import opened Wrappers
  import opened Strings
  import opened Tables
  import opened Unifier
  import opened Filtering

  // ------------------------------------------------------------- address

  /** `s.split('/')[-1]`: what follows the last '/', or all of `s`. */
  function LastSegment(s: string): (r: string)
    ensures '/' !in r
    ensures |r| <= |s| && r == s[|s| - |r|..]
    ensures |r| < |s| ==> s[|s| - |r| - 1] == '/'
  {
    if s == [] then []
    else if s[|s| - 1] == '/' then []
    else LastSegment(s[..|s| - 1]) + [s[|s| - 1]]
  }

  /** The last segment of a path ending in "/" + a folder without '/' is
      that folder. */
  lemma {:induction false} LastSegmentOfJoin(prefix: string, folder: string)
    requires '/' !in folder
    ensures LastSegment(prefix + "/" + folder) == folder
  {
    var s := prefix + "/" + folder;
    if folder == [] {
      assert s[|s| - 1] == '/';
    } else {
      var init := folder[..|folder| - 1];
      LastSegmentOfJoin(prefix, init);
      assert s[..|s| - 1] == prefix + "/" + init;
      assert folder == init + [folder[|folder| - 1]];
    }
  }

  /** The folder path the unifier attaches gives the folder name back. */
  lemma FolderPathRoundTrip(folder: string)
    requires '/' !in folder
    ensures LastSegment(FolderPath(folder)) == folder
  {
    assert TrimStartChar(folder, '/') == folder;
    LastSegmentOfJoin(TrimEndChar(BasePath, '/'), folder);
  }

  /** No configured photo folder holds a '/'. */
  lemma ConfiguredFoldersAreSegments()
    ensures forall key :: key in IndividualQueries ==> '/' !in IndividualQueries[key].photoFolder
  {
  }

  /** `nombre_archivo`: the row's `NOMBRE_FOTO`, stripped. */
  function FileName(r: Row): string {
    Strip(AsStr(Get(r, PhotoNameColumn)))
  }

  /** `ruta_carpeta`: an individual query's own folder; for any other choice
      the last segment of the row's `_FOLDER_PATH`. */
  function PhotoFolder(choice: string, r: Row): string {
    if choice in IndividualQueries then IndividualQueries[choice].photoFolder
    else LastSegment(AsStr(Get(r, FolderColumn)))
  }

  const PublicHost := "https://storage.googleapis.com/"

  /** In `base/folder/fileName` the last segment is the file name, and the
      last segment before it is the folder. */
  lemma JoinSegments(base: string, folder: string, fileName: string)
    ensures var url := base + "/" + folder + "/" + fileName;
      && ('/' !in fileName ==> LastSegment(url) == fileName)
      && url[..|url| - |fileName| - 1] == base + "/" + folder
      && ('/' !in folder ==> LastSegment(url[..|url| - |fileName| - 1]) == folder)
  {
    var dir := base + "/" + folder;
    var url := dir + "/" + fileName;
    assert url[..|url| - |fileName| - 1] == dir;
    if '/' !in fileName {
      LastSegmentOfJoin(dir, fileName);
    }
    if '/' !in folder {
      LastSegmentOfJoin(base, folder);
    }
  }

  /** The public address of a file of the bucket: it lies under the bucket,
      and its last two segments give the folder and the file back. */
  function PublicUrl(folder: string, fileName: string): (url: string)
    ensures |url| > |PublicHost + BucketName| + |fileName| + 1
    ensures url[..|PublicHost + BucketName| + 1] == PublicHost + BucketName + "/"
    ensures '/' !in fileName ==> LastSegment(url) == fileName
    ensures '/' !in folder ==> LastSegment(url[..|url| - |fileName| - 1]) == folder
  {
    JoinSegments(PublicHost + BucketName, folder, fileName);
    PublicHost + BucketName + "/" + folder + "/" + fileName
  }

  /** `public_url` of the row under the cursor. */
  function PhotoUrl(choice: string, r: Row): string {
    PublicUrl(PhotoFolder(choice, r), FileName(r))
  }

  /** A row tagged with the folder path of a folder without '/' is fetched,
      in a view that is not an individual query, from that folder under the
      file name the unifier trimmed. */
  lemma TaggedRowUrl(choice: string, r: Row, folder: string, rank: int)
    requires choice !in IndividualQueries
    requires '/' !in folder
    ensures PhotoUrl(choice, TagRow(r, FolderPath(folder), rank).row) == PublicUrl(folder, PhotoName(r))
  {
    TaggedRowFolder(choice, r, folder, rank);
    TaggedRowFileName(r, FolderPath(folder), rank);
  }

  lemma TaggedRowFolder(choice: string, r: Row, folder: string, rank: int)
    requires choice !in IndividualQueries
    requires '/' !in folder
    ensures PhotoFolder(choice, TagRow(r, FolderPath(folder), rank).row) == folder
  {
    TagRowColumns(r, FolderPath(folder), rank);
    FolderPathRoundTrip(folder);
  }

  lemma TaggedRowFileName(r: Row, folderPath: string, rank: int)
    ensures FileName(TagRow(r, folderPath, rank).row) == PhotoName(r)
  {
    TagRowColumns(r, folderPath, rank);
    StripIdempotent(AsStr(Get(r, "NOMBRE")));
  }

  /** In a global view, a unified row is fetched from its own source's folder
      under the file name the unifier trimmed. */
  lemma GlobalPhotoUrl(choice: string, order: seq<string>, key: string, cache: map<string, Table>, t: Tagged)
    requires choice !in IndividualQueries
    requires key in order && TaggedFrom(t, order, key, IndividualQueries, cache)
    ensures PhotoUrl(choice, t.row) == PublicUrl(IndividualQueries[key].photoFolder, t.name)
  {
    var folder := IndividualQueries[key].photoFolder;
    var r :| r in CachedTable(key, IndividualQueries, cache).value.rows
      && t == TagRow(r, FolderPath(folder), OrderIndex(order, key));
    ConfiguredFoldersAreSegments();
    TaggedRowUrl(choice, r, folder, OrderIndex(order, key));
  }

  /** In an individual view, row `i` is fetched from the query's folder under
      the trimmed `NOMBRE` of source row `i`: the address a global view gives
      the same source row (`TaggedRowUrl`). */
  lemma IndividualPhotoUrl(choice: string, t: Table, i: int)
    requires choice in IndividualQueries
    requires IndividualBase(IndividualQueries[choice], t).Some?
    requires 0 <= i < |t.rows|
    ensures PhotoUrl(choice, IndividualBase(IndividualQueries[choice], t).value.rows[i])
      == PublicUrl(IndividualQueries[choice].photoFolder, PhotoName(t.rows[i]))
  {
    IndividualBaseTags(IndividualQueries[choice], t);
    StripIdempotent(AsStr(Get(t.rows[i], "NOMBRE")));
  }

  // ------------------------------------------------------------ people

  /** The name a column contributes to `personajes`: a column whose name
      holds "PERSONAJE", with a non-blank text, stripped. */
  function CharacterValue(r: Row, c: string): Option<string> {
    if IsCharacterColumn(c) && Get(r, c).Text? && Strip(Get(r, c).text) != "" then
      Some(Strip(Get(r, c).text))
    else None
  }

  /** `personajes`, column by column in table order. */
  function CharacterNames(columns: seq<string>, r: Row): (names: seq<string>)
    ensures |names| <= |columns|
  {
    if columns == [] then []
    else
      var init := CharacterNames(columns[..|columns| - 1], r);
      match CharacterValue(r, columns[|columns| - 1])
      case Some(n) => init + [n]
      case None => init
  }

  /** The loop that fills `personajes`. */
  method CollectCharacters(columns: seq<string>, r: Row) returns (names: seq<string>)
    ensures names == CharacterNames(columns, r)
  {
    names := [];
    for j := 0 to |columns|
      invariant names == CharacterNames(columns[..j], r)
    {
      var c := columns[j];
      if IsCharacterColumn(c) {
        var value := Get(r, c);
        if value.Text? && Strip(value.text) != "" {
          names := names + [Strip(value.text)];
        }
      }
      assert columns[..j + 1][..j] == columns[..j];
    }
    assert columns[..|columns|] == columns;
  }

  /** A name is listed exactly when some column contributes it. */
  lemma {:induction false} CharacterNamesMembers(columns: seq<string>, r: Row, n: string)
    ensures n in CharacterNames(columns, r) <==> exists c :: c in columns && CharacterValue(r, c) == Some(n)
  {
    if columns != [] {
      var init := columns[..|columns| - 1];
      var last := columns[|columns| - 1];
      var earlier := CharacterNames(init, r);
      var v := CharacterValue(r, last);
      CharacterNamesMembers(init, r, n);
      assert columns == init + [last];
      assert n in CharacterNames(columns, r) <==> n in earlier || v == Some(n);
      if n in earlier {
        var c :| c in init && CharacterValue(r, c) == Some(n);
        assert c in columns;
      } else if v == Some(n) {
        assert last in columns;
      } else {
        forall c | c in columns ensures CharacterValue(r, c) != Some(n) {
          if c != last {
            assert c in init;
          }
        }
      }
    }
  }

  /** Every listed name is non-blank and already stripped. */
  lemma CharacterNamesAreClean(columns: seq<string>, r: Row)
    ensures forall n :: n in CharacterNames(columns, r) ==> n != "" && Strip(n) == n
  {
    forall n | n in CharacterNames(columns, r) ensures n != "" && Strip(n) == n {
      CharacterNamesMembers(columns, r, n);
      var c :| c in columns && CharacterValue(r, c) == Some(n);
      StripIdempotent(Get(r, c).text);
    }
  }

  // -------------------------------------------------------- file kind

  /** The position of the last `c` in `s`, -1 when there is none. */
  function LastIndex(s: string, c: char): (i: int)
    ensures -1 <= i < |s|
    ensures i >= 0 ==> s[i] == c
    ensures forall k :: i < k < |s| ==> s[k] != c
  {
    if s == [] then -1
    else if s[|s| - 1] == c then |s| - 1
    else LastIndex(s[..|s| - 1], c)
  }

  /** `os.path.splitext(name)[1]` with '/' as separator: from the last '.'
      after the last '/', provided the base name has a character other than
      '.' before it; "" otherwise. */
  function Extension(name: string): (ext: string)
    ensures ext == [] || (ext[0] == '.' && |ext| <= |name| && ext == name[|name| - |ext|..])
    ensures ext != [] ==> '.' !in ext[1..] && '/' !in ext
  {
    var sep := LastIndex(name, '/');
    var dot := LastIndex(name, '.');
    if dot > sep && exists k :: sep < k < dot && name[k] != '.' then name[dot..] else ""
  }

  /** A stem that is not only dots, a '.', and a suffix without '.' or '/':
      the extension is the '.' and the suffix. */
  lemma ExtensionOfStem(stem: string, e: string)
    requires '/' !in stem && exists k :: 0 <= k < |stem| && stem[k] != '.'
    requires '.' !in e && '/' !in e
    ensures Extension(stem + "." + e) == "." + e
  {
    var s := stem + "." + e;
    assert s[|stem|] == '.';
    assert LastIndex(s, '.') == |stem|;
    assert LastIndex(s, '/') == -1;
    var k :| 0 <= k < |stem| && stem[k] != '.';
    assert s[k] != '.';
    assert s[|stem|..] == "." + e;
  }

  /** A name without '.' has no extension. */
  lemma NoDotNoExtension(name: string)
    requires '.' !in name
    ensures Extension(name) == ""
  {
  }

  /** A hidden file such as ".jpg" has no extension. */
  lemma HiddenFileNoExtension(e: string)
    requires '.' !in e && '/' !in e
    ensures Extension("." + e) == ""
  {
    var s := "." + e;
    forall k | 0 < k < |s| ensures s[k] != '.' {
      assert s[k] == e[k - 1] && e[k - 1] in e;
    }
    assert s[0] == '.';
    assert LastIndex(s, '.') == 0;
  }

  /** How the photo screen shows a file. */
  datatype Media = Image | Video | Unsupported(ext: string)

  const ImageExtensions: seq<string> := [".jpg", ".jpeg", ".png", ".gif", ".bmp", ".tiff"]
  const VideoExtensions: seq<string> := [".mp4", ".avi", ".mov", ".mkv"]

  /** The lower-cased extension decides: an image, a video, or an error that
      names the extension. */
  function Classify(fileName: string): (m: Media)
    ensures m.Unsupported? ==> m.ext == Fold(Extension(fileName))
  {
    var ext := Fold(Extension(fileName));
    if ext in ImageExtensions then Image
    else if ext in VideoExtensions then Video
    else Unsupported(ext)
  }

  lemma FoldCharKeepsPunctuation(x: char, c: char)
    requires c == '.' || c == '/'
    ensures FoldChar(x) == c <==> x == c
  {
  }

  lemma FoldKeepsLastIndex(s: string, c: char)
    requires c == '.' || c == '/'
    ensures LastIndex(Fold(s), c) == LastIndex(s, c)
  {
    var i := LastIndex(s, c);
    var f := Fold(s);
    forall k | 0 <= k < |s| ensures f[k] == c <==> s[k] == c {
      FoldCharKeepsPunctuation(s[k], c);
    }
    if i >= 0 {
      assert f[i] == c;
    }
  }

  /** Lower-casing a name lower-cases its extension. */
  lemma ExtensionOfFold(name: string)
    ensures Extension(Fold(name)) == Fold(Extension(name))
  {
    var f := Fold(name);
    FoldKeepsLastIndex(name, '/');
    FoldKeepsLastIndex(name, '.');
    var sep := LastIndex(name, '/');
    var dot := LastIndex(name, '.');
    forall k | 0 <= k < |name| ensures f[k] == '.' <==> name[k] == '.' {
      FoldCharKeepsPunctuation(name[k], '.');
    }
    if dot > sep && exists k :: sep < k < dot && name[k] != '.' {
      var k :| sep < k < dot && name[k] != '.';
      assert f[k] != '.';
      assert f[dot..] == Fold(name[dot..]);
    } else {
      assert !(exists k :: sep < k < dot && f[k] != '.');
    }
  }

  lemma FoldIdempotent(s: string)
    ensures Fold(Fold(s)) == Fold(s)
  {
  }

  /** The kind of a file does not depend on the letter case of its name:
      "IMG_0001.JPG" and "img_0001.jpg" are shown alike. */
  lemma ClassifyIgnoresCase(name: string)
    ensures Classify(Fold(name)) == Classify(name)
  {
    ExtensionOfFold(name);
    FoldIdempotent(Extension(name));
  }

  /** Instance of ExtensionOfStem used by the next example. */
  lemma CameraPhotoExtension()
    ensures Extension("IMG_0001.JPG") == ".JPG"
  {
    assert "IMG_0001.JPG" == "IMG_0001" + "." + "JPG";
    assert "IMG_0001"[0] != '.';
    ExtensionOfStem("IMG_0001", "JPG");
  }

  /** A camera photo with an upper-case extension is an image. */
  lemma CameraPhotoIsImage()
    ensures Classify("IMG_0001.JPG") == Image
  {
    CameraPhotoExtension();
    assert Fold(".JPG") == ".jpg";
  }

  /** Instance of ExtensionOfStem used by the next example. */
  lemma PhoneVideoExtension()
    ensures Extension("boda.MOV") == ".MOV"
  {
    assert "boda.MOV" == "boda" + "." + "MOV";
    assert "boda"[0] != '.';
    ExtensionOfStem("boda", "MOV");
  }

  /** A phone video is a video. */
  lemma PhoneVideoIsVideo()
    ensures Classify("boda.MOV") == Video
  {
    PhoneVideoExtension();
    assert Fold(".MOV") == ".mov";
  }

  /** A file named only ".jpg" has no extension and is not shown. */
  lemma HiddenFileIsUnsupported()
    ensures Classify(".jpg") == Unsupported("")
  {
    assert ".jpg" == "." + "jpg";
    HiddenFileNoExtension("jpg");
    assert Fold("") == "";
  }

  /** Instance of ExtensionOfStem used by the next example. */
  lemma DocumentExtension()
    ensures Extension("acta.pdf") == ".pdf"
  {
    assert "acta.pdf" == "acta" + "." + "pdf";
    assert "acta"[0] != '.';
    ExtensionOfStem("acta", "pdf");
  }

  /** A document is refused with its extension named. */
  lemma DocumentIsUnsupported()
    ensures Classify("acta.pdf") == Unsupported(".pdf")
  {
    DocumentExtension();
    assert Fold(".pdf") == ".pdf";
  }
}
