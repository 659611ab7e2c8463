/**
 * The decisions `UploadGameBanner` takes before it touches the file system:
 * the checks in their fixed order, the lower-cased extension against the
 * allow-list, and the names it derives (file name, absolute path, relative
 * path in the response).
 */
module Banner {
  import opened Guids
  import opened Strings
  import opened Paths
  import opened Pricing

  newtype byte = x: int | 0 <= x < 256

  /** The parts of an uploaded `IFormFile` the action reads; `Length` is `|content|`. */
  datatype FormFile = FormFile(fileName: string, contentType: string, content: seq<byte>)

  const AllowedExtensions: seq<string> := [".jpg", ".jpeg", ".png", ".gif"]
  const ImagePrefix: string := "image/"

  const EmptyFileMessage: string := "Arquivo não pode ser nulo ou vazio."
  const GameNotFoundMessage: string := "Jogo não encontrado."
  const NotAnImageMessage: string := "O arquivo deve ser uma imagem."
  const UnsupportedFormatMessage: string := "Formato de arquivo não suportado. Use .jpg, .jpeg, .png ou .gif."

  /** How far an upload gets: the first check it fails, or the file name it is stored under. */
  datatype Verdict =
    | EmptyFile
    | UnknownGame
    | NotAnImage
    | UnsupportedExtension
    | Accepted(fileName: string)

  /** `Path.GetExtension(file.FileName).ToLower()`. */
  function LowerExtension(p: Platform, fileName: string): string {
    ToLowerAscii(GetExtension(p, fileName))
  }

  /**
   * The lower-cased extension is "" exactly when the name has no extension,
   * and otherwise the name's extension, '.' first, with every letter in lower
   * case.
   */
  lemma LowerExtensionOfName(p: Platform, fileName: string)
    ensures var ext := LowerExtension(p, fileName);
      && (ext == "" <==> forall k :: !IsExtensionAt(p, fileName, k))
      && (ext != "" ==>
            && IsExtensionAt(p, fileName, |fileName| - |ext|)
            && ext[0] == '.' && ext == ToLowerAscii(fileName[|fileName| - |ext|..]))
      && forall i :: 0 <= i < |ext| ==> !IsAsciiUpper(ext[i])
  {
  }

  /**
   * The checks of `UploadGameBanner` in their order: a missing or empty file,
   * then the game lookup, then the content type, then the extension. `jogo`
   * is what the lookup of the requested id found.
   */
  function CheckUpload(p: Platform, file: Option<FormFile>, jogo: Option<Jogo>): (v: Verdict)
    ensures v == EmptyFile <==> file.None? || |file.value.content| == 0
    ensures v == UnknownGame <==> file.Some? && |file.value.content| > 0 && jogo.None?
    ensures v == NotAnImage <==>
              file.Some? && |file.value.content| > 0 && jogo.Some?
              && !StartsWith(file.value.contentType, ImagePrefix)
    ensures v == UnsupportedExtension <==>
              file.Some? && |file.value.content| > 0 && jogo.Some?
              && StartsWith(file.value.contentType, ImagePrefix)
              && LowerExtension(p, file.value.fileName) !in AllowedExtensions
    ensures v.Accepted? ==>
              file.Some? && |file.value.content| > 0 && jogo.Some?
              && StartsWith(file.value.contentType, ImagePrefix)
              && LowerExtension(p, file.value.fileName) in AllowedExtensions
              && v.fileName == GuidText(jogo.value.jogoId) + LowerExtension(p, file.value.fileName)
  {
    if file.None? || |file.value.content| == 0 then EmptyFile
    else if jogo.None? then UnknownGame
    else if !StartsWith(file.value.contentType, ImagePrefix) then NotAnImage
    else
      var ext := LowerExtension(p, file.value.fileName);
      if IndexOf(AllowedExtensions, ext) < 0 then UnsupportedExtension
      else Accepted(GuidText(jogo.value.jogoId) + ext)
  }

  /** The message each rejection carries; `BadRequest` except for `UnknownGame`, a `NotFound`. */
  function RejectionMessage(v: Verdict): string
    requires !v.Accepted?
  {
    match v
    case EmptyFile => EmptyFileMessage
    case UnknownGame => GameNotFoundMessage
    case NotAnImage => NotAnImageMessage
    case UnsupportedExtension => UnsupportedFormatMessage
  }

  /**
   * `Path.Combine(ContentRootPath, "Resources")`: the content root, a
   * separator unless the root is empty or already ends in one, then "Resources".
   */
  function ResourcesFolder(p: Platform, root: string): (dir: string)
    ensures root == "" ==> dir == "Resources"
    ensures root != "" && IsDirectorySeparator(p, root[|root| - 1]) ==> dir == root + "Resources"
    ensures root != "" && !IsDirectorySeparator(p, root[|root| - 1]) ==>
              dir == root + [DirectorySeparator(p)] + "Resources"
  {
    Combine(p, root, "Resources")
  }

  /** `Path.Combine(ContentRootPath, "Resources", "Games")`: one separator below `Resources`. */
  function GamesFolder(p: Platform, root: string): (dir: string)
    ensures dir == ResourcesFolder(p, root) + [DirectorySeparator(p)] + "Games"
  {
    Combine(p, ResourcesFolder(p, root), "Games")
  }

  /**
   * `Path.Combine(gamesFolder, fileName)`: the file the upload writes, one
   * separator below the games folder for a relative, non-empty name.
   */
  function BannerPath(p: Platform, root: string, fileName: string): (path: string)
    ensures fileName != "" && !IsPathRooted(p, fileName) ==>
              path == GamesFolder(p, root) + [DirectorySeparator(p)] + fileName
  {
    Combine(p, GamesFolder(p, root), fileName)
  }

  /** `Path.Combine("Resources", "Games", fileName).Replace("\\", "/")`: the path in the response. */
  function RelativeBannerPath(p: Platform, fileName: string): string {
    ReplaceBackslashes(Combine(p, Combine(p, "Resources", "Games"), fileName))
  }

  /** A Guid's text has no '.', no separator, and cannot be read as a rooted path. */
  lemma GuidTextIsPlain(p: Platform, g: Guid)
    ensures PlainSegment(p, GuidText(g))
    ensures !IsPathRooted(p, GuidText(g))
    ensures forall k :: 0 <= k < |GuidText(g)| ==> GuidText(g)[k] != '\\'
  {
  }

  /** An allowed extension is '.' followed by lower-case letters only. */
  lemma AllowedExtensionIsPlain(p: Platform, ext: string)
    requires ext in AllowedExtensions
    ensures |ext| >= 4 && ext[0] == '.' && PlainSegment(p, ext[1..])
    ensures forall k :: 1 <= k < |ext| ==> 'a' <= ext[k] <= 'z'
    ensures forall k :: 0 <= k < |ext| ==> ext[k] != '\\'
  {
  }

  /**
   * An accepted upload is stored as the game's id followed by the allowed,
   * lower-cased extension; reading the extension of that name gives the same
   * extension back.
   */
  lemma AcceptedNameShape(p: Platform, file: Option<FormFile>, jogo: Option<Jogo>)
    requires CheckUpload(p, file, jogo).Accepted?
    ensures var name := CheckUpload(p, file, jogo).fileName;
      && jogo.Some? && name[..36] == GuidText(jogo.value.jogoId)
      && name[36..] in AllowedExtensions
      && GetExtension(p, name) == name[36..]
      && !IsPathRooted(p, name)
      && forall k :: 0 <= k < |name| ==> name[k] != '\\'
  {
    var name := CheckUpload(p, file, jogo).fileName;
    var id := GuidText(jogo.value.jogoId);
    var ext := LowerExtension(p, file.value.fileName);
    assert name == id + ext;
    assert name[..36] == id && name[36..] == ext;
    GuidTextIsPlain(p, jogo.value.jogoId);
    AllowedExtensionIsPlain(p, ext);
    GetExtensionOfAppended(p, id, ext);
  }

  lemma LowerExtensionOfPng(p: Platform)
    ensures LowerExtension(p, "Cover.PNG") == ".png"
    ensures LowerExtension(p, "cover.png") == ".png"
  {
    ExtensionOfPng(p);
    var t := ToLowerAscii(".PNG");
    assert t[0] == '.' && t[1] == 'p' && t[2] == 'n' && t[3] == 'g';
    ToLowerAsciiOfLower(".png");
  }

  lemma ExtensionOfPng(p: Platform)
    ensures GetExtension(p, "Cover.PNG") == ".PNG"
    ensures GetExtension(p, "cover.png") == ".png"
  {
    assert "Cover" + ".PNG" == "Cover.PNG";
    GetExtensionOfAppended(p, "Cover", ".PNG");
    assert "cover" + ".png" == "cover.png";
    GetExtensionOfAppended(p, "cover", ".png");
  }

  /** The extension's case does not matter: "Cover.PNG" and "cover.png" land in the same file. */
  lemma ExtensionCaseIgnored(p: Platform, g: Jogo, bytes: seq<byte>)
    requires |bytes| > 0
    ensures CheckUpload(p, Some(FormFile("Cover.PNG", "image/png", bytes)), Some(g)) == Accepted(GuidText(g.jogoId) + ".png")
    ensures CheckUpload(p, Some(FormFile("cover.png", "image/png", bytes)), Some(g)) == Accepted(GuidText(g.jogoId) + ".png")
  {
    LowerExtensionOfPng(p);
    assert AllowedExtensions[2] == ".png";
    assert StartsWith("image/png", ImagePrefix);
  }

  /** A file without an allowed extension is turned away even when its content type is an image. */
  lemma ExtensionlessImageRejected(p: Platform, g: Jogo, bytes: seq<byte>)
    requires |bytes| > 0
    ensures CheckUpload(p, Some(FormFile("banner", "image/png", bytes)), Some(g)) == UnsupportedExtension
  {
  }

  /**
   * The relative path in the response is "Resources/Games/" followed by the
   * file name on either platform: the backslashes Windows puts in are
   * replaced.
   */
  lemma RelativePathSameOnEveryPlatform(p: Platform, fileName: string)
    requires fileName != "" && !IsPathRooted(p, fileName)
    requires forall k :: 0 <= k < |fileName| ==> fileName[k] != '\\'
    ensures RelativeBannerPath(p, fileName) == "Resources/Games/" + fileName
  {
  }

  /** Banners of two different games never share a file. */
  lemma DistinctGamesDistinctBanners(p: Platform, root: string, file1: Option<FormFile>, jogo1: Option<Jogo>,
                                     file2: Option<FormFile>, jogo2: Option<Jogo>)
    requires CheckUpload(p, file1, jogo1).Accepted? && CheckUpload(p, file2, jogo2).Accepted?
    requires jogo1.value.jogoId != jogo2.value.jogoId
    ensures BannerPath(p, root, CheckUpload(p, file1, jogo1).fileName)
         != BannerPath(p, root, CheckUpload(p, file2, jogo2).fileName)
  {
    var name1, name2 := CheckUpload(p, file1, jogo1).fileName, CheckUpload(p, file2, jogo2).fileName;
    AcceptedNameShape(p, file1, jogo1);
    AcceptedNameShape(p, file2, jogo2);
    if BannerPath(p, root, name1) == BannerPath(p, root, name2) {
      CombineInjective(p, GamesFolder(p, root), name1, name2);
      GuidTextInjective(jogo1.value.jogoId, jogo2.value.jogoId);
    }
  }

  /** The paths every allowed banner of the game `id` would be stored under. */
  function BannerPaths(p: Platform, root: string, id: Guid): set<string> {
    set e | e in AllowedExtensions :: BannerPath(p, root, GuidText(id) + e)
  }

  /** Two allowed extensions give one game the same banner path only when they are the same. */
  lemma BannerPathsDistinct(p: Platform, root: string, id: Guid, e1: string, e2: string)
    requires e1 in AllowedExtensions && e2 in AllowedExtensions
    requires BannerPath(p, root, GuidText(id) + e1) == BannerPath(p, root, GuidText(id) + e2)
    ensures e1 == e2
  {
    var t := GuidText(id);
    GuidTextIsPlain(p, id);
    var n1, n2 := t + e1, t + e2;
    assert n1[0] == t[0] && n1[1] == t[1] && n2[0] == t[0] && n2[1] == t[1];
    CombineInjective(p, GamesFolder(p, root), n1, n2);
    assert n1[36..] == e1 && n2[36..] == e2;
  }

  /**
   * The upload the delete step evidently means: every earlier banner of the
   * game, whatever its extension, is removed before the payload is written
   * under the new extension. Other files stay as they are.
   */
  function ReplaceBanner(p: Platform, root: string, files: map<string, seq<byte>>, id: Guid, ext: string,
                         content: seq<byte>): (after: map<string, seq<byte>>)
    requires ext in AllowedExtensions
    ensures BannerPath(p, root, GuidText(id) + ext) in after
    ensures after[BannerPath(p, root, GuidText(id) + ext)] == content
    ensures forall path :: path in files && path !in BannerPaths(p, root, id) ==> path in after && after[path] == files[path]
    ensures forall path :: path in after ==> path in files || path == BannerPath(p, root, GuidText(id) + ext)
  {
    var kept := map path | path in files && path !in BannerPaths(p, root, id) :: files[path];
    assert BannerPath(p, root, GuidText(id) + ext) in BannerPaths(p, root, id);
    kept[BannerPath(p, root, GuidText(id) + ext) := content]
  }

  /** After the intended upload, exactly one banner of the game is left: the new one. */
  lemma OneBannerPerGame(p: Platform, root: string, files: map<string, seq<byte>>, id: Guid, ext: string,
                         content: seq<byte>)
    requires ext in AllowedExtensions
    ensures forall e :: e in AllowedExtensions ==>
              (BannerPath(p, root, GuidText(id) + e) in ReplaceBanner(p, root, files, id, ext, content) <==> e == ext)
  {
    var after := ReplaceBanner(p, root, files, id, ext, content);
    forall e | e in AllowedExtensions
      ensures BannerPath(p, root, GuidText(id) + e) in after <==> e == ext
    {
      if e != ext && BannerPath(p, root, GuidText(id) + e) == BannerPath(p, root, GuidText(id) + ext) {
        BannerPathsDistinct(p, root, id, e, ext);
      }
    }
  }
}
