/**
 * `JogosController`: the actions over the `Jogos` table and the banner
 * folder. The table is a map from key to row; the content root is a map from
 * file path to bytes plus the set of directories that exist. Each action
 * reads the store, changes what the original changes, and returns the HTTP
 * result it produces.
 */
module Controller {
  import opened Guids
  import opened Strings
  import opened Paths
  import opened Pricing
  import opened Banner

  /** An exception that escapes an action (the server answers 500). */
  datatype Fault =
    | NullPrecoOriginal      // `(decimal)` cast of a null `PrecoOriginal`
    | ConcurrencyConflict    // `DbUpdateConcurrencyException` rethrown by `PutJogo`
    | DuplicateKey           // `PostJogo` inserts a key the table already holds

  /** The results the actions return. A bare `BadRequest()` / `NotFound()` has message "". */
  datatype Response =
    | OkGame(jogo: Jogo)
    | OkFilePath(filePath: string)
    | Created(jogo: Jogo)
    | NoContent
    | BadRequest(message: string)
    | NotFound(message: string)
    | Unhandled(fault: Fault)

  const DiscountRangeMessage: string := "Desconto deve ser entre 0 e 100."

  /** `Directory.CreateDirectory(gamesFolder)` when the folder is missing; it also creates `Resources`. */
  function WithGamesFolder(p: Platform, root: string, directories: set<string>): (d: set<string>)
    ensures GamesFolder(p, root) in d && directories <= d
    ensures GamesFolder(p, root) in directories ==> d == directories
    ensures d - directories <= {ResourcesFolder(p, root), GamesFolder(p, root)}
  {
    if GamesFolder(p, root) in directories then directories
    else directories + {ResourcesFolder(p, root), GamesFolder(p, root)}
  }

  class JogosController {
    var jogos: map<Guid, Jogo>
    var files: map<string, seq<byte>>
    var directories: set<string>
    const contentRoot: string
    const platform: Platform

    /** Every row is stored under its own key. */
    ghost predicate Valid()
      reads this
    {
      forall id :: id in jogos ==> jogos[id].jogoId == id
    }

    /** Every row's price is the one derived from its original price and discount. */
    ghost predicate PricesConsistent()
      reads this
    {
      forall id :: id in jogos ==> PriceConsistent(jogos[id])
    }

    constructor (contentRoot: string, platform: Platform, jogos: map<Guid, Jogo>,
                 files: map<string, seq<byte>>, directories: set<string>)
      requires forall id :: id in jogos ==> jogos[id].jogoId == id
      ensures Valid()
      ensures this.contentRoot == contentRoot && this.platform == platform
      ensures this.jogos == jogos && this.files == files && this.directories == directories
    {
      this.contentRoot := contentRoot;
      this.platform := platform;
      this.jogos := jogos;
      this.files := files;
      this.directories := directories;
    }

    /** `_context.Jogos.FindAsync(id)`. */
    function Find(id: Guid): (r: Option<Jogo>)
      reads this
      ensures r.Some? <==> id in jogos
      ensures r.Some? ==> r.value == jogos[id]
    {
      if id in jogos then Some(jogos[id]) else None
    }

    /** `GetJogo`: the row, or a bare NotFound. */
    method GetJogo(id: Guid) returns (r: Response)
      ensures id in jogos ==> r == OkGame(jogos[id])
      ensures id !in jogos ==> r == NotFound("")
    {
      var jogo := Find(id);
      if jogo.None? {
        return NotFound("");
      }
      return OkGame(jogo.value);
    }

    /**
     * `PutJogo`: an id that differs from the body's is a BadRequest before
     * anything is touched; otherwise the body is normalised and written over
     * the row. Saving a row that is not there raises a concurrency exception,
     * which the catch turns into NotFound; `saveConflicts` says whether the
     * database reports a conflict for a row that is there, which is rethrown.
     */
    method PutJogo(id: Guid, jogo: Jogo, saveConflicts: bool) returns (r: Response)
      requires Valid()
      modifies this`jogos
      ensures Valid()
      ensures old(PricesConsistent()) ==> PricesConsistent()
      ensures id != jogo.jogoId ==> r == BadRequest("") && jogos == old(jogos)
      ensures id == jogo.jogoId && id !in old(jogos) ==> r == NotFound("") && jogos == old(jogos)
      ensures id == jogo.jogoId && id in old(jogos) && saveConflicts ==>
                r == Unhandled(ConcurrencyConflict) && jogos == old(jogos)
      ensures id == jogo.jogoId && id in old(jogos) && !saveConflicts ==>
                r == NoContent && jogos == old(jogos)[id := Normalise(jogo)]
    {
      if id != jogo.jogoId {
        return BadRequest("");
      }
      var incoming := jogo;
      incoming := incoming.(precoOriginal := Some(incoming.preco));
      if incoming.desconto > 0 {
        incoming := incoming.(preco := Discounted(incoming.preco, incoming.desconto));
      }
      if id !in jogos || saveConflicts {
        // DbUpdateConcurrencyException: NotFound when the row is gone, rethrown otherwise.
        if Find(id).None? {
          return NotFound("");
        }
        return Unhandled(ConcurrencyConflict);
      }
      jogos := jogos[id := incoming];
      return NoContent;
    }

    /**
     * `PostJogo`: the body is normalised and inserted; inserting a key the
     * table already has fails in the database, and nothing catches it.
     */
    method PostJogo(jogo: Jogo) returns (r: Response)
      requires Valid()
      modifies this`jogos
      ensures Valid()
      ensures old(PricesConsistent()) ==> PricesConsistent()
      ensures jogo.jogoId in old(jogos) ==> r == Unhandled(DuplicateKey) && jogos == old(jogos)
      ensures jogo.jogoId !in old(jogos) ==>
                r == Created(Normalise(jogo)) && jogos == old(jogos)[jogo.jogoId := Normalise(jogo)]
    {
      var incoming := jogo;
      incoming := incoming.(precoOriginal := Some(incoming.preco));
      if incoming.desconto > 0 {
        incoming := incoming.(preco := Discounted(incoming.preco, incoming.desconto));
      }
      if incoming.jogoId in jogos {
        return Unhandled(DuplicateKey);
      }
      jogos := jogos[incoming.jogoId := incoming];
      return Created(incoming);
    }

    /** `DeleteJogo`: removes the row; a missing one is a bare NotFound. */
    method DeleteJogo(id: Guid) returns (r: Response)
      requires Valid()
      modifies this`jogos
      ensures Valid()
      ensures old(PricesConsistent()) ==> PricesConsistent()
      ensures id !in old(jogos) ==> r == NotFound("") && jogos == old(jogos)
      ensures id in old(jogos) ==> r == NoContent && jogos == old(jogos) - {id}
    {
      var jogo := Find(id);
      if jogo.None? {
        return NotFound("");
      }
      jogos := jogos - {id};
      return NoContent;
    }

    /**
     * `AplicarDesconto`: the lookup comes first, so an unknown id is NotFound
     * whatever the percentage; then the range check; then the found game gets
     * the discount and a price recomputed from `PrecoOriginal`. Nothing is
     * saved: the method has no `modifies` clause, so the table is unchanged
     * and only the returned game carries the discount.
     */
    method AplicarDesconto(jogoId: Guid, desconto: Int32) returns (r: Response)
      ensures jogoId !in jogos ==> r == NotFound("")
      ensures jogoId in jogos && (desconto < 0 || desconto > 100) ==> r == BadRequest(DiscountRangeMessage)
      ensures jogoId in jogos && 0 <= desconto <= 100 && jogos[jogoId].precoOriginal.None? ==>
                r == Unhandled(NullPrecoOriginal)
      ensures jogoId in jogos && 0 <= desconto <= 100 && jogos[jogoId].precoOriginal.Some? ==>
                r == OkGame(WithDiscount(jogos[jogoId], desconto).value)
    {
      var found := Find(jogoId);
      if found.None? {
        return NotFound("");
      }
      if desconto < 0 || desconto > 100 {
        return BadRequest(DiscountRangeMessage);
      }
      var jogo := found.value;
      jogo := jogo.(desconto := desconto);
      if jogo.precoOriginal.None? {
        return Unhandled(NullPrecoOriginal);
      }
      jogo := jogo.(preco := Discounted(jogo.precoOriginal.value, desconto));
      return OkGame(jogo);
    }

    /**
     * `AplicarDesconto` as it is evidently meant to work: the same checks and
     * the same response, and the discounted row is saved, the way
     * `RemoverDesconto` saves its row.
     */
    method AplicarDescontoSaved(jogoId: Guid, desconto: Int32) returns (r: Response)
      requires Valid()
      modifies this`jogos
      ensures Valid()
      ensures old(PricesConsistent()) ==> PricesConsistent()
      ensures jogoId !in old(jogos) ==> r == NotFound("") && jogos == old(jogos)
      ensures jogoId in old(jogos) && (desconto < 0 || desconto > 100) ==>
                r == BadRequest(DiscountRangeMessage) && jogos == old(jogos)
      ensures jogoId in old(jogos) && 0 <= desconto <= 100 && old(jogos)[jogoId].precoOriginal.None? ==>
                r == Unhandled(NullPrecoOriginal) && jogos == old(jogos)
      ensures jogoId in old(jogos) && 0 <= desconto <= 100 && old(jogos)[jogoId].precoOriginal.Some? ==>
                var saved := WithDiscount(old(jogos)[jogoId], desconto).value;
                r == OkGame(saved) && jogos == old(jogos)[jogoId := saved]
    {
      r := AplicarDesconto(jogoId, desconto);
      if r.OkGame? {
        jogos := jogos[jogoId := r.jogo];
      }
    }

    /**
     * `RemoverDesconto`: an unknown id is NotFound; otherwise the row gets no
     * discount and its original price back, and is saved. A null
     * `PrecoOriginal` throws before the save, so the table stays as it was.
     */
    method RemoverDesconto(jogoId: Guid) returns (r: Response)
      requires Valid()
      modifies this`jogos
      ensures Valid()
      ensures old(PricesConsistent()) ==> PricesConsistent()
      ensures jogoId !in old(jogos) ==> r == NotFound(GameNotFoundMessage) && jogos == old(jogos)
      ensures jogoId in old(jogos) && old(jogos)[jogoId].precoOriginal.None? ==>
                r == Unhandled(NullPrecoOriginal) && jogos == old(jogos)
      ensures jogoId in old(jogos) && old(jogos)[jogoId].precoOriginal.Some? ==>
                var saved := WithoutDiscount(old(jogos)[jogoId]).value;
                r == OkGame(saved) && jogos == old(jogos)[jogoId := saved]
    {
      var found := Find(jogoId);
      if found.None? {
        return NotFound(GameNotFoundMessage);
      }
      var jogo := found.value;
      jogo := jogo.(desconto := 0);
      if jogo.precoOriginal.None? {
        return Unhandled(NullPrecoOriginal);
      }
      jogo := jogo.(preco := jogo.precoOriginal.value);
      jogos := jogos[jogoId := jogo];
      return OkGame(jogo);
    }

    /** Calling `RemoverDesconto` a second time changes nothing and answers the same. */
    method RemoverDescontoTwice(jogoId: Guid) returns (first: Response, second: Response)
      requires Valid()
      modifies this`jogos
      ensures Valid()
      ensures second == first
      ensures jogoId in old(jogos) && old(jogos)[jogoId].precoOriginal.Some? ==>
                jogos == old(jogos)[jogoId := WithoutDiscount(old(jogos)[jogoId]).value]
      ensures jogoId !in old(jogos) || old(jogos)[jogoId].precoOriginal.None? ==> jogos == old(jogos)
    {
      first := RemoverDesconto(jogoId);
      ghost var once := jogos;
      second := RemoverDesconto(jogoId);
      if jogoId in old(jogos) && old(jogos)[jogoId].precoOriginal.Some? {
        RemoveDiscountIdempotent(old(jogos)[jogoId]);
        assert jogos == once;
      }
    }

    /**
     * `UploadGameBanner`: the checks of `CheckUpload` in order, each
     * rejection leaving every file as it was. Passing the content-type check
     * creates the games folder if it is missing, before the extension is
     * checked. An accepted upload deletes any file at its target path and
     * writes the payload there; the table is never written.
     */
    method UploadGameBanner(file: Option<FormFile>, jogoId: Guid) returns (r: Response)
      requires Valid()
      modifies this`files, this`directories
      ensures var v := CheckUpload(platform, file, Find(jogoId));
        && (v == UnknownGame ==> r == NotFound(RejectionMessage(v)))
        && (!v.Accepted? && v != UnknownGame ==> r == BadRequest(RejectionMessage(v)))
        && (!v.Accepted? ==> files == old(files))
        && (v == EmptyFile || v == UnknownGame || v == NotAnImage ==> directories == old(directories))
        && (v == UnsupportedExtension || v.Accepted? ==>
              directories == WithGamesFolder(platform, contentRoot, old(directories)))
        && (v.Accepted? ==>
              && v.fileName == GuidText(jogoId) + LowerExtension(platform, file.value.fileName)
              && r == OkFilePath("Resources/Games/" + GuidText(jogoId) + LowerExtension(platform, file.value.fileName))
              && files == old(files)[BannerPath(platform, contentRoot, v.fileName) := file.value.content])
    {
      if file.None? || |file.value.content| == 0 {
        return BadRequest(EmptyFileMessage);
      }
      var jogo := Find(jogoId);
      if jogo.None? {
        return NotFound(GameNotFoundMessage);
      }
      if !StartsWith(file.value.contentType, ImagePrefix) {
        return BadRequest(NotAnImageMessage);
      }
      ghost var verdict := CheckUpload(platform, file, jogo);
      var gamesFolder := Combine(platform, Combine(platform, contentRoot, "Resources"), "Games");
      if gamesFolder !in directories {
        directories := directories + {Combine(platform, contentRoot, "Resources"), gamesFolder};
      }
      assert directories == WithGamesFolder(platform, contentRoot, old(directories));
      var fileExtension := ToLowerAscii(GetExtension(platform, file.value.fileName));
      if IndexOf(AllowedExtensions, fileExtension) < 0 {
        assert verdict == UnsupportedExtension;
        return BadRequest(UnsupportedFormatMessage);
      }
      var fileName := GuidText(jogo.value.jogoId) + fileExtension;
      assert verdict == Accepted(fileName);
      var filePath := Combine(platform, gamesFolder, fileName);
      assert filePath == BannerPath(platform, contentRoot, fileName);
      if filePath in files {
        files := files - {filePath};
      }
      files := files[filePath := file.value.content];
      assert files == old(files)[filePath := file.value.content];
      var relativePath := ReplaceBackslashes(Combine(platform, Combine(platform, "Resources", "Games"), fileName));
      AcceptedNameShape(platform, file, jogo);
      RelativePathSameOnEveryPlatform(platform, fileName);
      assert "Resources/Games/" + fileName == "Resources/Games/" + GuidText(jogoId) + fileExtension;
      return OkFilePath(relativePath);
    }
  }

  /**
   * Running the actions one after another: a discount applied and then
   * removed leaves the row at its original price, and the applied discount
   * never reaches the table, so the table ends as `RemoverDesconto` alone
   * would leave it.
   */
  method ApplyThenRemoveDiscount(c: JogosController, jogoId: Guid, desconto: Int32)
    returns (applied: Response, removed: Response)
    requires c.Valid()
    modifies c`jogos
    ensures c.Valid()
    ensures jogoId !in old(c.jogos) ==>
              applied == NotFound("") && removed == NotFound(GameNotFoundMessage) && c.jogos == old(c.jogos)
    ensures jogoId in old(c.jogos) && old(c.jogos)[jogoId].precoOriginal.None? ==>
              removed == Unhandled(NullPrecoOriginal) && c.jogos == old(c.jogos)
    ensures jogoId in old(c.jogos) && old(c.jogos)[jogoId].precoOriginal.Some? ==>
              var saved := WithoutDiscount(old(c.jogos)[jogoId]).value;
              && removed == OkGame(saved)
              && c.jogos == old(c.jogos)[jogoId := saved]
              && saved.preco == old(c.jogos)[jogoId].precoOriginal.value
              && saved.desconto == 0
              && saved.precoOriginal == old(c.jogos)[jogoId].precoOriginal
    ensures jogoId in old(c.jogos) && 0 <= desconto <= 100 && old(c.jogos)[jogoId].precoOriginal.Some? ==>
              applied == OkGame(WithDiscount(old(c.jogos)[jogoId], desconto).value)
    ensures jogoId in old(c.jogos) && (desconto < 0 || desconto > 100) ==> applied == BadRequest(DiscountRangeMessage)
    ensures jogoId in old(c.jogos) && 0 <= desconto <= 100 && old(c.jogos)[jogoId].precoOriginal.None? ==>
              applied == Unhandled(NullPrecoOriginal)
  {
    applied := c.AplicarDesconto(jogoId, desconto);
    assert c.jogos == old(c.jogos);
    removed := c.RemoverDesconto(jogoId);
  }

  /**
   * Two accepted uploads for one game with different extensions: the second
   * deletes only its own target, so both banners remain, each with its own
   * payload.
   */
  method UploadTwiceKeepsOldBanner(c: JogosController, jogoId: Guid, first: FormFile, second: FormFile)
    returns (r1: Response, r2: Response)
    requires c.Valid()
    requires CheckUpload(c.platform, Some(first), c.Find(jogoId)).Accepted?
    requires CheckUpload(c.platform, Some(second), c.Find(jogoId)).Accepted?
    requires LowerExtension(c.platform, first.fileName) != LowerExtension(c.platform, second.fileName)
    modifies c`files, c`directories
    ensures var path1 := BannerPath(c.platform, c.contentRoot, GuidText(jogoId) + LowerExtension(c.platform, first.fileName));
      var path2 := BannerPath(c.platform, c.contentRoot, GuidText(jogoId) + LowerExtension(c.platform, second.fileName));
      && path1 != path2
      && path1 in c.files && c.files[path1] == first.content
      && path2 in c.files && c.files[path2] == second.content
  {
    var ext1, ext2 := LowerExtension(c.platform, first.fileName), LowerExtension(c.platform, second.fileName);
    var path1 := BannerPath(c.platform, c.contentRoot, GuidText(jogoId) + ext1);
    var path2 := BannerPath(c.platform, c.contentRoot, GuidText(jogoId) + ext2);
    if path1 == path2 {
      BannerPathsDistinct(c.platform, c.contentRoot, jogoId, ext1, ext2);
    }
    r1 := c.UploadGameBanner(Some(first), jogoId);
    assert path1 in c.files && c.files[path1] == first.content;
    r2 := c.UploadGameBanner(Some(second), jogoId);
  }
}
