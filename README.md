# devSteamAPI: game prices, discounts and banner uploads

A Dafny model of `JogosController`, the ASP.NET controller of the devSteamAPI
storefront that manages the game catalogue (`Jogo`). It covers the two parts
of the controller that follow rules:

- **Price and discount.** Every game row has a current price `Preco`, an
  original price `PrecoOriginal` and an integer discount percentage
  `Desconto`. `PostJogo` and `PutJogo` copy the submitted `Preco` into
  `PrecoOriginal` and reduce `Preco` when `Desconto` is positive.
  `AplicarDesconto` range-checks a percentage and recomputes `Preco` from
  `PrecoOriginal`, but it never saves. `RemoverDesconto` resets the discount
  and saves.
- **Banner upload.** `UploadGameBanner` runs its checks in a fixed order: an
  empty file, then an unknown game, then a non-image content type, then an
  extension outside `.jpg .jpeg .png .gif`. It then stores the payload as
  `<game id><lower-case extension>` in `<content root>/Resources/Games`. It
  answers with the relative path `Resources/Games/<name>`.

Modules, one per concern:

| file | module | what it holds |
|---|---|---|
| `guids.dfy` | `Guids` | a game id as its 32 hex digits, and its `ToString()` text |
| `strings.dfy` | `Strings` | ASCII `ToLower`, ordinal `StartsWith`, `Replace("\\", "/")`, `Array.IndexOf` |
| `paths.dfy` | `Paths` | `Path.GetExtension` and `Path.Combine`, for Unix and for Windows |
| `pricing.dfy` | `Pricing` | the `Jogo` row and the price derivations of the three write paths |
| `banner.dfy` | `Banner` | the upload checks and the derived file name and paths, as functions |
| `controller.dfy` | `Controller` | class `JogosController`: the table, the files, and the actions as methods |

How the system is represented:

- The `Jogos` table is a field `jogos: map<Guid, Jogo>` of the controller class.
  `Valid()` says every row is stored under its own key.
- The content root is a field `files: map<string, seq<byte>>` (path to bytes)
  plus a field `directories: set<string>`.
- HTTP results are a `Response` datatype. An exception that escapes an action
  is `Unhandled(fault)`.
- `decimal` is `real`. Both are exact, and the controller only multiplies by
  an integer and subtracts.
- `AplicarDesconto` divides its own `int` parameter by 100 (line 177). That is
  C#'s integer division, which truncates toward zero (`Pricing.PercentQuotient`).
- The column `Jogo.Desconto` is **assumed** to be an `int` as well. `Jogo.cs` is
  not part of this model, and lines 61, 63, 135, 176 and 193 compile just as
  well with a `decimal` or `long` column. Under that assumption `PostJogo` and
  `PutJogo` divide `Desconto / 100` the same truncating way (lines 63 and 135).
  With a `decimal` column their division would be exact: `PostJogo` with 25%
  on 100.00 would store 75.00. These members depend on the assumption:
  - the `Normalise` half of `Pricing.PartialDiscountHasNoEffect`;
  - `Pricing.ResubmitBelowHundredIsStable`;
  - the 200% threshold of `Pricing.LargeDiscountMakesPriceNegative` (with an
    exact division any discount above 100% makes the price negative);
  - the findings and observations below about large discounts and about
    re-submitting.

  Everything derived from `AplicarDesconto` (line 177) does not depend on it.
- `PrecoOriginal` is nullable, as the `(decimal)` casts at lines 177 and 194
  suggest (a cast of a plain `decimal` compiles as well). It is an `Option<real>`. Casting a null throws, and the model returns
  `Unhandled(NullPrecoOriginal)` with the table unchanged.
- Besides its own inputs, `PutJogo` takes `saveConflicts`. It says whether the
  database reports a concurrency conflict for a row that exists.
- The server's operating system is the constant `platform`, and
  `IWebHostEnvironment.ContentRootPath` is the constant `contentRoot`.

## Findings

Each row names two members. The as-written member follows the code, and it is
the one the controller uses. The corrected member states the evident intent,
with its property proved. Nothing was executed.

| source | as written | input that shows it | evidently intended | confidence | as-written member | corrected member |
|---|---|---|---|---|---|---|
| Controllers/JogosController.cs:177 | `desconto / 100` is integer division, 0 for 0..99, so only 100% takes the price below `PrecoOriginal` | original price 100.00, `desconto` 25: the price stays 100.00 | 25% off 100.00 costs 75.00; the exact share is taken off, and the price stays between 0 and itself | high; not executed | `Pricing.PartialDiscountHasNoEffect` | `Pricing.IntendedDiscounted` |
| Controllers/JogosController.cs:176-179 | the discounted game is returned but never saved | `AplicarDesconto(id, 50)` and then `GetJogo(id)`: the old discount and price come back | the row is saved, as `RemoverDesconto` saves its row at lines 197-198 | medium; not executed | `Controller.JogosController.AplicarDesconto` | `Controller.JogosController.AplicarDescontoSaved` |
| Controllers/JogosController.cs:108-114 | only the file at the new target path is deleted | upload `a.png`, then `b.jpg` for one game: both `<id>.png` and `<id>.jpg` remain | the delete step replaces the game's banner, so exactly one banner of the game remains | medium; not executed | `Controller.UploadTwiceKeepsOldBanner` | `Banner.OneBannerPerGame` |
| Controllers/JogosController.cs:133-136 | `PostJogo` and `PutJogo` take any `Desconto`, so 200% or more makes a positive price negative | `Preco` 100.00 with `Desconto` 250: the stored price is -100.00 | the 0..100 range check of line 172 applies here too, so a non-negative price stays between 0 and itself | low; not executed; `Jogo.cs` may validate `Desconto` for `[ApiController]` (line 16), which would make the input unreachable | `Pricing.LargeDiscountMakesPriceNegative` | `Pricing.NormaliseChecked` |

`Pricing.IntendedAgreesAtEnds` shows that the two discount formulas agree
exactly at 0% and 100%. `Pricing.PartialDiscountDropped` shows that for every
percentage in between the written one leaves a positive price too high.
`Pricing.IntendedTwentyFivePercentOfHundred` evaluates the example.
`Banner.ReplaceBanner` is the intended upload step that `Banner.OneBannerPerGame`
is about.

## Observations

These behaviours follow from the code, but no intended behaviour can be read
off it.

- **Re-submitting a stored game overwrites `PrecoOriginal`.** `PutJogo` copies
  the submitted `Preco` over `PrecoOriginal` (line 58). Below 100% this is
  harmless, because the price was never reduced
  (`Pricing.ResubmitBelowHundredIsStable`). At 100% the original price becomes
  0 (`Pricing.ResubmitAtHundredLosesOriginal`).
- **No code computes a cart's total.** `Carrinho.ValorTotal` is a plain
  property.

## Model

| member | source | states |
|---|---|---|
| `Pricing.PercentQuotient` | Controllers/JogosController.cs:177 | `d / 100` truncates toward zero: `100*q <= d < 100*q + 100` for `d >= 0`, mirrored for `d < 0` |
| `Pricing.Discounted` | Controllers/JogosController.cs:63 | the shared formula `price - price * (percent / 100)` equals `price * (1 - q)`; it is the unchanged price for 0..99 and 0 for 100..199 |
| `Pricing.Normalise` | Controllers/JogosController.cs:57-64 | the write step of `PutJogo` (and, identically, of `PostJogo` at lines 129-136): `PrecoOriginal` becomes the submitted `Preco`; id and discount are kept; below 100% the price is unchanged; 100..199% gives 0; the result is price-consistent |
| `Pricing.WithDiscount` | Controllers/JogosController.cs:176-177 | defined exactly when `PrecoOriginal` is non-null; sets `Desconto = d`, keeps id and `PrecoOriginal`; `Preco == PrecoOriginal` for 0..99 and 0 for 100; consistent for 0..100 |
| `Pricing.WithoutDiscount` | Controllers/JogosController.cs:193-194 | defined exactly when `PrecoOriginal` is non-null; `Desconto = 0`, `Preco = PrecoOriginal`, `PrecoOriginal` and id untouched; consistent |
| `Pricing.RemoveDiscountIdempotent` | Controllers/JogosController.cs:193-194 | removing the discount twice equals removing it once |
| `Pricing.ApplyThenRemove` | Controllers/JogosController.cs:176-194 | applying any discount and then removing it equals removing it alone: `Preco == PrecoOriginal`, `Desconto == 0` |
| `Pricing.ZeroDiscountIsRemoval` | Controllers/JogosController.cs:176-177 | applying 0% gives the same game as removing the discount (line 194) |
| `Pricing.ApplyDiscountIdempotent` | Controllers/JogosController.cs:177 | the new price depends on `PrecoOriginal` only, so applying the same discount again changes nothing |
| `Pricing.PartialDiscountHasNoEffect` | Controllers/JogosController.cs:177 | for 1..99%, `AplicarDesconto` gives `Preco == PrecoOriginal`, and the write step (line 63) keeps the submitted `Preco` |
| `Pricing.TwentyFivePercentOfHundred` | Controllers/JogosController.cs:177 | original price 100.00 with 25% gives 100.00, and with 0% gives 100.00 |
| `Pricing.ResubmitBelowHundredIsStable` | Controllers/JogosController.cs:58-64 | below 100%, submitting the stored game again to `PutJogo` stores the same row |
| `Pricing.ResubmitAtHundredLosesOriginal` | Controllers/JogosController.cs:58-64 | at 100% and a non-zero price, submitting the stored game again makes `PrecoOriginal` 0 |
| `Pricing.LargeDiscountMakesPriceNegative` | Controllers/JogosController.cs:133-136 | a positive price with a discount of 200% or more is stored negative |
| `Pricing.NormaliseChecked` | Controllers/JogosController.cs:133-136 | the corrected write step: refused exactly when `Desconto` is outside 0..100 (the check of line 172); otherwise the as-written `Normalise`, with a non-negative price kept between 0 and itself |
| `Pricing.IntendedDiscounted` | Controllers/JogosController.cs:177 | the corrected discount for 0..100%: a non-negative price stays between 0 and itself |
| `Pricing.IntendedAgreesAtEnds` | Controllers/JogosController.cs:177 | the corrected and the written discount agree at 0% (the price) and at 100% (0) |
| `Pricing.PartialDiscountDropped` | Controllers/JogosController.cs:177 | for a positive price and 1..99%, the corrected price is strictly below the written one, which is the unchanged price |
| `Pricing.IntendedTwentyFivePercentOfHundred` | Controllers/JogosController.cs:177 | 25% off 100.00 is 75.00 when corrected, 100.00 as written |
| `Guids.HexDigit` | Controllers/JogosController.cs:108 | each nibble becomes its lower-case hexadecimal digit |
| `Guids.GuidText` | Controllers/JogosController.cs:108 | the id's text is 36 characters: hyphens exactly at 8, 13, 18, 23 and lower-case hex digits elsewhere |
| `Guids.GuidTextDigit` | Controllers/JogosController.cs:108 | digit `i` of the id stands at its text position |
| `Guids.GuidTextInjective` | Controllers/JogosController.cs:108 | two ids with the same text are the same id |
| `Strings.ToLowerChar` | Controllers/JogosController.cs:104 | raises 'A'..'Z' by 32 code points (to 'a'..'z') and leaves every other character alone |
| `Strings.ToLowerAscii` | Controllers/JogosController.cs:104 | same length, no upper-case letter left, other characters unchanged |
| `Strings.ToLowerAsciiIdempotent` | Controllers/JogosController.cs:104 | lower-casing twice is lower-casing once |
| `Strings.ToLowerAsciiOfLower` | Controllers/JogosController.cs:104 | a string without upper-case letters is unchanged |
| `Strings.StartsWith` | Controllers/JogosController.cs:96 | true exactly when the prefix is no longer than the string and matches it character by character |
| `Strings.ReplaceBackslashes` | Controllers/JogosController.cs:121 | same length, no backslash left, every backslash turned into '/', the rest unchanged |
| `Strings.IndexOf` | Controllers/JogosController.cs:105 | -1 exactly when the value is absent; otherwise the index of its first occurrence |
| `Paths.GetExtension` | Controllers/JogosController.cs:104 | a non-empty result is the path's suffix from a '.' that is not last and is followed by no '.' or separator; "" exactly when no such suffix exists |
| `Paths.ScanCorrect` | Controllers/JogosController.cs:104 | the backward scan behind `GetExtension` finds that suffix, by induction on the scan position |
| `Paths.ExtensionUnique` | Controllers/JogosController.cs:104 | a path has at most one such suffix |
| `Paths.GetExtensionOfAppended` | Controllers/JogosController.cs:104 | a plain name followed by an extension has exactly that extension |
| `Paths.Combine` | Controllers/JogosController.cs:99 | an empty side gives the other, a rooted second part wins, otherwise exactly one separator joins them |
| `Paths.CombineInjective` | Controllers/JogosController.cs:109 | one folder combined with two different relative names gives two different paths |
| `Banner.LowerExtensionOfName` | Controllers/JogosController.cs:104 | `LowerExtension` is "" exactly when the name has no extension; otherwise it is the name's extension, starting with '.', lower-cased, with no upper-case letter left |
| `Banner.CheckUpload` | Controllers/JogosController.cs:89-106 | the verdict is, in this order: empty or null file; game not found; content type not starting with "image/"; lower-cased extension not allowed; otherwise accepted with name = id text + lower-cased extension |
| `Banner.GuidTextIsPlain` | Controllers/JogosController.cs:108 | the id text has no '.', no separator and no backslash, and is not a rooted path |
| `Banner.AllowedExtensionIsPlain` | Controllers/JogosController.cs:103 | each allowed extension is '.' followed by at least three lower-case letters, so no '.', separator or backslash |
| `Banner.AcceptedNameShape` | Controllers/JogosController.cs:104-108 | an accepted name is the 36-character id text followed by an allowed extension, and `GetExtension` of the name gives that extension back |
| `Banner.LowerExtensionOfPng` | Controllers/JogosController.cs:104 | "Cover.PNG" and "cover.png" both have the lower-cased extension ".png" |
| `Banner.ExtensionCaseIgnored` | Controllers/JogosController.cs:104-108 | "Cover.PNG" and "cover.png" are both accepted as `<id>.png` |
| `Banner.ExtensionlessImageRejected` | Controllers/JogosController.cs:104-106 | an image with no extension is rejected as unsupported |
| `Banner.ResourcesFolder` | Controllers/JogosController.cs:99 | the content root, one separator unless the root is empty or already ends in one, then "Resources" |
| `Banner.GamesFolder` | Controllers/JogosController.cs:99 | the `Resources` folder, exactly one separator, then "Games" |
| `Banner.BannerPath` | Controllers/JogosController.cs:109 | for a non-empty relative name, the written path is the games folder, one separator, and the file name |
| `Banner.RelativePathSameOnEveryPlatform` | Controllers/JogosController.cs:121 | `RelativeBannerPath`, the returned path, is "Resources/Games/" + name on Unix and on Windows |
| `Banner.DistinctGamesDistinctBanners` | Controllers/JogosController.cs:108-109 | accepted uploads for two different games target different files |
| `Banner.BannerPathsDistinct` | Controllers/JogosController.cs:103-109 | two allowed extensions give one game the same target path only when they are equal |
| `Banner.ReplaceBanner` | Controllers/JogosController.cs:108-119 | the corrected upload step: the new banner holds the payload; every file that is not a banner of the game is kept; nothing but the new banner is added |
| `Banner.OneBannerPerGame` | Controllers/JogosController.cs:108-119 | after the corrected upload, a banner path of the game exists for an allowed extension exactly when it is the uploaded one |
| `Controller.WithGamesFolder` | Controllers/JogosController.cs:99-101 | after the check the games folder exists, nothing is removed, and at most `Resources` and `Resources/Games` are added; nothing changes if the folder was there |
| `Controller.JogosController.constructor` | Controllers/JogosController.cs:24-29 | the controller starts with the given table, files, content root and platform, given a table whose rows are stored under their own keys; it then satisfies `Valid()` |
| `Controller.JogosController.Find` | Controllers/JogosController.cs:40 | finds a row exactly when the key is in the table, and returns that row |
| `Controller.JogosController.GetJogo` | Controllers/JogosController.cs:37-48 | the row for a present key, a bare NotFound otherwise |
| `Controller.JogosController.PutJogo` | Controllers/JogosController.cs:50-84 | a mismatched id is BadRequest with the table untouched; a missing row is NotFound; a conflict on a present row is rethrown; otherwise the row becomes `Normalise(jogo)` and NoContent is returned; keys and price consistency are kept |
| `Controller.JogosController.PostJogo` | Controllers/JogosController.cs:125-141 | a new key is inserted as `Normalise(jogo)` and returned as Created; an existing key fails with the table untouched; keys and price consistency are kept |
| `Controller.JogosController.DeleteJogo` | Controllers/JogosController.cs:143-156 | a present row is removed (NoContent); a missing one is NotFound with the table untouched |
| `Controller.JogosController.AplicarDesconto` | Controllers/JogosController.cs:163-180 | unknown id gives NotFound even for an out-of-range percentage; outside 0..100 gives BadRequest; a null original price throws; otherwise the response carries `WithDiscount(row, d)`; the table is never written |
| `Controller.JogosController.AplicarDescontoSaved` | Controllers/JogosController.cs:163-180 | the corrected `AplicarDesconto`: the same answers in the same order; the table changes only when the discount is accepted, and then the row becomes `WithDiscount(row, d)`; keys and price consistency are kept |
| `Controller.JogosController.RemoverDesconto` | Controllers/JogosController.cs:183-200 | unknown id gives NotFound("Jogo não encontrado."); a null original price throws before saving; otherwise the row becomes `WithoutDiscount(row)`, is saved and returned |
| `Controller.JogosController.RemoverDescontoTwice` | Controllers/JogosController.cs:183-200 | a second `RemoverDesconto` answers the same as the first and leaves the same table |
| `Controller.JogosController.UploadGameBanner` | Controllers/JogosController.cs:86-123 | each rejection answers with its own message (`RejectionMessage`): NotFound for an unknown game, BadRequest otherwise; no rejection changes a file. The first three change no directory; an extension rejection may have created the games folder. An accepted upload is named after the requested `jogoId` plus the lower-cased extension, leaves exactly the payload at the target path, keeps every other file, and returns `"Resources/Games/" + <id text> + <extension>` on either platform; the table is never written |
| `Controller.UploadTwiceKeepsOldBanner` | Controllers/JogosController.cs:108-119 | two accepted `UploadGameBanner` calls for one game with different lower-cased extensions write two different files, and both remain afterwards, each with its own payload |
| `Controller.ApplyThenRemoveDiscount` | Controllers/JogosController.cs:163-200 | `AplicarDesconto` then `RemoverDesconto`: an unknown id gives the two NotFound answers and an unchanged table; a null original price makes the removal throw with the table unchanged; otherwise the accepted discount is answered as `WithDiscount(row, d)`, and the table ends as removal alone leaves it, the row back at its original price with no discount and every other row untouched |

## Left out

- Persistence mechanics: change tracking, `EntityState.Modified`, transactions and migrations. A concurrency conflict on a row that exists is an input (`saveConflicts`), because only the database decides it. Rows are models of a table, not tracked objects that other requests share.
- Controller.JogosController.PostJogo: does not model Entity Framework generating a key for an empty `Guid`. The submitted key is used as it is.
- Controller.JogosController.RemoverDesconto: does not model a concurrency exception from its `SaveChangesAsync`. Nothing catches one, and a single request cannot cause it.
- `GetJogos`: ignored. It returns every row, in an order the database chooses.
- Real file I/O: `FileStream`, `CopyToAsync`, async/await, and a crash between the delete and the write. Files are a map from path to bytes, and the write stores the whole payload.
- Controller.WithGamesFolder: adds only `Resources` and `Resources/Games`. It assumes the content root itself exists, whereas `Directory.CreateDirectory` creates any missing ancestor.
- Strings.ToLowerAscii: lower-cases ASCII letters only. `string.ToLower()` follows the current culture.
- Strings.StartsWith: compares ordinally. `string.StartsWith(string)` compares by the current culture.
- Null `IFormFile.FileName` or `ContentType`: not modelled. Either would throw a null-reference exception.
- Paths.Combine: models the two-argument form. The three-argument `Path.Combine` calls are modelled as nested two-argument calls, which agree on the relative segments used here.
- Pricing.Discounted: does not model the range and the 28-digit precision of `decimal`. `Preco * (Desconto / 100)` can overflow for a huge discount, where .NET throws.
- Routing, dependency injection and Identity (`_userManager`, `_roleManager`): no rules.
- Automatic model validation by `[ApiController]` (line 16): it answers 400 before `PutJogo` or `PostJogo` runs when the `Jogo` body fails the checks declared in `Jogo.cs`. `Jogo.cs` is not part of this model, so the model assumes no such checks and every body reaches the action.
- `Models/Jogo.cs` is not part of this model. The type of `Jogo.Desconto` is assumed to be `int`, and `Pricing.Normalise` truncates accordingly. A `decimal` column would make the division at lines 63 and 135 exact.
- `Models/Carrinho.cs`: a property bag with no methods. Nothing derives its total.
