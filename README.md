# Adroit URL shortener: link store and creation protocol in Dafny

This project models the core of the Adroit URL shortener and proves properties of it:

- **`Repository`** models the in-memory link store. It keeps three dictionaries in step:
  - the entries keyed by the lower-cased short code;
  - the same entries keyed by id;
  - for each long URL, the bag of lower-cased codes that point at it.

  It supports insert-if-absent, case-insensitive lookup and existence checks, delete, update in place, listing and counting. The class `InMemoryUrlRepository` holds the three dictionaries as `map` fields. Its methods are specified through pure functions on a `Store` value (`Added`, `Deleted`, `Updated`). The lemmas show that these functions keep the three indices in agreement (`IndicesAgree`).
- **`UrlService`** models creation of a short link:
  - validate the URL;
  - validate a custom code, then reject it if it already exists in any letter case;
  - otherwise, up to five generate-and-check attempts.

  It also models resolving, deleting and click counting. The decision part is the pure function `ChooseCode`. The class `UrlService` holds the repository and runs the retry loop `GenerateUniqueShortCode` against `ChooseCode`.
- **`ShortCodeGenerator`** maps random bytes into the 62-character alphabet (`Base62Chars[b % 62]`) and validates code format. Every generated code of an allowed length passes the validator.
- **`Entities`** holds the `ShortUrl` entity. Its click counter is a 64-bit `long` that starts at 0 and goes up by exactly one per click, with `Interlocked.Increment`'s wrap-around at the top.
- **`RedirectController`** holds `IsReservedPath`, the filter for path segments that are never looked up as short codes.
- **`Text`** holds the .NET string operations used above: whitespace, ASCII `ToLowerInvariant`, case-insensitive equality and prefix tests.
- **`Wrappers`** holds `Option` for C# nulls and `Result` for thrown exceptions.

Randomness is a parameter: each call to `Generate()` reads one caller-supplied "draw" of bytes. Clock readings are opaque `Timestamp` values passed in. A new entry's `Guid` is any id that no stored entry holds.

## Model

| member | source | states |
|---|---|---|
| Text.ToLowerInvariant | Adroit.Data/Repositories/InMemoryUrlRepository.cs:148-151 | lower-casing keeps the length, leaves no upper-case ASCII letter and changes no other character |
| Text.ToLowerInvariantIdempotent | Adroit.API/Controllers/RedirectController.cs:77 | lower-casing an already lower-cased string changes nothing |
| Text.EqualsIgnoreCaseIffSameLower | Adroit.Data/Repositories/InMemoryUrlRepository.cs:148-151 | two codes are equal ignoring case exactly when their normalised keys are equal |
| Text.EqualsIgnoreCasePreservesBlank | Adroit.Data/Repositories/InMemoryUrlRepository.cs:87-90 | case variants of a code are either both blank or both not blank |
| Entities.IncrementAddsOne | Adroit.Core/Entities/ShortUrl.cs:32-34 | below the largest `long`, one increment adds exactly 1, so the counter goes up |
| Entities.IncrementsAccumulate | Adroit.Core/Entities/ShortUrl.cs:32-34 | n increments from c give c + n while that fits in a `long` |
| Entities.ShortUrl.Empty | Adroit.Core/Entities/ShortUrl.cs:18-21 | the parameterless constructor starts with 0 clicks and no access time |
| Entities.ShortUrl.constructor | Adroit.Core/Entities/ShortUrl.cs:23-27 | the two-argument constructor stores code and long URL unchanged, with 0 clicks and no access time |
| Entities.ShortUrl.IncrementClickCount | Adroit.Core/Entities/ShortUrl.cs:32-36 | the counter takes the wrapping increment (+1 below the maximum); the access time is set; nothing else changes |
| ShortCodeGenerator.Base62CharsLiteral | Adroit.Infrastructure/Utilities/ShortCodeGenerator.cs:10 | the alphabet is exactly the literal a–z, A–Z, 0–9 |
| ShortCodeGenerator.Base62CharsAreAlphanumerics | Adroit.Infrastructure/Utilities/ShortCodeGenerator.cs:9-10 | a character is in the alphabet iff it is an ASCII letter or digit |
| ShortCodeGenerator.Base62Char | Adroit.Infrastructure/Utilities/ShortCodeGenerator.cs:39 | `b % 62` always indexes the alphabet, so every byte yields an alphabet character |
| ShortCodeGenerator.Base62Encode | Adroit.Infrastructure/Utilities/ShortCodeGenerator.cs:36-40 | one output character per input byte |
| ShortCodeGenerator.IsValidShortCode | Adroit.Infrastructure/Utilities/ShortCodeGenerator.cs:50-60 | accepts a code exactly when its length is in [4, 12] and every character is in the alphabet; the blank check never decides on its own |
| ShortCodeGenerator.AlphabetCodeIsNotBlank | Adroit.Infrastructure/Utilities/ShortCodeGenerator.cs:52-59 | a non-empty string drawn from the alphabet is not blank |
| ShortCodeGenerator.Generate | Adroit.Infrastructure/Utilities/ShortCodeGenerator.cs:21-43 | fails iff the length is outside [4, 12]; otherwise maps each byte into the alphabet, giving a valid code of that length |
| ShortCodeGenerator.GeneratedCodeIsValid | Adroit.Infrastructure/Utilities/ShortCodeGenerator.cs:21-60 | every code generated with a length in [4, 12] passes `IsValidShortCode` |
| ShortCodeGenerator.AlphabetHasNoWhiteSpace | Adroit.Infrastructure/Utilities/ShortCodeGenerator.cs:52-59 | no alphabet character is whitespace |
| ShortCodeGenerator.ValidShortCodeIff | Adroit.Infrastructure/Utilities/ShortCodeGenerator.cs:50-60 | a code is valid iff its length is in [4, 12] and all its characters are ASCII letters or digits |
| ShortCodeGenerator.ValidShortCodeExcludes | Adroit.Infrastructure/Utilities/ShortCodeGenerator.cs:58-59 | a valid code contains no character outside the alphabet ('-', '_', ' ', '.') |
| ShortCodeGenerator.AcceptedCodeExamples | Adroit.Tests/Utilities/ShortCodeGeneratorTests.cs:79-83 | "abc1234", "ABCD", "abcd" and "1234567890AB" are valid |
| ShortCodeGenerator.RejectedCodeExamples | Adroit.Tests/Utilities/ShortCodeGeneratorTests.cs:84-90 | too short, too long, hyphen, underscore, space and empty are all rejected |
| Repository.NormalizeCode | Adroit.Data/Repositories/InMemoryUrlRepository.cs:148-151 | the storage key equals the code ignoring case and has no upper-case letter, i.e. it is the code's lower-case variant |
| Repository.WithCode | Adroit.Data/Repositories/InMemoryUrlRepository.cs:76-80 | the code's count in its long URL's bucket rises by one; no other count changes; the bucket exists and is non-empty |
| Repository.WithoutCode | Adroit.Data/Repositories/InMemoryUrlRepository.cs:100-111 | every copy of the code leaves that bucket; all other codes and buckets stay; the bucket is dropped iff nothing remains |
| Repository.AddKeepsIndicesAgreeing | Adroit.Data/Repositories/InMemoryUrlRepository.cs:59-83 | a successful add with a fresh id keeps the three indices in agreement |
| Repository.AddKeepsIdsAgreeing | Adroit.Data/Repositories/InMemoryUrlRepository.cs:67-73 | adding under a new code and a new id keeps the id map in step with the primary map |
| Repository.AddKeepsLongUrlIndexAgreeing | Adroit.Data/Repositories/InMemoryUrlRepository.cs:64-80 | adding a new code puts it exactly once into its long URL's bucket and nowhere else |
| Repository.DeleteKeepsIndicesAgreeing | Adroit.Data/Repositories/InMemoryUrlRepository.cs:85-119 | a delete keeps the three indices in agreement |
| Repository.RemoveKeepsIndicesAgreeing | Adroit.Data/Repositories/InMemoryUrlRepository.cs:92-113 | removing a stored code from all three indices keeps them in agreement |
| Repository.ReplaceKeepsIndicesAgreeing | Adroit.Data/Repositories/InMemoryUrlRepository.cs:129-141 | an update of the stored entry (same code, id and long URL) keeps the indices in agreement and the key set unchanged |
| Repository.ReplaceKeepsIdsAgreeing | Adroit.Data/Repositories/InMemoryUrlRepository.cs:137-138 | writing the entry back under its code and id keeps the id map in step |
| Repository.ReplaceKeepsLongUrlIndexAgreeing | Adroit.Data/Repositories/InMemoryUrlRepository.cs:137 | replacing an entry with one of the same long URL leaves the buckets correct |
| Repository.BucketIsExactlyMatchingCodes | Adroit.Data/Repositories/InMemoryUrlRepository.cs:15-16 | a long URL's bucket holds a code iff that code is stored with that long URL, and then exactly once |
| Repository.AddRejectsDuplicates | Adroit.Data/Repositories/InMemoryUrlRepository.cs:64-70 | add fails iff some stored entry's code equals the new code ignoring case, with the "already exists" error |
| Repository.AddGrowsByOne | Adroit.Data/Repositories/InMemoryUrlRepository.cs:67-80 | a successful add stores the entry under its code, keeps all old entries, and grows the count by exactly one |
| Repository.CaseVariantsCollide | Adroit.Tests/Repositories/InMemoryUrlRepositoryTests.cs:44-53 | after adding "ABC1234", adding a case variant fails, and looking up the variant finds the first entry with its original spelling |
| Repository.DeleteLeavesNoCaseVariant | Adroit.Data/Repositories/InMemoryUrlRepository.cs:85-127 | delete changes nothing iff the code is blank or absent; afterwards no case variant of it exists |
| Repository.AddThenDeleteRestores | Adroit.Data/Repositories/InMemoryUrlRepository.cs:59-119 | deleting the code just added restores the previous store exactly |
| Repository.WithoutCodeUndoesWithCode | Adroit.Data/Repositories/InMemoryUrlRepository.cs:100-111 | taking a code out of a bucket it was just put into restores the long-URL index |
| Repository.StoredIffSomeEntryMatches | Adroit.Data/Repositories/InMemoryUrlRepository.cs:121-127 | a normalised key is stored iff some stored entry's code equals the code ignoring case |
| Repository.EntryCountIsIdCount | Adroit.Data/Repositories/InMemoryUrlRepository.cs:143-146 | with the indices in agreement, the primary map and the id map have the same size |
| Repository.KeysMatchCodesIsInjective | Adroit.Data/Repositories/InMemoryUrlRepository.cs:10 | no entry is stored under two keys |
| Repository.ValuesToList | Adroit.Data/Repositories/InMemoryUrlRepository.cs:56 | `Values.ToList()` lists every value once and nothing else, as many items as keys |
| Repository.LookUpAll | Adroit.Data/Repositories/InMemoryUrlRepository.cs:43-47 | the Select/Where chain yields the stored value of every bag element that is a key, each once |
| Repository.NoBucketNoEntries | Adroit.Data/Repositories/InMemoryUrlRepository.cs:41-51 | without a bucket for a long URL, no stored entry has that long URL |
| Repository.BucketHoldsStoredCodesOnce | Adroit.Data/Repositories/InMemoryUrlRepository.cs:41-47 | every code in a bucket is stored and occurs once |
| Repository.BucketEntriesAreEntriesWithLongUrl | Adroit.Data/Repositories/InMemoryUrlRepository.cs:41-48 | the entries looked up from a bucket are exactly the stored entries with that long URL |
| Repository.InMemoryUrlRepository.constructor | Adroit.Data/Repositories/InMemoryUrlRepository.cs:10-16 | the store starts with three empty dictionaries, which agree |
| Repository.InMemoryUrlRepository.Exists | Adroit.Data/Repositories/InMemoryUrlRepository.cs:121-127 | true iff the code is not blank and some stored entry has it, ignoring case |
| Repository.InMemoryUrlRepository.GetByShortCode | Adroit.Data/Repositories/InMemoryUrlRepository.cs:21-28 | finds something iff the code exists; the entry found is stored and its code equals the query ignoring case |
| Repository.InMemoryUrlRepository.GetById | Adroit.Data/Repositories/InMemoryUrlRepository.cs:30-34 | the entry found has that id and is stored; null means no stored entry has the id |
| Repository.InMemoryUrlRepository.GetTotalCount | Adroit.Data/Repositories/InMemoryUrlRepository.cs:143-146 | the number of entries, which equals the number of ids in use |
| Repository.InMemoryUrlRepository.GetAll | Adroit.Data/Repositories/InMemoryUrlRepository.cs:54-57 | lists exactly the stored entries, each once |
| Repository.InMemoryUrlRepository.GetByLongUrl | Adroit.Data/Repositories/InMemoryUrlRepository.cs:36-52 | empty for a blank URL; otherwise exactly the stored entries with that long URL, each once |
| Repository.InMemoryUrlRepository.Add | Adroit.Data/Repositories/InMemoryUrlRepository.cs:59-83 | the new state is `Added` of the old: on a duplicate, the error and no change; otherwise the entry in all three indices |
| Repository.InMemoryUrlRepository.Delete | Adroit.Data/Repositories/InMemoryUrlRepository.cs:85-119 | true iff the code existed; the new state is `Deleted` of the old; the indices still agree; no case variant exists afterwards |
| Repository.InMemoryUrlRepository.Update | Adroit.Data/Repositories/InMemoryUrlRepository.cs:129-141 | the entry is stamped and written under its key and id; for the stored entry, the key set and the agreement are kept |
| UrlService.FirstFree | Adroit.Infrastructure/Services/UrlService.cs:120-131 | the attempt found does not collide and lies in range |
| UrlService.FirstFreeIsFirst | Adroit.Infrastructure/Services/UrlService.cs:118-135 | the attempt found is the first without a collision; there is none iff every attempt collides |
| UrlService.FirstFreeAttemptIsFirst | Adroit.Infrastructure/Services/UrlService.cs:118-135 | the same, for the five generated candidates against the stored keys |
| UrlService.AttemptCollidesIffStored | Adroit.Infrastructure/Services/UrlService.cs:122-124 | an attempt collides exactly when the code it generates exists |
| UrlService.CreateErrorCases | Adroit.Infrastructure/Services/UrlService.cs:29-60 | each exception happens exactly in its case: bad URL first; malformed custom code before the existence check; an existing custom code in any case; all five candidates taken |
| UrlService.ChosenCodeIsFreeAndValid | Adroit.Infrastructure/Services/UrlService.cs:37-63 | the chosen code is valid and not stored in any case (so `AddAsync` cannot fail); it is the custom code when given, else the first free candidate |
| UrlService.GenerateCallsCountsCollisions | Adroit.Infrastructure/Services/UrlService.cs:118-135 | the generator runs 1 to 5 times: once per collision, plus once for the free code |
| UrlService.RetriesPastTwoCollisions | Adroit.Tests/Services/UrlServiceTests.cs:135-155 | two collisions and then a free code give the third candidate after three calls |
| UrlService.IsValidUrl | Adroit.Infrastructure/Services/UrlService.cs:137-147 | a URL is accepted exactly when it is an http or https URL with a host (the blank check never decides on its own); an accepted URL is longer than "http://" |
| UrlService.SchemeRulesOutBlank | Adroit.Infrastructure/Services/UrlService.cs:139-146 | a URL with an http(s) scheme is never blank |
| UrlService.SchemeFixesFirstLetter | Adroit.Infrastructure/Services/UrlService.cs:137-147 | an http(s) URL starts with 'h' in either case |
| UrlService.ValidUrlIgnoresCase | Adroit.Infrastructure/Services/UrlService.cs:137-147 | letter case does not affect whether a URL is accepted |
| UrlService.RejectedUrlExamples | Adroit.Tests/Services/UrlServiceTests.cs:82-103 | "", "   ", ftp, javascript: and a bare word are rejected |
| UrlService.AcceptedUrlExample | Adroit.Infrastructure/Services/UrlService.cs:137-147 | "https://example.com" is accepted |
| UrlService.UrlService.constructor | Adroit.Infrastructure/Services/UrlService.cs:17-27 | the service works on the given repository |
| UrlService.UrlService.GenerateUniqueShortCode | Adroit.Infrastructure/Services/UrlService.cs:118-135 | the loop returns the first candidate that does not exist, or fails when all five exist; it counts its generator calls |
| UrlService.UrlService.SettleCode | Adroit.Infrastructure/Services/UrlService.cs:31-60 | the code or error is `ChooseCode`; the generator is never called for a bad URL or a custom code |
| UrlService.UrlService.StoreNewEntry | Adroit.Infrastructure/Services/UrlService.cs:62-66 | a fresh entry with the code, the long URL and 0 clicks is added; the code then resolves to it |
| UrlService.UrlService.CreateShortUrl | Adroit.Infrastructure/Services/UrlService.cs:29-67 | errors exactly as `ChooseCode` says, with no change; on success a fresh entry with the chosen code and 0 clicks is added, and the code resolves to the long URL |
| UrlService.UrlService.GetLongUrl | Adroit.Infrastructure/Services/UrlService.cs:69-73 | some long URL iff the code exists; it is the long URL of the entry matching the code ignoring case |
| UrlService.UrlService.GetUrlDetails | Adroit.Infrastructure/Services/UrlService.cs:75-78 | some entry iff the code exists; that entry is stored and matches the code ignoring case |
| UrlService.UrlService.DeleteShortUrl | Adroit.Infrastructure/Services/UrlService.cs:80-94 | answers whether the code existed, as the repository does; afterwards the code no longer resolves |
| UrlService.UrlService.GetAllUrls | Adroit.Infrastructure/Services/UrlService.cs:96-99 | exactly the stored entries, each once |
| UrlService.UrlService.GetUrlsByLongUrl | Adroit.Infrastructure/Services/UrlService.cs:101-104 | exactly the stored entries with that long URL, each once |
| UrlService.UrlService.RecordClick | Adroit.Infrastructure/Services/UrlService.cs:106-116 | a found entry gets +1 click, an access and update time, and no other object changes; an unknown code changes nothing |
| RedirectController.IsReservedPath | Adroit.API/Controllers/RedirectController.cs:61-88 | reserved exactly when the path is empty, contains '.', or its first characters equal one of the six reserved prefixes ignoring case |
| RedirectController.ReservedPrefixIsHeadMatch | Adroit.API/Controllers/RedirectController.cs:77-81 | the lower-cased path starts with a reserved prefix iff the path's head equals that prefix ignoring case |
| RedirectController.ReservedPathsAreLowerCase | Adroit.API/Controllers/RedirectController.cs:67-75 | every reserved prefix is already lower case |
| RedirectController.ReservedPrefixIgnoresCase | Adroit.API/Controllers/RedirectController.cs:77-81 | testing the lower-cased path for a prefix means comparing its head with the prefix ignoring case |
| RedirectController.ReservedPathIgnoresCase | Adroit.API/Controllers/RedirectController.cs:61-88 | paths equal ignoring case are reserved alike |
| RedirectController.ValidCodeReservedIffPrefix | Adroit.API/Controllers/RedirectController.cs:77-85 | a valid short code is reserved iff it starts with a reserved prefix (it never contains '.') |
| RedirectController.ApiLikeCodeIsReserved | Adroit.API/Controllers/RedirectController.cs:77-81 | "Api123" is a valid code and yet reserved |
| RedirectController.ReservedPathExamples | Adroit.API/Controllers/RedirectController.cs:61-88 | the empty path, "swagger", "favicon.ico" and "index.html" are reserved |
| RedirectController.OrdinaryCodeIsNotReserved | Adroit.API/Controllers/RedirectController.cs:61-88 | "abc1234" is not reserved |
| RedirectController.IssuedCodeCanBeReserved | Adroit.API/Controllers/RedirectController.cs:30-33 | creation accepts the custom code "api1234", which the redirect then turns away |

## Left out

- Concurrency is not modelled. The model is sequential: `ConcurrentDictionary`, `ConcurrentBag`, the index lock and `Interlocked` become plain maps, multisets and fields. `async`/`Task`, the race between the existence check and the add, and the fire-and-forget click recording are out of scope.
- `Uri.TryCreate` is a .NET parser and is not modelled. `IsValidUrl` stands in for it: a non-blank string whose lower-cased form starts with `http://` or `https://`, followed by at least one character that is not '/'. Whitespace trimming, ports, IPv6 hosts and the other rules of section 3 of RFC 3986 are not modelled.
- `RandomNumberGenerator` is replaced by caller-supplied bytes: one draw of at least 7 bytes for each of the five attempts. No claim is made about randomness or uniqueness.
- `DateTime.UtcNow` readings are opaque `Timestamp` parameters. `RecordClick` uses one reading for both the access time and the update time; the source takes two readings.
- The `BaseEntity` class is not part of this model. Its `Id`, `CreatedAt` and `UpdatedAt` are fields of `ShortUrl`; a `Guid` is a `nat` compared only for equality.
- `ShortUrl.ShortCode` and `ShortUrl.LongUrl` are constants: the source's public setters are never used by the core after construction.
- Null arguments are not modelled: the `ArgumentNullException` of `AddAsync` and `UpdateAsync` for a null entry, and null strings. The one exception is the optional custom code, modelled as `Option`.
- `ToLowerInvariant` is modelled over ASCII only; full Unicode case mapping is out of scope. `char.IsWhiteSpace` is the Unicode White_Space set.
- Enumeration order of `GetAll` and `GetByLongUrl` is not modelled; the dictionary and bag orders are unspecified. The results are stated by membership, with no repeats and, for `GetAll`, the count.
- RedirectController.IsReservedPath: prefixes are compared character by character, whereas the one-argument `string.StartsWith` compares under the current culture, which ignores characters such as the soft hyphen. The two agree on paths without ignorable or combining characters, hence on every valid short code.
- Logging, `UrlsController`, `Program.cs` and its redirect middleware, the SQL repository, DTOs and the web frontend are not part of this model.
- UrlService.UrlService.CreateShortUrl: the new entry's id is chosen as one no stored entry holds, so a `Guid.NewGuid()` collision is not modelled.
- UrlService.UrlService.CreateShortUrl: the `InvalidOperationException` that `AddAsync` could throw is not an error case. It is proved never to occur in sequential use.
- UrlService.UrlService.GenerateUniqueShortCode: the number of `Generate()` calls is a ghost out-parameter standing for the tests' call counting.
- Repository.InMemoryUrlRepository.Update: agreement of the indices is promised only when the argument is the stored entry for its code (same id and long URL), which is how the service uses it. For any other argument, only the new state is given.
- Repository.InMemoryUrlRepository.Add: agreement of the indices afterwards is promised only when the entry's id is not in use. With a repeated id, the source's ignored `TryAdd` leaves the id map pointing at the older entry.
- Repository.InMemoryUrlRepository.GetTotalCount: the count is a `nat`; the source reads `ConcurrentDictionary.Count`, an `int`, so it is bounded by 2^31 - 1 entries, a limit the model does not impose.
