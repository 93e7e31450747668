/**
 * UrlService: creates short links on top of the repository and the code
 * generator, resolves them, deletes them and counts clicks. Each call to the
 * generator reads its random bytes from one "draw" supplied by the caller,
 * and each new entry's `Guid` is any id no stored entry has.
 */
module UrlService {
  import opened Wrappers
  import opened Text
  import opened Entities
  import opened ShortCodeGenerator
  import opened Repository

  /** How many generated codes are tried before giving up. */
  const MaxRetries: nat := 5

  /** The exceptions `CreateShortUrlAsync` throws, as values. */
  datatype ServiceError =
    | InvalidUrl(url: string)
    | InvalidShortCode(code: string)
    | DuplicateShortCode(code: string)
    | GenerationExhausted

  /** `uri.Scheme == scheme` for an absolute URI: the scheme and "://" (in any letter case) and then a host. */
  predicate HasScheme(url: string, scheme: string) {
    var prefix := scheme + "://";
    && StartsWith(ToLowerInvariant(url), prefix)
    && |url| > |prefix|
    && url[|prefix|] != '/'
  }

  /**
   * `IsValidUrl`: not blank, and an absolute URL whose scheme is http or
   * https. The blank check never decides on its own, and an accepted URL is
   * longer than "http://".
   */
  predicate IsValidUrl(url: string): (valid: bool)
    ensures valid <==> HasScheme(url, "http") || HasScheme(url, "https")
    ensures valid ==> |url| > |"http://"|
  {
    SchemeRulesOutBlank(url, "http");
    SchemeRulesOutBlank(url, "https");
    if IsNullOrWhiteSpace(url) then false
    else HasScheme(url, "http") || HasScheme(url, "https")
  }

  /** `!string.IsNullOrWhiteSpace(customShortCode)`: a custom code was really given. */
  predicate HasCustomCode(customShortCode: Option<string>) {
    customShortCode.Some? && !IsNullOrWhiteSpace(customShortCode.value)
  }

  /** One draw of random bytes for each of the `MaxRetries` calls to `Generate()`. */
  predicate WellFormedDraws(draws: seq<seq<byte>>) {
    |draws| >= MaxRetries && forall i :: 0 <= i < |draws| ==> |draws[i]| >= DefaultLength
  }

  /** The code `Generate()` (default length) produces on attempt `i`. */
  function Candidate(draws: seq<seq<byte>>, i: nat): string
    requires WellFormedDraws(draws) && i < MaxRetries
  {
    Base62Encode(draws[i][..DefaultLength])
  }

  /** Attempt `i` produces a code the store already holds. */
  predicate Collides(keys: set<string>, draws: seq<seq<byte>>, i: nat)
    requires WellFormedDraws(draws) && i < MaxRetries
  {
    Contains(keys, Candidate(draws, i))
  }

  /** For each of the `MaxRetries` attempts, whether it collides. */
  function Collisions(keys: set<string>, draws: seq<seq<byte>>): (c: seq<bool>)
    requires WellFormedDraws(draws)
    ensures |c| == MaxRetries
  {
    seq(MaxRetries, i requires 0 <= i < MaxRetries => Collides(keys, draws, i))
  }

  /** The first attempt from `from` on that does not collide, if any is left. */
  function FirstFree(collided: seq<bool>, from: nat): (r: Option<nat>)
    ensures r.Some? ==> from <= r.value < |collided| && !collided[r.value]
    decreases |collided| - from
  {
    if from >= |collided| then None
    else if !collided[from] then Some(from)
    else FirstFree(collided, from + 1)
  }

  /** What `GenerateUniqueShortCodeAsync` yields: the first free candidate, or the exhaustion error. */
  function GeneratedCode(keys: set<string>, draws: seq<seq<byte>>): Result<string, ServiceError>
    requires WellFormedDraws(draws)
  {
    match FirstFree(Collisions(keys, draws), 0)
    case Some(i) => Ok(Candidate(draws, i))
    case None => Err(GenerationExhausted)
  }

  /** How many times `GenerateUniqueShortCodeAsync` calls `Generate()`. */
  function GenerateCalls(keys: set<string>, draws: seq<seq<byte>>): nat
    requires WellFormedDraws(draws)
  {
    match FirstFree(Collisions(keys, draws), 0)
    case Some(i) => i + 1
    case None => MaxRetries
  }

  /**
   * The code `CreateShortUrlAsync` settles on for a store with primary keys
   * `keys`, or the exception it throws: the URL is checked first; a given
   * custom code is checked for format, then for existence; otherwise a code
   * is generated.
   */
  function ChooseCode(keys: set<string>, longUrl: string, customShortCode: Option<string>, draws: seq<seq<byte>>): Result<string, ServiceError>
    requires WellFormedDraws(draws)
  {
    if !IsValidUrl(longUrl) then Err(InvalidUrl(longUrl))
    else if HasCustomCode(customShortCode) then
      var custom := customShortCode.value;
      if !IsValidShortCode(custom) then Err(InvalidShortCode(custom))
      else if Contains(keys, custom) then Err(DuplicateShortCode(custom))
      else Ok(custom)
    else GeneratedCode(keys, draws)
  }

  /**
   * The first free attempt is free, comes before the retry limit, and every
   * earlier attempt collided; there is none exactly when all attempts collide.
   */
  lemma {:induction false} FirstFreeIsFirst(collided: seq<bool>, from: nat)
    ensures FirstFree(collided, from).Some? ==>
      var j := FirstFree(collided, from).value;
      && from <= j < |collided|
      && !collided[j]
      && forall i :: from <= i < j ==> collided[i]
    ensures FirstFree(collided, from).None? <==>
      forall i :: from <= i < |collided| ==> collided[i]
    decreases |collided| - from
  {
    if from < |collided| && collided[from] {
      FirstFreeIsFirst(collided, from + 1);
    }
  }

  /** The same, for the attempts of one call to `GenerateUniqueShortCodeAsync`. */
  lemma FirstFreeAttemptIsFirst(keys: set<string>, draws: seq<seq<byte>>)
    requires WellFormedDraws(draws)
    ensures var f := FirstFree(Collisions(keys, draws), 0);
      && (f.Some? ==> !Collides(keys, draws, f.value) && forall i :: 0 <= i < f.value ==> Collides(keys, draws, i))
      && (f.None? <==> forall i :: 0 <= i < MaxRetries ==> Collides(keys, draws, i))
  {
    var c := Collisions(keys, draws);
    FirstFreeIsFirst(c, 0);
    assert forall i :: 0 <= i < MaxRetries ==> c[i] == Collides(keys, draws, i);
  }

  /**
   * The error cases of `CreateShortUrlAsync`, each exactly: a bad URL before
   * anything else; a malformed custom code before the existence check; a
   * custom code already stored in any letter case; all generated codes taken.
   */
  lemma CreateErrorCases(keys: set<string>, longUrl: string, customShortCode: Option<string>, draws: seq<seq<byte>>)
    requires WellFormedDraws(draws)
    ensures var r := ChooseCode(keys, longUrl, customShortCode, draws);
      && (r == Err(InvalidUrl(longUrl)) <==> !IsValidUrl(longUrl))
      && (r.Err? && r.error.InvalidShortCode? <==>
            IsValidUrl(longUrl) && HasCustomCode(customShortCode) && !IsValidShortCode(customShortCode.value))
      && (r.Err? && r.error.DuplicateShortCode? <==>
            && IsValidUrl(longUrl) && HasCustomCode(customShortCode) && IsValidShortCode(customShortCode.value)
            && Contains(keys, customShortCode.value))
      && (r == Err(GenerationExhausted) <==>
            && IsValidUrl(longUrl) && !HasCustomCode(customShortCode)
            && forall i :: 0 <= i < MaxRetries ==> Collides(keys, draws, i))
  {
    FirstFreeAttemptIsFirst(keys, draws);
  }

  /**
   * A code `CreateShortUrlAsync` settles on is well formed and not stored in
   * any letter case, so the following `AddAsync` cannot fail: the custom code
   * when one was given, otherwise the first generated code that is free.
   */
  lemma ChosenCodeIsFreeAndValid(keys: set<string>, longUrl: string, customShortCode: Option<string>, draws: seq<seq<byte>>)
    requires WellFormedDraws(draws)
    requires ChooseCode(keys, longUrl, customShortCode, draws).Ok?
    ensures var code := ChooseCode(keys, longUrl, customShortCode, draws).value;
      && IsValidUrl(longUrl)
      && IsValidShortCode(code)
      && !Contains(keys, code)
      && NormalizeCode(code) !in keys
      && (HasCustomCode(customShortCode) ==> code == customShortCode.value)
      && (!HasCustomCode(customShortCode) ==>
            exists j :: 0 <= j < MaxRetries && code == Candidate(draws, j) &&
              forall i :: 0 <= i < j ==> Collides(keys, draws, i))
  {
    if !HasCustomCode(customShortCode) {
      FirstFreeAttemptIsFirst(keys, draws);
      var j := FirstFree(Collisions(keys, draws), 0).value;
      GeneratedCodeIsValid(draws[j][..DefaultLength]);
    }
  }

  /** The generator is called at most `MaxRetries` times, and once more for every collision before the free code. */
  lemma GenerateCallsCountsCollisions(keys: set<string>, draws: seq<seq<byte>>)
    requires WellFormedDraws(draws)
    ensures 1 <= GenerateCalls(keys, draws) <= MaxRetries
    ensures GeneratedCode(keys, draws).Ok? ==>
      && !Collides(keys, draws, GenerateCalls(keys, draws) - 1)
      && forall i :: 0 <= i < GenerateCalls(keys, draws) - 1 ==> Collides(keys, draws, i)
  {
    FirstFreeAttemptIsFirst(keys, draws);
  }

  /** Two collisions and then a free code: the third candidate is used, after three calls. */
  lemma RetriesPastTwoCollisions(keys: set<string>, draws: seq<seq<byte>>)
    requires WellFormedDraws(draws)
    requires Collides(keys, draws, 0) && Collides(keys, draws, 1)
    requires !Collides(keys, draws, 2)
    ensures GeneratedCode(keys, draws) == Ok(Candidate(draws, 2))
    ensures GenerateCalls(keys, draws) == 3
  {
    FirstFreeAttemptIsFirst(keys, draws);
  }

  /** A URL with an http(s) scheme begins, in either letter case, with the scheme's first letter. */
  lemma SchemeFixesFirstLetter(url: string, scheme: string)
    requires |scheme| > 0 && HasScheme(url, scheme)
    ensures ToLowerChar(url[0]) == scheme[0]
  {
    var lower := ToLowerInvariant(url);
    assert lower[..|scheme + "://"|][0] == (scheme + "://")[0];
  }

  /** A URL with an http(s) scheme is not blank: it begins with 'h' or 'H'. */
  lemma SchemeRulesOutBlank(url: string, scheme: string)
    requires |scheme| > 0 && scheme[0] == 'h'
    ensures HasScheme(url, scheme) ==> !IsNullOrWhiteSpace(url)
  {
    if HasScheme(url, scheme) {
      SchemeFixesFirstLetter(url, scheme);
      assert !IsWhiteSpace(url[0]);
    }
  }

  /** Letter case makes no difference to whether a URL is accepted. */
  lemma ValidUrlIgnoresCase(a: string, b: string)
    requires EqualsIgnoreCase(a, b)
    ensures IsValidUrl(a) <==> IsValidUrl(b)
  {
    EqualsIgnoreCasePreservesBlank(a, b);
    EqualsIgnoreCaseIffSameLower(a, b);
    if |a| > 7 {
      assert SameLetterIgnoringCase(a[7], b[7]);
    }
    if |a| > 8 {
      assert SameLetterIgnoringCase(a[8], b[8]);
    }
  }

  /** Blank input and the non-web schemes are turned down. */
  lemma RejectedUrlExamples()
    ensures !IsValidUrl("") && !IsValidUrl("   ")
    ensures !IsValidUrl("ftp://example.com")
    ensures !IsValidUrl("javascript:alert(1)")
    ensures !IsValidUrl("not-a-valid-url")
  {
    assert IsWhiteSpace("   "[0]) && IsWhiteSpace("   "[1]) && IsWhiteSpace("   "[2]);
    forall url | url in ["ftp://example.com", "javascript:alert(1)", "not-a-valid-url"]
      ensures !HasScheme(url, "http") && !HasScheme(url, "https")
    {
      if HasScheme(url, "http") {
        SchemeFixesFirstLetter(url, "http");
      }
      if HasScheme(url, "https") {
        SchemeFixesFirstLetter(url, "https");
      }
    }
  }

  /** A plain https address is accepted. */
  lemma AcceptedUrlExample()
    ensures IsValidUrl("https://example.com")
  {
    var url := "https://example.com";
    assert ToLowerInvariant(url)[..8] == url[..8] == "https://";
    assert HasScheme(url, "https");
  }

  /** Attempt `i` collides exactly when the code it generates is stored. */
  lemma AttemptCollidesIffStored(keys: set<string>, draws: seq<seq<byte>>, i: nat, code: string)
    requires WellFormedDraws(draws) && i < MaxRetries
    requires code == Base62Encode(draws[i][..DefaultLength])
    ensures Collisions(keys, draws)[i] <==> Contains(keys, code)
  {
  }

  /** A new `Guid`: some value greater than every id in use. */
  ghost function IdBound(used: set<Guid>): (g: Guid)
    ensures forall id :: id in used ==> id < g
    decreases used
  {
    if used == {} then 0
    else
      var x :| x in used;
      var rest := IdBound(used - {x});
      assert forall id :: id in used ==> id == x || id in used - {x};
      if x < rest then rest else x + 1
  }

  /** Writing back the value a key already holds leaves a map as it was. */
  lemma PutSameValue<K, V>(m: map<K, V>, k: K)
    requires k in m
    ensures m[k := m[k]] == m
  {
  }

  class UrlService {
    const repo: InMemoryUrlRepository

    constructor (repository: InMemoryUrlRepository)
      ensures repo == repository
    {
      repo := repository;
    }

    /**
     * `GenerateUniqueShortCodeAsync`: up to `MaxRetries` calls to `Generate()`,
     * returning the first code the repository does not hold.
     */
    method GenerateUniqueShortCode(draws: seq<seq<byte>>) returns (r: Result<string, ServiceError>, ghost generateCalls: nat)
      requires repo.Valid() && WellFormedDraws(draws)
      ensures r == GeneratedCode(repo.urlsByShortCode.Keys, draws)
      ensures generateCalls == GenerateCalls(repo.urlsByShortCode.Keys, draws)
    {
      generateCalls := 0;
      ghost var collided := Collisions(repo.urlsByShortCode.Keys, draws);
      for i := 0 to MaxRetries
        invariant FirstFree(collided, i) == FirstFree(collided, 0)
        invariant generateCalls == i
      {
        var generated := Generate(DefaultLength, draws[i]);
        var code := generated.value;
        generateCalls := generateCalls + 1;
        AttemptCollidesIffStored(repo.urlsByShortCode.Keys, draws, i, code);
        if !repo.Exists(code) {
          return Ok(code), generateCalls;
        }
      }
      return Err(GenerationExhausted), generateCalls;
    }

    /**
     * The first half of `CreateShortUrlAsync`: checks the URL, then either
     * checks the custom code for format and existence or generates one. The
     * generator is not called unless the URL is valid and no custom code is given.
     */
    method SettleCode(longUrl: string, customShortCode: Option<string>, draws: seq<seq<byte>>)
      returns (r: Result<string, ServiceError>, ghost generateCalls: nat)
      requires repo.Valid() && WellFormedDraws(draws)
      ensures r == ChooseCode(repo.urlsByShortCode.Keys, longUrl, customShortCode, draws)
      ensures generateCalls ==
        if IsValidUrl(longUrl) && !HasCustomCode(customShortCode) then GenerateCalls(repo.urlsByShortCode.Keys, draws) else 0
    {
      generateCalls := 0;
      if !IsValidUrl(longUrl) {
        r := Err(InvalidUrl(longUrl));
      } else if HasCustomCode(customShortCode) {
        var custom := customShortCode.value;
        if !IsValidShortCode(custom) {
          r := Err(InvalidShortCode(custom));
        } else if repo.Exists(custom) {
          r := Err(DuplicateShortCode(custom));
        } else {
          r := Ok(custom);
        }
      } else {
        r, generateCalls := GenerateUniqueShortCode(draws);
      }
    }

    /**
     * The second half of `CreateShortUrlAsync`: a new entry with the code, the
     * long URL, a fresh id and no clicks goes into the repository, which
     * accepts it because the code is not stored; the code then resolves to it.
     */
    method StoreNewEntry(shortCode: string, longUrl: string, now: Timestamp) returns (shortUrl: ShortUrl)
      requires repo.Valid()
      requires !IsNullOrWhiteSpace(shortCode) && !Contains(repo.urlsByShortCode.Keys, shortCode)
      modifies repo
      ensures repo.Valid()
      ensures fresh(shortUrl)
      ensures shortUrl.ShortCode == shortCode && shortUrl.LongUrl == longUrl
      ensures shortUrl.ClickCount == 0 && shortUrl.LastAccessedAt == None && shortUrl.UpdatedAt == None
      ensures shortUrl.CreatedAt == now && shortUrl.Id !in old(repo.urlsById)
      ensures Added(old(repo.State()), shortUrl) == Ok(repo.State())
      ensures GetUrlDetails(shortCode) == Some(shortUrl)
    {
      ghost var st := repo.State();
      ghost var bound := IdBound(repo.urlsById.Keys);
      assert bound !in repo.urlsById;
      var id :| id !in repo.urlsById;
      shortUrl := new ShortUrl(shortCode, longUrl, id, now);
      var _ := repo.Add(shortUrl);
      AddGrowsByOne(st, shortUrl);
    }

    /**
     * `CreateShortUrlAsync`: settles on a code as `ChooseCode` says, then
     * stores a new entry with that code and the given long URL and no clicks,
     * which the code then resolves to. On an error nothing is stored.
     */
    method CreateShortUrl(longUrl: string, customShortCode: Option<string>, draws: seq<seq<byte>>, now: Timestamp)
      returns (r: Result<ShortUrl, ServiceError>, ghost generateCalls: nat)
      requires repo.Valid() && WellFormedDraws(draws)
      modifies repo
      ensures repo.Valid()
      ensures var outcome := ChooseCode(old(repo.urlsByShortCode.Keys), longUrl, customShortCode, draws);
        && (r.Err? <==> outcome.Err?)
        && (r.Err? ==> r.error == outcome.error && repo.State() == old(repo.State()))
        && (r.Ok? ==>
              && fresh(r.value)
              && r.value.ShortCode == outcome.value && r.value.LongUrl == longUrl
              && r.value.ClickCount == 0 && r.value.LastAccessedAt == None && r.value.UpdatedAt == None
              && r.value.CreatedAt == now && r.value.Id !in old(repo.urlsById)
              && Added(old(repo.State()), r.value) == Ok(repo.State()))
      ensures r.Ok? ==> GetLongUrl(r.value.ShortCode) == Some(longUrl)
      ensures generateCalls ==
        if IsValidUrl(longUrl) && !HasCustomCode(customShortCode) then GenerateCalls(old(repo.urlsByShortCode.Keys), draws) else 0
    {
      var chosen;
      chosen, generateCalls := SettleCode(longUrl, customShortCode, draws);
      if chosen.Err? {
        return Err(chosen.error), generateCalls;
      }
      ChosenCodeIsFreeAndValid(repo.urlsByShortCode.Keys, longUrl, customShortCode, draws);
      var shortUrl := StoreNewEntry(chosen.value, longUrl, now);
      return Ok(shortUrl), generateCalls;
    }

    /** `GetLongUrlAsync`: the long URL of the entry the code resolves to, or null. */
    function GetLongUrl(shortCode: string): (r: Option<string>)
      reads repo
      requires repo.Valid()
      ensures r.Some? <==> repo.Exists(shortCode)
      ensures r.Some? ==>
        exists e :: e in repo.urlsByShortCode.Values && EqualsIgnoreCase(e.ShortCode, shortCode) && e.LongUrl == r.value
    {
      match repo.GetByShortCode(shortCode)
      case Some(e) => Some(e.LongUrl)
      case None => None
    }

    /** `GetUrlDetailsAsync`: the entry the code resolves to, or null. */
    function GetUrlDetails(shortCode: string): (r: Option<ShortUrl>)
      reads repo
      requires repo.Valid()
      ensures r.Some? <==> repo.Exists(shortCode)
      ensures r.Some? ==> r.value in repo.urlsByShortCode.Values && EqualsIgnoreCase(r.value.ShortCode, shortCode)
    {
      repo.GetByShortCode(shortCode)
    }

    /** `DeleteShortUrlAsync`: the repository's answer; afterwards the code no longer resolves. */
    method DeleteShortUrl(shortCode: string) returns (deleted: bool)
      requires repo.Valid()
      modifies repo
      ensures repo.Valid()
      ensures deleted <==> old(repo.Exists(shortCode))
      ensures repo.State() == if deleted then Deleted(old(repo.State()), shortCode).value else old(repo.State())
      ensures GetLongUrl(shortCode) == None
    {
      deleted := repo.Delete(shortCode);
      assert EqualsIgnoreCase(shortCode, shortCode);
    }

    /** `GetAllUrlsAsync`: every stored entry once. */
    method GetAllUrls() returns (urls: seq<ShortUrl>)
      requires repo.Valid()
      ensures forall e :: e in urls <==> e in repo.urlsByShortCode.Values
      ensures Distinct(urls)
    {
      urls := repo.GetAll();
    }

    /** `GetUrlsByLongUrlAsync`: every stored entry with this long URL, once each. */
    method GetUrlsByLongUrl(longUrl: string) returns (urls: seq<ShortUrl>)
      requires repo.Valid()
      ensures IsNullOrWhiteSpace(longUrl) ==> urls == []
      ensures !IsNullOrWhiteSpace(longUrl) ==>
        forall e :: e in urls <==> e in repo.urlsByShortCode.Values && e.LongUrl == longUrl
      ensures Distinct(urls)
    {
      urls := repo.GetByLongUrl(longUrl);
    }

    /**
     * `RecordClickAsync`: when the code resolves, that entry counts one more
     * click, is stamped, and is written back in place; nothing else changes.
     * When it does not resolve, nothing changes at all.
     */
    method RecordClick(shortCode: string, now: Timestamp)
      requires repo.Valid()
      modifies repo, repo.urlsByShortCode.Values
      ensures repo.Valid()
      ensures repo.State() == old(repo.State())
      ensures old(repo.GetByShortCode(shortCode)).None? ==> unchanged(old(repo.urlsByShortCode.Values))
      ensures old(repo.GetByShortCode(shortCode)).Some? ==>
        var e := old(repo.GetByShortCode(shortCode)).value;
        && e.ClickCount == InterlockedIncrement(old(e.ClickCount))
        && (old(e.ClickCount) as int < Int64Max ==> e.ClickCount as int == old(e.ClickCount) as int + 1)
        && e.LastAccessedAt == Some(now) && e.UpdatedAt == Some(now)
        && unchanged(old(repo.urlsByShortCode.Values) - {e})
    {
      var found := repo.GetByShortCode(shortCode);
      if found.Some? {
        var shortUrl := found.value;
        ghost var st := repo.State();
        shortUrl.IncrementClickCount(now);
        assert ReplacesSameEntry(st, shortUrl);
        var _ := repo.Update(shortUrl, now);
        PutSameValue(st.byCode, NormalizeCode(shortUrl.ShortCode));
        PutSameValue(st.byId, shortUrl.Id);
      }
    }
  }
}
