/**
 * The ShortUrl entity: a short code, its destination and a click counter.
 * Identity and timestamps come from the entity's base class, which is
 * modelled here as the opaque values `Guid` and `Timestamp`.
 */
module Entities {
  import opened Wrappers

  /** A `System.Guid`, compared only for equality. */
  type Guid = nat

  /** A `DateTime.UtcNow` reading, compared only for equality. */
  type Timestamp = nat

  const Int64Max: int := 0x7FFF_FFFF_FFFF_FFFF
  const Int64Min: int := -0x8000_0000_0000_0000

  /** The C# `long` the click counter is stored in. */
  newtype int64 = x: int | -0x8000_0000_0000_0000 <= x < 0x8000_0000_0000_0000

  /** `Interlocked.Increment` on a `long`: one more, wrapping from the largest value to the smallest. */
  function InterlockedIncrement(c: int64): int64 {
    if c as int == Int64Max then Int64Min as int64 else c + 1
  }

  /** The counter after `n` increments starting from `c`. */
  function IncrementedTimes(c: int64, n: nat): int64 {
    if n == 0 then c else InterlockedIncrement(IncrementedTimes(c, n - 1))
  }

  /** Below the top of the `long` range, each increment adds exactly one. */
  lemma IncrementAddsOne(c: int64)
    requires c as int < Int64Max
    ensures InterlockedIncrement(c) as int == c as int + 1
    ensures InterlockedIncrement(c) > c
  {
  }

  /** `n` increments add exactly `n` as long as the sum stays a `long`. */
  lemma {:induction false} IncrementsAccumulate(c: int64, n: nat)
    requires c as int + n <= Int64Max
    ensures IncrementedTimes(c, n) as int == c as int + n
  {
    if n > 0 {
      IncrementsAccumulate(c, n - 1);
      IncrementAddsOne(IncrementedTimes(c, n - 1));
    }
  }

  class ShortUrl {
    const Id: Guid
    const CreatedAt: Timestamp
    const ShortCode: string
    const LongUrl: string
    var ClickCount: int64
    var LastAccessedAt: Option<Timestamp>
    var UpdatedAt: Option<Timestamp>

    /** The parameterless constructor: empty code and destination, no clicks yet. */
    constructor Empty(id: Guid, createdAt: Timestamp)
      ensures Id == id && CreatedAt == createdAt
      ensures ShortCode == "" && LongUrl == ""
      ensures ClickCount == 0 && LastAccessedAt == None && UpdatedAt == None
    {
      Id, CreatedAt := id, createdAt;
      ShortCode, LongUrl := "", "";
      ClickCount := 0;
      LastAccessedAt, UpdatedAt := None, None;
    }

    /** `new ShortUrl(shortCode, longUrl)`: stores both strings as given, no clicks yet. */
    constructor (shortCode: string, longUrl: string, id: Guid, createdAt: Timestamp)
      ensures Id == id && CreatedAt == createdAt
      ensures ShortCode == shortCode && LongUrl == longUrl
      ensures ClickCount == 0 && LastAccessedAt == None && UpdatedAt == None
    {
      Id, CreatedAt := id, createdAt;
      ShortCode, LongUrl := shortCode, longUrl;
      ClickCount := 0;
      LastAccessedAt, UpdatedAt := None, None;
    }

    /** Counts one click and records when it happened; code and destination are constants. */
    method IncrementClickCount(now: Timestamp)
      modifies this
      ensures ClickCount == InterlockedIncrement(old(ClickCount))
      ensures old(ClickCount) as int < Int64Max ==> ClickCount as int == old(ClickCount) as int + 1
      ensures LastAccessedAt == Some(now)
      ensures UpdatedAt == old(UpdatedAt)
    {
      ClickCount := InterlockedIncrement(ClickCount);
      LastAccessedAt := Some(now);
    }
  }
}
