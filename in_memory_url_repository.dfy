/**
 * InMemoryUrlRepository: the link store. Three indices are kept in step:
 * the entries by lower-cased short code, the same entries by id, and for
 * every long URL the bag of lower-cased codes that point at it.
 */
module Repository {
  import opened Wrappers
  import opened Text
  import opened Entities

  /** The `InvalidOperationException` thrown by `AddAsync` for a code that is already stored. */
  datatype RepositoryError = ShortCodeAlreadyExists(shortCode: string)

  /**
   * `NormalizeCode`: the key a code is stored under, which is the code's
   * own case variant that has no upper-case letter.
   */
  function NormalizeCode(code: string): (key: string)
    ensures EqualsIgnoreCase(code, key)
    ensures forall i :: 0 <= i < |key| ==> !IsAsciiUpper(key[i])
  {
    ToLowerInvariant(code)
  }

  /** What `ExistsAsync` answers for a store whose primary keys are `keys`. */
  predicate Contains(keys: set<string>, code: string) {
    !IsNullOrWhiteSpace(code) && NormalizeCode(code) in keys
  }

  /** How many times `code` sits in the bucket of `longUrl` (0 when there is no bucket). */
  function Occurrences(index: map<string, multiset<string>>, longUrl: string, code: string): nat {
    if longUrl in index then index[longUrl][code] else 0
  }

  /** The long-URL index after `code` is added to the bucket of `longUrl`, creating the bucket if needed. */
  function WithCode(index: map<string, multiset<string>>, longUrl: string, code: string): (r: map<string, multiset<string>>)
    ensures forall u, c :: Occurrences(r, u, c) == Occurrences(index, u, c) + (if u == longUrl && c == code then 1 else 0)
    ensures r.Keys == index.Keys + {longUrl}
    ensures r[longUrl] != multiset{}
  {
    if longUrl in index then index[longUrl := index[longUrl] + multiset{code}]
    else index[longUrl := multiset{code}]
  }

  /**
   * The long-URL index after the bucket of `longUrl` is rebuilt without any
   * copy of `code`, and dropped when nothing else remains in it.
   */
  function WithoutCode(index: map<string, multiset<string>>, longUrl: string, code: string): (r: map<string, multiset<string>>)
    ensures forall u, c :: Occurrences(r, u, c) == (if u == longUrl && c == code then 0 else Occurrences(index, u, c))
    ensures r.Keys <= index.Keys
    ensures forall u :: u in index && u != longUrl ==> u in r && r[u] == index[u]
    ensures longUrl in r <==> longUrl in index && index[longUrl][code := 0] != multiset{}
  {
    if longUrl !in index then index
    else
      var remaining := index[longUrl][code := 0];
      if |remaining| == 0 then
        assert forall c :: c != code ==> index[longUrl][c] == remaining[c] == 0;
        index - {longUrl}
      else index[longUrl := remaining]
  }

  /** The three dictionaries of the store, as one value. */
  datatype Store = Store(byCode: map<string, ShortUrl>, byId: map<Guid, ShortUrl>, index: map<string, multiset<string>>)

  /**
   * The store after `AddAsync(s)`: an error when the lower-cased code is
   * already a key; otherwise the entry goes in under that key, under its id
   * unless the id is taken (`TryAdd`), and into its long URL's bucket.
   */
  function Added(st: Store, s: ShortUrl): Result<Store, RepositoryError> {
    var k := NormalizeCode(s.ShortCode);
    if k in st.byCode then Err(ShortCodeAlreadyExists(s.ShortCode))
    else Ok(Store(
      st.byCode[k := s],
      if s.Id in st.byId then st.byId else st.byId[s.Id := s],
      WithCode(st.index, s.LongUrl, k)))
  }

  /**
   * The store after a successful `DeleteAsync(code)`, or `None` when the
   * code is blank or its lower-cased form is not a key (nothing changes).
   */
  function Deleted(st: Store, code: string): Option<Store> {
    if IsNullOrWhiteSpace(code) then None
    else
      var k := NormalizeCode(code);
      if k !in st.byCode then None
      else
        var removed := st.byCode[k];
        Some(Store(st.byCode - {k}, st.byId - {removed.Id}, WithoutCode(st.index, removed.LongUrl, k)))
  }

  /** The store after `UpdateAsync(s)`: `s` under its lower-cased code and under its id; buckets untouched. */
  function Updated(st: Store, s: ShortUrl): Store {
    Store(st.byCode[NormalizeCode(s.ShortCode) := s], st.byId[s.Id := s], st.index)
  }

  /** `s` stands for the stored entry under its code: same id and same long URL. */
  predicate ReplacesSameEntry(st: Store, s: ShortUrl) {
    var k := NormalizeCode(s.ShortCode);
    k in st.byCode && st.byCode[k].Id == s.Id && st.byCode[k].LongUrl == s.LongUrl
  }

  /** Every entry is stored under the lower-cased form of its own code. */
  ghost predicate KeysMatchCodes(byCode: map<string, ShortUrl>) {
    forall k :: k in byCode ==> NormalizeCode(byCode[k].ShortCode) == k
  }

  /** The id map holds exactly the stored entries, each under its own id. */
  ghost predicate IdsAgree(byCode: map<string, ShortUrl>, byId: map<Guid, ShortUrl>) {
    && (forall k :: k in byCode ==> byCode[k].Id in byId && byId[byCode[k].Id] == byCode[k])
    && (forall id :: id in byId ==>
          && byId[id].Id == id
          && NormalizeCode(byId[id].ShortCode) in byCode
          && byCode[NormalizeCode(byId[id].ShortCode)] == byId[id])
  }

  /**
   * Every stored code appears exactly once, in the bucket of its entry's long
   * URL; no bucket holds a code that is not stored; no bucket is empty.
   */
  ghost predicate LongUrlIndexAgrees(byCode: map<string, ShortUrl>, index: map<string, multiset<string>>) {
    && (forall k :: k in byCode ==> Occurrences(index, byCode[k].LongUrl, k) == 1)
    && (forall u, k :: Occurrences(index, u, k) > 0 ==> k in byCode && byCode[k].LongUrl == u)
    && (forall u :: u in index ==> index[u] != multiset{})
  }

  /** The three indices agree: the store's invariant. */
  ghost predicate IndicesAgree(st: Store) {
    KeysMatchCodes(st.byCode) && IdsAgree(st.byCode, st.byId) && LongUrlIndexAgrees(st.byCode, st.index)
  }

  /** Adding an entry under a fresh code and a fresh id keeps the indices in agreement. */
  lemma AddKeepsIndicesAgreeing(st: Store, s: ShortUrl)
    requires IndicesAgree(st)
    requires s.Id !in st.byId
    ensures Added(st, s).Ok? ==> IndicesAgree(Added(st, s).value)
  {
    if NormalizeCode(s.ShortCode) !in st.byCode {
      AddKeepsIdsAgreeing(st.byCode, st.byId, s);
      AddKeepsLongUrlIndexAgreeing(st.byCode, st.index, s);
    }
  }

  lemma AddKeepsIdsAgreeing(byCode: map<string, ShortUrl>, byId: map<Guid, ShortUrl>, s: ShortUrl)
    requires KeysMatchCodes(byCode) && IdsAgree(byCode, byId)
    requires NormalizeCode(s.ShortCode) !in byCode && s.Id !in byId
    ensures var k := NormalizeCode(s.ShortCode);
      KeysMatchCodes(byCode[k := s]) && IdsAgree(byCode[k := s], byId[s.Id := s])
  {
  }

  lemma AddKeepsLongUrlIndexAgreeing(byCode: map<string, ShortUrl>, index: map<string, multiset<string>>, s: ShortUrl)
    requires LongUrlIndexAgrees(byCode, index)
    requires NormalizeCode(s.ShortCode) !in byCode
    ensures var k := NormalizeCode(s.ShortCode);
      LongUrlIndexAgrees(byCode[k := s], WithCode(index, s.LongUrl, k))
  {
    var k := NormalizeCode(s.ShortCode);
    var c', x' := byCode[k := s], WithCode(index, s.LongUrl, k);
    forall u, k2 | Occurrences(x', u, k2) > 0 ensures k2 in c' && c'[k2].LongUrl == u {
      if !(u == s.LongUrl && k2 == k) {
        assert Occurrences(index, u, k2) > 0;
      }
    }
    forall k2 | k2 in c' ensures Occurrences(x', c'[k2].LongUrl, k2) == 1 {
      if k2 != k {
        assert Occurrences(index, byCode[k2].LongUrl, k2) == 1;
      } else {
        assert Occurrences(index, s.LongUrl, k) == 0;
      }
    }
  }

  /** Removing a stored entry from all three indices keeps them in agreement. */
  lemma DeleteKeepsIndicesAgreeing(st: Store, code: string)
    requires IndicesAgree(st)
    ensures Deleted(st, code).Some? ==> IndicesAgree(Deleted(st, code).value)
  {
    if Deleted(st, code).Some? {
      RemoveKeepsIndicesAgreeing(st.byCode, st.byId, st.index, NormalizeCode(code));
    }
  }

  lemma RemoveKeepsIndicesAgreeing(byCode: map<string, ShortUrl>, byId: map<Guid, ShortUrl>, index: map<string, multiset<string>>, k: string)
    requires IndicesAgree(Store(byCode, byId, index))
    requires k in byCode
    ensures IndicesAgree(Store(byCode - {k}, byId - {byCode[k].Id}, WithoutCode(index, byCode[k].LongUrl, k)))
  {
    var e := byCode[k];
    var c', i', x' := byCode - {k}, byId - {e.Id}, WithoutCode(index, e.LongUrl, k);
    forall id | id in i'
      ensures NormalizeCode(i'[id].ShortCode) in c' && c'[NormalizeCode(i'[id].ShortCode)] == i'[id]
    {
      assert NormalizeCode(byId[id].ShortCode) != k;
    }
    forall u | u in x' ensures x'[u] != multiset{} {
      if u == e.LongUrl {
        assert x'[u] == index[u][k := 0];
      }
    }
    forall u, k2 | Occurrences(x', u, k2) > 0 ensures k2 in c' && c'[k2].LongUrl == u {
      assert Occurrences(index, u, k2) > 0;
    }
  }

  /**
   * Putting an object in place of the stored entry with the same code, id
   * and long URL keeps the indices in agreement.
   */
  lemma ReplaceKeepsIndicesAgreeing(st: Store, s: ShortUrl)
    requires IndicesAgree(st)
    requires ReplacesSameEntry(st, s)
    ensures IndicesAgree(Updated(st, s))
    ensures Updated(st, s).byCode.Keys == st.byCode.Keys
  {
    ReplaceKeepsIdsAgreeing(st.byCode, st.byId, s);
    ReplaceKeepsLongUrlIndexAgreeing(st.byCode, st.index, s);
  }

  lemma ReplaceKeepsIdsAgreeing(byCode: map<string, ShortUrl>, byId: map<Guid, ShortUrl>, s: ShortUrl)
    requires KeysMatchCodes(byCode) && IdsAgree(byCode, byId)
    requires NormalizeCode(s.ShortCode) in byCode && byCode[NormalizeCode(s.ShortCode)].Id == s.Id
    ensures var k := NormalizeCode(s.ShortCode);
      KeysMatchCodes(byCode[k := s]) && IdsAgree(byCode[k := s], byId[s.Id := s])
  {
    var k := NormalizeCode(s.ShortCode);
    var c', i' := byCode[k := s], byId[s.Id := s];
    forall id | id in i'
      ensures && i'[id].Id == id
              && NormalizeCode(i'[id].ShortCode) in c'
              && c'[NormalizeCode(i'[id].ShortCode)] == i'[id]
    {
      if id != s.Id {
        assert NormalizeCode(byId[id].ShortCode) != k;
      }
    }
  }

  lemma ReplaceKeepsLongUrlIndexAgreeing(byCode: map<string, ShortUrl>, index: map<string, multiset<string>>, s: ShortUrl)
    requires LongUrlIndexAgrees(byCode, index)
    requires NormalizeCode(s.ShortCode) in byCode && byCode[NormalizeCode(s.ShortCode)].LongUrl == s.LongUrl
    ensures LongUrlIndexAgrees(byCode[NormalizeCode(s.ShortCode) := s], index)
  {
  }

  /** With the indices in agreement, a bucket holds exactly the codes of the entries with that long URL. */
  lemma BucketIsExactlyMatchingCodes(st: Store, longUrl: string, code: string)
    requires IndicesAgree(st)
    ensures longUrl in st.index && code in st.index[longUrl] <==> code in st.byCode && st.byCode[code].LongUrl == longUrl
    ensures longUrl in st.index && code in st.index[longUrl] ==> st.index[longUrl][code] == 1
  {
    assert Occurrences(st.index, longUrl, code) == (if longUrl in st.index then st.index[longUrl][code] else 0);
  }

  /** `AddAsync` fails exactly when some stored entry has the same code up to letter case. */
  lemma AddRejectsDuplicates(st: Store, s: ShortUrl)
    requires KeysMatchCodes(st.byCode)
    ensures Added(st, s).Err? <==> exists k :: k in st.byCode && EqualsIgnoreCase(st.byCode[k].ShortCode, s.ShortCode)
    ensures Added(st, s).Err? ==> Added(st, s).error == ShortCodeAlreadyExists(s.ShortCode)
  {
    StoredIffSomeEntryMatches(st.byCode, s.ShortCode);
  }

  /** A successful add stores the entry under its code and grows the store by exactly one entry. */
  lemma AddGrowsByOne(st: Store, s: ShortUrl)
    requires Added(st, s).Ok?
    ensures var st' := Added(st, s).value;
      && NormalizeCode(s.ShortCode) in st'.byCode && st'.byCode[NormalizeCode(s.ShortCode)] == s
      && |st'.byCode| == |st.byCode| + 1
      && (forall k :: k in st.byCode ==> k in st'.byCode && st'.byCode[k] == st.byCode[k])
  {
    MapGrowsByOne(st.byCode, NormalizeCode(s.ShortCode), s);
  }

  /**
   * Codes differing only in letter case share one key: once one is added,
   * adding the other fails, and looking the other up finds the first entry,
   * with its own spelling of the code.
   */
  lemma CaseVariantsCollide(st: Store, s: ShortUrl, t: ShortUrl)
    requires Added(st, s).Ok?
    requires EqualsIgnoreCase(s.ShortCode, t.ShortCode)
    ensures Added(Added(st, s).value, t) == Err(ShortCodeAlreadyExists(t.ShortCode))
    ensures var st' := Added(st, s).value;
      NormalizeCode(t.ShortCode) in st'.byCode && st'.byCode[NormalizeCode(t.ShortCode)].ShortCode == s.ShortCode
  {
    EqualsIgnoreCaseIffSameLower(s.ShortCode, t.ShortCode);
  }

  /**
   * After `DeleteAsync(code)` no code equal to `code` up to letter case is
   * stored any more, whether or not anything was removed.
   */
  lemma DeleteLeavesNoCaseVariant(st: Store, code: string)
    requires KeysMatchCodes(st.byCode)
    ensures Deleted(st, code).None? <==> !Contains(st.byCode.Keys, code)
    ensures var st' := if Deleted(st, code).Some? then Deleted(st, code).value else st;
      forall other :: EqualsIgnoreCase(other, code) ==> !Contains(st'.byCode.Keys, other)
  {
    var st' := if Deleted(st, code).Some? then Deleted(st, code).value else st;
    forall other | EqualsIgnoreCase(other, code) ensures !Contains(st'.byCode.Keys, other) {
      EqualsIgnoreCasePreservesBlank(other, code);
      EqualsIgnoreCaseIffSameLower(other, code);
    }
  }

  /** Deleting the code just added gives back the store as it was before the add. */
  lemma AddThenDeleteRestores(st: Store, s: ShortUrl)
    requires LongUrlIndexAgrees(st.byCode, st.index)
    requires s.Id !in st.byId && !IsNullOrWhiteSpace(s.ShortCode)
    requires Added(st, s).Ok?
    ensures Deleted(Added(st, s).value, s.ShortCode) == Some(st)
  {
    var k := NormalizeCode(s.ShortCode);
    PutThenRemove(st.byCode, k, s);
    PutThenRemove(st.byId, s.Id, s);
    assert Occurrences(st.index, s.LongUrl, k) == 0;
    WithoutCodeUndoesWithCode(st.index, s.LongUrl, k);
  }

  /** Taking out a code that was not in a bucket before it was put in restores the index. */
  lemma WithoutCodeUndoesWithCode(index: map<string, multiset<string>>, longUrl: string, code: string)
    requires Occurrences(index, longUrl, code) == 0
    requires forall u :: u in index ==> index[u] != multiset{}
    ensures WithoutCode(WithCode(index, longUrl, code), longUrl, code) == index
  {
    if longUrl in index {
      var bucket := index[longUrl];
      assert WithCode(index, longUrl, code) == index[longUrl := bucket + multiset{code}];
      assert (bucket + multiset{code})[code := 0] == bucket;
      assert index[longUrl := bucket + multiset{code}][longUrl := bucket] == index;
    } else {
      assert WithCode(index, longUrl, code) == index[longUrl := multiset{code}];
      assert multiset{code}[code := 0] == multiset{};
      assert index[longUrl := multiset{code}] - {longUrl} == index;
    }
  }

  /** A code is stored under its lower-cased form exactly when some entry's code equals it ignoring case. */
  lemma StoredIffSomeEntryMatches(byCode: map<string, ShortUrl>, code: string)
    requires KeysMatchCodes(byCode)
    ensures NormalizeCode(code) in byCode <==>
      exists k :: k in byCode && EqualsIgnoreCase(byCode[k].ShortCode, code)
  {
    var key := NormalizeCode(code);
    if key in byCode {
      EqualsIgnoreCaseIffSameLower(byCode[key].ShortCode, code);
    }
    forall k | k in byCode && EqualsIgnoreCase(byCode[k].ShortCode, code) ensures key in byCode {
      EqualsIgnoreCaseIffSameLower(byCode[k].ShortCode, code);
    }
  }

  /** Distinct keys hold distinct entries, and every id names one entry: the two maps have the same size. */
  lemma {:induction false} EntryCountIsIdCount(byCode: map<string, ShortUrl>, byId: map<Guid, ShortUrl>)
    requires KeysMatchCodes(byCode) && IdsAgree(byCode, byId)
    ensures |byCode| == |byId|
    decreases |byCode|
  {
    if byCode == map[] {
      assert byId.Keys == {};
    } else {
      var k :| k in byCode;
      var id := byCode[k].Id;
      var c', i' := byCode - {k}, byId - {id};
      forall id2 | id2 in i'
        ensures NormalizeCode(i'[id2].ShortCode) in c' && c'[NormalizeCode(i'[id2].ShortCode)] == i'[id2]
      {
        assert NormalizeCode(byId[id2].ShortCode) != k;
      }
      EntryCountIsIdCount(c', i');
      assert c'.Keys == byCode.Keys - {k};
      assert i'.Keys == byId.Keys - {id};
    }
  }

  predicate Distinct<T(==)>(s: seq<T>) {
    forall i, j :: 0 <= i < j < |s| ==> s[i] != s[j]
  }

  lemma DistinctAppend<T>(s: seq<T>, x: T)
    requires Distinct(s) && x !in s
    ensures Distinct(s + [x])
  {
  }

  /** A map gains exactly one entry when a new key is put into it. */
  lemma MapGrowsByOne<K, V>(m: map<K, V>, k: K, v: V)
    requires k !in m
    ensures |m[k := v]| == |m| + 1
  {
    assert m[k := v].Keys == m.Keys + {k};
  }

  /** Removing a key just put into a map gives the map back. */
  lemma PutThenRemove<K, V>(m: map<K, V>, k: K, v: V)
    requires k !in m
    ensures m[k := v] - {k} == m
  {
  }

  /** No two keys of `m` hold the same value. */
  ghost predicate Injective<K, V>(m: map<K, V>) {
    forall k1, k2 :: k1 in m && k2 in m && m[k1] == m[k2] ==> k1 == k2
  }

  /** Each entry is stored under its own code, so no entry sits under two keys. */
  lemma KeysMatchCodesIsInjective(byCode: map<string, ShortUrl>)
    requires KeysMatchCodes(byCode)
    ensures Injective(byCode)
  {
  }

  /** The values of `m` under the keys in `keys`. */
  ghost predicate ListsValuesOf<K, V>(vs: seq<V>, m: map<K, V>, keys: set<K>) {
    && (forall i :: 0 <= i < |vs| ==> StoredUnder(vs[i], m, keys))
    && (forall k :: k in keys && k in m ==> m[k] in vs)
  }

  /** `v` is the value of `m` under one of `keys`. */
  ghost predicate StoredUnder<K, V>(v: V, m: map<K, V>, keys: set<K>) {
    exists k :: k in keys && k in m && m[k] == v
  }

  /**
   * Appending the value under a key not yet listed keeps the list free of
   * repeats and extends the listed key set by that key.
   */
  lemma ListsValuesOfAppend<K, V>(vs: seq<V>, m: map<K, V>, keys: set<K>, k: K)
    requires Injective(m) && ListsValuesOf(vs, m, keys) && Distinct(vs)
    requires k in m && k !in keys
    ensures ListsValuesOf(vs + [m[k]], m, keys + {k})
    ensures Distinct(vs + [m[k]])
  {
    var vs' := vs + [m[k]];
    forall i | 0 <= i < |vs'| ensures StoredUnder(vs'[i], m, keys + {k}) {
      if i < |vs| {
        assert StoredUnder(vs[i], m, keys);
        var k' :| k' in keys && k' in m && m[k'] == vs[i];
        assert vs'[i] == vs[i];
      }
    }
    forall i | 0 <= i < |vs| ensures vs[i] != m[k] {
      assert StoredUnder(vs[i], m, keys);
      var k' :| k' in keys && k' in m && m[k'] == vs[i];
    }
    DistinctAppend(vs, m[k]);
  }

  /** A key outside the map adds nothing to list. */
  lemma ListsValuesOfSkip<K, V>(vs: seq<V>, m: map<K, V>, keys: set<K>, k: K)
    requires ListsValuesOf(vs, m, keys) && k !in m
    ensures ListsValuesOf(vs, m, keys + {k})
  {
    forall i | 0 <= i < |vs| ensures StoredUnder(vs[i], m, keys + {k}) {
      assert StoredUnder(vs[i], m, keys);
      var k' :| k' in keys && k' in m && m[k'] == vs[i];
    }
  }

  /** Every listed value is a value of the map. */
  lemma ListedValuesAreValues<K, V>(vs: seq<V>, m: map<K, V>, keys: set<K>)
    requires ListsValuesOf(vs, m, keys)
    ensures forall i :: 0 <= i < |vs| ==> vs[i] in m.Values
  {
    forall i | 0 <= i < |vs| ensures vs[i] in m.Values {
      assert StoredUnder(vs[i], m, keys);
      var k :| k in keys && k in m && m[k] == vs[i];
    }
  }

  /**
   * `Values.ToList()`: each value of the map once, in enumeration order,
   * when no value sits under two keys.
   */
  method ValuesToList<K, V(==)>(m: map<K, V>) returns (vs: seq<V>)
    requires Injective(m)
    ensures forall i :: 0 <= i < |vs| ==> vs[i] in m.Values
    ensures forall k :: k in m ==> m[k] in vs
    ensures Distinct(vs)
    ensures |vs| == |m|
  {
    vs := [];
    var pending := m.Keys;
    while pending != {}
      invariant pending <= m.Keys
      invariant |vs| + |pending| == |m| && Distinct(vs)
      invariant ListsValuesOf(vs, m, m.Keys - pending)
      decreases pending
    {
      var k :| k in pending;
      ListsValuesOfAppend(vs, m, m.Keys - pending, k);
      assert (m.Keys - pending) + {k} == m.Keys - (pending - {k});
      vs := vs + [m[k]];
      pending := pending - {k};
    }
    ListedValuesAreValues(vs, m, m.Keys - pending);
  }

  /**
   * The `Select`/`Where`/`ToList` chain over a bucket: the value stored under
   * each element of the bag, skipping elements that are not keys. A bag
   * holding each element at most once yields each value at most once.
   */
  method LookUpAll<K, V(==)>(bag: multiset<K>, m: map<K, V>) returns (vs: seq<V>)
    requires Injective(m)
    requires forall k :: k in bag ==> bag[k] == 1
    ensures forall i :: 0 <= i < |vs| ==> StoredUnder(vs[i], m, set k | k in bag)
    ensures forall k :: k in bag && k in m ==> m[k] in vs
    ensures Distinct(vs)
  {
    var pending := bag;
    vs := [];
    ghost var visited: set<K> := {};
    while pending != multiset{}
      invariant forall k :: k in bag ==> (k in visited <==> k !in pending)
      invariant pending <= bag && forall k :: k in visited ==> k in bag
      invariant Distinct(vs)
      invariant ListsValuesOf(vs, m, visited)
      decreases |pending|
    {
      var k :| k in pending;
      if k in m {
        ListsValuesOfAppend(vs, m, visited, k);
        vs := vs + [m[k]];
      } else {
        ListsValuesOfSkip(vs, m, visited, k);
      }
      visited := visited + {k};
      pending := pending - multiset{k};
    }
    forall i | 0 <= i < |vs| ensures StoredUnder(vs[i], m, set k | k in bag) {
      assert StoredUnder(vs[i], m, visited);
      var k :| k in visited && k in m && m[k] == vs[i];
      assert k in set k | k in bag;
    }
  }

  /** Without a bucket for a long URL, no stored entry points at it. */
  lemma NoBucketNoEntries(byCode: map<string, ShortUrl>, index: map<string, multiset<string>>, longUrl: string)
    requires LongUrlIndexAgrees(byCode, index) && longUrl !in index
    ensures forall e :: e in byCode.Values ==> e.LongUrl != longUrl
  {
    forall e | e in byCode.Values ensures e.LongUrl != longUrl {
      var k :| k in byCode && byCode[k] == e;
      assert Occurrences(index, e.LongUrl, k) == 1;
    }
  }

  /** A bucket holds stored codes only, each once. */
  lemma BucketHoldsStoredCodesOnce(byCode: map<string, ShortUrl>, index: map<string, multiset<string>>, longUrl: string)
    requires LongUrlIndexAgrees(byCode, index) && longUrl in index
    ensures forall code :: code in index[longUrl] ==> index[longUrl][code] == 1 && code in byCode
  {
    forall code | code in index[longUrl] ensures index[longUrl][code] == 1 && code in byCode {
      assert Occurrences(index, longUrl, code) > 0;
    }
  }

  /** The entries looked up from a long URL's bucket are exactly the stored entries with that long URL. */
  lemma BucketEntriesAreEntriesWithLongUrl(byCode: map<string, ShortUrl>, index: map<string, multiset<string>>, longUrl: string, urls: seq<ShortUrl>)
    requires LongUrlIndexAgrees(byCode, index) && longUrl in index
    requires forall i :: 0 <= i < |urls| ==> StoredUnder(urls[i], byCode, set k | k in index[longUrl])
    requires forall k :: k in index[longUrl] && k in byCode ==> byCode[k] in urls
    ensures forall e :: e in urls <==> e in byCode.Values && e.LongUrl == longUrl
  {
    var bucket := index[longUrl];
    forall e | e in byCode.Values && e.LongUrl == longUrl ensures e in urls {
      var k :| k in byCode && byCode[k] == e;
      assert Occurrences(index, longUrl, k) == 1;
    }
    forall e | e in urls ensures e in byCode.Values && e.LongUrl == longUrl {
      var i :| 0 <= i < |urls| && urls[i] == e;
      assert StoredUnder(urls[i], byCode, set k | k in bucket);
      var k :| k in bucket && k in byCode && byCode[k] == e;
      assert Occurrences(index, longUrl, k) > 0;
    }
  }

  class InMemoryUrlRepository {
    var urlsByShortCode: map<string, ShortUrl>
    var urlsById: map<Guid, ShortUrl>
    var shortCodesByLongUrl: map<string, multiset<string>>

    /** The three dictionaries as one value. */
    function State(): Store
      reads this
    {
      Store(urlsByShortCode, urlsById, shortCodesByLongUrl)
    }

    ghost predicate Valid()
      reads this
    {
      IndicesAgree(State())
    }

    constructor ()
      ensures Valid()
      ensures urlsByShortCode == map[] && urlsById == map[] && shortCodesByLongUrl == map[]
    {
      urlsByShortCode, urlsById, shortCodesByLongUrl := map[], map[], map[];
    }

    /** `ExistsAsync`: some stored entry has this code, ignoring letter case; blank codes never exist. */
    function Exists(shortCode: string): (b: bool)
      reads this
      requires Valid()
      ensures b <==> (!IsNullOrWhiteSpace(shortCode) &&
        exists k :: k in urlsByShortCode && EqualsIgnoreCase(urlsByShortCode[k].ShortCode, shortCode))
    {
      StoredIffSomeEntryMatches(urlsByShortCode, shortCode);
      Contains(urlsByShortCode.Keys, shortCode)
    }

    /** `GetByShortCodeAsync`: the stored entry whose code equals this one ignoring case, or null. */
    function GetByShortCode(shortCode: string): (r: Option<ShortUrl>)
      reads this
      requires Valid()
      ensures r.Some? <==> Exists(shortCode)
      ensures r.Some? ==> r.value in urlsByShortCode.Values && EqualsIgnoreCase(r.value.ShortCode, shortCode)
    {
      if IsNullOrWhiteSpace(shortCode) then None
      else
        var key := NormalizeCode(shortCode);
        if key in urlsByShortCode then
          EqualsIgnoreCaseIffSameLower(urlsByShortCode[key].ShortCode, shortCode);
          Some(urlsByShortCode[key])
        else None
    }

    /** `GetByIdAsync`: the stored entry with this id, or null when no stored entry has it. */
    function GetById(id: Guid): (r: Option<ShortUrl>)
      reads this
      requires Valid()
      ensures r.Some? ==> r.value.Id == id && r.value in urlsByShortCode.Values
      ensures r.None? ==> forall k :: k in urlsByShortCode ==> urlsByShortCode[k].Id != id
    {
      if id in urlsById then
        assert urlsByShortCode[NormalizeCode(urlsById[id].ShortCode)] == urlsById[id];
        Some(urlsById[id])
      else None
    }

    /** `GetTotalCountAsync`: the number of stored entries, which is also the number of ids in use. */
    function GetTotalCount(): (n: nat)
      reads this
      requires Valid()
      ensures n == |urlsById|
    {
      EntryCountIsIdCount(urlsByShortCode, urlsById);
      |urlsByShortCode|
    }

    /** `GetAllAsync`: every stored entry once, in no particular order. */
    method GetAll() returns (urls: seq<ShortUrl>)
      requires Valid()
      ensures forall e :: e in urls <==> e in urlsByShortCode.Values
      ensures Distinct(urls)
      ensures |urls| == |urlsByShortCode|
    {
      KeysMatchCodesIsInjective(urlsByShortCode);
      urls := ValuesToList(urlsByShortCode);
      forall e | e in urlsByShortCode.Values ensures e in urls {
        var k :| k in urlsByShortCode && urlsByShortCode[k] == e;
      }
    }

    /**
     * `GetByLongUrlAsync`: nothing for a blank or unknown long URL; otherwise
     * every stored entry whose long URL it is, each once.
     */
    method GetByLongUrl(longUrl: string) returns (urls: seq<ShortUrl>)
      requires Valid()
      ensures IsNullOrWhiteSpace(longUrl) ==> urls == []
      ensures !IsNullOrWhiteSpace(longUrl) ==>
        forall e :: e in urls <==> e in urlsByShortCode.Values && e.LongUrl == longUrl
      ensures Distinct(urls)
    {
      if IsNullOrWhiteSpace(longUrl) {
        return [];
      }
      if longUrl !in shortCodesByLongUrl {
        NoBucketNoEntries(urlsByShortCode, shortCodesByLongUrl, longUrl);
        return [];
      }
      var bucket := shortCodesByLongUrl[longUrl];
      BucketHoldsStoredCodesOnce(urlsByShortCode, shortCodesByLongUrl, longUrl);
      KeysMatchCodesIsInjective(urlsByShortCode);
      urls := LookUpAll(bucket, urlsByShortCode);
      BucketEntriesAreEntriesWithLongUrl(urlsByShortCode, shortCodesByLongUrl, longUrl, urls);
    }

    /**
     * `AddAsync`: fails when the lower-cased code is already a key, changing
     * nothing; otherwise stores the entry in all three indices.
     */
    method Add(shortUrl: ShortUrl) returns (r: Result<ShortUrl, RepositoryError>)
      requires Valid()
      modifies this
      ensures r.Ok? <==> Added(old(State()), shortUrl).Ok?
      ensures r.Ok? ==> r.value == shortUrl && State() == Added(old(State()), shortUrl).value
      ensures r.Err? ==> r.error == Added(old(State()), shortUrl).error && State() == old(State())
      ensures r.Err? || shortUrl.Id !in old(urlsById) ==> Valid()
    {
      var normalizedCode := NormalizeCode(shortUrl.ShortCode);
      if normalizedCode in urlsByShortCode {
        return Err(ShortCodeAlreadyExists(shortUrl.ShortCode));
      }
      if shortUrl.Id !in urlsById {
        AddKeepsIndicesAgreeing(State(), shortUrl);
      }
      urlsByShortCode := urlsByShortCode[normalizedCode := shortUrl];
      if shortUrl.Id !in urlsById {
        urlsById := urlsById[shortUrl.Id := shortUrl];
      }
      shortCodesByLongUrl := WithCode(shortCodesByLongUrl, shortUrl.LongUrl, normalizedCode);
      return Ok(shortUrl);
    }

    /**
     * `DeleteAsync`: false, changing nothing, for a blank or unknown code;
     * otherwise removes the entry from all three indices and answers true.
     * Either way no case variant of the code exists afterwards.
     */
    method Delete(shortCode: string) returns (deleted: bool)
      requires Valid()
      modifies this
      ensures Valid()
      ensures deleted <==> Deleted(old(State()), shortCode).Some?
      ensures State() == if deleted then Deleted(old(State()), shortCode).value else old(State())
      ensures deleted <==> old(Exists(shortCode))
      ensures forall other :: EqualsIgnoreCase(other, shortCode) ==> !Exists(other)
    {
      DeleteKeepsIndicesAgreeing(State(), shortCode);
      DeleteLeavesNoCaseVariant(State(), shortCode);
      if IsNullOrWhiteSpace(shortCode) {
        return false;
      }
      var normalizedCode := NormalizeCode(shortCode);
      if normalizedCode in urlsByShortCode {
        var removed := urlsByShortCode[normalizedCode];
        urlsByShortCode := urlsByShortCode - {normalizedCode};
        urlsById := urlsById - {removed.Id};
        shortCodesByLongUrl := WithoutCode(shortCodesByLongUrl, removed.LongUrl, normalizedCode);
        return true;
      }
      return false;
    }

    /**
     * `UpdateAsync`: stamps the entry and stores it under its lower-cased code
     * and its id. When it replaces the stored entry with the same code, id and
     * long URL, the key set and the indices' agreement are kept.
     */
    method Update(shortUrl: ShortUrl, now: Timestamp) returns (r: ShortUrl)
      requires Valid()
      modifies this, shortUrl
      ensures r == shortUrl
      ensures shortUrl.UpdatedAt == Some(now)
      ensures shortUrl.ClickCount == old(shortUrl.ClickCount) && shortUrl.LastAccessedAt == old(shortUrl.LastAccessedAt)
      ensures State() == Updated(old(State()), shortUrl)
      ensures old(ReplacesSameEntry(State(), shortUrl)) ==> Valid() && urlsByShortCode.Keys == old(urlsByShortCode.Keys)
    {
      ghost var st := State();
      if ReplacesSameEntry(st, shortUrl) {
        ReplaceKeepsIndicesAgreeing(st, shortUrl);
      }
      var normalizedCode := NormalizeCode(shortUrl.ShortCode);
      shortUrl.UpdatedAt := Some(now);
      urlsByShortCode := urlsByShortCode[normalizedCode := shortUrl];
      urlsById := urlsById[shortUrl.Id := shortUrl];
      assert State() == Updated(st, shortUrl);
      return shortUrl;
    }
  }
}
