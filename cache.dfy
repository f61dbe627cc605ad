/**
 * The browser-side response cache (lib/cache.ts). Responses are kept in
 * `localStorage` under "flowweek_cache_" plus a hash of the normalised
 * input, each with the time it was stored and the exact trimmed input; an
 * entry is served for seven days and only to the same trimmed text. The last
 * typed input is kept under its own key. `localStorage` is an object whose
 * `items` map the methods update; a null store stands for the server side,
 * where `window` is undefined. The clock is a parameter.
 */
module Cache {
  import opened Wrappers
  import opened Js

  const CachePrefix: string := "flowweek_cache_"
  /** Seven days in milliseconds. */
  const CacheDuration: int := 7 * 24 * 60 * 60 * 1000
  const InputCacheKey: string := "flowweek_last_input"

  // ---------------------------------------------------------------------
  // simpleHash
  // ---------------------------------------------------------------------

  /**
   * One iteration of `simpleHash` on an int32 `hash`: `(hash << 5) - hash + char`,
   * brought back to int32 by `hash & hash`.
   */
  function HashStep(hash: int, unit: int): int {
    ToInt32(ToInt32(hash * 32) - hash + unit)
  }

  /** The hash after folding `HashStep` over the code units, from 0. */
  function HashFold(units: seq<int>): int {
    if units == [] then 0 else HashStep(HashFold(units[..|units| - 1]), units[|units| - 1])
  }

  /** The polynomial `sum units[k] * 31^(n-1-k)`, in unbounded integers. */
  function PolyHash(units: seq<int>): int {
    if units == [] then 0 else 31 * PolyHash(units[..|units| - 1]) + units[|units| - 1]
  }

  /** The shift-and-subtract loop computes the base-31 polynomial, wrapped to int32. */
  lemma {:induction false} HashIsPolynomial(units: seq<int>)
    ensures HashFold(units) == ToInt32(PolyHash(units))
  {
    if units != [] {
      var prefix, unit := units[..|units| - 1], units[|units| - 1];
      var h, p := HashFold(prefix), PolyHash(prefix);
      HashIsPolynomial(prefix);
      var shifted := ToInt32(h * 32);
      var q1 := (h * 32 - shifted) / TwoTo32;
      var q2 := (p - h) / TwoTo32;
      assert h * 32 - shifted == q1 * TwoTo32;
      assert p - h == q2 * TwoTo32;
      assert (shifted - h + unit) - (31 * p + unit) == (31 * q2 + q1) * -TwoTo32;
      MultipleOfTwoTo32(-(31 * q2 + q1));
      ToInt32Congruent(shifted - h + unit, 31 * p + unit);
    }
  }

  lemma MultipleOfTwoTo32(k: int)
    ensures (k * TwoTo32) % TwoTo32 == 0
  {
  }

  /** `Math.abs(hash).toString(36)` of the folded hash of the string's code units. */
  function HashText(s: string): (h: string)
    ensures 0 < |h| <= 6
    ensures forall k :: 0 <= k < |h| ==> h[k] in Base36Digits
  {
    var hash := HashFold(CodeUnits(s));
    var magnitude := if hash < 0 then -hash else hash;
    HashFits(CodeUnits(s));
    Base36Length(magnitude, 6);
    Base36(magnitude)
  }

  lemma HashFits(units: seq<int>)
    ensures -TwoTo31 <= HashFold(units) < TwoTo31
  {
  }

  function Pow36(k: nat): nat {
    if k == 0 then 1 else 36 * Pow36(k - 1)
  }

  /** A number below 36^k has at most k base-36 digits. */
  lemma {:induction false} Base36Length(n: nat, k: nat)
    requires 0 < k && n < Pow36(k)
    ensures |Base36(n)| <= k
  {
    if n >= 36 {
      assert k > 1;
      Base36Length(n / 36, k - 1);
    }
  }

  /** `simpleHash`: the loop over `charCodeAt(i)` for `i < str.length`. */
  method SimpleHash(str: string) returns (h: string)
    ensures h == HashText(str)
  {
    var units := CodeUnits(str);
    var hash := 0;
    for i := 0 to |units|
      invariant hash == HashFold(units[..i])
    {
      FoldStep(units, i);
      var shifted := ToInt32(hash * 32);
      hash := shifted - hash + units[i];
      hash := ToInt32(hash);
    }
    assert units[..|units|] == units;
    h := Base36(if hash < 0 then -hash else hash);
  }

  /** One more code unit is one more `HashStep`. */
  lemma FoldStep(units: seq<int>, i: nat)
    requires i < |units|
    ensures HashFold(units[..i + 1]) == HashStep(HashFold(units[..i]), units[i])
  {
    assert units[..i + 1][..i] == units[..i];
  }

  /** The storage key of an input: the prefix and the hash of the trimmed, lower-cased text. */
  function CacheKey(input: string): (key: string)
    ensures StartsWith(key, CachePrefix) && |key| <= |CachePrefix| + 6
    ensures key != InputCacheKey
  {
    var key := CachePrefix + HashText(ToLower(Trim(input)));
    assert key[..|CachePrefix|] == CachePrefix;
    assert key[9] != InputCacheKey[9];
    key
  }

  // ---------------------------------------------------------------------
  // Entries and their text form
  // ---------------------------------------------------------------------

  /** A stored response: its data (as text), the time it was stored, and the trimmed input. */
  datatype CacheEntry = CacheEntry(data: string, timestamp: nat, input: string)

  /**
   * The text an entry is stored as: the timestamp, the input's length and the
   * input, each length-prefixed, followed by the data.
   */
  function Encode(e: CacheEntry): (s: string)
    ensures s != []
  {
    Field(e.timestamp) + (Field(|e.input|) + (e.input + e.data))
  }

  /** A number written as a decimal field ended by ':'. */
  function Field(n: nat): string {
    NatToDecimal(n) + ":"
  }

  /** A decimal field ended by ':', and the text after it. */
  function ReadField(s: string): Option<(nat, string)> {
    match IndexOf(s, ':')
    case None => None
    case Some(i) =>
      if s[..i] == [] || !AllDigits(s[..i]) then None else Some((DigitsValue(s[..i]), s[i + 1..]))
  }

  /** The entry a stored text holds, or `None` where parsing it fails. */
  function Decode(s: string): Option<CacheEntry> {
    match ReadField(s)
    case None => None
    case Some((stamp, rest)) =>
      match ReadField(rest)
      case None => None
      case Some((size, body)) =>
        if size > |body| then None else Some(CacheEntry(body[size..], stamp, body[..size]))
  }

  /** Every entry reads back from its text. */
  lemma EntryRoundTrip(e: CacheEntry)
    ensures Decode(Encode(e)) == Some(e)
  {
    var body := e.input + e.data;
    var rest := Field(|e.input|) + body;
    FieldRoundTrip(e.timestamp, rest);
    FieldRoundTrip(|e.input|, body);
    assert body[..|e.input|] == e.input && body[|e.input|..] == e.data;
    DecodeOfFields(Encode(e), e.timestamp, rest, |e.input|, body);
  }

  /** The entry decoded from two fields read one after the other. */
  lemma DecodeOfFields(s: string, stamp: nat, rest: string, size: nat, body: string)
    requires ReadField(s) == Some((stamp, rest)) && ReadField(rest) == Some((size, body)) && size <= |body|
    ensures Decode(s) == Some(CacheEntry(body[size..], stamp, body[..size]))
  {
  }

  /** A number written as a field reads back, with the text after it. */
  lemma FieldRoundTrip(n: nat, rest: string)
    ensures ReadField(Field(n) + rest) == Some((n, rest))
  {
    var digits := NatToDecimal(n);
    var s := Field(n) + rest;
    assert s == digits + ":" + rest;
    FirstColonAfterDigits(digits, rest);
    assert s[..|digits|] == digits;
    assert s[|digits| + 1..] == rest;
    DecimalRoundTrip(n);
  }

  lemma FirstColonAfterDigits(digits: string, rest: string)
    requires AllDigits(digits)
    ensures IndexOf(digits + ":" + rest, ':') == Some(|digits|)
  {
    var s := digits + ":" + rest;
    assert s[|digits|] == ':';
    assert s[..|digits|] == digits;
  }

  // ---------------------------------------------------------------------
  // The store as a map, and what each operation does to it
  // ---------------------------------------------------------------------

  /** The fresh-and-same-input test for a decoded entry. */
  predicate Serves(e: CacheEntry, input: string, now: nat) {
    now - e.timestamp < CacheDuration && e.input == Trim(input)
  }

  /**
   * `getCachedResponse` on the map of stored items: the data of a fresh entry
   * stored for the same trimmed input, leaving the items unchanged; a stale or
   * mismatched entry is removed; a missing, empty or unreadable value is left
   * in place.
   */
  function Read(items: map<string, string>, input: string, now: nat): (r: (Option<string>, map<string, string>))
    ensures var key := CacheKey(input);
            r.0.Some? <==> key in items && Decode(items[key]).Some? && Serves(Decode(items[key]).value, input, now)
    ensures r.0.Some? ==> r.0.value == Decode(items[CacheKey(input)]).value.data && r.1 == items
    ensures var key := CacheKey(input);
            r.0.None? ==>
              r.1 == if key in items && items[key] != [] && Decode(items[key]).Some?
                        && !Serves(Decode(items[key]).value, input, now)
                     then items - {key} else items
    ensures forall k :: k in items && k != CacheKey(input) ==> k in r.1 && r.1[k] == items[k]
  {
    var key := CacheKey(input);
    if key !in items || items[key] == [] then (None, items)
    else match Decode(items[key])
      case None => (None, items)
      case Some(entry) =>
        if Serves(entry, input, now) then (Some(entry.data), items)
        else (None, items - {key})
  }

  /** `setCachedResponse` on the map: the entry for the trimmed input under its key. */
  function Write(items: map<string, string>, input: string, data: string, now: nat): (r: map<string, string>)
    ensures r.Keys == items.Keys + {CacheKey(input)} && r[CacheKey(input)] != []
    ensures Decode(r[CacheKey(input)]) == Some(CacheEntry(data, now, Trim(input)))
    ensures forall k :: k in items && k != CacheKey(input) ==> r[k] == items[k]
  {
    EntryRoundTrip(CacheEntry(data, now, Trim(input)));
    items[CacheKey(input) := Encode(CacheEntry(data, now, Trim(input)))]
  }

  /** The keys of cached responses. */
  function CacheKeys(items: map<string, string>): set<string> {
    set k | k in items && StartsWith(k, CachePrefix)
  }

  /** `clearCache` on the map: exactly the cache keys removed. */
  function Cleared(items: map<string, string>): (r: map<string, string>)
    ensures forall k :: k in r <==> k in items && !StartsWith(k, CachePrefix)
    ensures forall k :: k in r ==> r[k] == items[k]
  {
    map k | k in items && !StartsWith(k, CachePrefix) :: items[k]
  }

  /** The sum of the UTF-16 lengths of the values under `keys`. */
  ghost function SizeSum(items: map<string, string>, keys: set<string>): nat
    requires keys <= items.Keys
    decreases |keys|
  {
    if keys == {} then 0
    else
      var k :| k in keys;
      Length(items[k]) + SizeSum(items, keys - {k})
  }

  /** The sum does not depend on which key is taken first. */
  lemma {:induction false} SizeSumRemove(items: map<string, string>, keys: set<string>, k: string)
    requires keys <= items.Keys && k in keys
    ensures SizeSum(items, keys) == Length(items[k]) + SizeSum(items, keys - {k})
    decreases |keys|
  {
    var j :| j in keys && SizeSum(items, keys) == Length(items[j]) + SizeSum(items, keys - {j});
    if j != k {
      SizeSumRemove(items, keys - {j}, k);
      SizeSumRemove(items, keys - {k}, j);
      assert keys - {j} - {k} == keys - {k} - {j};
    }
  }

  // ---------------------------------------------------------------------
  // localStorage and the exported functions
  // ---------------------------------------------------------------------

  /** `localStorage`: string values under string keys. */
  class LocalStorage {
    var items: map<string, string>

    constructor()
      ensures items == map[]
    {
      items := map[];
    }
  }

  /** `getCachedResponse`: `Read` on the store, and nothing on the server. */
  method GetCachedResponse(storage: LocalStorage?, input: string, now: nat) returns (data: Option<string>)
    modifies storage
    ensures storage == null ==> data.None?
    ensures storage != null ==> (data, storage.items) == Read(old(storage.items), input, now)
  {
    if storage == null {
      return None;
    }
    var cacheKey := CachePrefix + HashText(ToLower(Trim(input)));
    if cacheKey !in storage.items || storage.items[cacheKey] == [] {
      return None;
    }
    var entry := Decode(storage.items[cacheKey]);
    if entry.None? {
      return None;
    }
    var age := now - entry.value.timestamp;
    if age < CacheDuration && entry.value.input == Trim(input) {
      data := Some(entry.value.data);
    } else {
      storage.items := storage.items - {cacheKey};
      data := None;
    }
  }

  /** `setCachedResponse`: `Write` on the store, and nothing on the server. */
  method SetCachedResponse(storage: LocalStorage?, input: string, data: string, now: nat)
    modifies storage
    ensures storage != null ==> storage.items == Write(old(storage.items), input, data, now)
  {
    if storage == null {
      return;
    }
    var cacheKey := CachePrefix + HashText(ToLower(Trim(input)));
    var entry := CacheEntry(data, now, Trim(input));
    storage.items := storage.items[cacheKey := Encode(entry)];
  }

  /**
   * `clearCache`: walk a snapshot of the keys and remove each cache key;
   * `cleared` is the count the source logs.
   */
  method ClearCache(storage: LocalStorage?) returns (cleared: nat)
    modifies storage
    ensures storage == null ==> cleared == 0
    ensures storage != null ==> storage.items == Cleared(old(storage.items))
                                && cleared == |CacheKeys(old(storage.items))|
  {
    if storage == null {
      return 0;
    }
    ghost var before := storage.items;
    ghost var prefixed := CacheKeys(before);
    ghost var removed: set<string> := {};
    var keys := storage.items.Keys;
    cleared := 0;
    while keys != {}
      invariant keys <= before.Keys
      invariant forall k :: k in storage.items <==> k in before && (k in keys || !StartsWith(k, CachePrefix))
      invariant forall k :: k in storage.items ==> storage.items[k] == before[k]
      invariant removed <= prefixed && cleared == |removed|
      invariant forall k :: k in prefixed ==> (k in removed <==> k !in keys)
      decreases |keys|
    {
      var key :| key in keys;
      assert key in prefixed <==> StartsWith(key, CachePrefix);
      if StartsWith(key, CachePrefix) {
        storage.items := storage.items - {key};
        cleared := cleared + 1;
        removed := removed + {key};
      }
      keys := keys - {key};
    }
    assert removed == prefixed;
  }

  /** `getCacheStats`: the number of cache keys and the total length of their values. */
  method GetCacheStats(storage: LocalStorage?) returns (count: nat, totalSize: nat)
    ensures storage == null ==> count == 0 && totalSize == 0
    ensures storage != null ==> count == |CacheKeys(storage.items)|
                                && totalSize == SizeSum(storage.items, CacheKeys(storage.items))
  {
    if storage == null {
      return 0, 0;
    }
    var items := storage.items;
    ghost var prefixed := CacheKeys(items);
    ghost var counted: set<string> := {};
    var keys := items.Keys;
    count, totalSize := 0, 0;
    while keys != {}
      invariant keys <= items.Keys
      invariant counted <= prefixed
      invariant forall k :: k in prefixed ==> (k in counted <==> k !in keys)
      invariant count == |counted| && totalSize == SizeSum(items, counted)
      decreases |keys|
    {
      var key :| key in keys;
      assert key in prefixed <==> StartsWith(key, CachePrefix);
      if StartsWith(key, CachePrefix) {
        SizeSumRemove(items, counted + {key}, key);
        assert counted + {key} - {key} == counted;
        count := count + 1;
        var value := items[key];
        if value != [] {
          totalSize := totalSize + Length(value);
        }
        counted := counted + {key};
      }
      keys := keys - {key};
    }
    assert counted == prefixed;
  }

  /** `saveLastInput`: the text under its own key. */
  method SaveLastInput(storage: LocalStorage?, input: string)
    modifies storage
    ensures storage != null ==> storage.items == old(storage.items)[InputCacheKey := input]
  {
    if storage != null {
      storage.items := storage.items[InputCacheKey := input];
    }
  }

  /** `getLastInput`: the saved text, if any. */
  method GetLastInput(storage: LocalStorage?) returns (saved: Option<string>)
    ensures storage == null ==> saved.None?
    ensures storage != null ==> (saved.Some? <==> InputCacheKey in storage.items)
    ensures storage != null && saved.Some? ==> saved.value == storage.items[InputCacheKey]
  {
    if storage == null {
      return None;
    }
    if InputCacheKey in storage.items {
      saved := Some(storage.items[InputCacheKey]);
    } else {
      saved := None;
    }
  }

  /** `clearLastInput`: the saved text removed. */
  method ClearLastInput(storage: LocalStorage?)
    modifies storage
    ensures storage != null ==> storage.items == old(storage.items) - {InputCacheKey}
  {
    if storage != null {
      storage.items := storage.items - {InputCacheKey};
    }
  }

  // ---------------------------------------------------------------------
  // What the operations promise together
  // ---------------------------------------------------------------------

  /** A stored response is served, unchanged, to the same trimmed input within seven days. */
  lemma SetThenGet(items: map<string, string>, input: string, other: string, data: string, now: nat, later: nat)
    requires Trim(other) == Trim(input) && later - now < CacheDuration
    ensures var stored := Write(items, input, data, now);
            Read(stored, other, later) == (Some(data), stored)
  {
    var stored := Write(items, input, data, now);
    assert CacheKey(other) == CacheKey(input);
  }

  /** After seven days the entry is dropped and nothing is served. */
  lemma ExpiredEntryIsRemoved(items: map<string, string>, input: string, data: string, now: nat, later: nat)
    requires later - now >= CacheDuration
    ensures var stored := Write(items, input, data, now);
            Read(stored, input, later) == (None, stored - {CacheKey(input)})
  {
  }

  /**
   * Two inputs that differ only in case share a key but not the stored
   * input, so reading with the other evicts the entry.
   */
  lemma CaseMismatchEvicts(items: map<string, string>, input: string, other: string, data: string, now: nat, later: nat)
    requires ToLower(Trim(other)) == ToLower(Trim(input)) && Trim(other) != Trim(input)
    ensures CacheKey(other) == CacheKey(input)
    ensures var stored := Write(items, input, data, now);
            Read(stored, other, later) == (None, stored - {CacheKey(input)})
  {
  }

  /** Clearing the cache removes every cache key and keeps the saved input. */
  lemma ClearKeepsLastInput(items: map<string, string>, input: string, now: nat)
    ensures CacheKeys(Cleared(items)) == {}
    ensures Read(Cleared(items), input, now) == (None, Cleared(items))
    ensures InputCacheKey in items ==> InputCacheKey in Cleared(items) && Cleared(items)[InputCacheKey] == items[InputCacheKey]
  {
    assert !StartsWith(InputCacheKey, CachePrefix) by {
      assert InputCacheKey[9] != CachePrefix[9];
    }
  }

  /** Writing a response leaves the saved input as it was; saving the input leaves every entry. */
  lemma StoresAreSeparate(items: map<string, string>, input: string, text: string, data: string, now: nat)
    ensures InputCacheKey in items ==> Write(items, input, data, now)[InputCacheKey] == items[InputCacheKey]
    ensures Read(items[InputCacheKey := text], input, now).0 == Read(items, input, now).0
  {
  }
}
