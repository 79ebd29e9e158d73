/** The in-memory product catalogue: a case-insensitive index from product
    id to `Product`, reloaded as a whole from the data file, together with
    the entity tag (ETag) that fingerprints the loaded content. */
module ProductRepository {
  import opened Wrappers
  import opened Text
  import opened Domain

  type byte = x: int | 0 <= x < 256

  /** A SHA-256 digest. */
  type Digest = s: seq<byte> | |s| == 32 witness seq(32, _ => 0)

  /** What reading and parsing the data file at the configured path yields. */
  datatype FileState =
    | Absent                                   // no file at the path
    | Unreadable                               // opening or reading throws
    | Malformed                                // the content is not a JSON array of products
    | NullDocument                             // the content is the JSON literal `null`
    | Document(entries: seq<Option<Product>>)  // a JSON array; `None` is a `null` element

  /** The ETag before the first load, after a load of a missing file and
      after a failed load. */
  const InitETag: string := "\"init\""
  const EmptyETag: string := "\"empty\""
  const ErrorETag: string := "\"error\""

  // ---------------------------------------------------------------------
  // Fingerprint: `Convert.ToHexString` of a digest, wrapped in quotes.

  predicate IsUpperHexDigit(c: char) {
    '0' <= c <= '9' || 'A' <= c <= 'F'
  }

  function HexDigit(n: nat): (c: char)
    requires n < 16
    ensures IsUpperHexDigit(c)
  {
    "0123456789ABCDEF"[n]
  }

  function HexValue(c: char): (n: nat)
    requires IsUpperHexDigit(c)
    ensures n < 16 && HexDigit(n) == c
  {
    if c <= '9' then c as int - '0' as int else c as int - 'A' as int + 10
  }

  lemma HexValueOfDigit(n: nat)
    requires n < 16
    ensures HexValue(HexDigit(n)) == n
  {
  }

  /** `Convert.ToHexString`: two upper-case hex digits per byte, high nibble first. */
  function ToHexString(bytes: seq<byte>): (r: string)
    ensures |r| == 2 * |bytes|
    ensures forall i :: 0 <= i < |r| ==> IsUpperHexDigit(r[i])
  {
    if bytes == [] then ""
    else [HexDigit(bytes[0] / 16), HexDigit(bytes[0] % 16)] + ToHexString(bytes[1..])
  }

  /** The inverse of `ToHexString`. */
  function FromHexString(s: string): (r: seq<byte>)
    requires |s| % 2 == 0
    requires forall i :: 0 <= i < |s| ==> IsUpperHexDigit(s[i])
    ensures |r| == |s| / 2
  {
    if s == [] then []
    else [16 * HexValue(s[0]) + HexValue(s[1])] + FromHexString(s[2..])
  }

  lemma {:induction false} HexRoundTrip(bytes: seq<byte>)
    ensures FromHexString(ToHexString(bytes)) == bytes
  {
    if bytes != [] {
      var s := ToHexString(bytes);
      HexValueOfDigit(bytes[0] / 16);
      HexValueOfDigit(bytes[0] % 16);
      assert s[2..] == ToHexString(bytes[1..]);
      HexRoundTrip(bytes[1..]);
    }
  }

  /** Different digests never share a hex string. */
  lemma HexInjective(a: seq<byte>, b: seq<byte>)
    ensures ToHexString(a) == ToHexString(b) <==> a == b
  {
    if ToHexString(a) == ToHexString(b) {
      HexRoundTrip(a);
      HexRoundTrip(b);
    }
  }

  /** `ComputeHash`: the hex form of the SHA-256 digest of `content`. */
  function ComputeHash(sha256: seq<byte> -> Digest, content: seq<byte>): (r: string)
    ensures |r| == 64
    ensures forall i :: 0 <= i < |r| ==> IsUpperHexDigit(r[i])
  {
    ToHexString(sha256(content))
  }

  function Quote(s: string): (r: string)
    ensures |r| == |s| + 2 && r[0] == '"' && r[|r| - 1] == '"' && r[1..|r| - 1] == s
  {
    "\"" + s + "\""
  }

  // ---------------------------------------------------------------------
  // Index construction: `items.ToDictionary(p => p.Id, OrdinalIgnoreCase)`.

  /** The entry is a product with a non-null id. */
  predicate HasKey(e: Option<Product>) {
    e.Some? && e.value.id.Some?
  }

  /** The index key of an entry: its folded id. */
  function KeyOf(e: Option<Product>): string
    requires HasKey(e)
  {
    Fold(e.value.id.value)
  }

  /** `ToDictionary` succeeds: no null element, no null id, no two ids
      equal ignoring case. */
  predicate WellKeyed(entries: seq<Option<Product>>) {
    && (forall i :: 0 <= i < |entries| ==> HasKey(entries[i]))
    && (forall i, j :: 0 <= i < j < |entries| ==> KeyOf(entries[i]) != KeyOf(entries[j]))
  }

  /** Every product in the index is stored under its own folded id. */
  predicate IndexConsistent(byId: map<string, Product>) {
    forall k :: k in byId ==> byId[k].id.Some? && Fold(byId[k].id.value) == k
  }

  /** `ToDictionary`: the index of the entries, or `None` where the C#
      call throws (a null element, a null id or a duplicate key). */
  function ToDictionary(entries: seq<Option<Product>>): (r: Option<map<string, Product>>)
    ensures r.Some? ==> IndexConsistent(r.value)
  {
    if entries == [] then Some(map[])
    else if !HasKey(entries[0]) then None
    else
      var rest := ToDictionary(entries[1..]);
      var k := KeyOf(entries[0]);
      if rest.None? || k in rest.value then None
      else Some(rest.value[k := entries[0].value])
  }

  /** `ToDictionary` succeeds exactly on well-keyed entries, and then holds
      one product per entry, each under its own key, and nothing else. */
  lemma {:induction false} ToDictionaryCorrect(entries: seq<Option<Product>>)
    ensures ToDictionary(entries).Some? <==> WellKeyed(entries)
    ensures ToDictionary(entries).Some? ==> ToDictionaryHolds(entries, ToDictionary(entries).value)
  {
    if entries != [] && HasKey(entries[0]) {
      var rest := entries[1..];
      ToDictionaryCorrect(rest);
      WellKeyedCons(entries);
      var k := KeyOf(entries[0]);
      match ToDictionary(rest)
      case None =>
        assert ToDictionary(entries).None?;
      case Some(m) =>
        if k in m {
          assert ToDictionary(entries).None?;
          var j :| 0 <= j < |rest| && HasKey(rest[j]) && KeyOf(rest[j]) == k;
        } else {
          assert ToDictionary(entries) == Some(m[k := entries[0].value]);
          forall j | 0 <= j < |rest| ensures k != KeyOf(rest[j]) {
            assert KeyOf(rest[j]) in m;
          }
          IndexCons(entries, m);
        }
    }
  }

  lemma WellKeyedCons(entries: seq<Option<Product>>)
    requires entries != [] && HasKey(entries[0])
    ensures WellKeyed(entries) <==>
              && WellKeyed(entries[1..])
              && forall j :: 0 <= j < |entries[1..]| ==> KeyOf(entries[0]) != KeyOf(entries[1..][j])
  {
    var rest := entries[1..];
    assert forall j :: 0 <= j < |rest| ==> rest[j] == entries[j + 1];
    if WellKeyed(rest) && forall j :: 0 <= j < |rest| ==> KeyOf(entries[0]) != KeyOf(rest[j]) {
      forall i, j | 0 <= i < j < |entries| ensures KeyOf(entries[i]) != KeyOf(entries[j]) {
        if i > 0 {
          assert KeyOf(rest[i - 1]) != KeyOf(rest[j - 1]);
        }
      }
    }
  }

  lemma IndexCons(entries: seq<Option<Product>>, m: map<string, Product>)
    requires entries != [] && WellKeyed(entries)
    requires ToDictionaryHolds(entries[1..], m)
    requires KeyOf(entries[0]) !in m
    ensures ToDictionaryHolds(entries, m[KeyOf(entries[0]) := entries[0].value])
  {
    IndexConsStores(entries, m);
    IndexConsKeys(entries, m, m[KeyOf(entries[0]) := entries[0].value]);
  }

  lemma IndexConsStores(entries: seq<Option<Product>>, m: map<string, Product>)
    requires entries != [] && WellKeyed(entries)
    requires forall j :: 0 <= j < |entries[1..]| ==>
               KeyOf(entries[1..][j]) in m && m[KeyOf(entries[1..][j])] == entries[1..][j].value
    requires KeyOf(entries[0]) !in m
    ensures var m' := m[KeyOf(entries[0]) := entries[0].value];
      forall i :: 0 <= i < |entries| ==> KeyOf(entries[i]) in m' && m'[KeyOf(entries[i])] == entries[i].value
  {
    var m' := m[KeyOf(entries[0]) := entries[0].value];
    forall i | 0 < i < |entries|
      ensures KeyOf(entries[i]) in m' && m'[KeyOf(entries[i])] == entries[i].value
    {
      assert entries[1..][i - 1] == entries[i];
    }
  }

  lemma IndexConsKeys(entries: seq<Option<Product>>, m: map<string, Product>, m': map<string, Product>)
    requires entries != [] && WellKeyed(entries)
    requires forall k :: k in m ==>
               exists j :: 0 <= j < |entries[1..]| && HasKey(entries[1..][j]) && KeyOf(entries[1..][j]) == k
    requires m' == m[KeyOf(entries[0]) := entries[0].value]
    ensures forall k :: k in m' ==>
              exists i :: 0 <= i < |entries| && HasKey(entries[i]) && KeyOf(entries[i]) == k
  {
    forall k | k in m'
      ensures exists i :: 0 <= i < |entries| && HasKey(entries[i]) && KeyOf(entries[i]) == k
    {
      if k in m {
        var j :| 0 <= j < |entries[1..]| && HasKey(entries[1..][j]) && KeyOf(entries[1..][j]) == k;
        assert entries[1..][j] == entries[j + 1];
      } else {
        assert KeyOf(entries[0]) == k;
      }
    }
  }

  /** `m` is the index of `entries`: one key per entry, each entry stored
      under its key, and no other key. */
  predicate ToDictionaryHolds(entries: seq<Option<Product>>, m: map<string, Product>)
    requires forall i :: 0 <= i < |entries| ==> HasKey(entries[i])
  {
    && |m| == |entries|
    && (forall i :: 0 <= i < |entries| ==> KeyOf(entries[i]) in m && m[KeyOf(entries[i])] == entries[i].value)
    && (forall k :: k in m ==> exists i :: 0 <= i < |entries| && HasKey(entries[i]) && KeyOf(entries[i]) == k)
  }

  /** The products of a well-keyed entry list, in file order. */
  function Products(entries: seq<Option<Product>>): (r: seq<Product>)
    requires forall i :: 0 <= i < |entries| ==> entries[i].Some?
    ensures |r| == |entries| && forall i :: 0 <= i < |entries| ==> Some(r[i]) == entries[i]
  {
    seq(|entries|, i requires 0 <= i < |entries| => entries[i].value)
  }

  // ---------------------------------------------------------------------
  // Reload: the state a `Load` of a given file installs.

  /** The two fields of the repository, as a value. */
  datatype Snapshot = Snapshot(byId: map<string, Product>, etag: string)

  /** The snapshot built from a parsed list of entries (`null` reads as the
      empty list), or the error snapshot when the index cannot be built. */
  function FromEntries(entries: seq<Option<Product>>, serialize: seq<Product> -> seq<byte>,
                       sha256: seq<byte> -> Digest): (s: Snapshot)
    ensures !WellKeyed(entries) ==> s == Snapshot(map[], ErrorETag)
    ensures WellKeyed(entries) ==>
              && ToDictionaryHolds(entries, s.byId)
              && s.etag == Quote(ComputeHash(sha256, serialize(Products(entries))))
    ensures IndexConsistent(s.byId)
  {
    ToDictionaryCorrect(entries);
    match ToDictionary(entries)
    case None => Snapshot(map[], ErrorETag)
    case Some(index) => Snapshot(index, Quote(ComputeHash(sha256, serialize(Products(entries)))))
  }

  /** The snapshot `Load` installs for a file: the three outcomes of the
      reload, none of which depends on the state before it. */
  function Reload(file: FileState, serialize: seq<Product> -> seq<byte>,
                  sha256: seq<byte> -> Digest): (s: Snapshot)
    ensures file.Absent? ==> s == Snapshot(map[], EmptyETag)
    ensures file.Unreadable? || file.Malformed? ==> s == Snapshot(map[], ErrorETag)
    ensures file.Document? && !WellKeyed(file.entries) ==> s == Snapshot(map[], ErrorETag)
    ensures file.NullDocument? ==> s == Snapshot(map[], Quote(ComputeHash(sha256, serialize([]))))
    ensures file.Document? && WellKeyed(file.entries) ==>
              && ToDictionaryHolds(file.entries, s.byId)
              && s.etag == Quote(ComputeHash(sha256, serialize(Products(file.entries))))
    ensures IndexConsistent(s.byId)
  {
    match file
    case Absent => Snapshot(map[], EmptyETag)
    case Unreadable => Snapshot(map[], ErrorETag)
    case Malformed => Snapshot(map[], ErrorETag)
    case NullDocument =>
      assert Products([]) == [];
      FromEntries([], serialize, sha256)
    case Document(entries) => FromEntries(entries, serialize, sha256)
  }

  // ---------------------------------------------------------------------
  // Lookup: the found/missing split of `GetByIdsAsync`.

  /** The indexed products of the requested ids, in request order. */
  function Found(byId: map<string, Product>, ids: seq<string>): (r: seq<Product>)
    ensures |r| <= |ids|
    ensures forall k :: 0 <= k < |r| ==> r[k] in byId.Values
  {
    if ids == [] then []
    else (if Fold(ids[0]) in byId then [byId[Fold(ids[0])]] else []) + Found(byId, ids[1..])
  }

  /** The requested ids that are not indexed, in request order. */
  function Missing(byId: map<string, Product>, ids: seq<string>): (r: seq<string>)
    ensures |r| <= |ids|
    ensures forall k :: 0 <= k < |r| ==> Fold(r[k]) !in byId
  {
    if ids == [] then []
    else (if Fold(ids[0]) in byId then [] else [ids[0]]) + Missing(byId, ids[1..])
  }

  /** The class itself: `_byId` and `_etag`, with the file watcher reduced
      to callers of `Load`. */
  class JsonProductRepository {
    /** `JsonSerializer.Serialize` followed by UTF-8 encoding. */
    const serialize: seq<Product> -> seq<byte>
    /** SHA-256. */
    const sha256: seq<byte> -> Digest

    var byId: map<string, Product>
    var etag: string

    ghost predicate Valid()
      reads this
    {
      IndexConsistent(byId)
    }

    /** Starts with an empty index and the "init" tag, then loads the file. */
    constructor (file: FileState, serialize: seq<Product> -> seq<byte>, sha256: seq<byte> -> Digest)
      ensures Valid()
      ensures this.serialize == serialize && this.sha256 == sha256
      ensures Snapshot(byId, etag) == Reload(file, serialize, sha256)
    {
      this.serialize := serialize;
      this.sha256 := sha256;
      byId := map[];
      etag := InitETag;
      new;
      Load(file);
    }

    /** Replaces the index and the tag together; a failure never escapes. */
    method Load(file: FileState)
      modifies this
      ensures Valid()
      ensures Snapshot(byId, etag) == Reload(file, serialize, sha256)
    {
      if file.Absent? {
        byId := map[];
        etag := EmptyETag;
        return;
      }
      if file.Unreadable? || file.Malformed? {
        byId := map[];
        etag := ErrorETag;
        return;
      }
      var items := if file.Document? then file.entries else [];
      var index := ToDictionary(items);
      ToDictionaryCorrect(items);
      if index.None? {
        byId := map[];
        etag := ErrorETag;
        return;
      }
      byId := index.value;
      etag := Quote(ComputeHash(sha256, serialize(Products(items))));
    }

    /** Splits the requested ids into the indexed products and the missing
      ids, and returns the current tag; changes nothing. */
    method GetByIds(ids: seq<string>) returns (found: seq<Product>, tag: string, missing: seq<string>)
      requires Valid()
      ensures found == Found(byId, ids) && missing == Missing(byId, ids)
      ensures tag == etag
      ensures |found| + |missing| == |ids|
      ensures forall k :: 0 <= k < |found| ==>
                found[k].id.Some? && exists i :: 0 <= i < |ids| && Fold(found[k].id.value) == Fold(ids[i])
    {
      found, missing := [], [];
      for i := 0 to |ids|
        invariant found == Found(byId, ids[..i])
        invariant missing == Missing(byId, ids[..i])
      {
        var id := ids[i];
        if Fold(id) in byId {
          found := found + [byId[Fold(id)]];
        } else {
          missing := missing + [id];
        }
        assert ids[..i + 1] == ids[..i] + [id];
        LookupAppend(byId, ids[..i], [id]);
      }
      assert ids[..|ids|] == ids;
      tag := etag;
      LookupPartition(byId, ids);
      forall k | 0 <= k < |found|
        ensures found[k].id.Some? && exists i :: 0 <= i < |ids| && Fold(found[k].id.value) == Fold(ids[i])
      {
        FoundMatchesRequest(byId, ids, k);
      }
    }
  }

  // ---------------------------------------------------------------------
  // Properties of the lookup.

  /** Looking up a concatenation looks up each part in turn: request order
      is kept in both lists. */
  lemma LookupAppend(byId: map<string, Product>, a: seq<string>, b: seq<string>)
    ensures Found(byId, a + b) == Found(byId, a) + Found(byId, b)
    ensures Missing(byId, a + b) == Missing(byId, a) + Missing(byId, b)
  {
    FoundAppend(byId, a, b);
    MissingAppend(byId, a, b);
  }

  lemma {:induction false} FoundAppend(byId: map<string, Product>, a: seq<string>, b: seq<string>)
    ensures Found(byId, a + b) == Found(byId, a) + Found(byId, b)
  {
    if a == [] {
      assert a + b == b;
    } else {
      var t := a[1..];
      assert a == [a[0]] + t;
      assert a + b == [a[0]] + (t + b);
      FoundAppend(byId, t, b);
      FoundCons(byId, a[0], t + b);
      FoundCons(byId, a[0], t);
    }
  }

  lemma FoundCons(byId: map<string, Product>, id: string, ids: seq<string>)
    ensures Found(byId, [id] + ids)
         == (if Fold(id) in byId then [byId[Fold(id)]] else []) + Found(byId, ids)
  {
    assert ([id] + ids)[1..] == ids;
  }

  lemma {:induction false} MissingAppend(byId: map<string, Product>, a: seq<string>, b: seq<string>)
    ensures Missing(byId, a + b) == Missing(byId, a) + Missing(byId, b)
  {
    if a == [] {
      assert a + b == b;
    } else {
      var t := a[1..];
      assert a == [a[0]] + t;
      assert a + b == [a[0]] + (t + b);
      MissingAppend(byId, t, b);
      MissingCons(byId, a[0], t + b);
      MissingCons(byId, a[0], t);
    }
  }

  lemma MissingCons(byId: map<string, Product>, id: string, ids: seq<string>)
    ensures Missing(byId, [id] + ids) == (if Fold(id) in byId then [] else [id]) + Missing(byId, ids)
  {
    assert ([id] + ids)[1..] == ids;
  }

  /** Every requested id lands in exactly one of the two lists. */
  lemma {:induction false} LookupPartition(byId: map<string, Product>, ids: seq<string>)
    ensures |Found(byId, ids)| + |Missing(byId, ids)| == |ids|
  {
    if ids != [] {
      LookupPartition(byId, ids[1..]);
    }
  }

  /** An id is reported missing exactly when it was requested and its folded
      form is not a key; each missing id appears as often as it was requested. */
  lemma {:induction false} MissingExactly(byId: map<string, Product>, ids: seq<string>, s: string)
    ensures s in Missing(byId, ids) <==> s in ids && Fold(s) !in byId
    ensures multiset(Missing(byId, ids))[s] == if Fold(s) in byId then 0 else multiset(ids)[s]
  {
    if ids != [] {
      MissingExactly(byId, ids[1..], s);
      assert ids == [ids[0]] + ids[1..];
    }
  }

  /** A product is found exactly when some requested id folds to its key. */
  lemma {:induction false} FoundExactly(byId: map<string, Product>, ids: seq<string>, p: Product)
    ensures p in Found(byId, ids) <==> exists id :: id in ids && Fold(id) in byId && byId[Fold(id)] == p
  {
    if ids != [] {
      FoundExactly(byId, ids[1..], p);
      if p in Found(byId, ids) && p !in Found(byId, ids[1..]) {
        assert ids[0] in ids;
      }
      if exists id :: id in ids && Fold(id) in byId && byId[Fold(id)] == p {
        var id :| id in ids && Fold(id) in byId && byId[Fold(id)] == p;
        if id != ids[0] {
          assert id in ids[1..];
        } else {
          assert p in Found(byId, ids);
        }
      }
    }
  }

  /** Something is found exactly when some requested id is indexed. */
  lemma {:induction false} FoundNonEmpty(byId: map<string, Product>, ids: seq<string>)
    ensures Found(byId, ids) != [] <==> exists i :: 0 <= i < |ids| && Fold(ids[i]) in byId
  {
    if ids != [] {
      FoundNonEmpty(byId, ids[1..]);
      if exists i :: 0 <= i < |ids| && Fold(ids[i]) in byId {
        var i :| 0 <= i < |ids| && Fold(ids[i]) in byId;
        if i > 0 {
          assert ids[1..][i - 1] == ids[i];
        }
      }
      if exists i :: 0 <= i < |ids[1..]| && Fold(ids[1..][i]) in byId {
        var i :| 0 <= i < |ids[1..]| && Fold(ids[1..][i]) in byId;
        assert ids[i + 1] == ids[1..][i];
      }
    }
  }

  /** Lookup ignores letter case: ids that differ only in case find the same
      products and the same number of missing ids. */
  lemma {:induction false} LookupIgnoresCase(byId: map<string, Product>, ids: seq<string>, ids': seq<string>)
    requires |ids| == |ids'|
    requires forall i :: 0 <= i < |ids| ==> SameIgnoringCase(ids[i], ids'[i])
    ensures Found(byId, ids) == Found(byId, ids')
    ensures |Missing(byId, ids)| == |Missing(byId, ids')|
  {
    if ids != [] {
      FoldSameIgnoringCase(ids[0], ids'[0]);
      LookupIgnoresCase(byId, ids[1..], ids'[1..]);
    }
  }

  /** Against an empty index (a missing or broken file) nothing is found and
      every id is missing. */
  lemma {:induction false} LookupEmpty(ids: seq<string>)
    ensures Found(map[], ids) == []
    ensures Missing(map[], ids) == ids
  {
    if ids != [] {
      LookupEmpty(ids[1..]);
    }
  }

  /** In a consistent index every found product has an id that folds to
      the folded form of a requested id. */
  lemma {:induction false} FoundMatchesRequest(byId: map<string, Product>, ids: seq<string>, k: nat)
    requires IndexConsistent(byId)
    requires k < |Found(byId, ids)|
    ensures Found(byId, ids)[k].id.Some?
    ensures exists i :: 0 <= i < |ids| && Fold(Found(byId, ids)[k].id.value) == Fold(ids[i])
  {
    if Fold(ids[0]) in byId && k == 0 {
      assert Found(byId, ids)[0] == byId[Fold(ids[0])];
    } else {
      var k' := if Fold(ids[0]) in byId then k - 1 else k;
      assert Found(byId, ids)[k] == Found(byId, ids[1..])[k'];
      FoundMatchesRequest(byId, ids[1..], k');
      var i :| 0 <= i < |ids[1..]| && Fold(Found(byId, ids[1..])[k'].id.value) == Fold(ids[1..][i]);
      assert ids[1..][i] == ids[i + 1];
    }
  }

  // ---------------------------------------------------------------------
  // Properties of the reload.

  /** A JSON `null` document loads like an empty array. */
  lemma NullDocumentIsEmptyList(serialize: seq<Product> -> seq<byte>, sha256: seq<byte> -> Digest)
    ensures Reload(NullDocument, serialize, sha256) == Reload(Document([]), serialize, sha256)
  {
    assert Products([]) == [];
  }

  /** A loaded content tag is a quoted 64-digit upper-case hex string, so it
      never equals one of the three sentinel tags. */
  lemma LoadedETagShape(file: FileState, serialize: seq<Product> -> seq<byte>, sha256: seq<byte> -> Digest)
    requires file.NullDocument? || (file.Document? && WellKeyed(file.entries))
    ensures var t := Reload(file, serialize, sha256).etag;
      && |t| == 66 && t[0] == '"' && t[65] == '"'
      && (forall i :: 1 <= i < 65 ==> IsUpperHexDigit(t[i]))
      && t != InitETag && t != EmptyETag && t != ErrorETag
  {
    var items := if file.Document? then Products(file.entries) else [];
    var h := ComputeHash(sha256, serialize(items));
    assert Reload(file, serialize, sha256).etag == Quote(h);
    QuotedHashShape(h);
  }

  lemma QuotedHashShape(h: string)
    requires |h| == 64 && forall i :: 0 <= i < |h| ==> IsUpperHexDigit(h[i])
    ensures var t := Quote(h);
      && |t| == 66 && t[0] == '"' && t[65] == '"'
      && (forall i :: 1 <= i < 65 ==> IsUpperHexDigit(t[i]))
      && t != InitETag && t != EmptyETag && t != ErrorETag
  {
    var t := Quote(h);
    assert forall i :: 1 <= i < 65 ==> t[i] == h[i - 1];
  }

  /** Two successful loads have the same tag exactly when the digests of
      their serialised contents agree: equal content gives equal tags, and
      the tag changes whenever the digest does. */
  lemma ETagIffSameDigest(entries: seq<Option<Product>>, entries': seq<Option<Product>>,
                          serialize: seq<Product> -> seq<byte>, sha256: seq<byte> -> Digest)
    requires WellKeyed(entries) && WellKeyed(entries')
    ensures Reload(Document(entries), serialize, sha256).etag == Reload(Document(entries'), serialize, sha256).etag
        <==> sha256(serialize(Products(entries))) == sha256(serialize(Products(entries')))
  {
    var d := sha256(serialize(Products(entries)));
    var d' := sha256(serialize(Products(entries')));
    var q := Quote(ToHexString(d));
    var q' := Quote(ToHexString(d'));
    if q == q' {
      assert q[1..|q| - 1] == q'[1..|q'| - 1];
    }
    HexInjective(d, d');
  }

  /** A file whose array holds a product with no id, such as one that sets
      no member at all (`DefaultProduct`), cannot be loaded. */
  lemma ProductWithoutIdIsAnError(before: seq<Option<Product>>, p: Product, after: seq<Option<Product>>,
                                  serialize: seq<Product> -> seq<byte>, sha256: seq<byte> -> Digest)
    requires p.id.None?
    ensures Reload(Document(before + [Some(p)] + after), serialize, sha256)
         == Snapshot(map[], ErrorETag)
  {
    var entries := before + [Some(p)] + after;
    assert !HasKey(entries[|before|]);
  }

  /** A file listing one id twice, in different case and anywhere in the
      array, cannot be loaded. */
  lemma CaseVariantDuplicateIsAnError(before: seq<Option<Product>>, p: Product, middle: seq<Option<Product>>,
                                      q: Product, after: seq<Option<Product>>,
                                      serialize: seq<Product> -> seq<byte>, sha256: seq<byte> -> Digest)
    requires p.id.Some? && q.id.Some? && SameIgnoringCase(p.id.value, q.id.value)
    ensures Reload(Document(before + [Some(p)] + middle + [Some(q)] + after), serialize, sha256)
         == Snapshot(map[], ErrorETag)
  {
    FoldSameIgnoringCase(p.id.value, q.id.value);
    var entries := before + [Some(p)] + middle + [Some(q)] + after;
    var i, j := |before|, |before| + 1 + |middle|;
    assert entries[i] == Some(p) && entries[j] == Some(q);
    assert KeyOf(entries[i]) == KeyOf(entries[j]);
  }
}
