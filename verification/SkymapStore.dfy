/** Object storage for sky maps behind a read-through cache.

    Compression and JSON are foreign; all that is used of them is that decoding
    undoes encoding. */
module SkymapStore {
  import opened Wrappers
  import opened Decimal
  import opened ByteStrings

  datatype Blob = Blob(supereventId: string, bytes: Bytes, elapsedMs: U64)

  datatype Envelope = Envelope(supereventId: string, bytes: Bytes, elapsedMs: U64, compressed: bool)

  datatype StoreError = NotFound(id: string) | JsonFailed | ZstdFailed | ObjectStoreFailed

  datatype Codec = Codec(
    toJson: Envelope -> Bytes, fromJson: Bytes -> Option<Envelope>,
    deflate: Bytes -> Bytes, inflate: Bytes -> Option<Bytes>)

  ghost predicate Lawful(codec: Codec) {
    && (forall e :: codec.fromJson(codec.toJson(e)) == Some(e))
    && (forall b :: codec.inflate(codec.deflate(b)) == Some(b))
  }

  // ---------------------------------------------------------------- keys

  function S3Key(prefix: string, id: string): string {
    prefix + "/skymaps/" + id + ".json"
  }

  function ContourKey(prefix: string, id: string, level: nat): string {
    prefix + "/contours/" + id + "/" + Digits(level) + ".fits"
  }

  function GrbKey(prefix: string, instrument: string, trigger: string): string {
    prefix + "/grb-skymaps/" + instrument + "/" + trigger + ".fits"
  }

  function CacheKey(prefix: string, id: string): string {
    prefix + ":skymap:" + id
  }

  lemma Cancel(a: string, x: string, y: string)
    requires a + x == a + y
    ensures x == y
  {
    assert x == (a + x)[|a|..] && y == (a + y)[|a|..];
  }

  lemma CancelEnd(x: string, y: string, b: string)
    requires x + b == y + b
    ensures x == y
  {
    assert |x| == |y|;
    assert x == (x + b)[..|x|] && y == (y + b)[..|y|];
  }

  lemma S3KeyInjective(prefix: string, i: string, j: string)
    ensures S3Key(prefix, i) == S3Key(prefix, j) ==> i == j
  {
    if S3Key(prefix, i) == S3Key(prefix, j) {
      CancelEnd(prefix + "/skymaps/" + i, prefix + "/skymaps/" + j, ".json");
      Cancel(prefix + "/skymaps/", i, j);
    }
  }

  lemma CacheKeyInjective(prefix: string, i: string, j: string)
    ensures CacheKey(prefix, i) == CacheKey(prefix, j) ==> i == j
  {
    if CacheKey(prefix, i) == CacheKey(prefix, j) { Cancel(prefix + ":skymap:", i, j); }
  }

  // Split at the last slash.
  lemma LastSlash(a: string, x: string, b: string, y: string)
    requires a + "/" + x == b + "/" + y && '/' !in x && '/' !in y
    ensures a == b && x == y
  {
    var s := a + "/" + x;
    assert s[|a|] == '/' && s[|b|] == '/';
    assert forall i :: |a| < i < |s| ==> s[i] == x[i - |a| - 1];
    assert forall i :: |b| < i < |s| ==> s[i] == y[i - |b| - 1];
    assert |a| == |b|;
    assert a == s[..|a|] && b == s[..|b|] && x == s[|a| + 1..] && y == s[|b| + 1..];
  }

  lemma ContourKeyInjective(prefix: string, i: string, m: nat, j: string, n: nat)
    ensures ContourKey(prefix, i, m) == ContourKey(prefix, j, n) ==> i == j && m == n
  {
    if ContourKey(prefix, i, m) == ContourKey(prefix, j, n) {
      var p := prefix + "/contours/";
      CancelEnd(p + i + "/" + Digits(m), p + j + "/" + Digits(n), ".fits");
      LastSlash(p + i, Digits(m), p + j, Digits(n));
      Cancel(p, i, j);
      ValueOfDigits(m);
      ValueOfDigits(n);
    }
  }

  lemma GrbKeySuffix(prefix: string, i: string, t: string, j: string, u: string)
    ensures GrbKey(prefix, i, t) == GrbKey(prefix, j, u) <==> i + "/" + t == j + "/" + u
  {
    var p := prefix + "/grb-skymaps/";
    assert GrbKey(prefix, i, t) == p + (i + "/" + t) + ".fits";
    assert GrbKey(prefix, j, u) == p + (j + "/" + u) + ".fits";
    if GrbKey(prefix, i, t) == GrbKey(prefix, j, u) {
      CancelEnd(p + (i + "/" + t), p + (j + "/" + u), ".fits");
      Cancel(p, i + "/" + t, j + "/" + u);
    }
  }

  ghost predicate SharesGrbKey(prefix: string, i: string, t: string, j: string, u: string) {
    (i != j || t != u) && GrbKey(prefix, i, t) == GrbKey(prefix, j, u)
  }

  /** A GRB map's key also names some other (instrument, trigger) pair exactly
      when one of the two contains a slash. */
  lemma GrbKeyIsSharedIff(prefix: string, i: string, t: string)
    ensures (exists j, u :: SharesGrbKey(prefix, i, t, j, u)) <==> '/' in i || '/' in t
  {
    if '/' in i {
      var n :| 0 <= n < |i| && i[n] == '/';
      var j, u := i[..n], i[n + 1..] + "/" + t;
      assert i == j + "/" + i[n + 1..];
      assert i + "/" + t == j + "/" + u;
      GrbKeySuffix(prefix, i, t, j, u);
      assert |j| < |i|;
      assert SharesGrbKey(prefix, i, t, j, u);
    } else if '/' in t {
      var n :| 0 <= n < |t| && t[n] == '/';
      var j, u := i + "/" + t[..n], t[n + 1..];
      assert t == t[..n] + "/" + u;
      assert i + "/" + t == j + "/" + u;
      GrbKeySuffix(prefix, i, t, j, u);
      assert |u| < |t|;
      assert SharesGrbKey(prefix, i, t, j, u);
    } else {
      forall j, u
        ensures !SharesGrbKey(prefix, i, t, j, u)
      {
        GrbKeySuffix(prefix, i, t, j, u);
        if i + "/" + t == j + "/" + u { OneSlash(i, t, j, u); }
      }
    }
  }

  lemma OneSlash(i: string, t: string, j: string, u: string)
    requires i + "/" + t == j + "/" + u && '/' !in i && '/' !in t
    ensures i == j && t == u
  {
    var s := i + "/" + t;
    assert s[|i|] == '/' && s[|j|] == '/';
    assert forall k :: 0 <= k < |i| ==> s[k] == i[k];
    assert forall k :: |i| < k < |s| ==> s[k] == t[k - |i| - 1];
    assert |i| == |j|;
    assert i == s[..|i|] && j == s[..|j|] && t == s[|i| + 1..] && u == s[|j| + 1..];
  }

  // Sky maps, contours and GRB maps never share a key.
  lemma KindsHaveDistinctKeys(prefix: string, id: string, other: string, level: nat, instrument: string,
      trigger: string)
    ensures S3Key(prefix, id) != ContourKey(prefix, other, level)
    ensures S3Key(prefix, id) != GrbKey(prefix, instrument, trigger)
    ensures ContourKey(prefix, other, level) != GrbKey(prefix, instrument, trigger)
  {
    var n := |prefix| + 1;
    assert S3Key(prefix, id)[n] == 's';
    assert ContourKey(prefix, other, level)[n] == 'c';
    assert GrbKey(prefix, instrument, trigger)[n] == 'g';
  }

  // ------------------------------------------------------- cache entries

  // Eight little-endian bytes of elapsed time, then the map.
  function Pack(blob: Blob): Bytes {
    EightBytesHoldU64();
    LittleEndian(blob.elapsedMs, 8) + blob.bytes
  }

  function Unpack(id: string, raw: Bytes): Option<Blob> {
    if |raw| < 8 then None
    else
      EightBytesHoldU64();
      assert |Reversed(raw[..8])| == 8;
      Some(Blob(id, raw[8..], FromLittleEndian(raw[..8])))
  }

  lemma UnpackInvertsPack(blob: Blob)
    ensures Unpack(blob.supereventId, Pack(blob)) == Some(blob)
  {
    EightBytesHoldU64();
    LittleEndianRoundTrip(blob.elapsedMs, 8);
    assert Pack(blob)[..8] == LittleEndian(blob.elapsedMs, 8) && Pack(blob)[8..] == blob.bytes;
  }

  /** Every entry of at least eight bytes is the packing of exactly one blob for
      its id; shorter ones are refused. */
  lemma PackInvertsUnpack(id: string, raw: Bytes)
    ensures Unpack(id, raw).Some? <==> |raw| >= 8
    ensures Unpack(id, raw).Some? ==> Pack(Unpack(id, raw).value) == raw
  {
    if |raw| >= 8 {
      EightBytesHoldU64();
      BigEndianOfValue(Reversed(raw[..8]));
      assert Reversed(Reversed(raw[..8])) == raw[..8];
    }
  }

  lemma {:induction false} BigEndianOfValue(b: Bytes)
    ensures BigEndian(FromBigEndian(b), |b|) == b
  {
    if b == [] {
    } else {
      BigEndianOfValue(b[..|b| - 1]);
    }
  }

  // ------------------------------------------------------ what each op does

  datatype Config = Config(keyPrefix: string, cachePrefix: string, cached: bool, compress: bool, codec: Codec)

  datatype Store = Store(bucket: map<string, Bytes>, cache: map<string, Bytes>)

  function Encode(cfg: Config, blob: Blob): Bytes {
    var bytes := if cfg.compress then cfg.codec.deflate(blob.bytes) else blob.bytes;
    cfg.codec.toJson(Envelope(blob.supereventId, bytes, blob.elapsedMs, cfg.compress))
  }

  function Decode(cfg: Config, raw: Bytes): Result<Blob, StoreError> {
    match cfg.codec.fromJson(raw)
    case None => Err(JsonFailed)
    case Some(e) =>
      if !e.compressed then Ok(Blob(e.supereventId, e.bytes, e.elapsedMs))
      else
        match cfg.codec.inflate(e.bytes)
        case None => Err(ZstdFailed)
        case Some(bytes) => Ok(Blob(e.supereventId, bytes, e.elapsedMs))
  }

  lemma DecodeInvertsEncode(cfg: Config, blob: Blob)
    requires Lawful(cfg.codec)
    ensures Decode(cfg, Encode(cfg, blob)) == Ok(blob)
  {
  }

  /** How the two servers answer during one operation; what the cache refuses is
      only logged. */
  datatype Answers = Answers(cacheRead: bool, cacheWrite: bool, objects: bool)

  function CacheSet(cfg: Config, cache: map<string, Bytes>, blob: Blob, ok: bool): map<string, Bytes> {
    if cfg.cached && ok then cache[CacheKey(cfg.cachePrefix, blob.supereventId) := Pack(blob)] else cache
  }

  function CacheGet(cfg: Config, cache: map<string, Bytes>, id: string, ok: bool): Option<Blob> {
    var key := CacheKey(cfg.cachePrefix, id);
    if cfg.cached && ok && key in cache then Unpack(id, cache[key]) else None
  }

  function Upserted(cfg: Config, s: Store, blob: Blob, a: Answers): Store {
    if !a.objects then s
    else
      Store(s.bucket[S3Key(cfg.keyPrefix, blob.supereventId) := Encode(cfg, blob)],
            CacheSet(cfg, s.cache, blob, a.cacheWrite))
  }

  function Fetched(cfg: Config, s: Store, id: string, a: Answers): Result<Blob, StoreError> {
    if CacheGet(cfg, s.cache, id, a.cacheRead).Some? then Ok(CacheGet(cfg, s.cache, id, a.cacheRead).value)
    else if !a.objects then Err(ObjectStoreFailed)
    else if S3Key(cfg.keyPrefix, id) !in s.bucket then Err(NotFound(id))
    else Decode(cfg, s.bucket[S3Key(cfg.keyPrefix, id)])
  }

  function AfterFetch(cfg: Config, s: Store, id: string, a: Answers): Store {
    if CacheGet(cfg, s.cache, id, a.cacheRead).Some? || Fetched(cfg, s, id, a).Err? then s
    else s.(cache := CacheSet(cfg, s.cache, Fetched(cfg, s, id, a).value, a.cacheWrite))
  }

  function Deleted(cfg: Config, s: Store, id: string, a: Answers): Store {
    var cache := if cfg.cached && a.cacheWrite then s.cache - {CacheKey(cfg.cachePrefix, id)} else s.cache;
    Store(if a.objects then s.bucket - {S3Key(cfg.keyPrefix, id)} else s.bucket, cache)
  }

  // ------------------------------------------------------------- the class

  class S3SkymapStorage {
    const cfg: Config
    var bucket: map<string, Bytes>
    var cache: map<string, Bytes>

    ghost function Contents(): Store
      reads this
    {
      Store(bucket, cache)
    }

    constructor (cfg: Config)
      ensures this.cfg == cfg && Contents() == Store(map[], map[])
    {
      this.cfg, bucket, cache := cfg, map[], map[];
    }

    // Entries whose time to live has passed.
    method Expire(keys: set<string>)
      modifies this`cache
      ensures cache == old(cache) - keys
    {
      cache := cache - keys;
    }

    method Upsert(blob: Blob, a: Answers) returns (r: Result<(), StoreError>)
      modifies this
      ensures Contents() == Upserted(cfg, old(Contents()), blob, a)
      ensures r == if a.objects then Ok(()) else Err(ObjectStoreFailed)
    {
      var bytes, compressed := blob.bytes, false;
      if cfg.compress { bytes, compressed := cfg.codec.deflate(blob.bytes), true; }
      var body := cfg.codec.toJson(Envelope(blob.supereventId, bytes, blob.elapsedMs, compressed));
      if !a.objects { return Err(ObjectStoreFailed); }
      bucket := bucket[S3Key(cfg.keyPrefix, blob.supereventId) := body];
      if cfg.cached { SetCached(blob, a.cacheWrite); }
      r := Ok(());
    }

    method SetCached(blob: Blob, ok: bool)
      requires cfg.cached
      modifies this`cache
      ensures cache == CacheSet(cfg, old(cache), blob, ok)
    {
      if ok { cache := cache[CacheKey(cfg.cachePrefix, blob.supereventId) := Pack(blob)]; }
    }

    method Get(id: string, a: Answers) returns (r: Result<Blob, StoreError>)
      modifies this`cache
      ensures r == Fetched(cfg, old(Contents()), id, a)
      ensures Contents() == AfterFetch(cfg, old(Contents()), id, a)
    {
      if cfg.cached && a.cacheRead {
        var key := CacheKey(cfg.cachePrefix, id);
        if key in cache {
          var hit := Unpack(id, cache[key]);
          if hit.Some? { return Ok(hit.value); }
        }
      }
      if !a.objects { return Err(ObjectStoreFailed); }
      var key := S3Key(cfg.keyPrefix, id);
      if key !in bucket { return Err(NotFound(id)); }
      r := Decode(cfg, bucket[key]);
      if r.Ok? && cfg.cached { SetCached(r.value, a.cacheWrite); }
    }

    // The cache entry goes first, whatever becomes of the object.
    method Delete(id: string, a: Answers) returns (r: Result<(), StoreError>)
      modifies this
      ensures Contents() == Deleted(cfg, old(Contents()), id, a)
      ensures r == if a.objects then Ok(()) else Err(ObjectStoreFailed)
    {
      if cfg.cached && a.cacheWrite { cache := cache - {CacheKey(cfg.cachePrefix, id)}; }
      if !a.objects { return Err(ObjectStoreFailed); }
      bucket := bucket - {S3Key(cfg.keyPrefix, id)};
      r := Ok(());
    }

    // Contours go to the same bucket, past the cache.
    method UpsertContour(id: string, level: nat, bytes: Bytes, objects: bool) returns (r: Result<(), StoreError>)
      modifies this`bucket
      ensures Contents() == if objects then Apply(cfg, old(Contents()), Contour(id, level, bytes)) else old(Contents())
      ensures r == if objects then Ok(()) else Err(ObjectStoreFailed)
    {
      if !objects { return Err(ObjectStoreFailed); }
      bucket := bucket[ContourKey(cfg.keyPrefix, id, level) := bytes];
      r := Ok(());
    }
  }

  // --------------------------------------------------- a map, and no more

  /** The store holds exactly the blobs of a plain map, and whatever the cache
      holds is current. */
  ghost predicate Represents(cfg: Config, s: Store, plain: map<string, Blob>) {
    && (forall id :: id in plain ==> HasObject(cfg, s, id, plain[id]))
    && (forall id: string :: S3Key(cfg.keyPrefix, id) in s.bucket ==> id in plain)
    && (forall id: string :: CacheKey(cfg.cachePrefix, id) in s.cache ==> IsCurrent(cfg, s, id, plain))
  }

  ghost predicate HasObject(cfg: Config, s: Store, id: string, blob: Blob) {
    && blob.supereventId == id && S3Key(cfg.keyPrefix, id) in s.bucket
    && Decode(cfg, s.bucket[S3Key(cfg.keyPrefix, id)]) == Ok(blob)
  }

  ghost predicate IsCurrent(cfg: Config, s: Store, id: string, plain: map<string, Blob>)
    requires CacheKey(cfg.cachePrefix, id) in s.cache
  {
    id in plain && Unpack(id, s.cache[CacheKey(cfg.cachePrefix, id)]) == Some(plain[id])
  }

  /** `Fill` is the last access of a lookup that read its object some time ago,
      other operations having come in between.  An upsert or delete cut in two the
      same way is one whose cache access is refused, next to a fill or an expiry. */
  datatype Op =
    | Expire(keys: set<string>)
    | Upsert(blob: Blob, upsertAnswers: Answers)
    | Get(id: string, getAnswers: Answers)
    | Delete(id: string, deleteAnswers: Answers)
    | Contour(id: string, level: nat, bytes: Bytes)
    | Fill(late: Blob, accepted: bool)

  function Apply(cfg: Config, s: Store, op: Op): Store {
    match op
    case Expire(keys) => s.(cache := s.cache - keys)
    case Upsert(blob, a) => Upserted(cfg, s, blob, a)
    case Get(id, a) => AfterFetch(cfg, s, id, a)
    case Delete(id, a) => Deleted(cfg, s, id, a)
    case Contour(id, level, bytes) => s.(bucket := s.bucket[ContourKey(cfg.keyPrefix, id, level) := bytes])
    case Fill(blob, ok) => s.(cache := CacheSet(cfg, s.cache, blob, ok))
  }

  // A failed object write or delete leaves the plain map as it was.
  function ApplyPlain(plain: map<string, Blob>, op: Op): map<string, Blob> {
    match op
    case Upsert(blob, a) => if a.objects then plain[blob.supereventId := blob] else plain
    case Delete(id, a) => if a.objects then plain - {id} else plain
    case Expire(_) => plain
    case Get(_, _) => plain
    case Contour(_, _, _) => plain
    case Fill(_, _) => plain
  }

  function GetPlain(plain: map<string, Blob>, id: string): Result<Blob, StoreError> {
    if id in plain then Ok(plain[id]) else Err(NotFound(id))
  }

  /** What must not happen: a cache write or delete refused while an entry for the
      same id is live and the object does change, or a late fill with what is no
      longer the object. */
  predicate Safe(cfg: Config, s: Store, op: Op) {
    match op
    case Upsert(blob, a) =>
      !cfg.cached || a.cacheWrite || !a.objects || CacheKey(cfg.cachePrefix, blob.supereventId) !in s.cache
    case Delete(id, a) => !cfg.cached || a.cacheWrite || !a.objects || CacheKey(cfg.cachePrefix, id) !in s.cache
    case Expire(_) => true
    case Get(_, _) => true
    case Contour(_, _, _) => true
    case Fill(blob, ok) =>
      var key := S3Key(cfg.keyPrefix, blob.supereventId);
      !cfg.cached || !ok || (key in s.bucket && Decode(cfg, s.bucket[key]) == Ok(blob))
  }

  lemma UpsertKeepsObjects(cfg: Config, s: Store, plain: map<string, Blob>, blob: Blob, a: Answers, id: string)
    requires Lawful(cfg.codec) && Represents(cfg, s, plain) && a.objects
    ensures
      var t, after := Upserted(cfg, s, blob, a), plain[blob.supereventId := blob];
      && (id in after ==> HasObject(cfg, t, id, after[id]))
      && (S3Key(cfg.keyPrefix, id) in t.bucket ==> id in after)
  {
    hide S3Key, CacheSet, Encode, Decode, Lawful;
    DecodeInvertsEncode(cfg, blob);
    S3KeyInjective(cfg.keyPrefix, id, blob.supereventId);
    if id in plain { assert HasObject(cfg, s, id, plain[id]); }
  }

  lemma UpsertKeepsEntries(cfg: Config, s: Store, plain: map<string, Blob>, blob: Blob, a: Answers, id: string)
    requires Represents(cfg, s, plain) && Safe(cfg, s, Upsert(blob, a)) && (cfg.cached || s.cache == map[]) && a.objects
    requires CacheKey(cfg.cachePrefix, id) in Upserted(cfg, s, blob, a).cache
    ensures IsCurrent(cfg, Upserted(cfg, s, blob, a), id, plain[blob.supereventId := blob])
  {
    hide CacheKey, Pack, Unpack, Encode;
    UnpackInvertsPack(blob);
    CacheKeyInjective(cfg.cachePrefix, id, blob.supereventId);
    if id != blob.supereventId { assert IsCurrent(cfg, s, id, plain); }
  }

  lemma UpsertRepresents(cfg: Config, s: Store, plain: map<string, Blob>, blob: Blob, a: Answers)
    requires Lawful(cfg.codec) && Represents(cfg, s, plain) && Safe(cfg, s, Upsert(blob, a))
    requires cfg.cached || s.cache == map[]
    ensures Represents(cfg, Upserted(cfg, s, blob, a), ApplyPlain(plain, Upsert(blob, a)))
  {
    hide S3Key, CacheKey, CacheSet, Encode, HasObject, IsCurrent, Lawful, Safe;
    if a.objects {
      var t, after := Upserted(cfg, s, blob, a), plain[blob.supereventId := blob];
      forall id: string
        ensures id in after ==> HasObject(cfg, t, id, after[id])
        ensures S3Key(cfg.keyPrefix, id) in t.bucket ==> id in after
      {
        UpsertKeepsObjects(cfg, s, plain, blob, a, id);
      }
      forall id: string | CacheKey(cfg.cachePrefix, id) in t.cache
        ensures IsCurrent(cfg, t, id, after)
      {
        UpsertKeepsEntries(cfg, s, plain, blob, a, id);
      }
    }
  }

  /** What a lookup answers: the plain map's answer, unless the object store fails
      and no live cache entry steps in. */
  function LookupOf(cfg: Config, s: Store, plain: map<string, Blob>, id: string, a: Answers): Result<Blob, StoreError> {
    if a.objects || (cfg.cached && a.cacheRead && CacheKey(cfg.cachePrefix, id) in s.cache) then GetPlain(plain, id)
    else Err(ObjectStoreFailed)
  }

  lemma FetchedIsLookup(cfg: Config, s: Store, plain: map<string, Blob>, id: string, a: Answers)
    requires Represents(cfg, s, plain)
    ensures Fetched(cfg, s, id, a) == LookupOf(cfg, s, plain, id, a)
  {
    hide S3Key, CacheKey, Pack, Unpack, Decode;
    if CacheKey(cfg.cachePrefix, id) in s.cache { assert IsCurrent(cfg, s, id, plain); }
    if id in plain { assert HasObject(cfg, s, id, plain[id]); }
  }

  lemma FetchKeepsEntries(cfg: Config, s: Store, plain: map<string, Blob>, id: string, a: Answers, other: string)
    requires Represents(cfg, s, plain) && CacheKey(cfg.cachePrefix, other) in AfterFetch(cfg, s, id, a).cache
    ensures IsCurrent(cfg, AfterFetch(cfg, s, id, a), other, plain)
  {
    hide S3Key, CacheKey, Pack, Unpack, Decode;
    CacheKeyInjective(cfg.cachePrefix, other, id);
    FetchedIsLookup(cfg, s, plain, id, a);
    if CacheKey(cfg.cachePrefix, other) in s.cache { assert IsCurrent(cfg, s, other, plain); }
    if id in plain {
      assert HasObject(cfg, s, id, plain[id]);
      UnpackInvertsPack(plain[id]);
    }
  }

  lemma FetchRepresents(cfg: Config, s: Store, plain: map<string, Blob>, id: string, a: Answers)
    requires Represents(cfg, s, plain)
    ensures Represents(cfg, AfterFetch(cfg, s, id, a), plain)
  {
    hide S3Key, CacheKey, CacheSet, CacheGet, Fetched, Decode, IsCurrent;
    var t := AfterFetch(cfg, s, id, a);
    assert t.bucket == s.bucket;
    forall other | other in plain ensures HasObject(cfg, t, other, plain[other]) {
      assert HasObject(cfg, s, other, plain[other]);
    }
    forall other: string | CacheKey(cfg.cachePrefix, other) in t.cache ensures IsCurrent(cfg, t, other, plain) {
      FetchKeepsEntries(cfg, s, plain, id, a, other);
    }
  }

  lemma DeleteRepresents(cfg: Config, s: Store, plain: map<string, Blob>, id: string, a: Answers)
    requires Represents(cfg, s, plain) && Safe(cfg, s, Delete(id, a)) && (cfg.cached || s.cache == map[])
    ensures Represents(cfg, Deleted(cfg, s, id, a), ApplyPlain(plain, Delete(id, a)))
  {
    hide S3Key, CacheKey, Pack, Unpack, Decode;
    var t, after := Deleted(cfg, s, id, a), ApplyPlain(plain, Delete(id, a));
    forall other | other in after ensures HasObject(cfg, t, other, after[other]) {
      S3KeyInjective(cfg.keyPrefix, other, id);
      assert HasObject(cfg, s, other, plain[other]);
    }
    forall other: string | CacheKey(cfg.cachePrefix, other) in t.cache ensures IsCurrent(cfg, t, other, after) {
      assert IsCurrent(cfg, s, other, plain);
    }
  }

  lemma ContourRepresents(cfg: Config, s: Store, plain: map<string, Blob>, id: string, level: nat, bytes: Bytes)
    requires Represents(cfg, s, plain)
    ensures Represents(cfg, Apply(cfg, s, Contour(id, level, bytes)), plain)
  {
    hide S3Key, CacheKey, Pack, Unpack, Decode, ContourKey;
    var t := Apply(cfg, s, Contour(id, level, bytes));
    forall other: string
      ensures S3Key(cfg.keyPrefix, other) != ContourKey(cfg.keyPrefix, id, level)
    {
      KindsHaveDistinctKeys(cfg.keyPrefix, other, id, level, "", "");
    }
    forall other | other in plain
      ensures HasObject(cfg, t, other, plain[other])
    {
      assert HasObject(cfg, s, other, plain[other]);
    }
    forall other: string | CacheKey(cfg.cachePrefix, other) in t.cache
      ensures IsCurrent(cfg, t, other, plain)
    {
      assert IsCurrent(cfg, s, other, plain);
    }
  }

  lemma ExpireRepresents(cfg: Config, s: Store, plain: map<string, Blob>, keys: set<string>)
    requires Represents(cfg, s, plain)
    ensures Represents(cfg, s.(cache := s.cache - keys), plain)
  {
    hide S3Key, CacheKey, Pack, Unpack, Decode;
    var t := s.(cache := s.cache - keys);
    forall other | other in plain
      ensures HasObject(cfg, t, other, plain[other])
    {
      assert HasObject(cfg, s, other, plain[other]);
    }
    forall other: string | CacheKey(cfg.cachePrefix, other) in t.cache
      ensures IsCurrent(cfg, t, other, plain)
    {
      assert IsCurrent(cfg, s, other, plain);
    }
  }

  lemma FillRepresents(cfg: Config, s: Store, plain: map<string, Blob>, blob: Blob, ok: bool)
    requires Represents(cfg, s, plain) && Safe(cfg, s, Fill(blob, ok)) && (cfg.cached || s.cache == map[])
    ensures Represents(cfg, Apply(cfg, s, Fill(blob, ok)), plain)
  {
    hide S3Key, CacheKey, Pack, Unpack, Decode;
    var t := Apply(cfg, s, Fill(blob, ok));
    UnpackInvertsPack(blob);
    forall other | other in plain ensures HasObject(cfg, t, other, plain[other]) {
      assert HasObject(cfg, s, other, plain[other]);
    }
    forall other: string | CacheKey(cfg.cachePrefix, other) in t.cache ensures IsCurrent(cfg, t, other, plain) {
      CacheKeyInjective(cfg.cachePrefix, other, blob.supereventId);
      if CacheKey(cfg.cachePrefix, other) in s.cache { assert IsCurrent(cfg, s, other, plain); }
    }
  }

  function Run(cfg: Config, s: Store, ops: seq<Op>): Store {
    if ops == [] then s else Apply(cfg, Run(cfg, s, ops[..|ops| - 1]), ops[|ops| - 1])
  }

  function RunPlain(plain: map<string, Blob>, ops: seq<Op>): map<string, Blob> {
    if ops == [] then plain else ApplyPlain(RunPlain(plain, ops[..|ops| - 1]), ops[|ops| - 1])
  }

  predicate AllSafe(cfg: Config, s: Store, ops: seq<Op>) {
    ops == [] || (AllSafe(cfg, s, ops[..|ops| - 1]) && Safe(cfg, Run(cfg, s, ops[..|ops| - 1]), ops[|ops| - 1]))
  }

  lemma UncachedStaysEmpty(cfg: Config, s: Store, op: Op)
    requires !cfg.cached && s.cache == map[]
    ensures Apply(cfg, s, op).cache == map[]
  {
  }

  /** Cache transparency: after any operations, with entries expiring and either
      server failing at any point, every lookup answers as a plain map of ids to
      blobs would, or reports the object store's failure. */
  lemma {:induction false} CacheIsInvisible(cfg: Config, ops: seq<Op>, id: string, a: Answers)
    requires Lawful(cfg.codec) && AllSafe(cfg, Store(map[], map[]), ops)
    ensures
      var s, plain := Run(cfg, Store(map[], map[]), ops), RunPlain(map[], ops);
      && Represents(cfg, s, plain) && (cfg.cached || s.cache == map[])
      && Fetched(cfg, s, id, a) == LookupOf(cfg, s, plain, id, a)
      && (a.objects ==> Fetched(cfg, s, id, a) == GetPlain(plain, id))
  {
    hide Represents, Lawful, Fetched, AfterFetch, Upserted, Deleted;
    var empty := Store(map[], map[]);
    if ops == [] {
      EmptyRepresents(cfg);
    } else {
      var init, op := ops[..|ops| - 1], ops[|ops| - 1];
      CacheIsInvisible(cfg, init, id, a);
      var s, plain := Run(cfg, empty, init), RunPlain(map[], init);
      if !cfg.cached { UncachedStaysEmpty(cfg, s, op); }
      match op
      case Expire(keys) => ExpireRepresents(cfg, s, plain, keys);
      case Upsert(blob, b) => UpsertRepresents(cfg, s, plain, blob, b);
      case Get(other, b) => FetchRepresents(cfg, s, plain, other, b);
      case Delete(other, b) => DeleteRepresents(cfg, s, plain, other, b);
      case Contour(other, level, bytes) => ContourRepresents(cfg, s, plain, other, level, bytes);
      case Fill(blob, ok) => FillRepresents(cfg, s, plain, blob, ok);
    }
    FetchedIsLookup(cfg, Run(cfg, empty, ops), RunPlain(map[], ops), id, a);
  }

  lemma EmptyRepresents(cfg: Config)
    ensures Represents(cfg, Store(map[], map[]), map[])
  {
  }

  const ALL_ANSWER := Answers(true, true, true)
  const CACHE_REFUSES := Answers(true, false, true)

  /** Why the condition is needed: after an upsert whose cache write is refused,
      the next lookup is right exactly when no entry was live or the live one
      already held this very blob. */
  lemma RefusedWriteIsStaleIff(cfg: Config, s: Store, plain: map<string, Blob>, blob: Blob)
    requires Lawful(cfg.codec) && cfg.cached && Represents(cfg, s, plain)
    ensures
      var key := CacheKey(cfg.cachePrefix, blob.supereventId);
      Fetched(cfg, Upserted(cfg, s, blob, CACHE_REFUSES), blob.supereventId, ALL_ANSWER) == Ok(blob)
      <==> key !in s.cache || Unpack(blob.supereventId, s.cache[key]) == Some(blob)
  {
    hide S3Key, CacheKey, Pack, Unpack, Encode, Decode, Lawful;
    DecodeInvertsEncode(cfg, blob);
    if CacheKey(cfg.cachePrefix, blob.supereventId) in s.cache { assert IsCurrent(cfg, s, blob.supereventId, plain); }
  }

  /** Likewise after a delete whose cache delete is refused: the blob is gone for
      the next lookup exactly when no entry was live. */
  lemma RefusedDeleteIsStaleIff(cfg: Config, s: Store, plain: map<string, Blob>, id: string)
    requires cfg.cached && Represents(cfg, s, plain)
    ensures
      Fetched(cfg, Deleted(cfg, s, id, CACHE_REFUSES), id, ALL_ANSWER) == Err(NotFound(id))
      <==> CacheKey(cfg.cachePrefix, id) !in s.cache
  {
    hide S3Key, CacheKey, Pack, Unpack, Decode;
    if CacheKey(cfg.cachePrefix, id) in s.cache { assert IsCurrent(cfg, s, id, plain); }
  }

  // Nothing but the cache answers.
  const CACHE_ONLY := Answers(true, true, false)

  /** What a lookup or an upsert leaves in the cache answers the next lookup, even
      when the object store fails then; without a cache nothing does. */
  lemma CacheIsFilled(cfg: Config, s: Store, plain: map<string, Blob>, id: string, a: Answers, blob: Blob, b: Answers)
    requires Represents(cfg, s, plain) && (cfg.cached || s.cache == map[])
    ensures
      var looked, stored := AfterFetch(cfg, s, id, a), Upserted(cfg, s, blob, b);
      && (cfg.cached && a.cacheWrite && Fetched(cfg, s, id, a).Ok? ==>
            Fetched(cfg, looked, id, CACHE_ONLY) == Fetched(cfg, s, id, a) == GetPlain(plain, id))
      && (cfg.cached && b.cacheWrite && b.objects ==>
            Fetched(cfg, stored, blob.supereventId, CACHE_ONLY) == Ok(blob))
      && (!cfg.cached ==>
            && looked.cache == stored.cache == map[]
            && Fetched(cfg, looked, id, CACHE_ONLY) == Err(ObjectStoreFailed))
  {
    hide S3Key, CacheKey, Pack, Unpack, Decode, Encode;
    FetchedIsLookup(cfg, s, plain, id, a);
    if CacheKey(cfg.cachePrefix, id) in s.cache { assert IsCurrent(cfg, s, id, plain); }
    if id in plain {
      assert HasObject(cfg, s, id, plain[id]);
      UnpackInvertsPack(plain[id]);
    }
    UnpackInvertsPack(blob);
  }

  /** Objects are stored compressed exactly when the store is set to; the cache
      always holds the plain map. */
  lemma StoredCompressedIff(cfg: Config, s: Store, blob: Blob, a: Answers)
    requires Lawful(cfg.codec) && a.objects
    ensures
      var after := Upserted(cfg, s, blob, a);
      && S3Key(cfg.keyPrefix, blob.supereventId) in after.bucket
      && var e := cfg.codec.fromJson(after.bucket[S3Key(cfg.keyPrefix, blob.supereventId)]);
      && e.Some? && e.value.supereventId == blob.supereventId && e.value.elapsedMs == blob.elapsedMs
      && (e.value.compressed <==> cfg.compress)
      && (if cfg.compress then cfg.codec.inflate(e.value.bytes) == Some(blob.bytes) else e.value.bytes == blob.bytes)
      && (cfg.cached && a.cacheWrite ==>
            && CacheKey(cfg.cachePrefix, blob.supereventId) in after.cache
            && IsPacking(after.cache[CacheKey(cfg.cachePrefix, blob.supereventId)], blob))
  {
    hide S3Key, CacheKey, Pack;
    PackedBytes(blob);
  }

  // Eight bytes of elapsed time, the least significant first, then the map.
  predicate IsPacking(raw: Bytes, blob: Blob) {
    && |raw| == 8 + |blob.bytes| && raw[8..] == blob.bytes
    && raw[0] as int + 0x100 * (raw[1] as int) + 0x1_0000 * (raw[2] as int) + 0x100_0000 * (raw[3] as int)
       + 0x1_0000_0000 * (raw[4] as int) + 0x100_0000_0000 * (raw[5] as int)
       + 0x1_0000_0000_0000 * (raw[6] as int) + 0x100_0000_0000_0000 * (raw[7] as int) == blob.elapsedMs
  }

  lemma PackedBytes(blob: Blob)
    ensures IsPacking(Pack(blob), blob)
  {
    EightBytesHoldU64();
    LittleEndianRoundTrip(blob.elapsedMs, 8);
    var raw := LittleEndian(blob.elapsedMs, 8);
    assert Pack(blob)[..8] == raw && Pack(blob)[8..] == blob.bytes;
    assert forall i :: 0 <= i < 8 ==> Pack(blob)[i] == raw[i];
    EightLittleEndian(raw);
  }

  lemma EightLittleEndian(raw: Bytes)
    requires |raw| == 8
    ensures FromLittleEndian(raw)
         == raw[0] as int + 0x100 * (raw[1] as int) + 0x1_0000 * (raw[2] as int) + 0x100_0000 * (raw[3] as int)
            + 0x1_0000_0000 * (raw[4] as int) + 0x100_0000_0000 * (raw[5] as int)
            + 0x1_0000_0000_0000 * (raw[6] as int) + 0x100_0000_0000_0000 * (raw[7] as int)
  {
    var b := Reversed(raw);
    EightBigEndian(b);
  }

  // Keys as they are written.
  lemma MapKeyInFull()
    ensures S3Key("p", "i") == "p/skymaps/i.json"
    ensures CacheKey("p", "i") == "p:skymap:i"
  {
  }

  lemma ContourKeyInFull()
    ensures ContourKey("p", "i", 90) == "p/contours/i/90.fits"
  {
    assert Digits(90) == Digits(9) + "0" == "90";
  }

  lemma GrbKeyInFull()
    ensures GrbKey("p", "i", "t") == "p/grb-skymaps/i/t.fits"
  {
  }

  /** And after a late fill: the next lookup is right exactly when the object is
      still, or again, the one that was read. */
  lemma LateFillIsStaleIff(cfg: Config, s: Store, plain: map<string, Blob>, blob: Blob)
    requires cfg.cached && Represents(cfg, s, plain)
    ensures
      var id := blob.supereventId;
      Fetched(cfg, Apply(cfg, s, Fill(blob, true)), id, ALL_ANSWER) == GetPlain(plain, id)
      <==> id in plain && plain[id] == blob
  {
    hide S3Key, CacheKey, Pack, Unpack, Decode;
    UnpackInvertsPack(blob);
  }

  /** A lookup reads the old map, an upsert stores a new one, the lookup's fill comes
      last: from then on the old map is served. */
  lemma LateFillRun(cfg: Config, before: Blob, after: Blob)
    requires Lawful(cfg.codec) && cfg.cached && before.supereventId == after.supereventId && before != after
    ensures
      var id, empty := before.supereventId, Store(map[], map[]);
      var read := [Upsert(before, ALL_ANSWER), Expire({CacheKey(cfg.cachePrefix, id)})];
      var ops := read + [Upsert(after, ALL_ANSWER), Fill(before, true)];
      && Fetched(cfg, Run(cfg, empty, read), id, ALL_ANSWER) == Ok(before)
      && RunPlain(map[], ops) == map[id := after] && Fetched(cfg, Run(cfg, empty, ops), id, ALL_ANSWER) == Ok(before)
  {
    hide S3Key, CacheKey, Pack, Unpack, Encode, Decode, Lawful;
    var id, empty := before.supereventId, Store(map[], map[]);
    var first, expire := Upsert(before, ALL_ANSWER), Expire({CacheKey(cfg.cachePrefix, id)});
    var second, fill := Upsert(after, ALL_ANSWER), Fill(before, true);
    assert [first, expire] + [second, fill] == [first, expire, second, fill];
    FourOps(cfg, empty, map[], first, expire, second, fill);
    DecodeInvertsEncode(cfg, before);
    UnpackInvertsPack(before);
  }

  lemma FourOps(cfg: Config, s: Store, plain: map<string, Blob>, p: Op, q: Op, r: Op, t: Op)
    ensures Run(cfg, s, [p, q]) == Apply(cfg, Apply(cfg, s, p), q)
    ensures Run(cfg, s, [p, q, r, t]) == Apply(cfg, Apply(cfg, Run(cfg, s, [p, q]), r), t)
    ensures RunPlain(plain, [p, q, r, t]) == ApplyPlain(ApplyPlain(ApplyPlain(ApplyPlain(plain, p), q), r), t)
  {
    hide Apply, ApplyPlain;
    assert [p, q, r, t][..3] == [p, q, r] && [p, q, r][..2] == [p, q] && [p, q][..1] == [p] && [p][..0] == [];
    assert Run(cfg, s, []) == s && RunPlain(plain, []) == plain;
    assert Run(cfg, s, [p]) == Apply(cfg, s, p) && RunPlain(plain, [p]) == ApplyPlain(plain, p);
    assert Run(cfg, s, [p, q, r]) == Apply(cfg, Run(cfg, s, [p, q]), r);
    assert RunPlain(plain, [p, q, r]) == ApplyPlain(RunPlain(plain, [p, q]), r);
  }
}
