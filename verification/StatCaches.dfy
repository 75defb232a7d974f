/**
 The stat cache of src/cache.cpp. Every call that is not concurrent with another one is logged as events;
 the log explains each cached entry.
 */
module StatCaches {
  import opened Bytes
  import opened HeaderNames
  import opened Texts
  import opened Wrappers

  type Meta = map<Text, Text>

  datatype Stat = Stat(mode: int, mtime: int, uid: int, gid: int, size: int)

  /** What a caller gets to see of an entry. */
  datatype Content = Content(st: Stat, meta: Meta, isForce: bool, noObject: bool)

  datatype Entry = Entry(content: Content, hitCount: nat, cacheDate: int)

  type Cache = map<Text, Entry>

  // ---------- names ----------

  /** The same path with or without its slash. */
  function Twin(key: Text): Text {
    if EndsWithSlash(key) then key[..|key| - 1] else key + [SLASH]
  }

  /** The keys that DelStat(key) removes. */
  predicate DropsWith(key: Text, k: Text) {
    k == key || (key != [] && key != [SLASH] && k == Twin(key))
  }

  function Without(cache: Cache, key: Text): Cache {
    map k | k in cache && !DropsWith(key, k) :: cache[k]
  }

  /** The entry a lookup of key finds, if any: the slash name goes first when asked for. */
  function Matched(cache: Cache, key: Text, overcheck: bool): Text {
    if overcheck && !EndsWithSlash(key) && key + [SLASH] in cache then key + [SLASH] else key
  }

  // ---------- headers ----------

  datatype Header = Header(name: Text, value: Text)

  /** The name under which AddStat keeps a header, if it does. */
  function KeptAs(name: Text): Option<Text> {
    var tag := Lower(name);
    if tag == CONTENT_TYPE || tag == CONTENT_LENGTH || tag == ETAG_LOWER || tag == LAST_MODIFIED then Some(name)
    else if X_COS <= tag then Some(tag)
    else None
  }

  /** Exactly these headers are kept, under their own name, and the service's own, under their lower-case name. */
  lemma KeptNames(name: Text)
    ensures
      var tag := Lower(name);
      var own := tag == Ascii("content-type") || tag == Ascii("content-length") || tag == Ascii("etag")
        || tag == Ascii("last-modified");
      && (own ==> KeptAs(name) == Some(name))
      && (!own && Ascii("x-cos") <= tag ==> KeptAs(name) == Some(tag))
      && (!own && !(Ascii("x-cos") <= tag) ==> KeptAs(name) == None)
  {
    ShortNames();
    EtagNames();
    ContentNames();
    LengthName();
    ModifiedName();
    hide Ascii, Lower;
  }

  /** A meta map holds exactly the headers to keep, each with the last value for its kept name. */
  ghost predicate KeptFrom(headers: seq<Header>, meta: Meta) {
    && (forall i :: 0 <= i < |headers| && KeptAs(headers[i].name).Some? ==> KeptAs(headers[i].name).value in meta)
    && (forall k :: k in meta ==> exists i :: 0 <= i < |headers| && Holds(headers, i, k, meta[k]))
  }

  ghost predicate Holds(headers: seq<Header>, i: nat, k: Text, value: Text)
    requires i < |headers|
  {
    && KeptAs(headers[i].name) == Some(k)
    && headers[i].value == value
    && forall j :: i < j < |headers| ==> KeptAs(headers[j].name) != Some(k)
  }

  method KeepHeaders(headers: seq<Header>) returns (meta: Meta)
    ensures KeptFrom(headers, meta)
  {
    hide KeptAs;
    meta := map[];
    for i := 0 to |headers|
      invariant KeptFrom(headers[..i], meta)
    {
      ghost var was, upTo := meta, headers[..i + 1];
      var kept := KeptAs(headers[i].name);
      if kept.Some? {
        meta := meta[kept.value := headers[i].value];
      }
      forall k | k in meta
        ensures exists l :: 0 <= l < i + 1 && Holds(upTo, l, k, meta[k])
      {
        if kept == Some(k) {
          assert Holds(upTo, i, k, meta[k]);
        } else {
          var l :| 0 <= l < i && Holds(headers[..i], l, k, was[k]);
          assert Holds(upTo, l, k, meta[k]);
        }
      }
    }
    assert headers[..|headers|] == headers;
  }

  function EtagIn(meta: Meta): Text {
    if ETAG in meta then meta[ETAG] else []
  }

  /** Reading the ETag of an entry that has none leaves an empty one behind. */
  function WithEtag(meta: Meta): Meta {
    if ETAG in meta then meta else meta[ETAG := []]
  }

  // ---------- the log ----------

  datatype Event =
    | Added(key: Text, content: Content, now: int)
    | Increased(key: Text, delta: int)
    | Deleted(key: Text)
    | EtagRead(key: Text)
    | Hit(key: Text, now: int)
    | Redated(key: Text, now: int)

  /** What the log says is under a key, if anything. */
  function Last(log: seq<Event>, k: Text): Option<Content> {
    if log == [] then None
    else
      var before := Last(log[..|log| - 1], k);
      match log[|log| - 1]
      case Added(key, content, _) => if key == k then Some(content) else before
      case Increased(key, delta) =>
        if key == k && before.Some? then Some(Grown(before.value, delta)) else before
      case Deleted(key) => if DropsWith(key, k) then None else before
      case EtagRead(key) =>
        if key == k && before.Some? then Some(before.value.(meta := WithEtag(before.value.meta))) else before
      case Hit(_, _) => before
      case Redated(_, _) => before
  }

  function Grown(c: Content, delta: int): Content {
    c.(st := c.st.(size := c.st.size + delta))
  }

  /** When a key was last added, hit or confirmed to have no object. */
  function Touched(log: seq<Event>, k: Text): int {
    if log == [] then 0
    else
      var e := log[|log| - 1];
      if (e.Added? || e.Hit? || e.Redated?) && e.key == k then e.now else Touched(log[..|log| - 1], k)
  }

  /** When a key was last added. */
  function AddedTime(log: seq<Event>, k: Text): int {
    if log == [] then 0
    else
      var e := log[|log| - 1];
      if e.Added? && e.key == k then e.now else AddedTime(log[..|log| - 1], k)
  }

  /** How often the date of a key was renewed since it was last added. */
  function Renewals(log: seq<Event>, k: Text): nat {
    if log == [] then 0
    else
      var e := log[|log| - 1];
      if e.Added? && e.key == k then 0
      else Renewals(log[..|log| - 1], k) + if (e.Hit? || e.Redated?) && e.key == k then 1 else 0
  }

  /** An event renews no date that is older than the expiry time. */
  ghost predicate InTime(log: seq<Event>, e: Event, expireTime: int) {
    e.Hit? || e.Redated? ==> e.now - Touched(log, e.key) <= expireTime
  }

  ghost predicate Timely(log: seq<Event>, expireTime: int) {
    log == [] || (Timely(log[..|log| - 1], expireTime) && InTime(log[..|log| - 1], log[|log| - 1], expireTime))
  }

  lemma TimelySnoc(log: seq<Event>, e: Event, expireTime: int)
    ensures Timely(log, expireTime) && InTime(log, e, expireTime) ==> Timely(log + [e], expireTime)
  {
    Snoc(log, e);
  }

  lemma TimelyOther(log: seq<Event>, e: Event, expireTime: int)
    requires !e.Hit? && !e.Redated?
    ensures Timely(log, expireTime) ==> Timely(log + [e], expireTime)
  {
    TimelySnoc(log, e, expireTime);
  }

  /** The date of an entry is later than its addition by at most the expiry time for each renewal. */
  lemma {:induction false} DateIsBounded(log: seq<Event>, k: Text, expireTime: int)
    requires Timely(log, expireTime)
    ensures Touched(log, k) - AddedTime(log, k) <= Renewals(log, k) * expireTime
  {
    if log != [] {
      DateIsBounded(log[..|log| - 1], k, expireTime);
      OneMore(Renewals(log[..|log| - 1], k), expireTime);
    }
  }

  lemma OneMore(n: nat, expireTime: int)
    ensures (n + 1) * expireTime == n * expireTime + expireTime
  {
  }

  /** The log explains an entry. */
  ghost predicate Explains(log: seq<Event>, k: Text, e: Entry) {
    Last(log, k) == Some(e.content) && Touched(log, k) == e.cacheDate
  }

  lemma DateIs(log: seq<Event>, k: Text, e: Entry)
    requires Explains(log, k, e)
    ensures Touched(log, k) == e.cacheDate
  {
  }

  lemma Snoc(log: seq<Event>, e: Event)
    ensures (log + [e])[..|log|] == log && (log + [e])[|log|] == e
  {
  }

  // ---------- the cache ----------

  class StatCache {
    var statCache: Cache
    const isExpireTime: bool
    const expireTime: int
    const cacheSize: nat
    const isCacheNoObject: bool
    ghost var log: seq<Event>
    ghost var clock: int

    /** Every entry is explained and not from the future, only fresh ones were renewed, and at most one is too many. */
    ghost predicate Valid()
      reads this
    {
      && (forall k :: k in statCache ==> Explains(log, k, statCache[k]) && statCache[k].cacheDate <= clock)
      && (isExpireTime ==> Timely(log, expireTime))
      && |statCache| <= cacheSize + 1
      && (cacheSize == 0 ==> statCache == map[])
    }

    constructor (isExpireTime: bool, expireTime: int, cacheSize: nat, isCacheNoObject: bool, ghost now: int)
      ensures Valid() && statCache == map[] && log == [] && clock == now
      ensures this.cacheSize == cacheSize && this.isCacheNoObject == isCacheNoObject
      ensures this.isExpireTime == isExpireTime && this.expireTime == expireTime
    {
      this.isExpireTime := isExpireTime;
      this.expireTime := expireTime;
      this.cacheSize := cacheSize;
      this.isCacheNoObject := isCacheNoObject;
      statCache, log, clock := map[], [], now;
    }

    predicate Expired(e: Entry, now: int) {
      isExpireTime && e.cacheDate + expireTime < now
    }

    /** An entry that says, and may say, that there is no object. */
    predicate KnownAbsent(e: Entry, now: int) {
      !Expired(e, now) && e.content.noObject && isCacheNoObject
    }

    /** Removes a key and its twin. */
    method DelStat(key: Text)
      requires Valid()
      modifies `statCache, `log
      ensures Valid() && log == old(log) + [Deleted(key)]
      ensures statCache == Without(old(statCache), key)
    {
      hide Explains, DropsWith, Twin, Timely, InTime, Without;
      TimelyOther(log, Deleted(key), expireTime);
      DeletedExplained(statCache, log, key, clock);
      WithoutIs(statCache, key);
      if key in statCache {
        statCache := statCache - {key};
      }
      if 0 < |key| && key != [SLASH] {
        var strpath := key;
        if SLASH == strpath[|strpath| - 1] {
          strpath := strpath[..|strpath| - 1];
        } else {
          strpath := strpath + [SLASH];
        }
        if strpath in statCache {
          statCache := statCache - {strpath};
        }
      }
      log := log + [Deleted(key)];
    }

    /** The key whose entry a lookup uses. */
    method Find(key: Text, overcheck: bool) returns (strpath: Text)
      requires overcheck ==> key != []
      ensures strpath == Matched(statCache, key, overcheck)
    {
      strpath := key;
      if overcheck && SLASH != strpath[|strpath| - 1] {
        strpath := strpath + [SLASH];
        if strpath !in statCache {
          strpath := key;
        }
      }
    }

    /** A hit: what was last added under the found key, with later size changes, if not expired. */
    method GetStat(key: Text, overcheck: bool, petag: Option<Text>, now: int) returns (found: Option<Content>)
      requires Valid() && clock <= now
      requires overcheck ==> key != []
      modifies `statCache, `log, `clock
      ensures Valid() && clock == now
      ensures
        var path := Matched(old(statCache), key, overcheck);
        && (found.Some? <==> path in old(statCache) && Serves(old(statCache)[path], petag, now))
        && (found.Some? ==>
              && statCache == old(statCache)[path := Served(old(statCache)[path], petag, now)]
              && log == old(log) + Reading(path, petag) + [Hit(path, now)])
        && (found.None? && path in old(statCache) ==>
              statCache
              == if KnownAbsent(old(statCache)[path], now) then old(statCache) else Without(old(statCache), path))
        && (path !in old(statCache) ==> statCache == old(statCache) && log == old(log))
      ensures
        var path := Matched(old(statCache), key, overcheck);
        found.Some? ==> Fresh(old(log), path, petag, found.value, now)
      ensures
        var path := Matched(old(statCache), key, overcheck);
        found.Some? <==>
          && path in old(statCache) && !old(statCache)[path].content.noObject
          && (isExpireTime ==> now <= old(statCache)[path].cacheDate + expireTime)
          && (petag.Some? && petag.value != [] ==> petag.value == EtagIn(old(statCache)[path].content.meta))
      ensures found.Some? && petag.Some? && petag.value != [] ==>
        ETAG in found.value.meta && found.value.meta[ETAG] == petag.value
    {
      hide Explains, Without, Matched, Fresh, Timely;
      clock := now;
      found := None;
      var strpath := Find(key, overcheck);
      if strpath !in statCache {
        return;
      }
      var ent := statCache[strpath];
      WithoutUpdated(statCache, strpath, Etagged(ent));
      if isExpireTime && ent.cacheDate + expireTime < now {
        DelStat(strpath);
        return;
      }
      if ent.content.noObject {
        if !isCacheNoObject {
          DelStat(strpath);
        }
        return;
      }
      if petag.Some? {
        ReadEtag(strpath);
        ent := statCache[strpath];
        if petag.value != [] && petag.value != ent.content.meta[ETAG] {
          DelStat(strpath);
          return;
        }
      }
      found := Some(ent.content);
      HitIsFresh(old(log), strpath, petag, old(statCache)[strpath], now);
      Touch(strpath, now);
    }

    /** Whether the cache knows that there is no object. */
    method IsNoObjectCache(key: Text, overcheck: bool, now: int) returns (absent: bool)
      requires Valid() && clock <= now
      requires overcheck ==> key != []
      modifies `statCache, `log, `clock
      ensures Valid() && clock == now
      ensures
        var path := Matched(old(statCache), key, overcheck);
        && (absent <==> path in old(statCache) && KnownAbsent(old(statCache)[path], now))
        && (absent ==> log == old(log) + [Redated(path, now)])
        && (absent ==> statCache == old(statCache)[path := old(statCache)[path].(cacheDate := now)])
        && (var drops := isCacheNoObject && path in old(statCache) && Expired(old(statCache)[path], now);
            !absent ==> statCache == if drops then Without(old(statCache), path) else old(statCache))
    {
      hide Explains, Without, Matched, Timely;
      clock := now;
      if !isCacheNoObject {
        return false;
      }
      var strpath := Find(key, overcheck);
      if strpath !in statCache {
        return false;
      }
      var ent := statCache[strpath];
      if isExpireTime && ent.cacheDate + expireTime < now {
        DelStat(strpath);
        return false;
      }
      absent := ent.content.noObject;
      if absent {
        DateIs(log, strpath, ent);
        TimelySnoc(log, Redated(strpath, now), expireTime);
        UpdatedExplained(statCache, log, Redated(strpath, now), strpath, ent.(cacheDate := now), clock);
        statCache := statCache[strpath := ent.(cacheDate := now)];
        log := log + [Redated(strpath, now)];
      }
    }

    /** Removes one entry of the least date; there is one unless the cache is empty. */
    method TruncateCache(now: int) returns (ghost victim: Option<Text>)
      requires Valid() && clock <= now
      modifies `statCache
      ensures Valid()
      ensures victim.None? <==> old(statCache) == map[]
      ensures victim.None? ==> statCache == old(statCache)
      ensures victim.Some? ==> Oldest(old(statCache), victim.value) && statCache == old(statCache) - {victim.value}
    {
      hide Explains, Timely;
      victim := None;
      if |statCache| == 0 {
        return;
      }
      var lowestTime := now + 1;
      var toDelete: Option<Text> := None;
      var todo := statCache.Keys;
      while todo != {}
        invariant todo <= statCache.Keys
        invariant toDelete.None? ==> todo == statCache.Keys && lowestTime == now + 1
        invariant toDelete.Some? ==> toDelete.value in statCache && lowestTime == statCache[toDelete.value].cacheDate
        invariant forall k :: k in statCache && k !in todo ==> lowestTime <= statCache[k].cacheDate
        decreases |todo|
        modifies {}
      {
        var key :| key in todo;
        if lowestTime > statCache[key].cacheDate {
          lowestTime := statCache[key].cacheDate;
          toDelete := Some(key);
        }
        todo := todo - {key};
      }
      if toDelete.Some? {
        SmallerDomain(statCache, statCache - {toDelete.value});
        statCache := statCache - {toDelete.value};
      }
      victim := toDelete;
    }

    /** The room made for a key: its old entry and its twin go, or, if the cache is over its size, one of least date. */
    method MakeRoom(key: Text, now: int) returns (ghost victim: Option<Text>)
      requires Valid() && clock <= now && 0 < cacheSize
      modifies `statCache, `log
      ensures Valid() && key !in statCache && |statCache| <= cacheSize
      ensures key in old(statCache) ==>
        statCache == Without(old(statCache), key) && log == old(log) + [Deleted(key)]
      ensures key !in old(statCache) ==> log == old(log)
      ensures key !in old(statCache) && |old(statCache)| <= cacheSize ==> statCache == old(statCache)
      ensures key !in old(statCache) && cacheSize < |old(statCache)| ==>
        victim.Some? && Oldest(old(statCache), victim.value) && statCache == old(statCache) - {victim.value}
    {
      hide Explains, Timely;
      victim := None;
      var found := key in statCache;
      var doTruncate := |statCache| > cacheSize;
      if found {
        WithoutIsSmaller(statCache, key);
        DelStat(key);
      } else if doTruncate {
        victim := TruncateCache(now);
        OneLess(old(statCache), victim.value);
      }
    }

    /** Caches the stat of an object. */
    method AddStat(key: Text, headers: seq<Header>, st: Stat, forcedir: bool, now: int)
      returns (ok: bool, ghost content: Content, ghost victim: Option<Text>)
      requires Valid() && clock <= now
      modifies `statCache, `log, `clock
      ensures Valid() && clock == now && ok
      ensures cacheSize < 1 ==> statCache == old(statCache) && log == old(log)
      ensures 1 <= cacheSize ==>
        && KeptFrom(headers, content.meta)
        && content == Content(st, content.meta, forcedir, false)
        && Placed(old(statCache), key, content, now, victim, statCache)
        && log == old(log) + Clearing(old(statCache), key) + [Added(key, content, now)]
    {
      hide Explains, Timely, KeptFrom, Oldest, Without;
      clock := now;
      ok, victim := true, None;
      if cacheSize < 1 {
        content := Content(st, map[], forcedir, false);
        return;
      }
      victim := MakeRoom(key, now);
      var meta := KeepHeaders(headers);
      content := Content(st, meta, forcedir, false);
      Put(key, Content(st, meta, forcedir, false), now);
    }

    /** Caches that there is no object. */
    method AddNoObjectCache(key: Text, now: int) returns (ok: bool, ghost victim: Option<Text>)
      requires Valid() && clock <= now
      modifies `statCache, `log, `clock
      ensures Valid() && clock == now && ok
      ensures !isCacheNoObject || cacheSize < 1 ==> statCache == old(statCache) && log == old(log)
      ensures isCacheNoObject && 1 <= cacheSize ==>
        && key in statCache && statCache[key].content.noObject && !statCache[key].content.isForce
        && statCache[key].content.meta == map[]
        && Placed(old(statCache), key, NO_OBJECT, now, victim, statCache)
        && log == old(log) + Clearing(old(statCache), key) + [Added(key, NO_OBJECT, now)]
    {
      hide Explains, Timely, Oldest, Without;
      clock := now;
      ok, victim := true, None;
      if !isCacheNoObject || cacheSize < 1 {
        return;
      }
      victim := MakeRoom(key, now);
      Put(key, NO_OBJECT, now);
    }

    /** A new entry with today's date. */
    method Put(key: Text, content: Content, now: int)
      requires Valid() && clock == now && key !in statCache && |statCache| <= cacheSize && 0 < cacheSize
      modifies `statCache, `log
      ensures Valid() && log == old(log) + [Added(key, content, now)]
      ensures statCache == old(statCache)[key := Entry(content, 0, now)]
    {
      hide Explains, Timely;
      TimelyOther(log, Added(key, content, now), expireTime);
      AddedExplained(statCache, log, key, content, now, clock);
      statCache := statCache[key := Entry(content, 0, now)];
      log := log + [Added(key, content, now)];
    }

    /** The cache after an entry was put, with what had to go. */
    ghost predicate Placed(was: Cache, key: Text, content: Content, now: int, victim: Option<Text>, after: Cache) {
      && (cacheSize < |was| && key !in was ==> victim.Some? && Oldest(was, victim.value))
      && after ==
         (if key in was then Without(was, key)
          else if cacheSize < |was| then was - {victim.value}
          else was)[key := Entry(content, 0, now)]
    }

    /**
     What a hit gives is what the log has under the key; it was used recently enough, and added no longer ago than
     the expiry time for each renewal and once more.
     */
    ghost predicate Fresh(log: seq<Event>, path: Text, petag: Option<Text>, c: Content, now: int) {
      && Last(log + Reading(path, petag), path) == Some(c) && !c.noObject
      && (isExpireTime ==> now - Touched(log, path) <= expireTime)
      && (isExpireTime ==> now - AddedTime(log, path) <= (Renewals(log, path) + 1) * expireTime)
    }

    lemma HitIsFresh(log: seq<Event>, path: Text, petag: Option<Text>, e: Entry, now: int)
      requires Explains(log, path, e) && Serves(e, petag, now) && (isExpireTime ==> Timely(log, expireTime))
      ensures Fresh(log, path, petag, Served(e, petag, now).content, now)
    {
      if isExpireTime {
        DateIsBounded(log, path, expireTime);
        OneMore(Renewals(log, path), expireTime);
      }
      if petag.Some? {
        Snoc(log, EtagRead(path));
      } else {
        assert log + [] == log;
      }
    }

    /** Reads the ETag of an entry, which then has one. */
    method ReadEtag(k: Text)
      requires Valid() && k in statCache
      modifies `statCache, `log
      ensures Valid() && log == old(log) + [EtagRead(k)]
      ensures statCache == old(statCache)[k := Etagged(old(statCache)[k])]
    {
      hide Explains, WithEtag, Timely;
      TimelyOther(log, EtagRead(k), expireTime);
      UpdatedExplained(statCache, log, EtagRead(k), k, Etagged(statCache[k]), clock);
      var ent := statCache[k];
      statCache := statCache[k := ent.(content := ent.content.(meta := WithEtag(ent.content.meta)))];
      log := log + [EtagRead(k)];
    }

    /** Counts a hit. */
    method Touch(k: Text, now: int)
      requires Valid() && k in statCache && clock == now && !Expired(statCache[k], now)
      modifies `statCache, `log
      ensures Valid() && log == old(log) + [Hit(k, now)]
      ensures statCache == old(statCache)[k := Used(old(statCache)[k], now)]
    {
      hide Explains, Timely;
      DateIs(log, k, statCache[k]);
      TimelySnoc(log, Hit(k, now), expireTime);
      UpdatedExplained(statCache, log, Hit(k, now), k, Used(statCache[k], now), clock);
      var ent := statCache[k];
      statCache := statCache[k := ent.(hitCount := ent.hitCount + 1, cacheDate := now)];
      log := log + [Hit(k, now)];
    }

    /** A lookup may use an entry: not expired, an object, and with the ETag asked for. */
    predicate Serves(e: Entry, petag: Option<Text>, now: int) {
      && !Expired(e, now)
      && !e.content.noObject
      && (petag.Some? && petag.value != [] ==> petag.value == WithEtag(e.content.meta)[ETAG])
    }

    /** Adds to the size of a cached object. */
    method IncSize(key: Text, delta: int) returns (found: bool)
      requires Valid()
      modifies `statCache, `log
      ensures Valid() && found == (key in old(statCache)) && log == old(log) + [Increased(key, delta)]
      ensures statCache == if found then old(statCache)[key := Enlarged(old(statCache)[key], delta)] else old(statCache)
    {
      hide Explains, Timely;
      TimelyOther(log, Increased(key, delta), expireTime);
      found := key in statCache;
      if found {
        UpdatedExplained(statCache, log, Increased(key, delta), key, Enlarged(statCache[key], delta), clock);
        var ent := statCache[key];
        var st := ent.content.st;
        statCache := statCache[key := ent.(content := ent.content.(st := st.(size := st.size + delta)))];
      } else {
        OtherwiseExplained(statCache, log, Increased(key, delta), clock);
      }
      log := log + [Increased(key, delta)];
    }
  }

  /** The entry that says there is no object. */
  const NO_OBJECT: Content := Content(Stat(0, 0, 0, 0, 0), map[], false, true)

  /** No entry was added, hit or confirmed earlier. */
  ghost predicate Oldest(cache: Cache, k: Text) {
    k in cache && forall l :: l in cache ==> cache[k].cacheDate <= cache[l].cacheDate
  }

  /** Adding deletes an entry of the same key first. */
  function Clearing(cache: Cache, key: Text): seq<Event> {
    if key in cache then [Deleted(key)] else []
  }

  lemma OneLess(cache: Cache, k: Text)
    requires k in cache
    ensures |cache - {k}| == |cache| - 1
  {
    assert (cache - {k}).Keys == cache.Keys - {k};
  }

  lemma WithoutIsSmaller(cache: Cache, key: Text)
    requires key in cache
    ensures |Without(cache, key)| < |cache|
  {
    OneLess(cache, key);
    SmallerDomain(cache - {key}, Without(cache, key));
  }

  lemma AddedExplained(cache: Cache, log: seq<Event>, key: Text, content: Content, now: int, clock: int)
    requires key !in cache && now <= clock
    requires forall l :: l in cache ==> Explains(log, l, cache[l]) && cache[l].cacheDate <= clock
    ensures
      var after := cache[key := Entry(content, 0, now)];
      && (forall l :: l in after ==>
            Explains(log + [Added(key, content, now)], l, after[l]) && after[l].cacheDate <= clock)
      && |after| == |cache| + 1
  {
    Snoc(log, Added(key, content, now));
    assert Explains(log + [Added(key, content, now)], key, Entry(content, 0, now));
    hide Explains;
    OtherwiseExplained(cache, log, Added(key, content, now), clock);
    assert cache[key := Entry(content, 0, now)].Keys == cache.Keys + {key};
  }

  function Etagged(e: Entry): Entry {
    e.(content := e.content.(meta := WithEtag(e.content.meta)))
  }

  function Used(e: Entry, now: int): Entry {
    e.(hitCount := e.hitCount + 1, cacheDate := now)
  }

  function Enlarged(e: Entry, delta: int): Entry {
    e.(content := Grown(e.content, delta))
  }

  function Served(e: Entry, petag: Option<Text>, now: int): Entry {
    Used(if petag.Some? then Etagged(e) else e, now)
  }

  /** Asking for an ETag reads the one of the entry. */
  function Reading(path: Text, petag: Option<Text>): seq<Event> {
    if petag.Some? then [EtagRead(path)] else []
  }

  /** An event about one entry, with that entry changed as the event says. */
  lemma UpdatedExplained(cache: Cache, log: seq<Event>, e: Event, k: Text, entry: Entry, clock: int)
    requires k in cache && e.key == k && !e.Deleted?
    requires forall l :: l in cache ==> Explains(log, l, cache[l]) && cache[l].cacheDate <= clock
    requires entry.cacheDate <= clock
    requires match e
      case Added(_, content, now) => entry.content == content && entry.cacheDate == now
      case Increased(_, delta) => entry == Enlarged(cache[k], delta)
      case EtagRead(_) => entry == Etagged(cache[k])
      case Hit(_, now) => entry == Used(cache[k], now)
      case Redated(_, now) => entry == cache[k].(cacheDate := now)
    ensures
      var after := cache[k := entry];
      && (forall l :: l in after ==> Explains(log + [e], l, after[l]) && after[l].cacheDate <= clock)
      && |after| == |cache|
  {
    Snoc(log, e);
    assert Explains(log + [e], k, entry);
    hide Explains, WithEtag;
    forall l | l in cache && l != k
      ensures Explains(log + [e], l, cache[l])
    {
      Undisturbed(log, e, l, cache[l]);
    }
    assert cache[k := entry].Keys == cache.Keys;
  }

  /** An event about a key that is not there. */
  lemma OtherwiseExplained(cache: Cache, log: seq<Event>, e: Event, clock: int)
    requires e.key !in cache && !e.Deleted?
    requires forall l :: l in cache ==> Explains(log, l, cache[l]) && cache[l].cacheDate <= clock
    ensures forall l :: l in cache ==> Explains(log + [e], l, cache[l])
  {
    hide Explains;
    forall l | l in cache
      ensures Explains(log + [e], l, cache[l])
    {
      Undisturbed(log, e, l, cache[l]);
    }
  }

  lemma WithoutUpdated(cache: Cache, key: Text, e: Entry)
    ensures Without(cache[key := e], key) == Without(cache, key)
  {
  }

  /** Removing a key that is not there changes nothing. */
  function Minus(cache: Cache, k: Text): Cache {
    if k in cache then cache - {k} else cache
  }

  lemma WithoutIs(cache: Cache, key: Text)
    ensures Without(cache, key)
         == if key == [] || key == [SLASH] then Minus(cache, key)
            else if key[|key| - 1] == SLASH then Minus(Minus(cache, key), key[..|key| - 1])
            else Minus(Minus(cache, key), key + [SLASH])
  {
  }

  lemma DeletedExplained(cache: Cache, log: seq<Event>, key: Text, clock: int)
    requires forall k :: k in cache ==> Explains(log, k, cache[k]) && cache[k].cacheDate <= clock
    ensures |Without(cache, key)| <= |cache|
    ensures
      var after := Without(cache, key);
      forall k :: k in after ==> Explains(log + [Deleted(key)], k, after[k]) && after[k].cacheDate <= clock
  {
    hide Explains;
    forall k | k in Without(cache, key)
      ensures Explains(log + [Deleted(key)], k, cache[k])
    {
      Undisturbed(log, Deleted(key), k, cache[k]);
    }
    SmallerDomain(cache, Without(cache, key));
  }

  /** An event that is not about a key leaves its explanation. */
  lemma Undisturbed(log: seq<Event>, e: Event, k: Text, entry: Entry)
    requires Explains(log, k, entry)
    requires e.key != k && !(e.Deleted? && DropsWith(e.key, k))
    ensures Explains(log + [e], k, entry)
  {
    Snoc(log, e);
  }

  lemma SmallerDomain(a: Cache, b: Cache)
    requires b.Keys <= a.Keys
    ensures |b| <= |a|
  {
    SubsetSize(b.Keys, a.Keys);
  }

  lemma {:induction false} SubsetSize(a: set<Text>, b: set<Text>)
    requires a <= b
    ensures |a| <= |b|
  {
    if a != {} {
      var x :| x in a;
      SubsetSize(a - {x}, b - {x});
    }
  }

  // ---------- what the log says ----------

  /** No event from position i on adds or removes a key. */
  ghost predicate Untouched(log: seq<Event>, i: int, k: Text) {
    forall j :: i <= j < |log| && 0 <= j ==>
      !(log[j].Added? && log[j].key == k) && !(log[j].Deleted? && DropsWith(log[j].key, k))
  }

  /** The sum of the size changes of a key from position i on. */
  function GrowthSince(log: seq<Event>, i: int, k: Text): int {
    if |log| == 0 || |log| <= i then 0
    else
      var e := log[|log| - 1];
      GrowthSince(log[..|log| - 1], i, k) + if e.Increased? && e.key == k then e.delta else 0
  }

  lemma NoGrowthYet(log: seq<Event>, i: int, k: Text)
    requires |log| <= i
    ensures GrowthSince(log, i, k) == 0
  {
  }

  /** What is under a key is what was last added, with all later size changes, and was not deleted since. */
  lemma {:induction false} LastIsAdded(log: seq<Event>, k: Text)
    requires Last(log, k).Some?
    ensures exists i :: 0 <= i < |log| && AddedAt(log, i, k)
  {
    var n := |log| - 1;
    var e := log[n];
    if e.Added? && e.key == k {
      NoGrowthYet(log[..n], n + 1, k);
      assert AddedAt(log, n, k);
    } else {
      LastIsAdded(log[..n], k);
      var i :| 0 <= i < n && AddedAt(log[..n], i, k);
      assert AddedAt(log, i, k);
    }
  }

  /** Position i adds k, nothing later adds or deletes it, and the log has the added content with the later growth. */
  ghost predicate AddedAt(log: seq<Event>, i: int, k: Text) {
    && 0 <= i < |log| && log[i].Added? && log[i].key == k
    && Untouched(log, i + 1, k)
    && Last(log, k).Some?
    && Last(log, k).value.st == log[i].content.st.(size := log[i].content.st.size + GrowthSince(log, i + 1, k))
    && Last(log, k).value.isForce == log[i].content.isForce
    && Last(log, k).value.noObject == log[i].content.noObject
    && (Last(log, k).value.meta == log[i].content.meta || Last(log, k).value.meta == WithEtag(log[i].content.meta))
  }

  /** A deleted key stays deleted until it is added again. */
  lemma {:induction false} DeletedStays(log: seq<Event>, i: nat, k: Text)
    requires i < |log| && log[i].Deleted? && DropsWith(log[i].key, k)
    requires forall j :: i < j < |log| ==> !(log[j].Added? && log[j].key == k)
    ensures Last(log, k) == None
  {
    if i < |log| - 1 {
      DeletedStays(log[..|log| - 1], i, k);
    }
  }

  /** After DelStat(key) no lookup of key finds anything until the key or its slash twin is added. */
  lemma NoHitAfterDelete(cache: StatCache, i: nat, key: Text, overcheck: bool)
    requires cache.Valid() && key != []
    requires i < |cache.log| && cache.log[i] == Deleted(key)
    requires forall j :: i < j < |cache.log| && cache.log[j].Added? ==>
      cache.log[j].key != key && (EndsWithSlash(key) || cache.log[j].key != key + [SLASH])
    ensures Matched(cache.statCache, key, overcheck) !in cache.statCache
  {
    DeletedStays(cache.log, i, key);
    if !EndsWithSlash(key) {
      DeletedStays(cache.log, i, key + [SLASH]);
    }
    hide Last, Touched;
  }

  // ---------- the age of a hit ----------

  lemma OneHit(log: seq<Event>, k: Text, now: int)
    ensures AddedTime(log + [] + [Hit(k, now)], k) == AddedTime(log, k)
    ensures Renewals(log + [] + [Hit(k, now)], k) == Renewals(log, k) + 1
  {
    assert log + [] == log;
    Snoc(log, Hit(k, now));
  }

  /**
   Each hit renews the date, so the expiry bounds the time since the last use but not the age: an entry that is
   looked up often enough is served however long ago it was added, up to the bound of Fresh.
   */
  method ServeOld(key: Text, st: Stat, expireTime: nat, lookups: nat)
    returns (cache: StatCache, found: Option<Content>)
    ensures fresh(cache) && cache.Valid() && cache.isExpireTime && cache.expireTime == expireTime
    ensures 0 < lookups ==> found.Some?
    ensures cache.clock - AddedTime(cache.log, key) == lookups * expireTime && Renewals(cache.log, key) == lookups
  {
    hide Last, Touched, Without, Explains, KeptFrom, Timely, AddedTime, Renewals, DropsWith;
    cache := new StatCache(true, expireTime, 1, false, 0);
    found := None;
    ghost var content, victim;
    var ok;
    ok, content, victim := cache.AddStat(key, [], st, false, 0);
    AddedNow([], key, content);
    for i := 0 to lookups
      invariant cache.Valid() && fresh(cache) && cache.clock == i * expireTime
      invariant cache.isExpireTime && cache.expireTime == expireTime
      invariant key in cache.statCache && !cache.statCache[key].content.noObject
      invariant cache.statCache[key].cacheDate == cache.clock
      invariant 0 < i ==> found.Some?
      invariant AddedTime(cache.log, key) == 0 && Renewals(cache.log, key) == i
    {
      OneHit(cache.log, key, cache.clock + expireTime);
      found := cache.GetStat(key, false, None, i * expireTime + expireTime);
      assert (i + 1) * expireTime == i * expireTime + expireTime;
    }
  }

  lemma AddedNow(log: seq<Event>, key: Text, content: Content)
    ensures AddedTime(log + [] + [Added(key, content, 0)], key) == 0
    ensures Renewals(log + [] + [Added(key, content, 0)], key) == 0
  {
    Snoc(log + [], Added(key, content, 0));
  }
}
