/**
 The table of open files of src/fdcache.cpp: which entity stands for a path, and how often it is held open.
 The outcome of opening local files, of making the cache directories and of random() are parameters.
 */
module FdManagers {
  import opened Bytes
  import opened Wrappers

  /** The reference count of FdEntity. */
  class OpenFile {
    const path: Text
    const cached: bool
    var fd: int
    var refcnt: int

    constructor (path: Text, cached: bool)
      ensures this.path == path && this.cached == cached && !IsOpen()
    {
      this.path := path;
      this.cached := cached;
      fd, refcnt := -1, 0;
    }

    predicate IsOpen()
      reads this
    {
      fd != -1
    }

    /** Counts one more holder, opening the local files for the first one. */
    method Open(localResult: int, newFd: nat) returns (result: int)
      requires localResult <= 0
      modifies this
      ensures result == if old(IsOpen()) then 0 else localResult
      ensures IsOpen() <==> result == 0
      ensures result == 0 ==> refcnt == if old(IsOpen()) then old(refcnt) + 1 else 1
      ensures fd == if old(IsOpen()) then old(fd) else if result == 0 then newFd else -1
    {
      if -1 != fd {
        Dup();
        return 0;
      }
      if localResult != 0 {
        return localResult;
      }
      fd, refcnt := newFd, 1;
      return 0;
    }

    method Dup()
      modifies this
      ensures fd == old(fd) && refcnt == if IsOpen() then old(refcnt) + 1 else old(refcnt)
    {
      if -1 != fd {
        refcnt := refcnt + 1;
      }
    }

    /** Counts one holder less; the last one closes the local files. */
    method Close()
      modifies this
      ensures old(!IsOpen()) ==> fd == old(fd) && refcnt == old(refcnt)
      ensures old(IsOpen()) && 0 < old(refcnt) ==> refcnt == old(refcnt) - 1
      ensures old(IsOpen()) && 0 < old(refcnt) ==> fd == if old(refcnt) == 1 then -1 else old(fd)
    {
      if -1 != fd {
        if 0 < refcnt {
          refcnt := refcnt - 1;
        }
        if 0 == refcnt {
          fd := -1;
        }
      }
    }
  }

  // ---------- opens and closes ----------

  datatype Event = Opened(ent: OpenFile) | Closed(ent: OpenFile)

  /** How many more opens than closes an entity has had. */
  ghost function Balance(log: seq<Event>, ent: OpenFile): int {
    if log == [] then 0
    else
      var e := log[|log| - 1];
      Balance(log[..|log| - 1], ent) + if e.ent != ent then 0 else if e.Opened? then 1 else -1
  }

  lemma BalanceSnoc(log: seq<Event>, e: Event, ent: OpenFile)
    ensures Balance(log + [e], ent) == Balance(log, ent) + if e.ent != ent then 0 else if e.Opened? then 1 else -1
  {
    assert (log + [e])[..|log|] == log;
  }

  /** An entity not yet heard of. */
  lemma {:induction false} BalanceOfNew(log: seq<Event>, ent: OpenFile)
    requires forall i :: 0 <= i < |log| ==> log[i].ent != ent
    ensures Balance(log, ent) == 0
  {
    if log != [] {
      BalanceOfNew(log[..|log| - 1], ent);
    }
  }

  // ---------- the table ----------

  class FdManager {
    const cacheDir: bool
    var fent: map<Text, OpenFile>
    ghost var log: seq<Event>

    /** Each entity has one key, its path or a temporary name, and counts its opens minus its closes. */
    ghost predicate Valid()
      reads this, fent.Values
    {
      && (forall k, l :: k in fent && l in fent && fent[k] == fent[l] ==> k == l)
      && (forall k :: k in fent ==> KeyFits(k, fent[k]))
      && (forall k :: k in fent ==> Counted(log, fent[k]))
    }

    /** Without forced temporary files: all entities are of one kind, and no two open ones share a path. */
    ghost predicate Orderly()
      reads this, fent.Values
    {
      && (forall k :: k in fent ==> fent[k].cached == cacheDir)
      && (forall k, l ::
            k in fent && l in fent && fent[k].IsOpen() && fent[l].IsOpen() && fent[k].path == fent[l].path ==> k == l)
    }

    /** As long as every local open succeeded. */
    ghost predicate AllOpen()
      reads this, fent.Values
    {
      forall k :: k in fent ==> fent[k].IsOpen()
    }

    /** Some entity has the path open. */
    ghost predicate Holds(path: Text)
      reads this, fent.Values
    {
      exists k :: k in fent && fent[k].IsOpen() && fent[k].path == path
    }

    constructor (cacheDir: bool)
      ensures Valid() && Orderly() && AllOpen() && fent == map[] && log == [] && this.cacheDir == cacheDir
    {
      this.cacheDir := cacheDir;
      fent, log := map[], [];
    }

    /** A key of an open entity for a path, which has one of the given descriptors. */
    method FindOpen(path: Text, anyFd: bool, existfd: int) returns (key: Option<Text>)
      ensures key.Some? ==> key.value in fent && Suits(fent[key.value], path, anyFd, existfd)
      ensures key.None? ==> forall k :: k in fent ==> !Suits(fent[k], path, anyFd, existfd)
    {
      var todo := fent.Keys;
      while todo != {}
        invariant todo <= fent.Keys
        invariant forall k :: k in fent && k !in todo ==> !Suits(fent[k], path, anyFd, existfd)
        decreases |todo|
      {
        var k :| k in todo;
        if fent[k].IsOpen() && (anyFd || fent[k].fd == existfd) && fent[k].path == path {
          return Some(k);
        }
        todo := todo - {k};
      }
      key := None;
    }

    /** The key of the entity that Open uses, if there is one. */
    method FindEntity(path: Text, forceTmpfile: bool) returns (key: Option<Text>)
      requires Valid() && Head(path) == SLASH
      ensures key.Some? ==> key.value in fent && fent[key.value].path == path
      ensures key.None? ==> path !in fent && (!forceTmpfile && !cacheDir ==> !Holds(path))
      ensures key.Some? && key.value != path ==> !cacheDir && !forceTmpfile && fent[key.value].IsOpen()
    {
      hide Counted;
      key := None;
      if path in fent {
        return Some(path);
      }
      if !forceTmpfile && !cacheDir {
        key := FindOpen(path, true, -1);
      }
    }

    /** A new entity, not yet open, under its path or a temporary name. */
    method MakeEntity(path: Text, cached: bool, tmpKey: Text) returns (ent: OpenFile, ghost key: Text)
      requires Valid() && Head(path) == SLASH && path !in fent
      requires Head(tmpKey) == BLANK && tmpKey !in fent
      modifies `fent
      ensures Valid() && fresh(ent) && !ent.IsOpen() && ent.path == path && ent.cached == cached
      ensures key !in old(fent) && fent == old(fent)[key := ent] && log == old(log)
      ensures old(Orderly()) && cached == cacheDir ==> Orderly()
    {
      ent := new OpenFile(path, cached);
      BalanceOfNew(log, ent);
      key := if cached then path else tmpKey;
      if cached {
        fent := fent[path := ent];
      } else {
        fent := fent[tmpKey := ent];
      }
    }

    /** One more holder of an entity of the table. */
    method OpenEntity(ent: OpenFile, ghost key: Text, localResult: int, newFd: nat) returns (result: int)
      requires Valid() && localResult <= 0 && key in fent && fent[key] == ent
      modifies ent, `log
      ensures Valid() && (result == 0 <==> ent.IsOpen())
      ensures result == if old(ent.IsOpen()) then 0 else localResult
      ensures log == if result == 0 then old(log) + [Opened(ent)] else old(log)
      ensures old(Orderly()) && (old(ent.IsOpen()) || !old(Holds(ent.path))) ==> Orderly()
    {
      hide Balance;
      result := ent.Open(localResult, newFd);
      ghost var e := Opened(ent);
      forall k | k in fent
        ensures Counted(if result == 0 then log + [e] else log, fent[k])
      {
        BalanceSnoc(log, e, fent[k]);
        assert k != key ==> fent[k] != ent;
      }
      if result == 0 {
        log := log + [e];
      }
    }

    /** In a cache directory a path that is held open is filed under itself. */
    lemma FiledUnderPath(path: Text)
      requires Valid() && Orderly()
      ensures cacheDir && Holds(path) ==> path in fent
      ensures path in fent && Head(path) == SLASH ==> fent[path].path == path && (Holds(path) ==> fent[path].IsOpen())
    {
      hide Counted;
    }

    /** The entity Open goes for: one of the table, or a new one if asked for. */
    method SelectEntity(path: Text, forceTmpfile: bool, isCreate: bool, dirsMade: bool, tmpKey: Text)
      returns (ent: OpenFile?, ghost key: Text)
      requires Valid() && Head(path) == SLASH
      requires isCreate ==> Head(tmpKey) == BLANK && tmpKey !in fent
      modifies `fent
      ensures Valid() && (old(Orderly()) && !forceTmpfile ==> Orderly())
      ensures ent != null ==> key in fent && fent[key] == ent && ent.path == path
      ensures ent != null && key !in old(fent) ==> fresh(ent)
      ensures ent != null && !ent.IsOpen() && old(Orderly()) && !forceTmpfile ==> !Holds(path)
      ensures old(Orderly() && Holds(path)) && !forceTmpfile ==> ent != null && ent.IsOpen() && fent == old(fent)
      ensures isCreate && (forceTmpfile || dirsMade) ==> ent != null
      ensures fent == old(fent) || (isCreate && ent != null && key !in old(fent) && fent == old(fent)[key := ent])
    {
      hide Counted, Balance;
      key := path;
      if Orderly() {
        FiledUnderPath(path);
      }
      var found := FindEntity(path, forceTmpfile);
      if found.Some? {
        ent := fent[found.value];
        key := found.value;
      } else if isCreate {
        if !forceTmpfile && !dirsMade {
          return null, path;
        }
        ent, key := MakeEntity(path, !forceTmpfile && cacheDir, tmpKey);
      } else {
        ent := null;
      }
    }

    /** The entity for a path with one more holder; a new one is made if asked for. */
    method Open(path: Text, forceTmpfile: bool, isCreate: bool, dirsMade: bool, tmpKey: Text,
                localResult: int, newFd: nat)
      returns (ent: OpenFile?, ghost key: Text)
      requires Valid() && localResult <= 0
      requires path != [] ==> path[0] == SLASH
      requires isCreate ==> Head(tmpKey) == BLANK && tmpKey !in fent
      modifies this, fent.Values
      ensures Valid()
      ensures old(Orderly()) && !forceTmpfile ==> Orderly()
      ensures old(AllOpen()) && localResult == 0 ==> AllOpen()
      ensures ent != null ==> ent.path == path && key in fent && fent[key] == ent
      ensures log == if ent != null && ent.IsOpen() then old(log) + [Opened(ent)] else old(log)
      ensures ent != null && !ent.IsOpen() ==> localResult < -1
      ensures old(Orderly() && Holds(path)) && path != [] && !forceTmpfile ==>
        ent != null && ent.IsOpen() && fent == old(fent)
      ensures path != [] && isCreate && (forceTmpfile || dirsMade) && localResult == 0 ==> ent != null
      ensures !isCreate ==> fent == old(fent)
      ensures !isCreate && old(AllOpen()) && ent != null ==> old(Holds(path))
      ensures forall k :: k in old(fent) ==> k in fent && fent[k] == old(fent)[k]
      ensures forall k :: k in old(fent) && old(fent)[k] != ent ==> old(fent)[k].IsOpen() == old(fent[k].IsOpen())
    {
      hide Counted, Balance;
      if path == [] {
        return null, path;
      }
      ent, key := SelectEntity(path, forceTmpfile, isCreate, dirsMade, tmpKey);
      if ent == null {
        return;
      }
      var result := OpenEntity(ent, key, localResult, newFd);
      if -1 == result {
        ent := null;
      }
    }

    /** The entity that has a path, or a descriptor of it, open, with one more holder. */
    method ExistOpen(path: Text, existfd: int, ignoreExistfd: bool, localResult: int, newFd: nat)
      returns (ent: OpenFile?, ghost key: Text)
      requires Valid() && localResult <= 0
      requires path != [] ==> path[0] == SLASH
      modifies this, fent.Values
      ensures Valid() && fent == old(fent)
      ensures old(Orderly()) ==> Orderly()
      ensures old(AllOpen()) && localResult == 0 ==> AllOpen()
      ensures ent != null ==> ent.path == path && key in fent && fent[key] == ent
      ensures log == if ent != null && ent.IsOpen() then old(log) + [Opened(ent)] else old(log)
      ensures old(Orderly() && AllOpen()) && path != [] ==> (ent != null <==> old(Holds(path)))
    {
      hide Counted, Balance;
      ent, key := Open(path, false, false, true, [], localResult, newFd);
      if ent == null && (ignoreExistfd || -1 != existfd) {
        var found := FindOpen(path, ignoreExistfd, existfd);
        if found.Some? {
          ent := fent[found.value];
          key := found.value;
          var result := OpenEntity(ent, key, 0, 0);
        }
      }
    }

    /** One holder less of an entity of the table. */
    method CloseEntity(ent: OpenFile, ghost key: Text)
      requires Valid() && key in fent && fent[key] == ent
      modifies ent, `log
      ensures Valid() && (old(Orderly()) ==> Orderly())
      ensures log == if old(ent.IsOpen()) then old(log) + [Closed(ent)] else old(log)
      ensures ent.IsOpen() <==> Balance(log, ent) != 0
      ensures ent.IsOpen() ==> old(ent.IsOpen())
    {
      assert Counted(log, ent);
      hide Balance;
      ghost var e, wasOpen := Closed(ent), ent.IsOpen();
      ent.Close();
      forall k | k in fent
        ensures Counted(if wasOpen then log + [e] else log, fent[k])
      {
        BalanceSnoc(log, e, fent[k]);
        assert k != key ==> fent[k] != ent;
      }
      if wasOpen {
        log := log + [e];
      }
      assert Counted(log, ent);
    }

    /** Gives one holder up; the entity leaves the table exactly with its last one. */
    method Close(ent: OpenFile) returns (closed: bool, ghost key: Option<Text>)
      requires Valid()
      modifies this, fent.Values
      ensures Valid()
      ensures old(Orderly()) ==> Orderly()
      ensures old(AllOpen()) ==> AllOpen()
      ensures key.None? ==> !closed && fent == old(fent) && log == old(log)
      ensures key.None? ==> forall k :: k in old(fent) ==> old(fent)[k] != ent
      ensures key.Some? ==>
        && key.value in old(fent) && old(fent)[key.value] == ent
        && log == (if old(ent.IsOpen()) then old(log) + [Closed(ent)] else old(log))
        && (closed <==> Balance(log, ent) == 0)
        && fent == if closed then old(fent) - {key.value} else old(fent)
    {
      hide Counted, Balance;
      var at: Option<Text> := None;
      var todo := fent.Keys;
      while todo != {}
        invariant todo <= fent.Keys
        invariant forall k :: k in fent && k !in todo ==> fent[k] != ent
        invariant at.None?
        decreases |todo|
        modifies {}
      {
        var k :| k in todo;
        if fent[k] == ent {
          at := Some(k);
          break;
        }
        todo := todo - {k};
      }
      closed, key := false, at;
      if at.Some? {
        CloseEntity(ent, at.value);
        if !ent.IsOpen() {
          fent := fent - {at.value};
          closed := true;
        }
      }
    }
  }

  predicate Suits(ent: OpenFile, path: Text, anyFd: bool, existfd: int)
    reads ent
  {
    ent.IsOpen() && (anyFd || ent.fd == existfd) && ent.path == path
  }

  /** Cached entities are filed under their path, others under a name no path can be. */
  predicate KeyFits(key: Text, ent: OpenFile) {
    if ent.cached then key == ent.path && SLASH == Head(key) else BLANK == Head(key)
  }

  function Head(s: Text): Byte {
    if s == [] then NUL else s[0]
  }

  /** An open entity counts its opens minus its closes, at least one; a closed one was closed as often as opened. */
  ghost predicate Counted(log: seq<Event>, ent: OpenFile)
    reads ent
  {
    if ent.IsOpen() then 0 < ent.refcnt == Balance(log, ent) else Balance(log, ent) == 0
  }
}
