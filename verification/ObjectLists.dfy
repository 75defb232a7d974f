/** The object list of src/s3fs_util.cpp: keys of a bucket listing with directory names normalized. */
module ObjectLists {
  import opened Bytes
  import opened Fields
  import opened Wrappers

  /** The suffix some clients use to mark directories. */
  const FOLDER: Text := [0x5F, 0x24, 0x66, 0x6F, 0x6C, 0x64, 0x65, 0x72, 0x24]

  /** An entry with an empty normalname is itself normalized; any other one points to its normal form. */
  datatype Entry = Entry(normalname: Text, orgname: Text, etag: Text, isDir: bool)

  type Objects = map<Text, Entry>

  /** The directory flag after looking at the name. */
  function IsDirName(name: Text, isDir: bool): bool {
    isDir || 0 <= Find(name, FOLDER) || EndsWithSlash(name)
  }

  /** The normalized name: without the folder suffix, and with a slash for directories. */
  function NormalName(name: Text, isDir: bool): Text {
    var pos := Find(name, FOLDER);
    var newname := if 0 <= pos then name[..pos] else name;
    if (isDir || 0 <= pos) && !EndsWithSlash(newname) then newname + [SLASH] else newname
  }

  lemma FolderSuffix()
    ensures FOLDER == Ascii("_$folder$")
  {
  }

  /** A name with the folder suffix is filed as a directory under what stands before the suffix. */
  lemma FolderIsNormal(base: Text, rest: Text, isDir: bool)
    requires Find(base + FOLDER, FOLDER) == |base|
    ensures IsDirName(base + FOLDER + rest, isDir)
    ensures NormalName(base + FOLDER + rest, isDir)
         == if base != [] && base[|base| - 1] == SLASH then base else base + [SLASH]
  {
    FindFront(base + FOLDER, rest, FOLDER);
    hide Find, FOLDER;
    FrontIs(base, FOLDER, rest);
  }

  lemma FrontIs(a: Text, b: Text, c: Text)
    ensures (a + b + c)[..|a|] == a
  {
  }

  /** Any other name is filed under itself, with a slash if it is said to be a directory. */
  lemma OtherIsNormal(name: Text, isDir: bool)
    requires forall k: nat :: !SuffixAt(name, k)
    ensures NormalName(name, isDir)
         == if isDir && !(name != [] && name[|name| - 1] == SLASH) then name + [SLASH] else name
    ensures IsDirName(name, isDir) <==> isDir || (name != [] && name[|name| - 1] == SLASH)
  {
    if 0 <= Find(name, FOLDER) {
      assert !SuffixAt(name, Find(name, FOLDER));
      FoundThere(name, FOLDER, Find(name, FOLDER));
    }
    hide Find;
  }

  predicate SuffixAt(name: Text, k: nat) {
    k + |FOLDER| <= |name| && name[k..k + |FOLDER|] == FOLDER
  }

  predicate Normalized(objects: Objects, name: Text) {
    name in objects && objects[name].normalname == []
  }

  /** No name is normalized both with and without its slash. */
  ghost predicate NoTwins(objects: Objects) {
    forall n :: n in objects && !EndsWithSlash(n) ==> !(Normalized(objects, n) && Normalized(objects, n + [SLASH]))
  }

  // ---------- what insert does to the entries ----------

  /** Directories drop the entry without the slash. */
  function WithoutTwin(objects: Objects, normal: Text): Objects
    requires normal != []
  {
    if EndsWithSlash(normal) then objects - {normal[..|normal| - 1]} else objects
  }

  function EtagFor(objects: Objects, name: Text, etag: Option<Text>): Text {
    if etag.Some? then etag.value else if name in objects then objects[name].etag else []
  }

  /** A name that is not its own normal form points to it. */
  function Pointing(objects: Objects, name: Text, normal: Text, isDir: bool): Objects {
    if name == normal then objects else objects[name := Entry(normal, [], [], isDir)]
  }

  /** The entries after inserting a name whose normal form is given; plain names defer to a slash entry. */
  function InsertedAs(objects: Objects, name: Text, normal: Text, etag: Option<Text>): Objects
    requires normal != []
  {
    var dir := EndsWithSlash(normal);
    if !dir && normal + [SLASH] in objects then Pointing(objects, name, normal + [SLASH], true)
    else
      var rest := WithoutTwin(objects, normal);
      Pointing(rest[normal := Entry([], name, EtagFor(rest, normal, etag), dir)], name, normal, dir)
  }

  lemma PointingKeepsNoTwins(objects: Objects, name: Text, normal: Text, isDir: bool)
    requires NoTwins(objects) && normal != []
    ensures NoTwins(Pointing(objects, name, normal, isDir))
    ensures forall n :: Normalized(Pointing(objects, name, normal, isDir), n) ==> Normalized(objects, n)
  {
    var after := Pointing(objects, name, normal, isDir);
    forall n | n in after && !EndsWithSlash(n)
      ensures !(Normalized(after, n) && Normalized(after, n + [SLASH]))
    {
      assert Normalized(after, n) ==> Normalized(objects, n);
      assert Normalized(after, n + [SLASH]) ==> Normalized(objects, n + [SLASH]);
    }
  }

  lemma AddingKeepsNoTwins(objects: Objects, normal: Text, e: Entry)
    requires NoTwins(objects) && normal != []
    requires if EndsWithSlash(normal) then normal[..|normal| - 1] !in objects else normal + [SLASH] !in objects
    ensures NoTwins(objects[normal := e])
  {
    var after := objects[normal := e];
    forall n | n in after && !EndsWithSlash(n)
      ensures !(Normalized(after, n) && Normalized(after, n + [SLASH]))
    {
      assert (n + [SLASH])[..|n|] == n;
      assert n != normal ==> Normalized(after, n) == Normalized(objects, n);
      assert n + [SLASH] != normal ==> Normalized(after, n + [SLASH]) == Normalized(objects, n + [SLASH]);
    }
  }

  lemma RemovingKeepsNoTwins(objects: Objects, name: Text)
    requires NoTwins(objects)
    ensures NoTwins(objects - {name})
  {
    var after := objects - {name};
    forall n | n in after && !EndsWithSlash(n)
      ensures !(Normalized(after, n) && Normalized(after, n + [SLASH]))
    {
      assert Normalized(after, n) ==> Normalized(objects, n);
      assert Normalized(after, n + [SLASH]) ==> Normalized(objects, n + [SLASH]);
    }
  }

  /** Insertion never leaves a name normalized both with and without its slash. */
  lemma InsertKeepsNoTwins(objects: Objects, name: Text, normal: Text, etag: Option<Text>)
    requires NoTwins(objects) && normal != []
    ensures NoTwins(InsertedAs(objects, name, normal, etag))
  {
    hide NoTwins, Pointing;
    var dir := EndsWithSlash(normal);
    if !dir && normal + [SLASH] in objects {
      PointingKeepsNoTwins(objects, name, normal + [SLASH], true);
    } else {
      var rest := WithoutTwin(objects, normal);
      if dir {
        RemovingKeepsNoTwins(objects, normal[..|normal| - 1]);
      }
      var e := Entry([], name, EtagFor(rest, normal, etag), dir);
      AddingKeepsNoTwins(rest, normal, e);
      PointingKeepsNoTwins(rest[normal := e], name, normal, dir);
    }
  }

  /** The inserted name is found under its normal form; no other name but the slashless twin is affected. */
  lemma InsertFindable(objects: Objects, name: Text, normal: Text, etag: Option<Text>)
    requires normal != [] && name != [] && name != normal + [SLASH]
    ensures
      var after := InsertedAs(objects, name, normal, etag);
      var target := if !EndsWithSlash(normal) && normal + [SLASH] in objects then normal + [SLASH] else normal;
      && target in after && name in after
      && (name != target ==> after[name].normalname == target)
      && (target == normal ==> after[normal].normalname == [] && after[normal].orgname == name)
      && (target != normal ==> after[target] == objects[target])
      && (forall k :: k in after && k != name && k != normal ==> k in objects && after[k] == objects[k])
      && (forall k :: k in objects && k !in after ==> EndsWithSlash(normal) && k == normal[..|normal| - 1])
  {
  }

  // ---------- what was inserted ----------

  datatype Inserted = Inserted(name: Text, isDir: bool)

  /** Of the names inserted so far, one has this normal form, and none after it has this form with one more slash. */
  predicate Stands(log: seq<Inserted>, k: Text) {
    if log == [] then false
    else
      var last := log[|log| - 1];
      var normal := NormalName(last.name, last.isDir);
      normal == k || (normal != k + [SLASH] && Stands(log[..|log| - 1], k))
  }

  /** A directory name without the folder suffix. */
  predicate PlainDirectory(k: Text) {
    EndsWithSlash(k) && Find(k, FOLDER) < 0
  }

  /** Which plain directory names are normalized entries depends on the inserted names only. */
  ghost predicate Follows(objects: Objects, log: seq<Inserted>) {
    forall k :: PlainDirectory(k) ==> (Normalized(objects, k) <==> Stands(log, k))
  }

  lemma PlainIsNormal(k: Text, isDir: bool)
    requires PlainDirectory(k)
    ensures NormalName(k, isDir) == k
  {
  }

  lemma InsertStands(objects: Objects, name: Text, isDir: bool, etag: Option<Text>, k: Text)
    requires PlainDirectory(k) && NormalName(name, isDir) != []
    ensures
      var normal := NormalName(name, isDir);
      Normalized(InsertedAs(objects, name, normal, etag), k)
      <==> (normal == k || (normal != k + [SLASH] && Normalized(objects, k)))
  {
    var normal := NormalName(name, isDir);
    if name == k {
      PlainIsNormal(k, isDir);
    }
    assert EndsWithSlash(k + [SLASH]);
    assert name == k ==> normal == k;
    hide NormalName, Find, Pointing, WithoutTwin, Normalized;
    if !EndsWithSlash(normal) && normal + [SLASH] in objects {
      assert EndsWithSlash(normal + [SLASH]);
      PointingAt(objects, name, normal + [SLASH], true, k);
    } else {
      PutStands(objects, name, normal, etag, k);
    }
  }

  lemma PutStands(objects: Objects, name: Text, normal: Text, etag: Option<Text>, k: Text)
    requires normal != [] && (name == k ==> normal == k)
    ensures
      var rest := WithoutTwin(objects, normal);
      var put := rest[normal := Entry([], name, EtagFor(rest, normal, etag), EndsWithSlash(normal))];
      Normalized(Pointing(put, name, normal, EndsWithSlash(normal)), k)
      <==> (normal == k || (normal != k + [SLASH] && Normalized(objects, k)))
  {
    TwinGone(objects, normal, k);
    var rest := WithoutTwin(objects, normal);
    var put := rest[normal := Entry([], name, EtagFor(rest, normal, etag), EndsWithSlash(normal))];
    hide WithoutTwin, EtagFor, EndsWithSlash;
    assert Normalized(put, k) <==> normal == k || Normalized(rest, k);
    PointingAt(put, name, normal, EndsWithSlash(normal), k);
  }

  lemma TwinGone(objects: Objects, normal: Text, k: Text)
    requires normal != []
    ensures Normalized(WithoutTwin(objects, normal), k) <==> Normalized(objects, k) && normal != k + [SLASH]
  {
    assert EndsWithSlash(normal) ==> normal == normal[..|normal| - 1] + [SLASH];
    assert (k + [SLASH])[..|k + [SLASH]| - 1] == k && EndsWithSlash(k + [SLASH]);
  }

  lemma PointingAt(objects: Objects, name: Text, normal: Text, isDir: bool, k: Text)
    requires k != name || name == normal
    ensures Normalized(Pointing(objects, name, normal, isDir), k) <==> Normalized(objects, k)
  {
  }

  lemma InsertFollows(objects: Objects, log: seq<Inserted>, name: Text, isDir: bool, etag: Option<Text>)
    requires Follows(objects, log) && NormalName(name, isDir) != []
    ensures Follows(InsertedAs(objects, name, NormalName(name, isDir), etag), log + [Inserted(name, isDir)])
  {
    hide NormalName, Normalized, InsertedAs, PlainDirectory;
    var more := log + [Inserted(name, isDir)];
    assert more[..|log|] == log;
    forall k | PlainDirectory(k)
      ensures Normalized(InsertedAs(objects, name, NormalName(name, isDir), etag), k) <==> Stands(more, k)
    {
      InsertStands(objects, name, isDir, etag, k);
    }
  }

  class S3ObjList {
    var objects: Objects
    ghost var log: seq<Inserted>

    ghost predicate Valid()
      reads this
    {
      NoTwins(objects) && [] !in objects && Follows(objects, log)
    }

    constructor ()
      ensures Valid() && objects == map[] && log == []
    {
      objects, log := map[], [];
    }

    /** Adds a listed name under its normal form. */
    method Insert(name: Text, etag: Option<Text>, isDir: bool) returns (ok: bool)
      requires Valid()
      requires !(FOLDER <= name)
      modifies this
      ensures Valid() && ok == (name != [])
      ensures objects == if name == [] then old(objects)
        else InsertedAs(old(objects), name, NormalName(name, isDir), etag)
      ensures log == if name == [] then old(log) else old(log) + [Inserted(name, isDir)]
    {
      hide NoTwins, NormalName, Find, EndsWithSlash, WithoutTwin, Follows;
      if name == [] {
        return false;
      }
      InsertedNormal(name, isDir);
      InsertFollows(objects, log, name, isDir, etag);
      log := log + [Inserted(name, isDir)];
      NormalNameShape(name, isDir);
      InsertKeepsNoTwins(objects, name, NormalName(name, isDir), etag);
      var newname, dir := Normalize(name, isDir);
      TwinOf(objects, newname);
      if dir {
        var chkname := newname[..|newname| - 1];
        if chkname in objects {
          objects := objects - {chkname};
        }
      } else {
        var chkname := newname + [SLASH];
        if chkname in objects {
          ok := InsertNormalized(name, chkname, true);
          return;
        }
      }
      if newname in objects {
        objects := objects[newname := Entry([], name, if etag.Some? then etag.value else objects[newname].etag, dir)];
      } else {
        objects := objects[newname := Entry([], name, if etag.Some? then etag.value else [], dir)];
      }
      ok := InsertNormalized(name, newname, dir);
    }

    /** Makes a name point to its normal form, unless it is its own. */
    method InsertNormalized(name: Text, normalized: Text, isDir: bool) returns (ok: bool)
      modifies `objects
      ensures ok == (name != [] && normalized != [])
      ensures objects == if ok then Pointing(old(objects), name, normalized, isDir) else old(objects)
    {
      if name == [] || normalized == [] {
        return false;
      }
      if name == normalized {
        return true;
      }
      if name in objects {
        objects := objects[name := objects[name].(orgname := [], etag := [], normalname := normalized, isDir := isDir)];
      } else {
        objects := objects[name := Entry(normalized, [], [], isDir)];
      }
      return true;
    }

    /** The keys, in map order (any order here), optionally only normalized ones and without their slash. */
    method GetNameList(onlyNormalized: bool, cutSlash: bool) returns (list: seq<Text>, ghost keys: seq<Text>)
      ensures list == Names(keys, cutSlash)
      ensures forall i, j :: 0 <= i < j < |keys| ==> keys[i] != keys[j]
      ensures forall k :: k in keys <==> k in objects && (onlyNormalized ==> Normalized(objects, k))
      ensures |list| == |Selected(objects, onlyNormalized)|
      ensures forall n :: n in list <==> exists k :: k in Selected(objects, onlyNormalized) && n == Cut(k, cutSlash)
      ensures Valid() && onlyNormalized && cutSlash ==>
        (HasDuplicate(list) <==> Stands(log, [SLASH]) && Stands(log, [SLASH, SLASH]))
    {
      hide Names, HasDuplicate, NoTwins, Follows, Stands;
      list, keys := [], [];
      NamesNone(cutSlash);
      var todo := objects.Keys;
      while todo != {}
        invariant todo <= objects.Keys
        invariant list == Names(keys, cutSlash)
        invariant forall i, j :: 0 <= i < j < |keys| ==> keys[i] != keys[j]
        invariant forall k :: k in keys <==> k in objects && k !in todo && (onlyNormalized ==> Normalized(objects, k))
        decreases |todo|
      {
        var key :| key in todo;
        todo := todo - {key};
        if onlyNormalized && 0 != |objects[key].normalname| {
          continue;
        }
        var name := key;
        if cutSlash && 1 < |name| && SLASH == name[|name| - 1] {
          name := name[..|name| - 1];
        }
        NamesSnoc(keys, key, cutSlash);
        list := list + [name];
        keys := keys + [key];
      }
      NamesAre(keys, Selected(objects, onlyNormalized), cutSlash);
      if Valid() && onlyNormalized && cutSlash {
        NameListDuplicates(objects, keys);
        SlashesStand(objects, log);
      }
    }
  }

  lemma InsertedNormal(name: Text, isDir: bool)
    requires name != [] && !(FOLDER <= name)
    ensures NormalName(name, isDir) != []
  {
    NormalNameShape(name, isDir);
  }

  lemma SlashesStand(objects: Objects, log: seq<Inserted>)
    requires Follows(objects, log)
    ensures Normalized(objects, [SLASH]) <==> Stands(log, [SLASH])
    ensures Normalized(objects, [SLASH, SLASH]) <==> Stands(log, [SLASH, SLASH])
  {
    FindLacking([SLASH], FOLDER, 0x5F);
    FindLacking([SLASH, SLASH], FOLDER, 0x5F);
    assert PlainDirectory([SLASH]) && PlainDirectory([SLASH, SLASH]);
  }

  /** The keys a listing is asked for. */
  ghost function Selected(objects: Objects, onlyNormalized: bool): set<Text> {
    set k | k in objects && (onlyNormalized ==> Normalized(objects, k))
  }

  lemma NamesAre(keys: seq<Text>, selected: set<Text>, cutSlash: bool)
    requires forall i, j :: 0 <= i < j < |keys| ==> keys[i] != keys[j]
    requires forall k :: k in keys <==> k in selected
    ensures |Names(keys, cutSlash)| == |selected|
    ensures forall n :: n in Names(keys, cutSlash) <==> exists k :: k in selected && n == Cut(k, cutSlash)
  {
    DistinctSize(keys, selected);
    var list := Names(keys, cutSlash);
    forall k | k in selected
      ensures Cut(k, cutSlash) in list
    {
      var i :| 0 <= i < |keys| && keys[i] == k;
      assert list[i] == Cut(k, cutSlash);
    }
  }

  lemma {:induction false} DistinctSize(keys: seq<Text>, selected: set<Text>)
    requires forall i, j :: 0 <= i < j < |keys| ==> keys[i] != keys[j]
    requires forall k :: k in keys <==> k in selected
    ensures |keys| == |selected|
  {
    if keys == [] {
      assert selected == {};
    } else {
      var n := |keys| - 1;
      assert forall k :: k in keys[..n] ==> k in keys;
      assert forall k :: k in keys ==> k in keys[..n] || k == keys[n];
      DistinctSize(keys[..n], selected - {keys[n]});
    }
  }

  lemma TwinOf(objects: Objects, normal: Text)
    requires normal != []
    ensures WithoutTwin(objects, normal)
         == if EndsWithSlash(normal) && normal[..|normal| - 1] in objects then objects - {normal[..|normal| - 1]}
            else objects
  {
    assert forall k :: k !in objects ==> objects - {k} == objects;
  }

  /** The first steps of insert: cut the folder suffix, add the slash of a directory, note a slash. */
  method Normalize(name: Text, isDir: bool) returns (newname: Text, dir: bool)
    requires name != [] && !(FOLDER <= name)
    ensures newname == NormalName(name, isDir) && dir == EndsWithSlash(newname)
  {
    NormalNameShape(name, isDir);
    newname := name;
    dir := isDir;
    var pos := Find(name, FOLDER);
    if 0 <= pos {
      newname := name[..pos];
      dir := true;
    }
    if dir {
      if SLASH != newname[|newname| - 1] {
        newname := newname + [SLASH];
      }
    } else {
      if SLASH == newname[|newname| - 1] {
        dir := true;
      }
    }
  }

  lemma NormalNameShape(name: Text, isDir: bool)
    requires name != [] && !(FOLDER <= name)
    ensures NormalName(name, isDir) != []
    ensures EndsWithSlash(NormalName(name, isDir)) <==> IsDirName(name, isDir)
    ensures 0 <= Find(name, FOLDER) ==> 0 < Find(name, FOLDER)
  {
  }

  // ---------- duplicates ----------

  /** A key as it is listed. */
  function Cut(key: Text, cutSlash: bool): Text {
    if cutSlash && 1 < |key| && SLASH == key[|key| - 1] then key[..|key| - 1] else key
  }

  ghost function Names(keys: seq<Text>, cutSlash: bool): (r: seq<Text>)
    ensures |r| == |keys|
  {
    seq(|keys|, i requires 0 <= i < |keys| => Cut(keys[i], cutSlash))
  }

  lemma NamesNone(cutSlash: bool)
    ensures Names([], cutSlash) == []
  {
  }

  lemma NamesSnoc(keys: seq<Text>, key: Text, cutSlash: bool)
    ensures Names(keys + [key], cutSlash) == Names(keys, cutSlash) + [Cut(key, cutSlash)]
  {
  }

  ghost predicate HasDuplicate(list: seq<Text>) {
    exists i, j :: 0 <= i < j < |list| && list[i] == list[j]
  }

  /** Two keys are listed alike only as twins, of which the shorter is plain or just a slash. */
  lemma CutAlike(a: Text, b: Text)
    requires a != b && Cut(a, true) == Cut(b, true)
    ensures (a == b + [SLASH] && (!EndsWithSlash(b) || b == [SLASH]))
         || (b == a + [SLASH] && (!EndsWithSlash(a) || a == [SLASH]))
  {
  }

  /** The normalized names without slashes repeat exactly if both "/" and "//" are normalized entries. */
  lemma NameListDuplicates(objects: Objects, keys: seq<Text>)
    requires NoTwins(objects) && [] !in objects
    requires forall i, j :: 0 <= i < j < |keys| ==> keys[i] != keys[j]
    requires forall k :: k in keys <==> k in objects && Normalized(objects, k)
    ensures HasDuplicate(Names(keys, true))
      <==> Normalized(objects, [SLASH]) && Normalized(objects, [SLASH, SLASH])
  {
    var list := Names(keys, true);
    if HasDuplicate(list) {
      var i, j :| 0 <= i < j < |list| && list[i] == list[j];
      CutAlike(keys[i], keys[j]);
      assert keys[i] in keys && keys[j] in keys;
      assert [SLASH] + [SLASH] == [SLASH, SLASH];
    }
    if Normalized(objects, [SLASH]) && Normalized(objects, [SLASH, SLASH]) {
      var i :| 0 <= i < |keys| && keys[i] == [SLASH];
      var j :| 0 <= j < |keys| && keys[j] == [SLASH, SLASH];
      assert Cut([SLASH, SLASH], true) == [SLASH];
      assert list[i] == list[j];
      assert i != j;
      assert i < j || j < i;
    }
  }

  /** Only names that start with two slashes normalize to "//". */
  lemma DoubleSlash(name: Text, isDir: bool)
    requires NormalName(name, isDir) == [SLASH, SLASH]
    ensures [SLASH, SLASH] <= name
  {
    var pos := Find(name, FOLDER);
    var newname := if 0 <= pos then name[..pos] else name;
    assert |newname + [SLASH]| == |newname| + 1;
    assert newname != [] ==> (newname + [SLASH])[0] == newname[0];
  }

  /** Of names that do not start with two slashes, none has the normal form "//". */
  lemma {:induction false} NoDoubleSlash(log: seq<Inserted>)
    requires forall i :: 0 <= i < |log| ==> !([SLASH, SLASH] <= log[i].name)
    ensures !Stands(log, [SLASH, SLASH])
  {
    hide NormalName;
    if log != [] {
      var last := log[|log| - 1];
      if NormalName(last.name, last.isDir) == [SLASH, SLASH] {
        DoubleSlash(last.name, last.isDir);
      }
      NoDoubleSlash(log[..|log| - 1]);
    }
  }

  /** A list built from names that do not start with two slashes has no duplicates. */
  method ListWithoutDuplicates(objects: S3ObjList) returns (list: seq<Text>)
    requires objects.Valid()
    requires forall i :: 0 <= i < |objects.log| ==> !([SLASH, SLASH] <= objects.log[i].name)
    ensures !HasDuplicate(list)
  {
    NoDoubleSlash(objects.log);
    ghost var keys;
    list, keys := objects.GetNameList(true, true);
  }

  /** Two insertions that make a list with a duplicate. */
  method ListWithDuplicate() returns (objects: S3ObjList, list: seq<Text>)
    ensures objects.Valid() && objects.log == [Inserted([SLASH, SLASH], false), Inserted([SLASH], false)]
    ensures HasDuplicate(list)
  {
    FindLacking([SLASH], FOLDER, 0x5F);
    FindLacking([SLASH, SLASH], FOLDER, 0x5F);
    PlainIsNormal([SLASH], false);
    PlainIsNormal([SLASH, SLASH], false);
    hide NormalName, Find, NoTwins, Follows, HasDuplicate;
    assert !(FOLDER <= [SLASH, SLASH]) && !(FOLDER <= [SLASH]);
    objects := new S3ObjList();
    var ok := objects.Insert([SLASH, SLASH], None, false);
    ok := objects.Insert([SLASH], None, false);
    var log := [Inserted([SLASH, SLASH], false)];
    assert objects.log[..1] == log && log[..0] == [];
    assert Stands(log, [SLASH, SLASH]);
    ghost var keys;
    list, keys := objects.GetNameList(true, true);
  }
}
