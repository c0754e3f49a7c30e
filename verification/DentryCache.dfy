/** The client's cache of directory entries (src/client/cache.cpp): entries under the hash of their
    directory, and the hashes known. It should be a flat map from directory and name to entry. */
module DentryCache {
  import opened Common

  datatype Cache<V> = Cache(entries: map<int, map<string, V>>, ids: map<string, int>)

  type Flat<V> = map<(string, string), V>

  // ---------------------------------------------------------------- the operations

  function Under<V>(c: Cache<V>, id: int): map<string, V> {
    if id in c.entries then c.entries[id] else map[]
  }

  /** `get_dir_id`: an unknown directory is given its hash. */
  function IdOf<V>(hash: string -> int, c: Cache<V>, dir: string): int {
    if dir in c.ids then c.ids[dir] else hash(dir)
  }

  function Noted<V>(hash: string -> int, c: Cache<V>, dir: string): Cache<V> {
    c.(ids := c.ids[dir := IdOf(hash, c, dir)])
  }

  function Inserted<V>(hash: string -> int, c: Cache<V>, dir: string, name: string, v: V): Cache<V> {
    var id := IdOf(hash, c, dir);
    var names := Under(c, id);
    Noted(hash, c, dir).(entries := c.entries[id := if name in names then names else names[name := v]])
  }

  /** Looking up notes the directory and makes room for its entries. */
  function Looked<V>(hash: string -> int, c: Cache<V>, dir: string): Cache<V> {
    var id := IdOf(hash, c, dir);
    Noted(hash, c, dir).(entries := c.entries[id := Under(c, id)])
  }

  function Found<V>(hash: string -> int, c: Cache<V>, dir: string, name: string): Option<V> {
    var names := Under(c, IdOf(hash, c, dir));
    if name in names then Some(names[name]) else None
  }

  function Cleared<V>(c: Cache<V>, dir: string): Cache<V> {
    if dir in c.ids then Cache(c.entries - {c.ids[dir]}, c.ids - {dir}) else c
  }

  class DentryCache<V> {
    const hash: string -> int
    var entries: map<int, map<string, V>>
    var entryDirId: map<string, int>

    ghost function Now(): Cache<V>
      reads this
    {
      Cache(entries, entryDirId)
    }

    constructor (hash: string -> int)
      ensures this.hash == hash && Now() == Cache(map[], map[])
    {
      this.hash, entries, entryDirId := hash, map[], map[];
    }

    method GetDirId(dir: string) returns (id: int)
      modifies this
      ensures id == IdOf(hash, old(Now()), dir) && Now() == Noted(hash, old(Now()), dir)
    {
      if dir in entryDirId {
        assert entryDirId[dir := entryDirId[dir]] == entryDirId;
        return entryDirId[dir];
      }
      id := hash(dir);
      entryDirId := entryDirId[dir := id];
    }

    method Insert(parent: string, name: string, v: V)
      modifies this
      ensures Now() == Inserted(hash, old(Now()), parent, name, v)
    {
      var id := GetDirId(parent);
      var names := if id in entries then entries[id] else map[];
      if name !in names {
        names := names[name := v];
      }
      entries := entries[id := names];
    }

    method Get(parent: string, name: string) returns (r: Option<V>)
      modifies this
      ensures r == Found(hash, old(Now()), parent, name) && Now() == Looked(hash, old(Now()), parent)
    {
      var id := GetDirId(parent);
      if id !in entries {
        entries := entries[id := map[]];
      }
      assert entries[id := entries[id]] == entries;
      if name in entries[id] {
        return Some(entries[id][name]);
      }
      return None;
    }

    method ClearDir(dir: string)
      modifies this
      ensures Now() == Cleared(old(Now()), dir)
    {
      if dir !in entryDirId {
        return;
      }
      var id := entryDirId[dir];
      if id in entries {
        entries := entries - {id};
      }
      assert old(entries) - {id} == entries;
      entryDirId := entryDirId - {dir};
    }

    method Clear()
      modifies this
      ensures Now() == Cache(map[], map[])
    {
      entries := map[];
      entryDirId := map[];
    }
  }

  // ---------------------------------------------------------------- runs against a flat map

  datatype Op<V> = Insert(dir: string, name: string, value: V) | Get(dir: string, name: string) | ClearDir(dir: string)
                 | Clear

  function Apply<V>(hash: string -> int, c: Cache<V>, op: Op<V>): Cache<V> {
    match op
    case Insert(dir, name, v) => Inserted(hash, c, dir, name, v)
    case Get(dir, _) => Looked(hash, c, dir)
    case ClearDir(dir) => Cleared(c, dir)
    case Clear => Cache(map[], map[])
  }

  /** The flat map's own operations: the first insert wins, a look-up changes nothing. */
  function FlatApply<V>(f: Flat<V>, op: Op<V>): Flat<V> {
    match op
    case Insert(dir, name, v) => if (dir, name) in f then f else f[(dir, name) := v]
    case Get(_, _) => f
    case ClearDir(dir) => map k | k in f && k.0 != dir :: f[k]
    case Clear => map[]
  }

  function Run<V>(hash: string -> int, ops: seq<Op<V>>): Cache<V> {
    if ops == [] then Cache(map[], map[]) else Apply(hash, Run(hash, ops[..|ops| - 1]), ops[|ops| - 1])
  }

  function FlatRun<V>(ops: seq<Op<V>>): Flat<V> {
    if ops == [] then map[] else FlatApply(FlatRun(ops[..|ops| - 1]), ops[|ops| - 1])
  }

  ghost predicate Injective(hash: string -> int, dirs: set<string>) {
    forall a, b | a in dirs && b in dirs :: hash(a) == hash(b) ==> a == b
  }

  ghost predicate Within<V>(op: Op<V>, dirs: set<string>) {
    op.Clear? || op.dir in dirs
  }

  /** The cache's ids are hashes of known directories, and every group of entries belongs to one. */
  ghost predicate Sound<V>(hash: string -> int, c: Cache<V>, dirs: set<string>) {
    && (forall d | d in c.ids :: d in dirs && c.ids[d] == hash(d))
    && (forall d | d in dirs && hash(d) in c.entries :: d in c.ids)
  }

  /** What the cache answers for one directory and name is what the flat map holds. */
  ghost predicate Agrees<V>(hash: string -> int, c: Cache<V>, f: Flat<V>, dir: string, name: string) {
    Found(hash, c, dir, name) == if (dir, name) in f then Some(f[(dir, name)]) else None
  }

  lemma SoundStep<V>(hash: string -> int, c: Cache<V>, op: Op<V>, dirs: set<string>)
    requires Injective(hash, dirs) && Within(op, dirs) && Sound(hash, c, dirs)
    ensures Sound(hash, Apply(hash, c, op), dirs)
  {
  }

  lemma AgreesInsert<V>(hash: string -> int, c: Cache<V>, f: Flat<V>, op: Op<V>, dirs: set<string>, dir: string,
                        name: string)
    requires Injective(hash, dirs) && Within(op, dirs) && Sound(hash, c, dirs) && dir in dirs
    requires op.Insert? && Agrees(hash, c, f, dir, name)
    ensures Agrees(hash, Apply(hash, c, op), FlatApply(f, op), dir, name)
  {
    assert IdOf(hash, c, dir) == hash(dir) && IdOf(hash, c, op.dir) == hash(op.dir);
    assert hash(dir) == hash(op.dir) ==> dir == op.dir;
  }

  lemma AgreesGet<V>(hash: string -> int, c: Cache<V>, f: Flat<V>, op: Op<V>, dirs: set<string>, dir: string,
                     name: string)
    requires Injective(hash, dirs) && Within(op, dirs) && Sound(hash, c, dirs) && dir in dirs
    requires op.Get? && Agrees(hash, c, f, dir, name)
    ensures Agrees(hash, Apply(hash, c, op), FlatApply(f, op), dir, name)
  {
    assert IdOf(hash, c, dir) == hash(dir) && IdOf(hash, c, op.dir) == hash(op.dir);
  }

  lemma AgreesClearDir<V>(hash: string -> int, c: Cache<V>, f: Flat<V>, op: Op<V>, dirs: set<string>, dir: string,
                          name: string)
    requires Injective(hash, dirs) && Within(op, dirs) && Sound(hash, c, dirs) && dir in dirs
    requires op.ClearDir? && Agrees(hash, c, f, dir, name)
    ensures Agrees(hash, Apply(hash, c, op), FlatApply(f, op), dir, name)
  {
    assert IdOf(hash, c, dir) == hash(dir) && IdOf(hash, c, op.dir) == hash(op.dir);
    assert hash(dir) == hash(op.dir) ==> dir == op.dir;
  }

  /** In every run over directories whose hashes differ, the cache answers exactly like a flat map
      in which the first insert wins, a look-up changes nothing and clearing a directory removes
      that directory's entries and no others. */
  lemma {:induction false} RefinesFlatMap<V>(hash: string -> int, ops: seq<Op<V>>, dirs: set<string>, dir: string,
                                             name: string)
    requires Injective(hash, dirs) && dir in dirs && forall i | 0 <= i < |ops| :: Within(ops[i], dirs)
    ensures Sound(hash, Run(hash, ops), dirs)
    ensures Agrees(hash, Run(hash, ops), FlatRun(ops), dir, name)
    decreases |ops|
  {
    if ops != [] {
      var k := |ops| - 1;
      var c, f, op := Run(hash, ops[..k]), FlatRun(ops[..k]), ops[k];
      RefinesFlatMap(hash, ops[..k], dirs, dir, name);
      SoundStep(hash, c, op, dirs);
      hide Injective, Sound;
      match op
      case Insert(_, _, _) =>
        hide Agrees;
        AgreesInsert(hash, c, f, op, dirs, dir, name);
      case Get(_, _) =>
        hide Agrees;
        AgreesGet(hash, c, f, op, dirs, dir, name);
      case ClearDir(_) =>
        hide Agrees;
        AgreesClearDir(hash, c, f, op, dirs, dir, name);
      case Clear =>
    }
  }

  /** Some run over the directories in which the cache and the flat map disagree. */
  ghost predicate Differs<V>(hash: string -> int, ops: seq<Op<V>>, dirs: set<string>, dir: string, name: string) {
    && dir in dirs && (forall i | 0 <= i < |ops| :: Within(ops[i], dirs))
    && !Agrees(hash, Run(hash, ops), FlatRun(ops), dir, name)
  }

  /** An entry put under one directory shows up under another whose hash is the same. */
  lemma CollisionShows<V>(hash: string -> int, dirs: set<string>, a: string, b: string, name: string, v: V)
    requires a in dirs && b in dirs && a != b && hash(a) == hash(b)
    ensures Differs(hash, [Insert(a, name, v)], dirs, b, name)
  {
    var ops := [Insert(a, name, v)];
    assert ops[..0] == [];
    assert Run(hash, ops) == Apply(hash, Cache(map[], map[]), ops[0]);
    assert FlatRun(ops) == FlatApply(map[], ops[0]);
    assert Found(hash, Run(hash, ops), b, name) == Some(v);
    assert (b, name) !in FlatRun(ops);
  }

  /** The cache answers like the flat map in every run over some directories if and only if their
      hashes differ. */
  lemma RefinesFlatMapIff<V(!new)>(hash: string -> int, dirs: set<string>, name: string, v: V)
    ensures (forall ops: seq<Op<V>>, dir: string, n: string :: !Differs(hash, ops, dirs, dir, n)) <==>
            Injective(hash, dirs)
  {
    if Injective(hash, dirs) {
      forall ops: seq<Op<V>>, dir: string, n: string
        ensures !Differs(hash, ops, dirs, dir, n)
      {
        if Differs(hash, ops, dirs, dir, n) {
          RefinesFlatMap(hash, ops, dirs, dir, n);
        }
      }
    } else {
      var a, b :| a in dirs && b in dirs && hash(a) == hash(b) && a != b;
      CollisionShows(hash, dirs, a, b, name, v);
    }
  }
}
