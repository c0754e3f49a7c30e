/** The client's table of open files (src/client/open_file_map.cpp): descriptors are handed out by
    a counter that wraps around, and a flag says when a candidate must be checked against the
    table. */
module OpenFiles {
  import opened Common

  const INT_MAX := 0x7FFF_FFFF
  const FIRST := 10000
  const WRAP := 100000

  /** `files_`, `fd_idx` and `fd_validation_needed`. */
  datatype Table<F> = Table(files: map<int, F>, next: int, validate: bool)

  function Empty<F>(): Table<F> {
    Table(map[], FIRST, false)
  }

  /** The counter is in its range, and there are fewer open files than descriptors to hand out. */
  ghost predicate Valid<F>(t: Table<F>) {
    FIRST <= t.next <= INT_MAX && |t.files| < INT_MAX - WRAP
  }

  /** While the flag is off, every open descriptor is below the counter. */
  ghost predicate Sound<F>(t: Table<F>) {
    && FIRST <= t.next <= INT_MAX
    && (!t.validate ==> forall fd | fd in t.files :: fd < t.next)
  }

  ghost predicate AllOpen<F>(t: Table<F>, lo: int, hi: int) {
    forall x | lo <= x < hi :: x in t.files
  }

  /** A candidate given out in the counter's cyclic order: `wrapped` says whether the counter
      passed its end; everything skipped is open. */
  ghost predicate Drawn<F>(t: Table<F>, fd: int, wrapped: bool) {
    && fd < INT_MAX
    && (if wrapped then AllOpen(t, t.next, INT_MAX) && WRAP <= fd && AllOpen(t, WRAP, fd)
        else t.next <= fd && AllOpen(t, t.next, fd))
  }

  /** `fd` is the descriptor handed out from `t`, leaving the counter and the flag as in `u`. */
  ghost predicate Allocates<F>(t: Table<F>, fd: int, u: Table<F>) {
    && u.files == t.files
    && u.next == fd + 1
    && (exists wrapped :: Drawn(t, fd, wrapped) && (wrapped ==> t.validate || t.next == INT_MAX)
                          && u.validate == (t.validate || wrapped))
    && (u.validate ==> fd !in t.files)
    && (!u.validate ==> fd == t.next)
  }

  /** `insert`: an entry that is already there stays. */
  function Inserted<F>(files: map<int, F>, fd: int, f: F): map<int, F> {
    if fd in files then files else files[fd := f]
  }

  datatype Op<F> = Add(file: F) | Remove(fd: int) | Dup(from: int) | DupTo(from: int, onto: int)

  function Removed<F>(t: Table<F>, fd: int): Table<F> {
    var files := t.files - {fd};
    Table(files, t.next, t.validate && !(fd in t.files && files == map[]))
  }

  ghost predicate Added<F>(t: Table<F>, f: F, fd: int, u: Table<F>) {
    Allocates(t, fd, u.(files := t.files)) && u.files == Inserted(t.files, fd, f)
  }

  /** `op` turns `t` into `u` and returns `r`. */
  ghost predicate Next<F>(t: Table<F>, op: Op<F>, r: int, u: Table<F>) {
    match op
    case Add(f) => Added(t, f, r, u)
    case Remove(fd) => r == (if fd in t.files then 1 else 0) && u == Removed(t, fd)
    case Dup(from) =>
      if from in t.files then Added(t, t.files[from], r, u) else r == -1 && u == t
    case DupTo(from, onto) =>
      if from !in t.files then r == -1 && u == t
      else if from == onto then r == onto && u == t
      else
        && r == onto
        && u == Table(t.files[onto := t.files[from]], t.next,
                      t.validate || (t.next < onto && onto != 0 && onto != 1 && onto != 2))
  }

  // ---------------------------------------------------------------- the class

  class OpenFileMap<F> {
    var files: map<int, F>
    var fdIdx: int
    var validation: bool

    ghost function Now(): Table<F>
      reads this
    {
      Table(files, fdIdx, validation)
    }

    constructor ()
      ensures Now() == Empty()
    {
      files, fdIdx, validation := map[], FIRST, false;
    }

    method GenerateFdIdx() returns (fd: int)
      requires FIRST <= fdIdx <= INT_MAX
      modifies this
      ensures files == old(files) && fdIdx == fd + 1 && FIRST <= fdIdx <= INT_MAX
      ensures old(fdIdx) == INT_MAX ==> fd == WRAP && validation
      ensures old(fdIdx) < INT_MAX ==> fd == old(fdIdx) && validation == old(validation)
    {
      if fdIdx == INT_MAX {
        fdIdx := WRAP;
        validation := true;
      }
      fd := fdIdx;
      fdIdx := fdIdx + 1;
    }

    method SafeGenerateFdIdx() returns (fd: int)
      requires Valid(Now())
      modifies this
      ensures Allocates(old(Now()), fd, Now())
    {
      ghost var t := Now();
      ghost var wrapped := fdIdx == INT_MAX;
      fd := GenerateFdIdx();
      if validation {
        while fd in files
          invariant files == t.files && validation && fdIdx == fd + 1
          invariant Drawn(t, fd, wrapped) && (t.validate || wrapped)
          invariant wrapped ==> t.validate || t.next == INT_MAX
          decreases !wrapped, INT_MAX - fd
        {
          DrawnOn(t, fd, wrapped);
          wrapped := wrapped || fdIdx == INT_MAX;
          fd := GenerateFdIdx();
        }
      }
      assert Drawn(t, fd, wrapped);
    }

    method Add(f: F) returns (fd: int)
      requires Valid(Now())
      modifies this
      ensures Next(old(Now()), Op.Add(f), fd, Now())
    {
      fd := SafeGenerateFdIdx();
      Insert(fd, f);
    }

    method Insert(fd: int, f: F)
      modifies this
      ensures Now() == old(Now()).(files := Inserted(old(files), fd, f))
    {
      if fd !in files {
        files := files[fd := f];
      }
    }

    method Remove(fd: int) returns (done: bool)
      modifies this
      ensures Next(old(Now()), Op.Remove(fd), if done then 1 else 0, Now())
    {
      if fd !in files {
        assert files - {fd} == files;
        return false;
      }
      files := files - {fd};
      if validation && files == map[] {
        validation := false;
      }
      return true;
    }

    method Dup(oldfd: int) returns (newfd: int)
      requires Valid(Now())
      modifies this
      ensures Next(old(Now()), Op.Dup(oldfd), newfd, Now())
    {
      if oldfd !in files {
        return -1;
      }
      var f := files[oldfd];
      newfd := SafeGenerateFdIdx();
      Insert(newfd, f);
    }

    method Dup2(oldfd: int, newfd: int) returns (r: int)
      modifies this
      ensures Next(old(Now()), DupTo(oldfd, newfd), r, Now())
    {
      if oldfd !in files {
        return -1;
      }
      var f := files[oldfd];
      if oldfd == newfd {
        return newfd;
      }
      if newfd in files {
        var _ := Remove(newfd);
        assert oldfd in files;
      }
      if fdIdx < newfd && newfd != 0 && newfd != 1 && newfd != 2 {
        validation := true;
      }
      files := files[newfd := f];
      return newfd;
    }
  }

  // ---------------------------------------------------------------- the search ends

  lemma {:induction false} RangeSize(s: set<int>, lo: int, hi: int)
    requires lo <= hi && forall x | lo <= x < hi :: x in s
    ensures |s| >= hi - lo
    decreases hi - lo
  {
    if lo < hi {
      RangeSize(s - {hi - 1}, lo, hi - 1);
    }
  }

  /** A taken candidate: the counter moves on, wrapping at most once, because a table with fewer
      files than indices leaves one of them free. */
  lemma DrawnOn<F>(t: Table<F>, fd: int, wrapped: bool)
    requires Valid(t) && Drawn(t, fd, wrapped) && fd in t.files
    ensures fd + 1 < INT_MAX ==> Drawn(t, fd + 1, wrapped)
    ensures fd + 1 == INT_MAX ==> !wrapped && Drawn(t, WRAP, true)
  {
    if fd + 1 == INT_MAX && wrapped {
      RangeSize(t.files.Keys, WRAP, INT_MAX);
    }
  }

  // ---------------------------------------------------------------- what the table promises

  /** The operation takes a descriptor in front of the counter without the flag noticing. */
  ghost predicate OntoCounter<F>(t: Table<F>, op: Op<F>) {
    op.DupTo? && op.from in t.files && op.onto == t.next && op.from != op.onto && !t.validate
  }

  /** Every operation keeps the invariant, except `dup2` onto exactly the counter's value. */
  lemma SoundIff<F>(t: Table<F>, op: Op<F>, r: int, u: Table<F>)
    requires Sound(t) && Next(t, op, r, u)
    ensures Sound(u) <==> !OntoCounter(t, op)
  {
    match op
    case Add(f) => AddedSound(t, f, r, u);
    case Remove(fd) =>
    case Dup(from) =>
      if from in t.files {
        AddedSound(t, t.files[from], r, u);
      }
    case DupTo(from, onto) =>
      if OntoCounter(t, op) {
        assert onto in u.files;
      }
  }

  lemma AddedSound<F>(t: Table<F>, f: F, fd: int, u: Table<F>)
    requires Sound(t) && Added(t, f, fd, u)
    ensures Sound(u)
  {
  }

  /** A new descriptor collides with an open one exactly when the flag is off and the counter's
      own value is open; the new file is then dropped. */
  lemma CollidesIff<F>(t: Table<F>, f: F, fd: int, u: Table<F>)
    requires Added(t, f, fd, u)
    ensures fd in t.files <==> !t.validate && t.next in t.files && t.next < INT_MAX
    ensures fd in t.files ==> u.files == t.files
    ensures fd !in t.files ==> u.files == t.files[fd := f]
  {
  }

  /** In a sound table the new descriptor is free, and every other one keeps its file. */
  lemma NewIsFresh<F>(t: Table<F>, op: Op<F>, r: int, u: Table<F>)
    requires Sound(t) && Next(t, op, r, u) && (op.Add? || (op.Dup? && op.from in t.files))
    ensures r !in t.files
    ensures u.files == t.files[r := if op.Add? then op.file else t.files[op.from]]
  {
    CollidesIff(t, if op.Add? then op.file else t.files[op.from], r, u);
  }

  /** No operation changes the file behind a descriptor it was not asked to change. */
  lemma OthersKeepTheirFile<F>(t: Table<F>, op: Op<F>, r: int, u: Table<F>, fd: int)
    requires Next(t, op, r, u) && fd in t.files
    requires !(op.Remove? && op.fd == fd) && !(op.DupTo? && op.onto == fd)
    ensures fd in u.files && u.files[fd] == t.files[fd]
  {
  }

  /** A run: the tables before and after each operation, and the values returned. */
  ghost predicate Run<F>(tables: seq<Table<F>>, ops: seq<Op<F>>, results: seq<int>) {
    && |tables| == |ops| + 1 && |results| == |ops|
    && tables[0] == Empty()
    && forall i | 0 <= i < |ops| :: Next(tables[i], ops[i], results[i], tables[i + 1])
  }

  ghost predicate NeverOntoCounter<F>(tables: seq<Table<F>>, ops: seq<Op<F>>, n: nat)
    requires n <= |ops| < |tables|
  {
    forall i | 0 <= i < n :: !OntoCounter(tables[i], ops[i])
  }

  lemma {:induction false} AlwaysSound<F>(tables: seq<Table<F>>, ops: seq<Op<F>>, results: seq<int>, n: nat)
    requires Run(tables, ops, results) && n <= |ops| && NeverOntoCounter(tables, ops, n)
    ensures Sound(tables[n])
  {
    if n > 0 {
      AlwaysSound(tables, ops, results, n - 1);
      hide Sound, Next;
      assert Next(tables[n - 1], ops[n - 1], results[n - 1], tables[n - 1 + 1]);
      SoundIff(tables[n - 1], ops[n - 1], results[n - 1], tables[n]);
    }
  }

  /** In every run in which no `dup2` hits the counter, no descriptor is handed out while it is
      still open. */
  lemma NeverHandedOutTwice<F>(tables: seq<Table<F>>, ops: seq<Op<F>>, results: seq<int>, n: nat)
    requires Run(tables, ops, results) && n < |ops| && NeverOntoCounter(tables, ops, n)
    requires ops[n].Add? || (ops[n].Dup? && ops[n].from in tables[n].files)
    ensures results[n] !in tables[n].files
    ensures results[n] in tables[n + 1].files
  {
    AlwaysSound(tables, ops, results, n);
    hide Sound, NeverOntoCounter;
    assert Next(tables[n], ops[n], results[n], tables[n + 1]);
    hide Next, Run;
    NewIsFresh(tables[n], ops[n], results[n], tables[n + 1]);
  }

  /** What an operation does to the descriptor it names, in any table. */
  lemma NamedDescriptor<F>(t: Table<F>, op: Op<F>, r: int, u: Table<F>)
    requires Next(t, op, r, u)
    ensures op.Remove? ==> op.fd !in u.files && (r == 1 <==> op.fd in t.files)
    ensures op.DupTo? && op.from in t.files ==>
              r == op.onto && op.onto in u.files && u.files[op.onto] == t.files[op.from]
    ensures (op.Dup? || op.DupTo?) && op.from !in t.files ==> r == -1 && u == t
  {
  }

  /** The file behind a descriptor after the first `n` operations of a run, told by the operations and
      what they returned: what was last put there, if it was not closed since. */
  ghost function Behind<F>(ops: seq<Op<F>>, results: seq<int>, n: nat, fd: int): Option<F>
    requires n <= |ops| == |results|
  {
    if n == 0 then None
    else
      var before, r := Behind(ops, results, n - 1, fd), results[n - 1];
      match ops[n - 1]
      case Add(f) => if fd == r then Some(f) else before
      case Remove(x) => if fd == x then None else before
      case Dup(from) =>
        var f := Behind(ops, results, n - 1, from);
        if f.Some? && fd == r then f else before
      case DupTo(from, onto) =>
        var f := Behind(ops, results, n - 1, from);
        if f.Some? && fd == onto then f else before
  }

  ghost function Found<F>(t: Table<F>, fd: int): Option<F> {
    if fd in t.files then Some(t.files[fd]) else None
  }

  /** In every run in which no `dup2` hits the counter, the table holds the file behind each
      descriptor. */
  lemma {:induction false} TableTells<F>(tables: seq<Table<F>>, ops: seq<Op<F>>, results: seq<int>, n: nat, fd: int)
    requires Run(tables, ops, results) && n <= |ops| && NeverOntoCounter(tables, ops, n)
    ensures Found(tables[n], fd) == Behind(ops, results, n, fd)
  {
    hide Sound, Next, OntoCounter;
    if n > 0 {
      var m, op := n - 1, ops[n - 1];
      assert Next(tables[m], op, results[m], tables[m + 1]);
      TableTells(tables, ops, results, m, fd);
      AlwaysSound(tables, ops, results, m);
      if op.Dup? || op.DupTo? {
        TableTells(tables, ops, results, m, op.from);
      }
      StepTells(tables[m], op, results[m], tables[n], fd);
    }
  }

  lemma StepTells<F>(t: Table<F>, op: Op<F>, r: int, u: Table<F>, fd: int)
    requires Sound(t) && Next(t, op, r, u)
    ensures Found(u, fd) ==
            match op
            case Add(f) => if fd == r then Some(f) else Found(t, fd)
            case Remove(x) => if fd == x then None else Found(t, fd)
            case Dup(from) => if from in t.files && fd == r then Found(t, from) else Found(t, fd)
            case DupTo(from, onto) => if from in t.files && fd == onto then Found(t, from) else Found(t, fd)
  {
    if op.Add? || (op.Dup? && op.from in t.files) {
      NewIsFresh(t, op, r, u);
    }
  }

  /** After a `dup2` onto exactly the counter the next `add` hands that descriptor out again,
      and the file added is lost. */
  lemma OntoCounterCollides<F>(t: Table<F>, op: Op<F>, r: int, u: Table<F>, f: F, fd: int, v: Table<F>)
    requires Next(t, op, r, u) && OntoCounter(t, op) && t.next < INT_MAX && Next(u, Add(f), fd, v)
    ensures fd == r && fd in u.files && v.files == u.files
  {
    CollidesIff(u, f, fd, v);
  }
}
