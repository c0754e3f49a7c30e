/** The descriptors the client library keeps for itself (src/client/preload_context.cpp), beside the
    kernel's descriptor table, which the application shares. New descriptors get the lowest free
    number: section 2.14 of the System Interfaces of IEEE Std 1003.1-2017. */
module InternalFds {
  import opened Common

  /** `min` is where the internal range starts; `slots[i]` is set while `min + i` is free for the
      library; `kernel` maps an open descriptor to its file; `ours` are the descriptors the
      library holds; `relocate` says whether the library must move what it opens; `marks` are the
      user descriptors it has occupied. */
  datatype State = State(min: nat, slots: seq<bool>, kernel: map<int, nat>, ours: set<int>, relocate: bool,
                         marks: seq<bool>)

  /** A slot is clear exactly when the library holds that descriptor. */
  ghost predicate Consistent(s: State) {
    && (forall i | 0 <= i < |s.slots| :: !s.slots[i] <==> s.min + i in s.ours)
    && (forall fd | fd in s.ours :: s.min <= fd < s.min + |s.slots| && fd in s.kernel)
  }

  /** The application owns nothing in the internal range. */
  ghost predicate UserBelow(s: State) {
    forall fd | fd in s.kernel :: 0 <= fd < s.min || fd in s.ours
  }

  /** The first free slot at or after `i`; the number of slots if there is none. */
  function FirstFree(slots: seq<bool>, i: nat): (pos: nat)
    requires i <= |slots|
    ensures i <= pos <= |slots| && (pos < |slots| ==> slots[pos])
    ensures forall j | i <= j < pos :: !slots[j]
    decreases |slots| - i
  {
    if i == |slots| || slots[i] then i else FirstFree(slots, i + 1)
  }

  datatype Outcome = Exhausted | OutOfRange | Fd(fd: int)

  /** The table after moving `fd` to slot `pos`. `dup3` refuses to copy a descriptor onto itself;
      the original is closed all the same. */
  function Relocated(s: State, fd: int, pos: nat): State
    requires fd in s.kernel && pos < |s.slots|
  {
    var to := s.min + pos;
    if fd == to then s.(slots := s.slots[pos := false], kernel := s.kernel - {fd})
    else s.(slots := s.slots[pos := false],
            kernel := s.kernel[to := s.kernel[fd]] - {fd},
            ours := s.ours + {to})
  }

  function InPlace(s: State, fd: int): State
    requires s.min <= fd < s.min + |s.slots|
  {
    s.(slots := s.slots[fd - s.min := false], ours := s.ours + {fd})
  }

  function Released(s: State, fd: int): State
    requires s.min <= fd < s.min + |s.slots|
  {
    s.(slots := s.slots[fd - s.min := true], kernel := s.kernel - {fd}, ours := s.ours - {fd})
  }

  /** Every user descriptor that is free is taken by `sink` and marked. */
  function Protected(s: State, sink: nat): State {
    s.(kernel := s.kernel + map x: int | 0 <= x < s.min && x !in s.kernel :: sink,
       marks := seq(|s.marks|, x requires 0 <= x < |s.marks| => s.marks[x] || x !in s.kernel),
       relocate := false)
  }

  /** Every marked descriptor is closed; the marks stay. */
  function Unprotected(s: State): State {
    s.(kernel := map x: int | x in s.kernel && !(0 <= x < |s.marks| && s.marks[x]) :: s.kernel[x], relocate := true)
  }

  ghost predicate LowestFree(kernel: map<int, nat>, fd: int) {
    0 <= fd && fd !in kernel && forall x | 0 <= x < fd :: x in kernel
  }

  class PreloadContext {
    const min: nat
    const size: nat
    var internalFds: seq<bool>
    var protectedFds: seq<bool>
    var mustRelocate: bool
    /** The kernel's table, and which of its descriptors the library holds. */
    var kernel: map<int, nat>
    ghost var ours: set<int>

    ghost predicate Valid()
      reads this
    {
      |internalFds| == size && |protectedFds| == min
    }

    ghost function Now(): State
      reads this
    {
      State(min, internalFds, kernel, ours, mustRelocate, protectedFds)
    }

    constructor (maxOpen: nat, maxInternal: nat, kernel: map<int, nat>)
      requires maxInternal <= maxOpen
      ensures Valid() && Consistent(Now())
      ensures min == maxOpen - maxInternal && size == maxInternal
      ensures this.kernel == kernel && ours == {} && mustRelocate
      ensures forall fd | 0 <= fd < min :: !protectedFds[fd]
    {
      min, size := maxOpen - maxInternal, maxInternal;
      internalFds := seq(maxInternal, _ => true);
      protectedFds := seq(maxOpen - maxInternal, _ => false);
      mustRelocate := true;
      this.kernel := kernel;
      ours := {};
    }

    method RegisterInternalFd(fd: int) returns (r: Outcome)
      requires Valid() && fd in kernel && (!mustRelocate ==> min <= fd)
      modifies this`internalFds, this`kernel, this`ours
      ensures Valid()
      ensures !mustRelocate ==>
                if fd < min + size then r == Fd(fd) && Now() == InPlace(old(Now()), fd)
                else r == OutOfRange && Now() == old(Now())
      ensures mustRelocate ==>
                var pos := FirstFree(old(internalFds), 0);
                if pos == size then r == Exhausted && Now() == old(Now())
                else r == Fd(if fd == min + pos then -EINVAL else min + pos) && Now() == Relocated(old(Now()), fd, pos)
    {
      if !mustRelocate {
        if fd - min >= |internalFds| {
          return OutOfRange;
        }
        internalFds := internalFds[fd - min := false];
        ours := ours + {fd};
        return Fd(fd);
      }
      var pos := FindFirst();
      if pos == |internalFds| {
        return Exhausted;
      }
      internalFds := internalFds[pos := false];
      var ifd := Dup3(fd, pos + min);
      if ifd >= 0 {
        ours := ours + {ifd};
      }
      kernel := kernel - {fd};
      return Fd(ifd);
    }

    /** `_Find_first` of the bitset. */
    method FindFirst() returns (pos: nat)
      requires Valid()
      ensures pos == FirstFree(internalFds, 0)
    {
      pos := 0;
      while pos < |internalFds| && !internalFds[pos]
        invariant pos <= |internalFds| && FirstFree(internalFds, pos) == FirstFree(internalFds, 0)
      {
        pos := pos + 1;
      }
    }

    method Dup3(fd: int, to: nat) returns (r: int)
      requires fd in kernel
      modifies this`kernel
      ensures fd == to ==> r == -EINVAL && kernel == old(kernel)
      ensures fd != to ==> r == to && kernel == old(kernel)[to := old(kernel)[fd]]
    {
      if fd == to {
        return -EINVAL;
      }
      kernel := kernel[to := kernel[fd]];
      return to;
    }

    /** The library closing one of its own: the close, then `unregister_internal_fd`. */
    method CloseInternalFd(fd: int)
      requires Valid() && min <= fd < min + size && fd in kernel
      modifies this`internalFds, this`kernel, this`ours
      ensures Valid() && Now() == Released(old(Now()), fd)
    {
      kernel := kernel - {fd};
      internalFds := internalFds[fd - min := true];
      ours := ours - {fd};
    }

    /** Throws for descriptors past the internal range. */
    method IsInternalFd(fd: int) returns (known: bool, internal: bool)
      requires Valid()
      ensures known <==> fd < min + size
      ensures known && Consistent(Now()) ==> (internal <==> fd in ours)
      ensures !known ==> !internal
    {
      if fd < min {
        return true, false;
      }
      if fd - min >= |internalFds| {
        return false, false;
      }
      return true, !internalFds[fd - min];
    }

    /** The application closing a descriptor that names no GekkoFS file. */
    method HookClose(fd: int) returns (known: bool)
      requires Valid()
      modifies this`kernel
      ensures known <==> fd < min + size
      ensures Consistent(old(Now())) ==>
                kernel == (if known && fd !in ours then old(kernel) - {fd} else old(kernel))
      ensures Valid()
    {
      var internal;
      known, internal := IsInternalFd(fd);
      if !known || internal {
        return;
      }
      kernel := kernel - {fd};
    }

    /** `nullfd` is what the kernel answers when /dev/null is grown. */
    method ProtectUserFds(nullfd: int, sink: nat) returns (ok: bool)
      requires Valid() && LowestFree(kernel, nullfd)
      modifies this`kernel, this`protectedFds, this`mustRelocate
      ensures Valid()
      ensures ok <==> nullfd < min
      ensures ok ==> Now() == Protected(old(Now()), sink)
      ensures !ok ==> Now() == old(Now()).(kernel := old(kernel)[nullfd := sink])
    {
      kernel := kernel[nullfd := sink];
      if nullfd >= |protectedFds| {
        return false;
      }
      protectedFds := protectedFds[nullfd := true];
      var fd := 0;
      ghost var k, p := old(kernel), old(protectedFds);
      while fd < min
        invariant 0 <= fd <= min && |protectedFds| == min
        invariant nullfd in kernel && kernel[nullfd] == sink
        invariant forall x | 0 <= x < min :: protectedFds[x] == (p[x] || (x !in k && (x < fd || x == nullfd)))
        invariant forall x :: x in kernel <==> x in k || x == nullfd || 0 <= x < fd
        invariant forall x | x in kernel :: kernel[x] == if x in k then k[x] else sink
      {
        if fd !in kernel {
          kernel := kernel[fd := kernel[nullfd]];
          protectedFds := protectedFds[fd := true];
        }
        fd := fd + 1;
      }
      mustRelocate := false;
      ProtectedPointwise(old(Now()), sink, kernel, protectedFds);
      return true;
    }

    method UnprotectUserFds()
      requires Valid()
      modifies this`kernel, this`mustRelocate
      ensures Valid() && Now() == Unprotected(old(Now()))
    {
      var fd := 0;
      while fd < |protectedFds|
        invariant 0 <= fd <= min && Valid()
        invariant forall x :: x in kernel <==> x in old(kernel) && !(0 <= x < fd && protectedFds[x])
        invariant forall x | x in kernel :: kernel[x] == old(kernel)[x]
      {
        if protectedFds[fd] {
          kernel := kernel - {fd};
        }
        fd := fd + 1;
      }
      mustRelocate := true;
      UnprotectedPointwise(old(Now()), kernel);
    }
  }

  lemma ProtectedPointwise(s: State, sink: nat, kernel: map<int, nat>, marks: seq<bool>)
    requires |marks| == |s.marks| == s.min
    requires forall x | 0 <= x < s.min :: marks[x] == (s.marks[x] || x !in s.kernel)
    requires forall x :: x in kernel <==> x in s.kernel || 0 <= x < s.min
    requires forall x | x in kernel :: kernel[x] == if x in s.kernel then s.kernel[x] else sink
    ensures Protected(s, sink).kernel == kernel && Protected(s, sink).marks == marks
  {
    var u := Protected(s, sink);
    assert forall x | x in kernel :: x in u.kernel && u.kernel[x] == kernel[x];
    assert forall x | x in u.kernel :: x in kernel;
    assert u.kernel == kernel;
    assert u.marks == marks;
  }

  lemma UnprotectedPointwise(s: State, kernel: map<int, nat>)
    requires |s.marks| == s.min
    requires forall x :: x in kernel <==> x in s.kernel && !(0 <= x < s.min && s.marks[x])
    requires forall x | x in kernel :: kernel[x] == s.kernel[x]
    ensures Unprotected(s).kernel == kernel
  {
    var k := Unprotected(s).kernel;
    forall x: int
      ensures x in k <==> x in kernel
    {
      assert x in k <==> x in s.kernel && !(0 <= x < s.min && s.marks[x]);
    }
    assert forall x | x in kernel :: k[x] == kernel[x];
    assert k == kernel;
  }

  // ---------------------------------------------------------------- one operation

  /** Moving a descriptor into the internal range keeps slots and holdings in step exactly when
      the descriptor is not already the one at the first free slot. */
  lemma RelocatedIff(s: State, fd: int)
    requires Consistent(s) && fd in s.kernel && fd !in s.ours && FirstFree(s.slots, 0) < |s.slots|
    ensures var pos := FirstFree(s.slots, 0); Consistent(Relocated(s, fd, pos)) <==> fd != s.min + pos
  {
    var pos := FirstFree(s.slots, 0);
    var u := Relocated(s, fd, pos);
    assert s.slots[pos];
    if fd == s.min + pos {
      assert !u.slots[pos] && s.min + pos !in u.ours;
    } else {
      RelocatedHolds(s, fd, pos);
    }
  }

  lemma RelocatedHolds(s: State, fd: int, pos: nat)
    requires Consistent(s) && fd in s.kernel && fd !in s.ours && pos < |s.slots| && s.slots[pos] && fd != s.min + pos
    ensures Consistent(Relocated(s, fd, pos))
  {
    var u := Relocated(s, fd, pos);
    forall i | 0 <= i < |u.slots|
      ensures !u.slots[i] <==> u.min + i in u.ours
    {
      assert !s.slots[i] <==> s.min + i in s.ours;
    }
  }

  /** The new internal descriptor was not held before and names the same file; if the application
      owns nothing in the internal range, every other descriptor is untouched. */
  lemma RelocatedElsewhere(s: State, fd: int)
    requires Consistent(s) && UserBelow(s) && fd in s.kernel && 0 <= fd < s.min && FirstFree(s.slots, 0) < |s.slots|
    ensures var pos := FirstFree(s.slots, 0);
            var u := Relocated(s, fd, pos);
            && s.min + pos !in s.ours
            && s.min + pos in u.kernel && u.kernel[s.min + pos] == s.kernel[fd] && fd !in u.kernel
            && (forall x | x in s.kernel && x != fd :: x in u.kernel && u.kernel[x] == s.kernel[x])
            && UserBelow(u)
  {
    var pos := FirstFree(s.slots, 0);
    assert s.slots[pos];
  }

  lemma InPlaceHolds(s: State, fd: int)
    requires Consistent(s) && fd in s.kernel && s.min <= fd < s.min + |s.slots|
    ensures Consistent(InPlace(s, fd))
  {
    var u := InPlace(s, fd);
    forall i | 0 <= i < |u.slots|
      ensures !u.slots[i] <==> u.min + i in u.ours
    {
      assert !s.slots[i] <==> s.min + i in s.ours;
    }
  }

  lemma ReleasedHolds(s: State, fd: int)
    requires Consistent(s) && s.min <= fd < s.min + |s.slots|
    ensures Consistent(Released(s, fd))
  {
    var u := Released(s, fd);
    forall i | 0 <= i < |u.slots|
      ensures !u.slots[i] <==> u.min + i in u.ours
    {
      assert !s.slots[i] <==> s.min + i in s.ours;
    }
  }

  // ---------------------------------------------------------------- whole runs

  /** The application opening or closing a descriptor; the library opening one, which is then
      registered, or closing one it holds; the user descriptors being protected or given back. */
  datatype Op = AppOpen(fd: int, file: nat) | AppClose(fd: int) | LibOpen(fd: int, file: nat) | LibClose(fd: int)
              | Protect(nullfd: int, sink: nat) | Unprotect

  /** What each step may be given: the application and, when it relocates, the library are
      handed descriptors below the internal range; the library otherwise ones inside it. */
  ghost predicate Enabled(s: State, op: Op) {
    match op
    case AppOpen(fd, _) => fd !in s.kernel && 0 <= fd < s.min
    case AppClose(fd) => fd < s.min + |s.slots|
    case LibOpen(fd, _) =>
      && fd !in s.kernel
      && (if s.relocate then 0 <= fd < s.min && FirstFree(s.slots, 0) < |s.slots|
          else s.min <= fd < s.min + |s.slots|)
    case LibClose(fd) => fd in s.ours && s.min <= fd < s.min + |s.slots|
    case Protect(nullfd, _) => LowestFree(s.kernel, nullfd) && nullfd < s.min == |s.marks|
    case Unprotect => |s.marks| == s.min
  }

  function Registered(s: State, fd: int): State
    requires fd in s.kernel
    requires if s.relocate then FirstFree(s.slots, 0) < |s.slots| else s.min <= fd < s.min + |s.slots|
  {
    if s.relocate then Relocated(s, fd, FirstFree(s.slots, 0)) else InPlace(s, fd)
  }

  ghost function Apply(s: State, op: Op): State
    requires Enabled(s, op)
  {
    match op
    case AppOpen(fd, file) => s.(kernel := s.kernel[fd := file])
    case AppClose(fd) =>
      if s.min <= fd && !s.slots[fd - s.min] then s else s.(kernel := s.kernel - {fd})
    case LibOpen(fd, file) => Registered(s.(kernel := s.kernel[fd := file]), fd)
    case LibClose(fd) => Released(s, fd)
    case Protect(_, sink) => Protected(s, sink)
    case Unprotect => Unprotected(s)
  }

  lemma OpenedHolds(s: State, fd: int, file: nat)
    requires Consistent(s) && fd !in s.kernel
    ensures Consistent(s.(kernel := s.kernel[fd := file]))
  {
    var u := s.(kernel := s.kernel[fd := file]);
    forall i | 0 <= i < |u.slots|
      ensures !u.slots[i] <==> u.min + i in u.ours
    {
      assert !s.slots[i] <==> s.min + i in s.ours;
    }
  }

  lemma AppCloseHolds(s: State, fd: int)
    requires Consistent(s) && Enabled(s, AppClose(fd))
    ensures var u := Apply(s, AppClose(fd));
            Consistent(u) && u.ours == s.ours && forall x | x in s.ours :: x in u.kernel && u.kernel[x] == s.kernel[x]
  {
    var u := Apply(s, AppClose(fd));
    if s.min <= fd {
      assert !s.slots[fd - s.min] <==> s.min + (fd - s.min) in s.ours;
    }
    forall i | 0 <= i < |u.slots|
      ensures !u.slots[i] <==> u.min + i in u.ours
    {
      assert !s.slots[i] <==> s.min + i in s.ours;
    }
  }

  lemma StepHolds(s: State, op: Op)
    requires Consistent(s) && UserBelow(s) && Enabled(s, op)
    ensures Consistent(Apply(s, op)) && UserBelow(Apply(s, op))
  {
    match op
    case AppOpen(fd, file) =>
      OpenedHolds(s, fd, file);
      hide Consistent;
    case AppClose(fd) =>
      AppCloseHolds(s, fd);
      hide Consistent;
    case LibOpen(fd, file) =>
      LibOpenHolds(s, fd, file);
    case LibClose(fd) =>
      ReleasedHolds(s, fd);
    case Protect(_, sink) =>
      ProtectedHolds(s, sink);
    case Unprotect =>
      UnprotectedHolds(s);
  }

  lemma ProtectedHolds(s: State, sink: nat)
    requires Consistent(s) && UserBelow(s)
    ensures Consistent(Protected(s, sink)) && UserBelow(Protected(s, sink))
  {
    var u := Protected(s, sink);
    forall i | 0 <= i < |u.slots|
      ensures !u.slots[i] <==> u.min + i in u.ours
    {
      assert !s.slots[i] <==> s.min + i in s.ours;
    }
  }

  lemma UnprotectedHolds(s: State)
    requires Consistent(s) && UserBelow(s) && |s.marks| == s.min
    ensures Consistent(Unprotected(s)) && UserBelow(Unprotected(s))
  {
    var u := Unprotected(s);
    forall i | 0 <= i < |u.slots|
      ensures !u.slots[i] <==> u.min + i in u.ours
    {
      assert !s.slots[i] <==> s.min + i in s.ours;
    }
  }

  lemma LibOpenHolds(s: State, fd: int, file: nat)
    requires Consistent(s) && UserBelow(s) && Enabled(s, LibOpen(fd, file))
    ensures Consistent(Apply(s, LibOpen(fd, file))) && UserBelow(Apply(s, LibOpen(fd, file)))
  {
    var grown := s.(kernel := s.kernel[fd := file]);
    OpenedHolds(s, fd, file);
    assert fd !in s.ours;
    if s.relocate {
      assert UserBelow(grown);
      hide Consistent, UserBelow;
      RelocatedIff(grown, fd);
      RelocatedElsewhere(grown, fd);
    } else {
      hide Consistent;
      InPlaceHolds(grown, fd);
    }
  }

  /** A run: every step enabled where it is taken. */
  ghost predicate Run(states: seq<State>, ops: seq<Op>) {
    && |states| == |ops| + 1
    && Consistent(states[0]) && UserBelow(states[0])
    && forall i | 0 <= i < |ops| :: Enabled(states[i], ops[i]) && states[i + 1] == Apply(states[i], ops[i])
  }

  /** In every run, a slot is clear exactly when the library holds that descriptor, and the
      application owns nothing in the internal range. */
  lemma {:induction false} AlwaysConsistent(states: seq<State>, ops: seq<Op>, n: nat)
    requires Run(states, ops) && n <= |ops|
    ensures Consistent(states[n]) && UserBelow(states[n])
  {
    if n > 0 {
      AlwaysConsistent(states, ops, n - 1);
      hide Consistent, UserBelow;
      assert Enabled(states[n - 1], ops[n - 1]) && states[n - 1 + 1] == Apply(states[n - 1], ops[n - 1]);
      hide Enabled, Apply;
      StepHolds(states[n - 1], ops[n - 1]);
    }
  }

  /** In every run, nothing the application closes takes a descriptor from the library. */
  lemma ApplicationSparesLibrary(states: seq<State>, ops: seq<Op>, n: nat)
    requires Run(states, ops) && n < |ops| && ops[n].AppClose?
    ensures states[n + 1].ours == states[n].ours
    ensures forall x | x in states[n].ours ::
              x in states[n + 1].kernel && x in states[n].kernel && states[n + 1].kernel[x] == states[n].kernel[x]
  {
    AlwaysConsistent(states, ops, n);
    assert Enabled(states[n], ops[n]) && states[n + 1] == Apply(states[n], ops[n]);
    AppCloseHolds(states[n], ops[n].fd);
    hide Enabled, Apply, Run, UserBelow;
  }

  // ---------------------------------------------------------------- protecting user descriptors

  /** While user descriptors are protected the kernel hands out only internal ones. */
  lemma ProtectedForcesInternal(s: State, sink: nat, fd: int)
    requires LowestFree(Protected(s, sink).kernel, fd)
    ensures fd >= s.min
  {
  }

  /** While user descriptors are protected a descriptor is registered where it is, and keeps its file;
      afterwards it is moved again. */
  lemma RegisteredInPlace(s: State, sink: nat, fd: int)
    requires fd in Protected(s, sink).kernel && s.min <= fd < s.min + |s.slots|
    ensures var p := Protected(s, sink);
            && !p.relocate && Registered(p, fd).kernel == p.kernel && Registered(p, fd).ours == p.ours + {fd}
            && Unprotected(Registered(p, fd)).relocate
  {
  }

  /** The user part of two tables is the same. */
  ghost predicate SameBelow(min: nat, k: map<int, nat>, k': map<int, nat>) {
    forall x | 0 <= x < min :: (x in k <==> x in k') && (x in k ==> k[x] == k'[x])
  }

  /** The library leaves the user part and the marks alone. */
  ghost predicate LibraryOnly(op: Op) {
    op.LibOpen? || op.LibClose?
  }

  lemma LibraryKeepsUsers(s: State, op: Op)
    requires Enabled(s, op) && LibraryOnly(op) && !s.relocate
    ensures var u := Apply(s, op);
            u.min == s.min && u.marks == s.marks && !u.relocate && SameBelow(s.min, s.kernel, u.kernel)
  {
  }

  /** A run of library steps between protecting and unprotecting. */
  ghost predicate Busy(states: seq<State>, ops: seq<Op>) {
    && |states| == |ops| + 1 && !states[0].relocate
    && forall i | 0 <= i < |ops| ::
         Enabled(states[i], ops[i]) && LibraryOnly(ops[i]) && states[i + 1] == Apply(states[i], ops[i])
  }

  lemma {:induction false} BusyKeepsUsers(states: seq<State>, ops: seq<Op>, n: nat)
    requires Busy(states, ops) && n <= |ops|
    ensures var s, u := states[0], states[n];
            u.min == s.min && u.marks == s.marks && !u.relocate && SameBelow(s.min, s.kernel, u.kernel)
  {
    if n > 0 {
      BusyKeepsUsers(states, ops, n - 1);
      assert Enabled(states[n - 1], ops[n - 1]) && states[n - 1 + 1] == Apply(states[n - 1], ops[n - 1]);
      hide Enabled, Apply;
      LibraryKeepsUsers(states[n - 1], ops[n - 1]);
    }
  }

  /** Protecting, letting the library open and close what it likes in its own range, and unprotecting
      gives the user table back exactly when no open user descriptor was already marked by an
      earlier cycle: the marks are never cleared. */
  lemma CycleRestoresIff(s: State, sink: nat, states: seq<State>, ops: seq<Op>)
    requires |s.marks| == s.min && Busy(states, ops) && states[0] == Protected(s, sink)
    ensures SameBelow(s.min, s.kernel, Unprotected(states[|ops|]).kernel) <==>
            forall x | 0 <= x < s.min :: s.marks[x] ==> x !in s.kernel
  {
    BusyKeepsUsers(states, ops, |ops|);
    hide Busy;
    var during, busy := Protected(s, sink), states[|ops|];
    var after := Unprotected(busy);
    forall x | 0 <= x < s.min
      ensures ((x in s.kernel <==> x in after.kernel) && (x in s.kernel ==> s.kernel[x] == after.kernel[x]))
              <==> (s.marks[x] ==> x !in s.kernel)
    {
      assert during.marks[x] == (s.marks[x] || x !in s.kernel);
      assert x in during.kernel <==> x in busy.kernel;
    }
  }

  /** After one cycle a second one closes whatever the application has opened meanwhile on a
      descriptor that the first one had occupied. */
  lemma SecondCycleCloses(s: State, sink: nat, later: State, x: int)
    requires |s.marks| == s.min == later.min && later.marks == Protected(s, sink).marks
    requires 0 <= x < s.min && x !in s.kernel && x in later.kernel
    ensures x !in Unprotected(Protected(later, sink)).kernel
  {
    assert later.marks[x];
    assert Protected(later, sink).marks[x];
  }
}
