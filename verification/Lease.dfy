/** The reference-counted lease on O_NONBLOCK that overlapping dd runs share.  The model
    is a state machine: critical sections of the registry's mutex are split wherever they
    read a flag word and write it back, so that the owner of the descriptor can update its
    own status flags in between; any number of acquires, restores and such updates
    interleave. */
module Lease {

  /** The status flags of one open file description: the bit dd borrows, and the rest. */
  datatype Flags = Flags(nonblock: bool, other: int)

  datatype Lease = Lease(anchor: nat, refs: int, changed: bool)

  /** A guard names its lease by identity; `done` is its once. */
  datatype Guard = Guard(fd: int, lease: nat, done: bool)

  /** A duplicated descriptor and how often it was closed. */
  datatype Anchor = Anchor(file: nat, closes: nat)

  /** Who holds the mutex: nobody, or a critical section between its F_GETFL and the
      F_SETFL or registration that follows. */
  datatype Lock =
    | Free
    | Acquiring(fd: int, anchor: nat, flags: Flags)
    | Restoring(fd: int, anchor: nat, flags: Flags)

  datatype State = State(
    files: map<int, nat>,     // open file description of every descriptor number
    flags: map<nat, Flags>,   // status flags of every open file description
    byFD: map<int, nat>,      // the registry: lease identity by descriptor number
    leases: seq<Lease>,       // every lease made so far, by identity
    guards: seq<Guard>,       // every guard handed out so far
    anchors: seq<Anchor>,     // every descriptor duplicated so far
    lock: Lock,
    // history
    bit: map<int, bool>,      // the bit before anything was acquired
    stuck: set<int>,          // a restore could not clear the bit
    host: map<nat, int>,      // what the owner last wrote into the other flags of a file
    raced: set<nat>)          // and wrote it inside a read-modify-write of dd

  datatype Action =
    | Acquire(fd: int, dup: bool, read: bool)  // whether dup and F_GETFL succeed
    | FinishAcquire(wrote: bool)               // whether F_SETFL succeeds
    | Restore(g: nat, read: bool)
    | FinishRestore(wrote: bool)
    | Host(fd: int, other: int)

  /** Every reference inside the state leads somewhere. */
  ghost predicate Wf(s: State) {
    && (forall fd | fd in s.files :: s.files[fd] in s.flags && fd in s.bit && s.files[fd] in s.host)
    && (forall fd | fd in s.byFD :: fd in s.files && s.byFD[fd] < |s.leases|)
    && (forall i | 0 <= i < |s.leases| :: s.leases[i].anchor < |s.anchors|)
    && (forall i | 0 <= i < |s.guards| :: s.guards[i].fd in s.files && s.guards[i].lease < |s.leases|)
    && (forall i | 0 <= i < |s.anchors| :: s.anchors[i].file in s.flags)
    && (!s.lock.Free? ==> s.lock.fd in s.files && s.lock.anchor < |s.anchors|)
  }

  ghost predicate Enabled(s: State, act: Action) {
    Wf(s) &&
    match act
    case Acquire(fd, _, _) => s.lock.Free? && fd in s.files
    case FinishAcquire(_) => s.lock.Acquiring?
    case Restore(g, _) => s.lock.Free? && g < |s.guards|
    case FinishRestore(_) => s.lock.Restoring?
    case Host(fd, _) => fd in s.files
  }

  function Close(anchors: seq<Anchor>, i: nat): seq<Anchor>
    requires i < |anchors|
  {
    anchors[i := anchors[i].(closes := anchors[i].closes + 1)]
  }

  /** setNonblockSaving up to and including F_GETFL. */
  ghost function DoAcquire(s: State, fd: int, dup: bool, read: bool): (s': State)
    requires Enabled(s, Acquire(fd, dup, read))
    ensures s'.files == s.files && s'.bit == s.bit
  {
    if fd in s.byFD then
      var l := s.byFD[fd];
      s.(leases := s.leases[l := s.leases[l].(refs := s.leases[l].refs + 1)], guards := s.guards + [Guard(fd, l, false)])
    else if !dup then s
    else if !read then s.(anchors := s.anchors + [Anchor(s.files[fd], 1)])
    else s.(anchors := s.anchors + [Anchor(s.files[fd], 0)],
            lock := Acquiring(fd, |s.anchors|, s.flags[s.files[fd]]))
  }

  /** F_SETFL through the anchor where the bit was clear, then registration; or the error
      path. */
  ghost function DoFinishAcquire(s: State, wrote: bool): (s': State)
    requires Enabled(s, FinishAcquire(wrote))
    ensures s'.files == s.files && s'.bit == s.bit
  {
    var Acquiring(fd, anchor, flags) := s.lock;
    if !flags.nonblock && !wrote then s.(anchors := Close(s.anchors, anchor), lock := Free)
    else s.(flags := if flags.nonblock then s.flags else s.flags[s.anchors[anchor].file := Flags(true, flags.other)],
            byFD := s.byFD[fd := |s.leases|],
            leases := s.leases + [Lease(anchor, 1, !flags.nonblock)],
            guards := s.guards + [Guard(fd, |s.leases|, false)],
            lock := Free)
  }

  /** nonblockGuard.restore up to and including F_GETFL. */
  ghost function DoRestore(s: State, g: nat, read: bool): (s': State)
    requires Enabled(s, Restore(g, read))
    ensures s'.files == s.files && s'.bit == s.bit
  {
    var guard := s.guards[g];
    var fd, l := guard.fd, guard.lease;
    var guards := s.guards[g := guard.(done := true)];
    if guard.done then s
    else if fd !in s.byFD || s.byFD[fd] != l then s.(guards := guards)
    else
      var lease := s.leases[l];
      var leases := s.leases[l := lease.(refs := lease.refs - 1)];
      if lease.refs - 1 != 0 then s.(guards := guards, leases := leases)
      else if lease.changed && read then
        s.(guards := guards, leases := leases, byFD := s.byFD - {fd},
           lock := Restoring(fd, lease.anchor, s.flags[s.anchors[lease.anchor].file]))
      else
        s.(guards := guards, leases := leases, byFD := s.byFD - {fd},
           anchors := Close(s.anchors, lease.anchor),
           stuck := if lease.changed then s.stuck + {fd} else s.stuck)
  }

  /** F_SETFL through the anchor with the borrowed bit cleared, then close. */
  ghost function DoFinishRestore(s: State, wrote: bool): (s': State)
    requires Enabled(s, FinishRestore(wrote))
    ensures s'.files == s.files && s'.bit == s.bit
  {
    var Restoring(fd, anchor, flags) := s.lock;
    s.(flags := if wrote then s.flags[s.anchors[anchor].file := Flags(false, flags.other)] else s.flags,
       anchors := Close(s.anchors, anchor),
       stuck := if wrote then s.stuck else s.stuck + {fd},
       lock := Free)
  }

  /** A flag word of the file has been read and not yet been written back. */
  predicate InWindow(s: State, file: nat) {
    && !s.lock.Free? && s.lock.fd in s.files && s.files[s.lock.fd] == file
    && (s.lock.Acquiring? ==> !s.lock.flags.nonblock)
  }

  /** The owner changes other status flags. */
  ghost function DoHost(s: State, fd: int, other: int): (s': State)
    requires Enabled(s, Host(fd, other))
    ensures s'.files == s.files && s'.bit == s.bit
  {
    var file := s.files[fd];
    s.(flags := s.flags[file := s.flags[file].(other := other)],
       host := s.host[file := other],
       raced := if InWindow(s, file) then s.raced + {file} else s.raced - {file})
  }

  ghost function Step(s: State, act: Action): (s': State)
    requires Enabled(s, act)
    ensures s'.files == s.files && s'.bit == s.bit
  {
    match act
    case Acquire(fd, dup, read) => DoAcquire(s, fd, dup, read)
    case FinishAcquire(wrote) => DoFinishAcquire(s, wrote)
    case Restore(g, read) => DoRestore(s, g, read)
    case FinishRestore(wrote) => DoFinishRestore(s, wrote)
    case Host(fd, other) => DoHost(s, fd, other)
  }

  ghost predicate IsRun(s: State, acts: seq<Action>)
    decreases |acts|
  {
    acts == [] || (Enabled(s, acts[0]) && IsRun(Step(s, acts[0]), acts[1..]))
  }

  ghost function After(s: State, acts: seq<Action>): State
    requires IsRun(s, acts)
    decreases |acts|
  {
    if acts == [] then s else After(Step(s, acts[0]), acts[1..])
  }

  // ---------------------------------------------------------------------
  // What every step keeps

  /** How many guards on fd have not been restored. */
  function Live(guards: seq<Guard>, fd: int): nat {
    if guards == [] then 0
    else (if guards[0].fd == fd && !guards[0].done then 1 else 0) + Live(guards[1..], fd)
  }

  lemma {:induction false} LiveAppend(guards: seq<Guard>, g: Guard, fd: int)
    ensures Live(guards + [g], fd) == Live(guards, fd) + (if g.fd == fd && !g.done then 1 else 0)
  {
    if guards == [] {
      assert guards + [g] == [g];
    } else {
      assert (guards + [g])[1..] == guards[1..] + [g];
      LiveAppend(guards[1..], g, fd);
    }
  }

  lemma {:induction false} LiveRestore(guards: seq<Guard>, i: nat, fd: int)
    requires i < |guards| && !guards[i].done
    ensures Live(guards[i := guards[i].(done := true)], fd) == Live(guards, fd) - (if guards[i].fd == fd then 1 else 0)
  {
    var guards' := guards[i := guards[i].(done := true)];
    if i == 0 {
      assert guards'[1..] == guards[1..];
    } else {
      assert guards'[1..] == guards[1..][i - 1 := guards[i].(done := true)];
      LiveRestore(guards[1..], i - 1, fd);
    }
  }

  lemma {:induction false} LiveExists(guards: seq<Guard>, i: nat)
    requires i < |guards| && !guards[i].done
    ensures Live(guards, guards[i].fd) > 0
  {
    if i > 0 {
      LiveExists(guards[1..], i - 1);
    }
  }

  /** The documented assumption, as far as it is needed: one descriptor number for every
      open file description that was in blocking mode. */
  ghost predicate OneNumberPerFile(s: State)
    requires Wf(s)
  {
    forall fd, fd' | fd in s.files && fd' in s.files && s.files[fd] == s.files[fd'] :: fd == fd' || s.bit[fd]
  }

  /** The registry entry of fd: its lease counts the live guards, its anchor is open, and
      the bit is set. */
  ghost predicate Registered(s: State, fd: int)
    requires Wf(s) && fd in s.byFD
  {
    var l := s.leases[s.byFD[fd]];
    && l.refs == Live(s.guards, fd) > 0
    && s.anchors[l.anchor] == Anchor(s.files[fd], 0)
    && s.flags[s.files[fd]].nonblock
    && l.changed == (fd !in s.stuck && !s.bit[fd])
  }

  /** fd is not leased: the bit is what it was, unless a restore could not clear it. */
  ghost predicate Unregistered(s: State, fd: int)
    requires Wf(s) && fd in s.files && fd !in s.byFD
  {
    && Live(s.guards, fd) == 0
    && s.flags[s.files[fd]].nonblock == (fd in s.stuck || s.bit[fd] || (s.lock.Restoring? && s.lock.fd == fd))
    && (s.lock.Acquiring? && s.lock.fd == fd ==>
          && s.lock.flags.nonblock == s.flags[s.files[fd]].nonblock
          && s.anchors[s.lock.anchor] == Anchor(s.files[fd], 0))
    && (s.lock.Restoring? && s.lock.fd == fd ==>
          && fd !in s.stuck && !s.bit[fd] && s.anchors[s.lock.anchor] == Anchor(s.files[fd], 0))
  }

  /** The other flags are the owner's unless it wrote them inside a read-modify-write. */
  ghost predicate OwnersFlags(s: State, fd: int)
    requires Wf(s) && fd in s.files
  {
    var file := s.files[fd];
    file !in s.raced ==>
      s.flags[file].other == s.host[file] && (InWindow(s, file) ==> s.lock.flags.other == s.host[file])
  }

  /** Anchor i belongs to the lease or critical section that still holds it, or has been
      closed exactly once. */
  ghost predicate AnchorHeld(s: State, i: nat)
    requires Wf(s) && i < |s.anchors|
  {
    || (!s.lock.Free? && s.lock.anchor == i)
    || (exists fd :: fd in s.byFD && s.leases[s.byFD[fd]].anchor == i)
  }

  /** No two registry entries share a lease or an anchor, nor does a critical section. */
  ghost predicate LeasesApart(s: State)
    requires Wf(s)
  {
    && (forall fd, fd' | fd in s.byFD && fd' in s.byFD && fd != fd' ::
          s.byFD[fd] != s.byFD[fd'] && s.leases[s.byFD[fd]].anchor != s.leases[s.byFD[fd']].anchor)
    && (!s.lock.Free? ==> s.lock.fd !in s.byFD && forall fd | fd in s.byFD :: s.leases[s.byFD[fd]].anchor != s.lock.anchor)
  }

  /** A guard that has not been restored leads to the entry of its descriptor. */
  ghost predicate GuardLeads(s: State, i: nat)
    requires i < |s.guards|
  {
    !s.guards[i].done ==> s.guards[i].fd in s.byFD && s.byFD[s.guards[i].fd] == s.guards[i].lease
  }

  /** Every descriptor is in order. */
  ghost predicate FdInv(s: State, fd: int)
    requires Wf(s) && fd in s.files
  {
    (if fd in s.byFD then Registered(s, fd) else Unregistered(s, fd)) && OwnersFlags(s, fd)
  }

  ghost predicate AnchorInv(s: State, i: nat)
    requires Wf(s) && i < |s.anchors|
  {
    s.anchors[i].closes == if AnchorHeld(s, i) then 0 else 1
  }

  ghost predicate Inv(s: State) {
    && Wf(s) && OneNumberPerFile(s) && LeasesApart(s)
    && (forall fd | fd in s.files :: FdInv(s, fd))
    && (forall i | 0 <= i < |s.guards| :: GuardLeads(s, i))
    && (forall i | 0 <= i < |s.anchors| :: AnchorInv(s, i))
  }

  /** The parts of the invariant that are not about one descriptor, guard or anchor. */
  ghost predicate Framed(s: State) {
    Wf(s) && OneNumberPerFile(s) && LeasesApart(s)
  }

  lemma AcquireFramed(s: State, fd: int, dup: bool, read: bool)
    requires Framed(s) && Enabled(s, Acquire(fd, dup, read))
    ensures Framed(DoAcquire(s, fd, dup, read))
  {
  }

  lemma FinishAcquireWf(s: State, wrote: bool)
    requires Wf(s) && OneNumberPerFile(s) && Enabled(s, FinishAcquire(wrote))
    ensures var s' := DoFinishAcquire(s, wrote); Wf(s') && OneNumberPerFile(s')
  {
  }

  lemma FinishAcquireFramed(s: State, wrote: bool)
    requires Framed(s) && Enabled(s, FinishAcquire(wrote))
    ensures Framed(DoFinishAcquire(s, wrote))
  {
    FinishAcquireWf(s, wrote);
    hide OneNumberPerFile;
  }

  lemma RestoreWf(s: State, g: nat, read: bool)
    requires Wf(s) && OneNumberPerFile(s) && Enabled(s, Restore(g, read))
    ensures var s' := DoRestore(s, g, read); Wf(s') && OneNumberPerFile(s')
  {
  }

  lemma RestoreFramed(s: State, g: nat, read: bool)
    requires Framed(s) && Enabled(s, Restore(g, read)) && GuardLeads(s, g)
    ensures Framed(DoRestore(s, g, read))
  {
    RestoreWf(s, g, read);
    hide OneNumberPerFile;
    var s', fd := DoRestore(s, g, read), s.guards[g].fd;
    assert forall x | x in s'.byFD :: x in s.byFD && s'.byFD[x] == s.byFD[x];
    assert forall x | x in s'.byFD :: s'.leases[s'.byFD[x]].anchor == s.leases[s.byFD[x]].anchor;
  }

  lemma StepFramed(s: State, act: Action)
    requires Inv(s) && Enabled(s, act)
    ensures Framed(Step(s, act))
  {
    hide FdInv, AnchorInv;
    match act
    case Acquire(fd, dup, read) => AcquireFramed(s, fd, dup, read);
    case FinishAcquire(wrote) => FinishAcquireFramed(s, wrote);
    case Restore(g, read) => RestoreFramed(s, g, read);
    case FinishRestore(_) =>
    case Host(_, _) =>
  }

  /** What OneNumberPerFile and LeasesApart say about two descriptors. */
  ghost predicate Distinct(s: State, fd: int, x: int)
    requires Wf(s) && fd in s.files && x in s.files
  {
    && (x != fd && s.files[x] == s.files[fd] ==> s.bit[x] && s.bit[fd])
    && (x != fd && x in s.byFD && fd in s.byFD ==>
          s.byFD[x] != s.byFD[fd] && s.leases[s.byFD[x]].anchor != s.leases[s.byFD[fd]].anchor)
    && (!s.lock.Free? ==> s.lock.fd !in s.byFD && (x in s.byFD ==> s.leases[s.byFD[x]].anchor != s.lock.anchor))
  }

  lemma FramedPair(s: State, fd: int, x: int)
    requires Framed(s) && fd in s.files && x in s.files
    ensures Distinct(s, fd, x)
  {
  }

  /** x is in order before a step about fd that keeps the state well formed. */
  ghost predicate Ready(s: State, s': State, fd: int, x: int) {
    Wf(s) && Wf(s') && fd in s.files && x in s.files && FdInv(s, fd) && FdInv(s, x) && Distinct(s, fd, x)
  }

  lemma AcquireFd(s: State, fd: int, dup: bool, read: bool, x: int)
    requires Enabled(s, Acquire(fd, dup, read)) && Ready(s, DoAcquire(s, fd, dup, read), fd, x)
    ensures FdInv(DoAcquire(s, fd, dup, read), x)
  {
    hide Live;
    if fd in s.byFD {
      LiveAppend(s.guards, Guard(fd, s.byFD[fd], false), x);
    }
  }

  lemma FinishAcquireFd(s: State, wrote: bool, x: int)
    requires Enabled(s, FinishAcquire(wrote)) && Ready(s, DoFinishAcquire(s, wrote), s.lock.fd, x)
    ensures FdInv(DoFinishAcquire(s, wrote), x)
  {
    hide Live;
    LiveAppend(s.guards, Guard(s.lock.fd, |s.leases|, false), x);
  }

  lemma RestoreFd(s: State, g: nat, read: bool, x: int)
    requires Enabled(s, Restore(g, read)) && Ready(s, DoRestore(s, g, read), s.guards[g].fd, x)
    requires !s.guards[g].done && GuardLeads(s, g)
    ensures FdInv(DoRestore(s, g, read), x)
  {
    hide Live;
    LiveRestore(s.guards, g, x);
  }

  lemma FinishRestoreFd(s: State, wrote: bool, x: int)
    requires Enabled(s, FinishRestore(wrote)) && Ready(s, DoFinishRestore(s, wrote), s.lock.fd, x)
    ensures FdInv(DoFinishRestore(s, wrote), x)
  {
    hide Live;
  }

  lemma HostFd(s: State, fd: int, other: int, x: int)
    requires Enabled(s, Host(fd, other)) && Ready(s, DoHost(s, fd, other), fd, x)
    ensures FdInv(DoHost(s, fd, other), x)
  {
    hide Live;
  }

  /** The descriptor a step is about. */
  ghost function About(s: State, act: Action): (fd: int)
    requires Enabled(s, act)
    ensures fd in s.files
  {
    match act
    case Acquire(fd, _, _) => fd
    case FinishAcquire(_) => s.lock.fd
    case Restore(g, _) => s.guards[g].fd
    case FinishRestore(_) => s.lock.fd
    case Host(fd, _) => fd
  }

  lemma StepFd(s: State, act: Action, x: int)
    requires Inv(s) && Enabled(s, act) && Framed(Step(s, act)) && x in s.files
    ensures FdInv(Step(s, act), x)
  {
    hide FdInv, Wf, Distinct, DoAcquire, DoFinishAcquire, DoFinishRestore, DoHost, OneNumberPerFile, LeasesApart, GuardLeads, AnchorInv;
    FramedPair(s, About(s, act), x);
    assert FdInv(s, x) && FdInv(s, About(s, act));
    match act
    case Acquire(fd, dup, read) => AcquireFd(s, fd, dup, read, x);
    case FinishAcquire(wrote) => FinishAcquireFd(s, wrote, x);
    case Restore(g, read) =>
      assert GuardLeads(s, g);
      if !s.guards[g].done { RestoreFd(s, g, read, x); }
    case FinishRestore(wrote) => FinishRestoreFd(s, wrote, x);
    case Host(fd, other) => HostFd(s, fd, other, x);
  }

  /** When the last guard of a descriptor is restored, none is left on it. */
  lemma RestoreGuard(s: State, g: nat, read: bool, i: nat)
    requires Enabled(s, Restore(g, read)) && !s.guards[g].done && GuardLeads(s, g) && FdInv(s, s.guards[g].fd)
    requires i < |s.guards| && GuardLeads(s, i)
    ensures i < |DoRestore(s, g, read).guards| && GuardLeads(DoRestore(s, g, read), i)
  {
    hide Live, Unregistered, OwnersFlags;
    var s', fd := DoRestore(s, g, read), s.guards[g].fd;
    LiveRestore(s.guards, g, fd);
    if !s'.guards[i].done {
      assert s'.guards[i] == s.guards[i];
      LiveExists(s'.guards, i);
    }
  }

  lemma StepGuard(s: State, act: Action, i: nat)
    requires Inv(s) && Enabled(s, act) && i < |Step(s, act).guards|
    ensures GuardLeads(Step(s, act), i)
  {
    hide FdInv, AnchorInv, OneNumberPerFile;
    assert i < |s.guards| ==> GuardLeads(s, i);
    if act.Restore? {
      hide GuardLeads, LeasesApart;
      assert GuardLeads(s, act.g) && FdInv(s, s.guards[act.g].fd);
      if !s.guards[act.g].done { RestoreGuard(s, act.g, act.read, i); }
    }
  }

  lemma AcquireAnchor(s: State, fd: int, dup: bool, read: bool, i: nat)
    requires Enabled(s, Acquire(fd, dup, read)) && i < |DoAcquire(s, fd, dup, read).anchors|
    requires i < |s.anchors| ==> AnchorInv(s, i)
    requires Wf(DoAcquire(s, fd, dup, read))
    ensures AnchorInv(DoAcquire(s, fd, dup, read), i)
  {
    var s' := DoAcquire(s, fd, dup, read);
    assert forall x | x in s.byFD :: s'.leases[s'.byFD[x]].anchor == s.leases[s.byFD[x]].anchor;
    if i < |s.anchors| {
      assert AnchorHeld(s', i) == AnchorHeld(s, i);
    }
  }

  lemma FinishAcquireAnchor(s: State, wrote: bool, i: nat)
    requires Framed(s) && Enabled(s, FinishAcquire(wrote)) && (i < |s.anchors| ==> AnchorInv(s, i))
    requires Wf(DoFinishAcquire(s, wrote)) && i < |DoFinishAcquire(s, wrote).anchors|
    ensures AnchorInv(DoFinishAcquire(s, wrote), i)
  {
    hide OneNumberPerFile;
    var s' := DoFinishAcquire(s, wrote);
    var fd, anchor := s.lock.fd, s.lock.anchor;
    if |s'.leases| > |s.leases| {
      assert s'.leases[s'.byFD[fd]].anchor == anchor;
      assert forall x | x in s.byFD :: s'.leases[s'.byFD[x]].anchor == s.leases[s.byFD[x]].anchor;
      assert AnchorHeld(s', i) == AnchorHeld(s, i);
    } else {
      assert AnchorHeld(s', i) == (AnchorHeld(s, i) && i != anchor);
    }
  }

  lemma RestoreAnchor(s: State, g: nat, read: bool, i: nat)
    requires Framed(s) && Enabled(s, Restore(g, read)) && !s.guards[g].done && GuardLeads(s, g)
    requires Wf(DoRestore(s, g, read)) && i < |DoRestore(s, g, read).anchors| && (i < |s.anchors| ==> AnchorInv(s, i))
    ensures AnchorInv(DoRestore(s, g, read), i)
  {
    hide OneNumberPerFile;
    var s' := DoRestore(s, g, read);
    var fd, anchor := s.guards[g].fd, s.leases[s.guards[g].lease].anchor;
    assert s.leases[s.byFD[fd]].anchor == anchor;
    assert forall x | x in s'.byFD :: s'.leases[s'.byFD[x]].anchor == s.leases[s.byFD[x]].anchor;
    if fd in s'.byFD {
      assert AnchorHeld(s', i) == AnchorHeld(s, i);
    } else {
      assert forall x | x in s.byFD && x != fd :: x in s'.byFD;
      assert i != anchor ==> AnchorHeld(s', i) == AnchorHeld(s, i);
      assert AnchorHeld(s, anchor);
    }
  }

  lemma FinishRestoreAnchor(s: State, wrote: bool, i: nat)
    requires Framed(s) && Enabled(s, FinishRestore(wrote)) && (i < |s.anchors| ==> AnchorInv(s, i))
    requires Wf(DoFinishRestore(s, wrote)) && i < |DoFinishRestore(s, wrote).anchors|
    ensures AnchorInv(DoFinishRestore(s, wrote), i)
  {
    hide OneNumberPerFile;
    assert AnchorHeld(DoFinishRestore(s, wrote), i) == (AnchorHeld(s, i) && i != s.lock.anchor);
  }

  lemma StepAnchor(s: State, act: Action, i: nat)
    requires Inv(s) && Enabled(s, act) && Wf(Step(s, act)) && i < |Step(s, act).anchors|
    ensures AnchorInv(Step(s, act), i)
  {
    hide FdInv, OneNumberPerFile, LeasesApart, GuardLeads, Wf;
    assert i < |s.anchors| ==> AnchorInv(s, i);
    match act
    case Acquire(fd, dup, read) => hide AnchorInv; AcquireAnchor(s, fd, dup, read, i);
    case FinishAcquire(wrote) => hide AnchorInv; FinishAcquireAnchor(s, wrote, i);
    case Restore(g, read) =>
      hide AnchorInv;
      assert GuardLeads(s, g);
      if !s.guards[g].done { RestoreAnchor(s, g, read, i); }
    case FinishRestore(wrote) => hide AnchorInv; FinishRestoreAnchor(s, wrote, i);
    case Host(_, _) => assert AnchorHeld(Step(s, act), i) == AnchorHeld(s, i);
  }

  lemma StepKeepsInv(s: State, act: Action)
    requires Inv(s) && Enabled(s, act)
    ensures Inv(Step(s, act))
  {
    StepFramed(s, act);
    var s' := Step(s, act);
    assert Wf(s') && OneNumberPerFile(s') && LeasesApart(s');
    hide Wf, OneNumberPerFile, LeasesApart, FdInv, GuardLeads, AnchorInv, Step, Enabled;
    forall x | x in s'.files ensures FdInv(s', x) {
      StepFd(s, act, x);
    }
    forall i | 0 <= i < |s'.guards| ensures GuardLeads(s', i) {
      StepGuard(s, act, i);
    }
    forall i | 0 <= i < |s'.anchors| ensures AnchorInv(s', i) {
      StepAnchor(s, act, i);
    }
  }

  lemma {:induction false} RunKeepsInv(s: State, acts: seq<Action>)
    requires Inv(s) && IsRun(s, acts)
    ensures Inv(After(s, acts))
    decreases |acts|
  {
    hide Inv, Step, Enabled;
    if acts != [] {
      StepKeepsInv(s, acts[0]);
      RunKeepsInv(Step(s, acts[0]), acts[1..]);
    }
  }

  // ---------------------------------------------------------------------
  // Whole runs

  /** Nothing acquired yet. */
  ghost function Initial(files: map<int, nat>, flags: map<nat, Flags>): State
    requires forall fd | fd in files :: files[fd] in flags
  {
    State(files, flags, map[], [], [], [], Free,
          map fd | fd in files :: flags[files[fd]].nonblock, {},
          map file | file in flags :: flags[file].other, {})
  }

  /** A table of descriptors with one number for every file in blocking mode. */
  ghost predicate Descriptors(files: map<int, nat>, flags: map<nat, Flags>) {
    && (forall fd | fd in files :: files[fd] in flags)
    && (forall fd, fd' | fd in files && fd' in files && files[fd] == files[fd'] :: fd == fd' || flags[files[fd]].nonblock)
  }

  lemma InitialInv(files: map<int, nat>, flags: map<nat, Flags>)
    requires Descriptors(files, flags)
    ensures Inv(Initial(files, flags))
  {
  }

  /** A registry entry exists exactly while guards live, its count is their number, the bit
      is set while any lives, an idle descriptor has the bit it started with unless a restore
      could not write it, the other flags are the owner's unless it wrote them inside a
      read-modify-write, and every anchor is closed once, when nothing holds it any more. */
  ghost predicate Safe(s: State, fd: int)
    requires Wf(s) && fd in s.files
  {
    var flags := s.flags[s.files[fd]];
    && (fd in s.byFD <==> Live(s.guards, fd) > 0)
    && (fd in s.byFD ==> s.leases[s.byFD[fd]].refs == Live(s.guards, fd))
    && (Live(s.guards, fd) > 0 ==> flags.nonblock)
    && (Live(s.guards, fd) == 0 && !InWindow(s, s.files[fd]) && fd !in s.stuck ==> flags.nonblock == s.bit[fd])
    && (s.files[fd] !in s.raced ==> flags.other == s.host[s.files[fd]])
    && forall i | 0 <= i < |s.anchors| ::
         s.anchors[i].closes <= 1 && (s.anchors[i].closes == 0 <==> AnchorHeld(s, i))
  }

  lemma InvIsSafe(s: State, fd: int)
    requires Inv(s) && fd in s.files
    ensures Wf(s) && Safe(s, fd)
  {
    hide Live, OneNumberPerFile, LeasesApart, GuardLeads, AnchorHeld;
    assert FdInv(s, fd);
    forall i | 0 <= i < |s.anchors|
      ensures s.anchors[i].closes <= 1 && (s.anchors[i].closes == 0 <==> AnchorHeld(s, i))
    {
      assert AnchorInv(s, i);
    }
  }

  /** Every interleaving of acquires, restores and updates by the owner is safe. */
  lemma RunIsSafe(files: map<int, nat>, flags: map<nat, Flags>, acts: seq<Action>, fd: int)
    requires Descriptors(files, flags) && IsRun(Initial(files, flags), acts) && fd in files
    ensures var s := After(Initial(files, flags), acts);
            Wf(s) && s.files == files && s.bit[fd] == flags[files[fd]].nonblock && Safe(s, fd)
  {
    InitialInv(files, flags);
    hide Inv, Safe, Step, Enabled;
    RunKeepsInv(Initial(files, flags), acts);
    FixedHistory(Initial(files, flags), acts);
    InvIsSafe(After(Initial(files, flags), acts), fd);
  }

  /** The descriptor table and the remembered bits never change. */
  lemma {:induction false} FixedHistory(s: State, acts: seq<Action>)
    requires IsRun(s, acts)
    ensures After(s, acts).files == s.files && After(s, acts).bit == s.bit
    decreases |acts|
  {
    if acts != [] {
      FixedHistory(Step(s, acts[0]), acts[1..]);
    }
  }

  /** The action is dd's own, and as a restore it gets its flag word through. */
  predicate OwnAndWritten(act: Action) {
    match act
    case Acquire(_, _, _) => true
    case FinishAcquire(_) => true
    case Restore(_, read) => read
    case FinishRestore(wrote) => wrote
    case Host(_, _) => false
  }

  lemma {:induction false} QuietHistory(s: State, acts: seq<Action>)
    requires IsRun(s, acts) && s.stuck == {} && s.raced == {}
    requires forall i | 0 <= i < |acts| :: OwnAndWritten(acts[i])
    ensures After(s, acts).stuck == {} && After(s, acts).raced == {} && After(s, acts).host == s.host
    decreases |acts|
  {
    if acts != [] {
      assert OwnAndWritten(acts[0]);
      QuietHistory(Step(s, acts[0]), acts[1..]);
    }
  }

  /** When only dd acts and its restores succeed, every descriptor whose guards are all
      restored has its whole flag word back. */
  lemma FlagsComeBack(files: map<int, nat>, flags: map<nat, Flags>, acts: seq<Action>, fd: int)
    requires Descriptors(files, flags) && IsRun(Initial(files, flags), acts) && fd in files
    requires forall i | 0 <= i < |acts| :: OwnAndWritten(acts[i])
    requires var s := After(Initial(files, flags), acts); Live(s.guards, fd) == 0 && s.lock.Free?
    ensures var s := After(Initial(files, flags), acts);
            s.files == files && files[fd] in s.flags && s.flags[files[fd]] == flags[files[fd]]
  {
    RunIsSafe(files, flags, acts, fd);
    QuietHistory(Initial(files, flags), acts);
    FixedHistory(Initial(files, flags), acts);
  }

  lemma {:induction false} DoneStaysDone(s: State, acts: seq<Action>, g: nat)
    requires IsRun(s, acts) && g < |s.guards| && s.guards[g].done
    ensures g < |After(s, acts).guards| && After(s, acts).guards[g].done
    decreases |acts|
  {
    if acts != [] {
      DoneStaysDone(Step(s, acts[0]), acts[1..], g);
    }
  }

  /** Whatever happens after a restore, restoring the same guard again does nothing. */
  lemma RestoreTwice(s: State, g: nat, read: bool, acts: seq<Action>, again: bool)
    requires Enabled(s, Restore(g, read)) && IsRun(DoRestore(s, g, read), acts)
    requires Enabled(After(DoRestore(s, g, read), acts), Restore(g, again))
    ensures var t := After(DoRestore(s, g, read), acts); DoRestore(t, g, again) == t
  {
    DoneStaysDone(DoRestore(s, g, read), acts, g);
  }

  // ---------------------------------------------------------------------
  // Where the assumptions are needed

  /** Two numbers of one file, in blocking mode and not leased. */
  ghost predicate Aliases(z: State, a: int, b: int) {
    && Wf(z) && a != b && a in z.files && b in z.files && z.files[a] == z.files[b] && !z.flags[z.files[a]].nonblock
    && z.byFD == map[] && z.leases == [] && z.guards == [] && z.anchors == [] && z.lock == Free
  }

  /** Both are leased, then the first guard is restored. */
  function AliasRun(a: int, b: int): (acts: seq<Action>)
    ensures |acts| == 6
  {
    [Acquire(a, true, true), FinishAcquire(true), Acquire(b, true, true), FinishAcquire(true),
     Restore(0, true), FinishRestore(true)]
  }

  /** The states of that run. */
  ghost function AliasState(z: State, a: int, b: int, n: nat): State
    requires Aliases(z, a, b)
  {
    var f := z.files[a];
    var other := z.flags[f].other;
    var busy := z.flags[f := Flags(true, other)];
    var open, closed := Anchor(f, 0), Anchor(f, 1);
    var l0, l1 := Lease(0, 1, true), Lease(1, 1, false);
    var g0, g1 := Guard(a, 0, false), Guard(b, 1, false);
    if n == 0 then z
    else if n == 1 then z.(anchors := [open], lock := Acquiring(a, 0, Flags(false, other)))
    else if n == 2 then z.(flags := busy, byFD := map[a := 0], leases := [l0], guards := [g0], anchors := [open])
    else if n == 3 then z.(flags := busy, byFD := map[a := 0], leases := [l0], guards := [g0], anchors := [open, open],
                           lock := Acquiring(b, 1, Flags(true, other)))
    else if n == 4 then z.(flags := busy, byFD := map[a := 0, b := 1], leases := [l0, l1], guards := [g0, g1],
                           anchors := [open, open])
    else if n == 5 then z.(flags := busy, byFD := map[b := 1], leases := [l0.(refs := 0), l1],
                           guards := [g0.(done := true), g1], anchors := [open, open],
                           lock := Restoring(a, 0, Flags(true, other)))
    else z.(flags := busy[f := Flags(false, other)], byFD := map[b := 1], leases := [l0.(refs := 0), l1],
            guards := [g0.(done := true), g1], anchors := [closed, open])
  }

  ghost predicate AliasGoesOn(z: State, a: int, b: int, n: nat)
    requires n < 6 && Aliases(z, a, b)
  {
    Enabled(AliasState(z, a, b, n), AliasRun(a, b)[n]) &&
    Step(AliasState(z, a, b, n), AliasRun(a, b)[n]) == AliasState(z, a, b, n + 1)
  }

  lemma AliasStep0(z: State, a: int, b: int)
    requires Aliases(z, a, b)
    ensures AliasGoesOn(z, a, b, 0)
  {
    var s, t := AliasState(z, a, b, 0), AliasState(z, a, b, 1);
    assert Wf(s);
    var r := Step(s, AliasRun(a, b)[0]);
    assert r.byFD == t.byFD && r.flags == t.flags;
    assert r.leases == t.leases && r.guards == t.guards && r.anchors == t.anchors;
  }

  lemma AliasStep1(z: State, a: int, b: int)
    requires Aliases(z, a, b)
    ensures AliasGoesOn(z, a, b, 1)
  {
    var s, t := AliasState(z, a, b, 1), AliasState(z, a, b, 2);
    assert Wf(s);
    var r := Step(s, AliasRun(a, b)[1]);
    assert r.byFD == t.byFD && r.flags == t.flags;
    assert r.leases == t.leases && r.guards == t.guards && r.anchors == t.anchors;
  }

  lemma AliasStep2(z: State, a: int, b: int)
    requires Aliases(z, a, b)
    ensures AliasGoesOn(z, a, b, 2)
  {
    var s, t := AliasState(z, a, b, 2), AliasState(z, a, b, 3);
    assert Wf(s);
    var r := Step(s, AliasRun(a, b)[2]);
    assert r.byFD == t.byFD && r.flags == t.flags;
    assert r.leases == t.leases && r.guards == t.guards && r.anchors == t.anchors;
  }

  lemma AliasStep3(z: State, a: int, b: int)
    requires Aliases(z, a, b)
    ensures AliasGoesOn(z, a, b, 3)
  {
    var s, t := AliasState(z, a, b, 3), AliasState(z, a, b, 4);
    assert Wf(s);
    var r := Step(s, AliasRun(a, b)[3]);
    assert r.byFD == t.byFD && r.flags == t.flags;
    assert r.leases == t.leases && r.guards == t.guards && r.anchors == t.anchors;
  }

  lemma AliasStep4(z: State, a: int, b: int)
    requires Aliases(z, a, b)
    ensures AliasGoesOn(z, a, b, 4)
  {
    var s, t := AliasState(z, a, b, 4), AliasState(z, a, b, 5);
    assert Wf(s);
    var r := Step(s, AliasRun(a, b)[4]);
    assert r.byFD == t.byFD && r.flags == t.flags;
    assert r.leases == t.leases && r.guards == t.guards && r.anchors == t.anchors;
  }

  lemma AliasStep5(z: State, a: int, b: int)
    requires Aliases(z, a, b)
    ensures AliasGoesOn(z, a, b, 5)
  {
    var s, t := AliasState(z, a, b, 5), AliasState(z, a, b, 6);
    assert Wf(s);
    var r := Step(s, AliasRun(a, b)[5]);
    assert r.byFD == t.byFD && r.flags == t.flags;
    assert r.leases == t.leases && r.guards == t.guards && r.anchors == t.anchors;
  }

  lemma AliasStep(z: State, a: int, b: int, n: nat)
    requires n < 6 && Aliases(z, a, b)
    ensures AliasGoesOn(z, a, b, n)
  {
    hide AliasGoesOn, Aliases;
    AliasStep0(z, a, b);
    AliasStep1(z, a, b);
    AliasStep2(z, a, b);
    AliasStep3(z, a, b);
    AliasStep4(z, a, b);
    AliasStep5(z, a, b);
  }

  lemma {:induction false} AliasRuns(z: State, a: int, b: int, n: nat)
    requires n <= 6 && Aliases(z, a, b)
    ensures IsRun(AliasState(z, a, b, n), AliasRun(a, b)[n..])
    ensures After(AliasState(z, a, b, n), AliasRun(a, b)[n..]) == AliasState(z, a, b, 6)
    decreases 6 - n
  {
    hide Step, Enabled, AliasState, Aliases, AliasRun;
    if n < 6 {
      AliasStep(z, a, b, n);
      assert AliasRun(a, b)[n..][1..] == AliasRun(a, b)[n + 1..];
      AliasRuns(z, a, b, n + 1);
    }
  }

  lemma AliasEnds(z: State, a: int, b: int)
    requires Aliases(z, a, b)
    ensures var s := AliasState(z, a, b, 6);
            Live(s.guards, b) == 1 && b in s.files && s.files[b] in s.flags && !s.flags[s.files[b]].nonblock
  {
    var gs := AliasState(z, a, b, 6).guards;
    var last := [Guard(b, 1, false)];
    assert gs == [Guard(a, 0, true)] + last && gs[1..] == last && last[1..] == [];
    assert Live(last, b) == 1 + Live([], b);
    assert Live(gs, b) == Live(last, b);
  }

  /** Two numbers for one open file description in blocking mode: restoring the first guard
      clears the bit while the second is still in use. */
  lemma AliasBreaksTheLease(z: State, a: int, b: int)
    requires Aliases(z, a, b)
    ensures IsRun(z, AliasRun(a, b))
    ensures var s := After(z, AliasRun(a, b));
            Live(s.guards, b) == 1 && b in s.files && s.files[b] in s.flags && !s.flags[s.files[b]].nonblock
  {
    assert AliasState(z, a, b, 0) == z;
    hide IsRun, After, AliasState, Live, Aliases, AliasRun;
    AliasEnds(z, a, b);
    AliasRuns(z, a, b, 0);
    assert AliasRun(a, b)[0..] == AliasRun(a, b);
  }

  /** A live guard finds the bit set. */
  ghost predicate GuardsHold(s: State, fd: int) {
    Live(s.guards, fd) > 0 ==> fd in s.files && s.files[fd] in s.flags && s.flags[s.files[fd]].nonblock
  }

  ghost predicate AlwaysHeld(z: State) {
    forall acts, fd | IsRun(z, acts) && fd in z.files :: GuardsHold(After(z, acts), fd)
  }

  /** The lease does its work in every run exactly when no two descriptor numbers share an
      open file description in blocking mode. */
  lemma HeldIffOneNumberPerFile(files: map<int, nat>, flags: map<nat, Flags>)
    requires forall fd | fd in files :: files[fd] in flags
    ensures AlwaysHeld(Initial(files, flags)) <==> Descriptors(files, flags)
  {
    var z := Initial(files, flags);
    hide IsRun, After, Live;
    if Descriptors(files, flags) {
      forall acts, fd | IsRun(z, acts) && fd in z.files ensures GuardsHold(After(z, acts), fd) {
        RunIsSafe(files, flags, acts, fd);
      }
    } else {
      var a, b :| a in files && b in files && files[a] == files[b] && a != b && !flags[files[a]].nonblock;
      AliasBreaksTheLease(z, a, b);
      assert !GuardsHold(After(z, AliasRun(a, b)), b);
    }
  }

  // ---------------------------------------------------------------------
  // The owner's updates

  /** The action is an update of the file's other flags by its owner. */
  predicate Updates(files: map<int, nat>, act: Action, file: nat) {
    act.Host? && act.fd in files && files[act.fd] == file
  }

  predicate UpdatedIn(files: map<int, nat>, acts: seq<Action>, file: nat) {
    acts != [] && (Updates(files, acts[0], file) || UpdatedIn(files, acts[1..], file))
  }

  /** What the owner last asked the other flags to be. */
  function Asked(files: map<int, nat>, acts: seq<Action>, file: nat, first: int): int {
    if acts == [] then first
    else Asked(files, acts[1..], file, if Updates(files, acts[0], file) then acts[0].other else first)
  }

  /** The critical section that is open when the actions begin ends with a successful
      F_SETFL. */
  predicate WrittenBack(acts: seq<Action>) {
    acts != [] &&
    match acts[0]
    case FinishAcquire(wrote) => wrote
    case FinishRestore(wrote) => wrote
    case _ => WrittenBack(acts[1..])
  }

  /** The owner's last update comes while dd has read the flag word and not yet written it
      back, differs from the word that was read, and dd then does write it back. */
  ghost predicate LastUpdateLost(s: State, acts: seq<Action>, file: nat)
    requires IsRun(s, acts)
    decreases |acts|
  {
    acts != [] &&
    if Updates(s.files, acts[0], file) && !UpdatedIn(s.files, acts[1..], file) then
      InWindow(s, file) && s.lock.flags.other != acts[0].other && WrittenBack(acts[1..])
    else LastUpdateLost(Step(s, acts[0]), acts[1..], file)
  }

  ghost function OtherFlags(s: State, file: nat): int
    requires file in s.flags
  {
    s.flags[file].other
  }

  /** What the other flags come to if the owner does nothing more: the word that the open
      window has read, if it is written back. */
  ghost function Undisturbed(s: State, acts: seq<Action>, file: nat): int
    requires file in s.flags
  {
    if InWindow(s, file) && WrittenBack(acts) then s.lock.flags.other else OtherFlags(s, file)
  }

  /** One step that is no update of the file, and whose own descriptor is in order. */
  lemma UndisturbedAct(s: State, acts: seq<Action>, file: nat)
    requires acts != [] && Enabled(s, acts[0]) && file in s.flags && !Updates(s.files, acts[0], file)
    requires FdInv(s, About(s, acts[0])) && (acts[0].Restore? ==> GuardLeads(s, acts[0].g))
    requires !s.lock.Free? ==> s.lock.fd !in s.byFD
    ensures file in Step(s, acts[0]).flags && Undisturbed(Step(s, acts[0]), acts[1..], file) == Undisturbed(s, acts, file)
  {
    hide Live, OwnersFlags;
  }

  lemma UndisturbedStep(s: State, acts: seq<Action>, fd: int)
    requires Inv(s) && fd in s.files && acts != [] && Enabled(s, acts[0]) && !Updates(s.files, acts[0], s.files[fd])
    ensures var s' := Step(s, acts[0]);
            s.files[fd] in s'.flags && Undisturbed(s', acts[1..], s.files[fd]) == Undisturbed(s, acts, s.files[fd])
  {
    assert s.files[fd] in s.flags && (!s.lock.Free? ==> s.lock.fd !in s.byFD);
    hide Undisturbed, FdInv, GuardLeads, LeasesApart, OneNumberPerFile, AnchorInv, Step, Wf;
    assert FdInv(s, About(s, acts[0]));
    assert acts[0].Restore? ==> GuardLeads(s, acts[0].g);
    UndisturbedAct(s, acts, s.files[fd]);
  }

  /** Without an update the other flags only change by a write-back. */
  lemma {:induction false} RunUndisturbed(s: State, acts: seq<Action>, fd: int)
    requires Inv(s) && IsRun(s, acts) && fd in s.files && !UpdatedIn(s.files, acts, s.files[fd])
    ensures Wf(s) && Wf(After(s, acts)) && s.files[fd] in After(s, acts).flags
    ensures OtherFlags(After(s, acts), s.files[fd]) == Undisturbed(s, acts, s.files[fd])
    ensures !LastUpdateLost(s, acts, s.files[fd])
    decreases |acts|
  {
    InvIsWf(s);
    hide Inv, Wf, Step, Enabled, Updates;
    if acts != [] {
      UndisturbedStep(s, acts, fd);
      StepKeepsInv(s, acts[0]);
      RunUndisturbed(Step(s, acts[0]), acts[1..], fd);
    }
  }

  lemma InvIsWf(s: State)
    requires Inv(s)
    ensures Wf(s) && forall fd | fd in s.files :: s.files[fd] in s.flags
  {
  }

  lemma {:induction false} AskedSince(files: map<int, nat>, acts: seq<Action>, file: nat, first: int, first': int)
    ensures UpdatedIn(files, acts, file) ==> Asked(files, acts, file, first) == Asked(files, acts, file, first')
    ensures !UpdatedIn(files, acts, file) ==> Asked(files, acts, file, first) == first
  {
    if acts != [] {
      if Updates(files, acts[0], file) {
        AskedSince(files, acts[1..], file, acts[0].other, acts[0].other);
      } else {
        AskedSince(files, acts[1..], file, first, first');
      }
    }
  }

  /** An update by the owner: the window stays as it is. */
  lemma UpdateStep(s: State, act: Action, file: nat)
    requires Inv(s) && Enabled(s, act) && Updates(s.files, act, file)
    ensures var s' := Step(s, act);
            && file in s.flags && file in s'.flags && OtherFlags(s', file) == act.other
            && s'.lock == s.lock && (InWindow(s', file) <==> InWindow(s, file))
  {
  }

  /** From any state that runs lead to. */
  lemma {:induction false} LostFrom(s: State, acts: seq<Action>, fd: int)
    requires Inv(s) && IsRun(s, acts) && fd in s.files && UpdatedIn(s.files, acts, s.files[fd])
    ensures Wf(After(s, acts)) && s.files[fd] in After(s, acts).flags
    ensures forall first :: OtherFlags(After(s, acts), s.files[fd]) == Asked(s.files, acts, s.files[fd], first)
                            <==> !LastUpdateLost(s, acts, s.files[fd])
    decreases |acts|
  {
    var file := s.files[fd];
    InvIsWf(s);
    hide Inv, Wf, Step, Enabled, Updates, InWindow;
    var s', rest := Step(s, acts[0]), acts[1..];
    StepKeepsInv(s, acts[0]);
    if UpdatedIn(s.files, rest, file) {
      LostFrom(s', rest, fd);
    } else {
      UpdateStep(s, acts[0], file);
      RunUndisturbed(s', rest, fd);
      AskedSince(s.files, rest, file, acts[0].other, 0);
    }
  }

  /** In every run the other flags are what the owner last asked them to be, exactly when
      that update was not made between a read of the flag word and a write-back of a
      different one. */
  lemma UpdateKeptIff(files: map<int, nat>, flags: map<nat, Flags>, acts: seq<Action>, fd: int)
    requires Descriptors(files, flags) && IsRun(Initial(files, flags), acts) && fd in files
    ensures var z := Initial(files, flags); var file := files[fd];
            && file in After(z, acts).flags
            && (OtherFlags(After(z, acts), file) == Asked(files, acts, file, flags[file].other)
                <==> !LastUpdateLost(z, acts, file))
  {
    var z := Initial(files, flags);
    InitialInv(files, flags);
    hide Inv, IsRun, After, LastUpdateLost;
    if UpdatedIn(files, acts, files[fd]) {
      LostFrom(z, acts, fd);
    } else {
      RunUndisturbed(z, acts, fd);
      AskedSince(files, acts, files[fd], flags[files[fd]].other, 0);
    }
  }

  /** The run loses the owner's last update: the flags end as dd read them. */
  ghost predicate Loses(s: State, acts: seq<Action>, file: nat, word: int) {
    IsRun(s, acts) && LastUpdateLost(s, acts, file) && file in After(s, acts).flags && OtherFlags(After(s, acts), file) == word
  }

  lemma LosesLater(s: State, act: Action, rest: seq<Action>, file: nat, word: int)
    requires Enabled(s, act) && !act.Host? && Loses(Step(s, act), rest, file, word)
    ensures Loses(s, [act] + rest, file, word)
  {
    hide Step, Enabled;
    assert ([act] + rest)[1..] == rest;
  }

  /** In an open window, an update and then the write-back. */
  lemma LosesHere(s: State, fd: int, v: int, finish: Action)
    requires Inv(s) && fd in s.files && InWindow(s, s.files[fd]) && s.lock.flags.other != v
    requires finish == if s.lock.Acquiring? then FinishAcquire(true) else FinishRestore(true)
    ensures Loses(s, [Host(fd, v), finish], s.files[fd], s.lock.flags.other)
  {
    var acts := [Host(fd, v), finish];
    var s' := Step(s, acts[0]);
    UpdateStep(s, acts[0], s.files[fd]);
    StepKeepsInv(s, acts[0]);
    assert Enabled(s', finish);
    hide Inv;
    assert acts[1..] == [finish] && [finish][1..] == [];
    assert !UpdatedIn(s.files, [finish][1..], s.files[fd]);
    assert IsRun(s', [finish]);
    RunUndisturbed(s', [finish], fd);
  }

  /** On a descriptor in blocking mode an update made while dd borrows the bit is lost. */
  lemma LostInAcquire(files: map<int, nat>, flags: map<nat, Flags>, fd: int, v: int)
    requires Descriptors(files, flags) && fd in files && !flags[files[fd]].nonblock && v != flags[files[fd]].other
    ensures Loses(Initial(files, flags), [Acquire(fd, true, true), Host(fd, v), FinishAcquire(true)],
                  files[fd], flags[files[fd]].other)
  {
    var z, act := Initial(files, flags), Acquire(fd, true, true);
    InitialInv(files, flags);
    StepKeepsInv(z, act);
    hide Loses;
    var rest := [Host(fd, v), FinishAcquire(true)];
    LosesHere(Step(z, act), fd, v, rest[1]);
    LosesLater(z, act, rest, files[fd], flags[files[fd]].other);
    assert [act] + rest == [act, rest[0], rest[1]];
  }

  /** The only guard of fd is restored, and the owner steps in. */
  lemma LosesOnRestore(s: State, fd: int, v: int)
    requires Inv(s) && s.lock.Free? && s.guards == [Guard(fd, 0, false)] && s.leases == [Lease(0, 1, true)]
    requires fd in s.byFD && s.flags[s.files[fd]].other != v
    ensures Loses(s, [Restore(0, true), Host(fd, v), FinishRestore(true)], s.files[fd], s.flags[s.files[fd]].other)
  {
    var act, rest := Restore(0, true), [Host(fd, v), FinishRestore(true)];
    assert Registered(s, fd) && s.byFD[fd] == 0;
    StepKeepsInv(s, act);
    hide Inv, Loses, Live;
    LosesHere(Step(s, act), fd, v, rest[1]);
    LosesLater(s, act, rest, s.files[fd], s.flags[s.files[fd]].other);
    assert [act] + rest == [act, rest[0], rest[1]];
  }

  /** So is one made while dd gives the bit back. */
  lemma LostInRestore(files: map<int, nat>, flags: map<nat, Flags>, fd: int, v: int)
    requires Descriptors(files, flags) && fd in files && !flags[files[fd]].nonblock && v != flags[files[fd]].other
    ensures Loses(Initial(files, flags),
                  [Acquire(fd, true, true), FinishAcquire(true), Restore(0, true), Host(fd, v), FinishRestore(true)],
                  files[fd], flags[files[fd]].other)
  {
    var z, a0, a1 := Initial(files, flags), Acquire(fd, true, true), FinishAcquire(true);
    InitialInv(files, flags);
    StepKeepsInv(z, a0);
    var s1 := Step(z, a0);
    InvIsWf(s1);
    StepKeepsInv(s1, a1);
    hide Inv, Wf, Loses, DoRestore, DoFinishRestore, DoHost;
    var rest, word := [Restore(0, true), Host(fd, v), FinishRestore(true)], flags[files[fd]].other;
    LosesOnRestore(Step(s1, a1), fd, v);
    LosesLater(s1, a1, rest, files[fd], word);
    LosesLater(z, a0, [a1] + rest, files[fd], word);
    assert [a0] + ([a1] + rest) == [a0, a1, rest[0], rest[1], rest[2]];
  }

  // ---------------------------------------------------------------------
  // What a caller gets

  /** If no call fails, an acquire hands out one more live guard, on the registered lease or
      after both halves of a new one. */
  lemma Granted(s: State, fd: int)
    requires Inv(s) && s.lock.Free? && fd in s.files
    ensures var s1 := DoAcquire(s, fd, true, true);
            if fd in s.byFD then s1.lock.Free? && Live(s1.guards, fd) == Live(s.guards, fd) + 1
            else Enabled(s1, FinishAcquire(true)) &&
                 Live(DoFinishAcquire(s1, true).guards, fd) == Live(s.guards, fd) + 1 && fd in DoFinishAcquire(s1, true).byFD
  {
    StepKeepsInv(s, Acquire(fd, true, true));
    hide Live, FdInv, AnchorInv, GuardLeads, LeasesApart, OneNumberPerFile;
    if fd in s.byFD {
      LiveAppend(s.guards, Guard(fd, s.byFD[fd], false), fd);
    } else {
      LiveAppend(s.guards, Guard(fd, |s.leases|, false), fd);
    }
  }

  // ---------------------------------------------------------------------
  // Numbers that are used again

  /** The owner may also close a descriptor too early, and its number come to stand for
      another file. */
  datatype Event = Act(act: Action) | Rebind(fd: int, file: nat)

  ghost predicate Possible(s: State, e: Event) {
    match e
    case Act(act) => Enabled(s, act)
    case Rebind(_, file) => Wf(s) && file in s.flags && file in s.host
  }

  ghost function Next(s: State, e: Event): State
    requires Possible(s, e)
  {
    match e
    case Act(act) => Step(s, act)
    case Rebind(fd, file) => s.(files := s.files[fd := file], bit := s.bit[fd := s.flags[file].nonblock])
  }

  ghost predicate IsHistory(s: State, es: seq<Event>)
    decreases |es|
  {
    es == [] || (Possible(s, es[0]) && IsHistory(Next(s, es[0]), es[1..]))
  }

  ghost function End(s: State, es: seq<Event>): State
    requires IsHistory(s, es)
    decreases |es|
  {
    if es == [] then s else End(Next(s, es[0]), es[1..])
  }

  /** No descriptor of the file is acquired, and its owner leaves its flags alone. */
  ghost predicate LeftAlone(s: State, es: seq<Event>, file: nat)
    requires IsHistory(s, es)
    decreases |es|
  {
    es == [] ||
    (&& (es[0].Act? && (es[0].act.Acquire? || es[0].act.Host?) ==> s.files[es[0].act.fd] != file)
     && LeftAlone(Next(s, es[0]), es[1..], file))
  }

  /** No descriptor of the file has been duplicated. */
  ghost predicate NoAnchor(s: State, file: nat) {
    file in s.flags && forall i | 0 <= i < |s.anchors| :: s.anchors[i].file != file
  }

  lemma RestoreElsewhere(s: State, g: nat, read: bool, file: nat)
    requires Enabled(s, Restore(g, read)) && NoAnchor(s, file)
    ensures NoAnchor(DoRestore(s, g, read), file) && DoRestore(s, g, read).flags == s.flags
  {
  }

  lemma StepElsewhere(s: State, act: Action, file: nat)
    requires Enabled(s, act) && NoAnchor(s, file) && (act.Acquire? || act.Host? ==> s.files[act.fd] != file)
    ensures NoAnchor(Step(s, act), file) && Step(s, act).flags[file] == s.flags[file]
  {
    if act.Restore? {
      hide DoRestore;
      RestoreElsewhere(s, act.g, act.read, file);
    }
  }

  /** dd never writes to a file it was not asked to acquire, whatever numbers come to stand
      for it: a late restore goes through its anchor. */
  lemma {:induction false} LateRestore(s: State, es: seq<Event>, file: nat)
    requires IsHistory(s, es) && LeftAlone(s, es, file)
    requires NoAnchor(s, file)
    ensures file in End(s, es).flags && End(s, es).flags[file] == s.flags[file]
    decreases |es|
  {
    hide Enabled, Step, Wf;
    if es != [] {
      if es[0].Act? {
        StepElsewhere(s, es[0].act, file);
      }
      LateRestore(Next(s, es[0]), es[1..], file);
    }
  }
}
