/**
 The graphics allocator with many threads: the device call and the update of
 the allocator's list are separate steps, and only the second is under the
 lock. At every moment the list is the set of live handles, up to the calls
 that are between their two steps.
 */
module AllocatorConcurrency {
  import opened Wrappers
  import opened CTypes
  import opened GraphicBufferWire
  import opened GraphicBuffer

  type Thread = nat

  /** Between the device call and the list update of alloc or free. */
  datatype Pc = Adding(key: Key, record: Rec) | Removing(key: Key)

  /**
   Live handles with the record of their allocation, the allocator's list, the
   threads that are inside a call, and the handles alloc has returned and
   nobody has passed to free.
   */
  datatype State = State(live: map<Key, Rec>, table: map<Key, Rec>, inside: map<Thread, Pc>, returned: set<Key>)

  const INITIAL := State(map[], map[], map[], {})

  datatype Step =
    | DeviceAlloc(t: Thread, key: Key, record: Rec)
    | TableAdd(t: Thread)
    | DeviceFree(t: Thread, key: Key)
    | TableRemove(t: Thread)
    | DeviceRefuses(t: Thread)

  /** The device never returns a live handle; clients free only what alloc returned, once. */
  predicate Enabled(s: State, step: Step) {
    match step
    case DeviceAlloc(t, key, _) => t !in s.inside && key !in s.live
    case TableAdd(t) => t in s.inside && s.inside[t].Adding?
    case DeviceFree(t, key) => t !in s.inside && key in s.returned
    case TableRemove(t) => t in s.inside && s.inside[t].Removing?
    case DeviceRefuses(t) => t !in s.inside
  }

  function Next(s: State, step: Step): State
    requires Enabled(s, step)
  {
    match step
    case DeviceAlloc(t, key, record) =>
      s.(live := s.live[key := record], inside := s.inside[t := Adding(key, record)])
    case TableAdd(t) =>
      var pc := s.inside[t];
      s.(table := s.table[pc.key := pc.record], inside := s.inside - {t}, returned := s.returned + {pc.key})
    case DeviceFree(t, key) =>
      s.(live := s.live - {key}, inside := s.inside[t := Removing(key)], returned := s.returned - {key})
    case TableRemove(t) =>
      s.(table := s.table - {s.inside[t].key}, inside := s.inside - {t})
    case DeviceRefuses(t) => s
  }

  // ----- what the list should be -----

  ghost predicate BeingAdded(s: State, key: Key) {
    exists t :: t in s.inside && s.inside[t].Adding? && s.inside[t].key == key
  }

  ghost predicate BeingRemoved(s: State, key: Key) {
    exists t :: t in s.inside && s.inside[t].Removing? && s.inside[t].key == key
  }

  /** Live and already listed by its alloc, or freed and not yet unlisted by its free. */
  ghost predicate ShouldBeListed(s: State, key: Key) {
    (key in s.live && !BeingAdded(s, key)) || BeingRemoved(s, key)
  }

  ghost predicate ListIsRight(s: State) {
    forall key :: key in s.table <==> ShouldBeListed(s, key)
  }

  /** Facts about threads and handles that hold whatever the device reissues. */
  ghost predicate Consistent(s: State) {
    && (forall t :: t in s.inside && s.inside[t].Adding? ==>
          && s.inside[t].key in s.live && s.live[s.inside[t].key] == s.inside[t].record
          && s.inside[t].key !in s.returned)
    && (forall t, u | t in s.inside && u in s.inside ::
          s.inside[t].Adding? && s.inside[u].Adding? && s.inside[t].key == s.inside[u].key ==> t == u)
    && (forall key :: key in s.returned ==> key in s.live)
  }

  lemma NextConsistent(s: State, step: Step)
    requires Consistent(s) && Enabled(s, step)
    ensures Consistent(Next(s, step))
  {
  }

  /**
   A free takes its handle off the list although the handle is live and listed
   again, or another free of it is still to come: its removal comes too late.
   */
  ghost predicate RemovesTooLate(s: State, step: Step)
    requires Enabled(s, step)
  {
    && step.TableRemove?
    && var key := s.inside[step.t].key;
       || (key in s.live && !BeingAdded(s, key))
       || (exists u :: u in s.inside && u != step.t && s.inside[u].Removing? && s.inside[u].key == key)
  }

  // How each kind of step changes who is being added and removed.

  lemma EnterChanges(s: State, t: Thread, pc: Pc, key: Key)
    requires t !in s.inside
    ensures var s' := s.(inside := s.inside[t := pc]);
      && (BeingAdded(s', key) <==> BeingAdded(s, key) || (pc.Adding? && pc.key == key))
      && (BeingRemoved(s', key) <==> BeingRemoved(s, key) || (pc.Removing? && pc.key == key))
  {
    var s' := s.(inside := s.inside[t := pc]);
    assert s'.inside[t] == pc;
    if BeingAdded(s, key) {
      var u :| u in s.inside && s.inside[u].Adding? && s.inside[u].key == key;
      assert s'.inside[u] == s.inside[u];
    }
    if BeingRemoved(s, key) {
      var u :| u in s.inside && s.inside[u].Removing? && s.inside[u].key == key;
      assert s'.inside[u] == s.inside[u];
    }
  }

  lemma LeaveChanges(s: State, t: Thread, key: Key)
    requires t in s.inside
    ensures var s' := s.(inside := s.inside - {t});
      && (s.inside[t].key != key || s.inside[t].Removing? ==> (BeingAdded(s', key) <==> BeingAdded(s, key)))
      && (s.inside[t].key != key || s.inside[t].Adding? ==> (BeingRemoved(s', key) <==> BeingRemoved(s, key)))
  {
    var s' := s.(inside := s.inside - {t});
    if BeingAdded(s, key) && (s.inside[t].key != key || s.inside[t].Removing?) {
      var u :| u in s.inside && s.inside[u].Adding? && s.inside[u].key == key;
      assert u in s'.inside;
    }
    if BeingRemoved(s, key) && (s.inside[t].key != key || s.inside[t].Adding?) {
      var u :| u in s.inside && s.inside[u].Removing? && s.inside[u].key == key;
      assert u in s'.inside;
    }
  }

  /** What should be listed, before and after a step. */
  lemma ShouldBeListedAfter(s: State, step: Step, key: Key)
    requires Consistent(s) && Enabled(s, step)
    ensures step.DeviceAlloc? || step.DeviceFree? || step.DeviceRefuses? ==>
      (ShouldBeListed(Next(s, step), key) <==> ShouldBeListed(s, key))
    ensures step.TableAdd? ==>
      (ShouldBeListed(Next(s, step), key) <==> ShouldBeListed(s, key) || key == s.inside[step.t].key)
    ensures step.TableRemove? && key != s.inside[step.t].key ==>
      (ShouldBeListed(Next(s, step), key) <==> ShouldBeListed(s, key))
    ensures step.TableRemove? && key == s.inside[step.t].key ==>
      (ShouldBeListed(Next(s, step), key) <==> RemovesTooLate(s, step))
  {
    match step
    case DeviceAlloc(t, k, record) => EnterChanges(s, t, Adding(k, record), key);
    case DeviceFree(t, k) => EnterChanges(s, t, Removing(k), key);
    case TableAdd(t) => LeaveChanges(s, t, key);
    case TableRemove(t) =>
      LeaveChanges(s, t, key);
      if key == s.inside[t].key && RemovesTooLate(s, step) && !(key in s.live && !BeingAdded(s, key)) {
        var u :| u in s.inside && u != t && s.inside[u].Removing? && s.inside[u].key == key;
        assert Next(s, step).inside[u] == s.inside[u];
      }
    case DeviceRefuses(_) =>
  }

  /** From a right list a step leads to a right list unless, and only unless, it removes too late. */
  lemma StepKeepsListIff(s: State, step: Step)
    requires Consistent(s) && Enabled(s, step) && ListIsRight(s)
    ensures ListIsRight(Next(s, step)) <==> !RemovesTooLate(s, step)
  {
    var s' := Next(s, step);
    forall key
      ensures step.TableRemove? && key == s.inside[step.t].key ==>
        (key in s'.table <==> ShouldBeListed(s', key)) == !RemovesTooLate(s, step)
      ensures !(step.TableRemove? && key == s.inside[step.t].key) ==> (key in s'.table <==> ShouldBeListed(s', key))
    {
      ShouldBeListedAfter(s, step, key);
    }
    if step.TableRemove? {
      var key := s.inside[step.t].key;
      assert (key in s'.table <==> ShouldBeListed(s', key)) == !RemovesTooLate(s, step);
    }
  }

  // ----- runs -----

  ghost predicate EnabledRun(s: State, steps: seq<Step>)
    decreases |steps|
  {
    steps == [] || (Enabled(s, steps[0]) && EnabledRun(Next(s, steps[0]), steps[1..]))
  }

  ghost function Run(s: State, steps: seq<Step>): State
    requires EnabledRun(s, steps)
    decreases |steps|
  {
    if steps == [] then s else Run(Next(s, steps[0]), steps[1..])
  }

  ghost predicate AlwaysRight(s: State, steps: seq<Step>)
    requires EnabledRun(s, steps)
    decreases |steps|
  {
    ListIsRight(s) && (steps == [] || AlwaysRight(Next(s, steps[0]), steps[1..]))
  }

  ghost predicate NeverTooLate(s: State, steps: seq<Step>)
    requires EnabledRun(s, steps)
    decreases |steps|
  {
    steps == [] || (!RemovesTooLate(s, steps[0]) && NeverTooLate(Next(s, steps[0]), steps[1..]))
  }

  /** In every run, of any length and interleaving: the list is right throughout iff no removal came too late. */
  lemma {:induction false} AlwaysRightIff(s: State, steps: seq<Step>)
    requires Consistent(s) && ListIsRight(s) && EnabledRun(s, steps)
    ensures AlwaysRight(s, steps) <==> NeverTooLate(s, steps)
    decreases |steps|
  {
    if steps != [] {
      StepKeepsListIff(s, steps[0]);
      NextConsistent(s, steps[0]);
      if !RemovesTooLate(s, steps[0]) {
        AlwaysRightIff(Next(s, steps[0]), steps[1..]);
      } else if |steps| > 0 {
        assert !ListIsRight(Next(s, steps[0]));
      }
    }
  }

  // ----- what alloc would have to see -----

  /** Every alloc that adds its handle finds it not yet in the list. */
  ghost predicate NoRelist(s: State, steps: seq<Step>)
    requires EnabledRun(s, steps)
    decreases |steps|
  {
    steps == []
    || ((steps[0].TableAdd? ==> s.inside[steps[0].t].key !in s.table)
        && NoRelist(Next(s, steps[0]), steps[1..]))
  }

  /** While the list is right, a handle that alloc finds in it is one that some free has still to take off. */
  lemma ListedMeansBeingRemoved(s: State, t: Thread)
    requires ListIsRight(s) && t in s.inside && s.inside[t].Adding?
    ensures s.inside[t].key in s.table <==> BeingRemoved(s, s.inside[t].key)
  {
    assert BeingAdded(s, s.inside[t].key);
  }

  /** Thread t is to take a handle off the list that is live and listed again, or that thread u is to take off as well. */
  ghost predicate Doomed(s: State, t: Thread, u: Thread) {
    && t in s.inside && s.inside[t].Removing?
    && var key := s.inside[t].key;
       || (key in s.live && !BeingAdded(s, key))
       || (u != t && u in s.inside && s.inside[u].Removing? && s.inside[u].key == key)
  }

  /** The list is right, with the records of the live handles, and no removal under way can spoil it. */
  ghost predicate Clean(s: State) {
    && Consistent(s) && ListIsRight(s)
    && (forall t, u :: !Doomed(s, t, u))
    && (forall key :: key in s.table && key in s.live && !BeingAdded(s, key) ==> s.table[key] == s.live[key])
  }

  lemma CleanIsNotTooLate(s: State, step: Step)
    requires Clean(s) && Enabled(s, step)
    ensures !RemovesTooLate(s, step)
  {
    if RemovesTooLate(s, step) {
      if u :| u in s.inside && u != step.t && s.inside[u].Removing? && s.inside[u].key == s.inside[step.t].key {
        assert Doomed(s, step.t, u);
      } else {
        assert Doomed(s, step.t, step.t);
      }
    }
  }

  /** A doomed state after a step was doomed before, or the step lists a handle that is being removed. */
  lemma DoomedBefore(s: State, step: Step, t: Thread, u: Thread)
    requires Consistent(s) && Enabled(s, step) && Doomed(Next(s, step), t, u)
    ensures (exists t', u' :: Doomed(s, t', u')) || (step.TableAdd? && BeingRemoved(s, s.inside[step.t].key))
  {
    var s' := Next(s, step);
    var key := s'.inside[t].key;
    match step
    case DeviceAlloc(x, k, record) =>
      EnterChanges(s, x, Adding(k, record), key);
      assert Doomed(s, t, u);
    case DeviceFree(x, k) =>
      EnterChanges(s, x, Removing(k), key);
      assert Doomed(s, t, u) || Doomed(s, u, t);
    case TableAdd(x) =>
      LeaveChanges(s, x, key);
      if key == s.inside[x].key {
        assert s.inside[t].Removing? && BeingRemoved(s, key);
      } else {
        assert Doomed(s, t, u);
      }
    case TableRemove(x) =>
      LeaveChanges(s, x, key);
      assert Doomed(s, t, u);
    case DeviceRefuses(_) =>
      assert Doomed(s, t, u);
  }

  lemma RecordsAgreeAfter(s: State, step: Step, key: Key)
    requires Clean(s) && Enabled(s, step)
    ensures var s' := Next(s, step);
      key in s'.table && key in s'.live && !BeingAdded(s', key) ==> s'.table[key] == s'.live[key]
  {
    match step
    case DeviceAlloc(t, k, record) => EnterChanges(s, t, Adding(k, record), key);
    case DeviceFree(t, k) => EnterChanges(s, t, Removing(k), key);
    case TableAdd(t) => LeaveChanges(s, t, key);
    case TableRemove(t) => LeaveChanges(s, t, key);
    case DeviceRefuses(_) =>
  }

  lemma CleanNext(s: State, step: Step)
    requires Clean(s) && Enabled(s, step)
    requires step.TableAdd? ==> s.inside[step.t].key !in s.table
    ensures Clean(Next(s, step))
  {
    var s' := Next(s, step);
    NextConsistent(s, step);
    CleanIsNotTooLate(s, step);
    StepKeepsListIff(s, step);
    if step.TableAdd? {
      ListedMeansBeingRemoved(s, step.t);
    }
    forall t, u
      ensures !Doomed(s', t, u)
    {
      if Doomed(s', t, u) {
        DoomedBefore(s, step, t, u);
      }
    }
    forall key
      ensures key in s'.table && key in s'.live && !BeingAdded(s', key) ==> s'.table[key] == s'.live[key]
    {
      RecordsAgreeAfter(s, step, key);
    }
  }

  /** Listing a handle that some free has still to take off dooms that free, or the next free of the handle. */
  lemma RelistDooms(s: State, t: Thread) returns (remover: Thread)
    requires Clean(s) && Enabled(s, TableAdd(t)) && s.inside[t].key in s.table
    ensures Doomed(Next(s, TableAdd(t)), remover, remover)
  {
    var key, s' := s.inside[t].key, Next(s, TableAdd(t));
    ListedMeansBeingRemoved(s, t);
    remover :| remover in s.inside && s.inside[remover].Removing? && s.inside[remover].key == key;
  }

  /** Once doomed, always doomed, until a removal comes too late. */
  lemma DoomedNext(s: State, step: Step, t: Thread, u: Thread) returns (t': Thread, u': Thread)
    requires Consistent(s) && Enabled(s, step) && Doomed(s, t, u) && !RemovesTooLate(s, step)
    ensures Doomed(Next(s, step), t', u')
  {
    var key := s.inside[t].key;
    t', u' := t, u;
    match step
    case DeviceAlloc(x, k, record) => EnterChanges(s, x, Adding(k, record), key);
    case DeviceFree(x, k) =>
      EnterChanges(s, x, Removing(k), key);
      if k == key {
        u' := x;
      }
    case TableAdd(x) =>
      if s.inside[x].key == key {
        assert BeingAdded(s, key);
      } else {
        LeaveChanges(s, x, key);
      }
    case TableRemove(x) =>
      LeaveChanges(s, x, key);
    case DeviceRefuses(_) =>
  }

  /** No run can complete all its calls from a doomed state without removing too late. */
  lemma {:induction false} DoomedFails(s: State, steps: seq<Step>, t: Thread, u: Thread)
    requires Consistent(s) && Doomed(s, t, u) && EnabledRun(s, steps) && Run(s, steps).inside == map[]
    ensures !NeverTooLate(s, steps)
    decreases |steps|
  {
    if !RemovesTooLate(s, steps[0]) {
      var t', u' := DoomedNext(s, steps[0], t, u);
      NextConsistent(s, steps[0]);
      DoomedFails(Next(s, steps[0]), steps[1..], t', u');
    }
  }

  /** As long as alloc never finds its handle listed, everything stays clean. */
  lemma {:induction false} NoRelistKeepsClean(s: State, steps: seq<Step>)
    requires Clean(s) && EnabledRun(s, steps) && NoRelist(s, steps)
    ensures Clean(Run(s, steps)) && AlwaysRight(s, steps)
    decreases |steps|
  {
    if steps != [] {
      CleanNext(s, steps[0]);
      NoRelistKeepsClean(Next(s, steps[0]), steps[1..]);
    }
  }

  /** In every run that completes its calls, a right list means that no alloc found its handle listed. */
  lemma {:induction false} RightMeansNoRelist(s: State, steps: seq<Step>)
    requires Clean(s) && EnabledRun(s, steps) && Run(s, steps).inside == map[] && AlwaysRight(s, steps)
    ensures NoRelist(s, steps)
    decreases |steps|
  {
    if steps != [] {
      var s' := Next(s, steps[0]);
      if steps[0].TableAdd? && s.inside[steps[0].t].key in s.table {
        var remover := RelistDooms(s, steps[0].t);
        NextConsistent(s, steps[0]);
        DoomedFails(s', steps[1..], remover, remover);
        AlwaysRightIff(s', steps[1..]);
      } else {
        CleanNext(s, steps[0]);
        RightMeansNoRelist(s', steps[1..]);
      }
    }
  }

  /**
   For every interleaving of any number of threads in which all calls complete:
   the list is right after every step if and only if no alloc, adding its handle
   under the lock, found it in the list already. Then the list ends as the live
   handles with their records.
   */
  lemma RightIffNoRelist(steps: seq<Step>)
    requires EnabledRun(INITIAL, steps) && Run(INITIAL, steps).inside == map[]
    ensures AlwaysRight(INITIAL, steps) <==> NoRelist(INITIAL, steps)
    ensures NoRelist(INITIAL, steps) ==> Run(INITIAL, steps).table == Run(INITIAL, steps).live
  {
    if AlwaysRight(INITIAL, steps) {
      RightMeansNoRelist(INITIAL, steps);
    }
    if NoRelist(INITIAL, steps) {
      NoRelistKeepsClean(INITIAL, steps);
      QuietAndClean(Run(INITIAL, steps));
    }
  }

  lemma QuietAndClean(s: State)
    requires Clean(s) && s.inside == map[]
    ensures s.table == s.live
  {
    assert forall key :: !BeingAdded(s, key) && !BeingRemoved(s, key);
    assert forall key :: ShouldBeListed(s, key) <==> key in s.live;
    assert s.table.Keys == s.live.Keys;
  }

  // ----- a device that waits for pending removals -----

  /** The device does not return a handle that some free has still to unlist. */
  ghost predicate NoEarlyReissue(s: State, steps: seq<Step>)
    requires EnabledRun(s, steps)
    decreases |steps|
  {
    steps == []
    || ((steps[0].DeviceAlloc? ==> !BeingRemoved(s, steps[0].key))
        && NoEarlyReissue(Next(s, steps[0]), steps[1..]))
  }

  /** No handle is being added and removed at once. */
  ghost predicate Apart(s: State) {
    forall key :: !(BeingAdded(s, key) && BeingRemoved(s, key))
  }

  lemma ApartNext(s: State, step: Step)
    requires Consistent(s) && Apart(s) && Enabled(s, step)
    requires step.DeviceAlloc? ==> !BeingRemoved(s, step.key)
    ensures Apart(Next(s, step))
  {
    forall key
      ensures !(BeingAdded(Next(s, step), key) && BeingRemoved(Next(s, step), key))
    {
      match step
      case DeviceAlloc(t, k, record) => EnterChanges(s, t, Adding(k, record), key);
      case DeviceFree(t, k) => EnterChanges(s, t, Removing(k), key);
      case TableAdd(t) => LeaveChanges(s, t, key);
      case TableRemove(t) => LeaveChanges(s, t, key);
      case DeviceRefuses(_) =>
    }
  }

  lemma {:induction false} NoReissueNoRelist(s: State, steps: seq<Step>)
    requires Clean(s) && Apart(s) && EnabledRun(s, steps) && NoEarlyReissue(s, steps)
    ensures NoRelist(s, steps)
    decreases |steps|
  {
    if steps != [] {
      if steps[0].TableAdd? {
        ListedMeansBeingRemoved(s, steps[0].t);
        assert BeingAdded(s, s.inside[steps[0].t].key);
      }
      CleanNext(s, steps[0]);
      ApartNext(s, steps[0]);
      NoReissueNoRelist(Next(s, steps[0]), steps[1..]);
    }
  }

  /**
   With a device that does not reissue early: the list is right after every
   step, and when no call is under way it is the live handles with their records.
   */
  lemma ListMatchesDevice(steps: seq<Step>)
    requires EnabledRun(INITIAL, steps) && NoEarlyReissue(INITIAL, steps)
    ensures AlwaysRight(INITIAL, steps)
    ensures Run(INITIAL, steps).inside == map[] ==> Run(INITIAL, steps).table == Run(INITIAL, steps).live
  {
    NoReissueNoRelist(INITIAL, steps);
    NoRelistKeepsClean(INITIAL, steps);
    if Run(INITIAL, steps).inside == map[] {
      QuietAndClean(Run(INITIAL, steps));
    }
  }

  /** Without that assumption the list can end up without a live handle. */
  lemma EarlyReissueLosesEntry(key: Key, record: Rec)
    ensures var steps := [DeviceAlloc(0, key, record), TableAdd(0), DeviceFree(0, key),
                          DeviceAlloc(1, key, record), TableAdd(1), TableRemove(0)];
      && EnabledRun(INITIAL, steps)
      && Run(INITIAL, steps).inside == map[] && key in Run(INITIAL, steps).live && key !in Run(INITIAL, steps).table
  {
    var s1 := Next(INITIAL, DeviceAlloc(0, key, record));
    var s2 := Next(s1, TableAdd(0));
    var s3 := Next(s2, DeviceFree(0, key));
    var s4 := Next(s3, DeviceAlloc(1, key, record));
    var s5 := Next(s4, TableAdd(1));
    var s6 := Next(s5, TableRemove(0));
    RunOfSix(INITIAL, [DeviceAlloc(0, key, record), TableAdd(0), DeviceFree(0, key),
                       DeviceAlloc(1, key, record), TableAdd(1), TableRemove(0)], s1, s2, s3, s4, s5, s6);
    assert s6.inside == map[];
  }

  lemma RunOfSix(s: State, steps: seq<Step>, s1: State, s2: State, s3: State, s4: State, s5: State, s6: State)
    requires |steps| == 6
    requires Enabled(s, steps[0]) && s1 == Next(s, steps[0])
    requires Enabled(s1, steps[1]) && s2 == Next(s1, steps[1])
    requires Enabled(s2, steps[2]) && s3 == Next(s2, steps[2])
    requires Enabled(s3, steps[3]) && s4 == Next(s3, steps[3])
    requires Enabled(s4, steps[4]) && s5 == Next(s4, steps[4])
    requires Enabled(s5, steps[5]) && s6 == Next(s5, steps[5])
    ensures EnabledRun(s, steps) && Run(s, steps) == s6
  {
    assert EnabledRun(s6, steps[6..]) && Run(s6, steps[6..]) == s6;
    assert steps[5..][1..] == steps[6..] && EnabledRun(s5, steps[5..]) && Run(s5, steps[5..]) == s6;
    assert steps[4..][1..] == steps[5..] && EnabledRun(s4, steps[4..]) && Run(s4, steps[4..]) == s6;
    assert steps[3..][1..] == steps[4..] && EnabledRun(s3, steps[3..]) && Run(s3, steps[3..]) == s6;
    assert steps[2..][1..] == steps[3..] && EnabledRun(s2, steps[2..]) && Run(s2, steps[2..]) == s6;
    assert steps[1..][1..] == steps[2..] && EnabledRun(s1, steps[1..]) && Run(s1, steps[1..]) == s6;
  }

  // ----- the two steps of one call, back to back -----

  /** An uninterrupted alloc is the allocator's method: it lists what the device granted. */
  lemma AllocIsTwoSteps(env: Env, t: Thread, w: int32, h: int32, format: int32, bpp: nat, grant: Grant, s: State)
    requires env.device == s.live.Keys && env.table == s.table && t !in s.inside && env.next !in s.live
    ensures var env' := Allocate(env, w, h, format, bpp, Some(grant));
      var step := DeviceAlloc(t, env.next, env'.table[env.next]);
      var s' := Next(Next(s, step), TableAdd(t));
      s'.table == env'.table && s'.live.Keys == env'.device && s'.inside == s.inside
  {
    assert s.inside[t := Adding(env.next, Allocate(env, w, h, format, bpp, Some(grant)).table[env.next])] - {t} == s.inside;
  }

  lemma FreeIsTwoSteps(env: Env, t: Thread, key: Key, s: State)
    requires env.device == s.live.Keys && env.table == s.table && t !in s.inside && key in s.returned
    ensures var env' := Free(env, key, true);
      var s' := Next(Next(s, DeviceFree(t, key)), TableRemove(t));
      s'.table == env'.table && s'.live.Keys == env'.device && s'.inside == s.inside
  {
    assert s.inside[t := Removing(key)] - {t} == s.inside;
  }
}
