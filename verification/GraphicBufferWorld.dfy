/**
 Any number of graphic buffers over one device: whatever clients that do not
 share owned handles do, and whatever the device answers, no handle is freed
 twice or used after it was freed, and exactly the handles of a few failing
 calls are lost.
 */
module GraphicBufferWorld {
  import opened Wrappers
  import opened CTypes
  import opened GraphicBufferWire
  import opened GraphicBuffer

  type Id = nat

  /** The buffers, the device, and the native handles clients hold themselves. */
  datatype World = World(bufs: map<Id, Buffer>, env: Env, held: set<Key>)

  datatype Op =
    | NewEmpty(id: Id, uid: int)
    | NewSized(id: Id, uid: int, g: Geometry, bpp: nat, grant: Option<Grant>)
    | NewWrapping(id: Id, uid: int, g: Geometry, handle: Option<Handle>, keep: bool)
    | Realloc(id: Id, g: Geometry, bpp: nat, freed: bool, grant: Option<Grant>)
    | Receive(id: Id, m: Message, freed: bool, created: bool, registered: bool)
    | Delete(id: Id, freed: bool)
    | ClientCreates
    | ClientCloses(key: Key)

  /** A client gives away, or closes, only native handles it holds. */
  predicate Enabled(w: World, op: Op) {
    match op
    case NewEmpty(id, _) => id !in w.bufs
    case NewSized(id, _, _, _, _) => id !in w.bufs
    case NewWrapping(id, _, _, handle, keep) =>
      id !in w.bufs && (keep && handle.Some? ==> handle.value.key in w.held)
    case ClientCreates => true
    case ClientCloses(key) => key in w.held
    case _ => op.id in w.bufs
  }

  function Put(w: World, id: Id, b: Buffer, env: Env, held: set<Key>): World {
    World(w.bufs[id := b], env, held)
  }

  function Step(w: World, op: Op): World
    requires Enabled(w, op)
  {
    match op
    case NewEmpty(id, uid) => Put(w, id, Buffer(NO_GEOMETRY, uid, None, ownData), w.env, w.held)
    case NewSized(id, uid, g, bpp, grant) =>
      var (_, b, env) := InitSize(Buffer(NO_GEOMETRY, uid, None, ownData), w.env, g, bpp, grant);
      Put(w, id, b, env, w.held)
    case NewWrapping(id, uid, g, handle, keep) =>
      Put(w, id, Buffer(g, uid, handle, if keep then ownHandle else ownNone), w.env,
          if keep && handle.Some? then w.held - {handle.value.key} else w.held)
    case Realloc(id, g, bpp, freed, grant) =>
      var (_, b, env) := Reallocate(w.bufs[id], w.env, g, bpp, freed, grant);
      Put(w, id, b, env, w.held)
    case Receive(id, m, freed, created, registered) =>
      var (_, b, env) := TakeOver(w.bufs[id], w.env, m, freed, created, registered);
      Put(w, id, b, env, w.held)
    case Delete(id, freed) => World(w.bufs - {id}, Destroy(w.bufs[id], w.env, freed), w.held)
    case ClientCreates => World(w.bufs, Create(w.env), w.held + {w.env.next})
    case ClientCloses(key) => World(w.bufs, Close(w.env, key), w.held - {key})
  }

  // ----- the invariant -----

  /** The buffer is responsible for the handle. */
  predicate Owns(b: Buffer, key: Key) {
    b.handle.Some? && b.owner != ownNone && b.handle.value.key == key
  }

  function LiveKeys(env: Env): set<Key> {
    env.device + env.native
  }

  ghost predicate Sound(env: Env) {
    && !env.misused
    && env.table.Keys == env.device
    && (forall key :: key in env.device ==> key < env.next)
    && (forall key :: key in env.native ==> key < env.next)
    && (forall key :: key in env.device ==> key !in env.native)
  }

  /** What a buffer owns is live, of the right kind, and nobody else's. */
  ghost predicate OwnsLive(b: Buffer, env: Env, held: set<Key>) {
    forall key :: Owns(b, key) ==>
      && key !in held
      && (b.owner == ownData ==> key in env.device && key in env.table)
      && (b.owner == ownHandle ==> key in env.native)
  }

  ghost predicate Inv(w: World) {
    && Sound(w.env)
    && (forall id :: id in w.bufs ==> OwnsLive(w.bufs[id], w.env, w.held))
    && (forall i, j, key :: i in w.bufs && j in w.bufs && Owns(w.bufs[i], key) && Owns(w.bufs[j], key) ==> i == j)
    && w.held <= w.env.native
  }

  ghost predicate Owned(bufs: map<Id, Buffer>, key: Key) {
    exists id :: id in bufs && Owns(bufs[id], key)
  }

  /** Live handles nobody is responsible for. */
  ghost function Leaked(w: World): set<Key> {
    set key | key in LiveKeys(w.env) && key !in w.held && !Owned(w.bufs, key)
  }

  // ----- operations that change one buffer -----

  /** What an operation on a buffer `b` may turn it, the device and the clients' handles into. */
  ghost predicate Proper(w: World, b: Buffer, b': Buffer, env: Env, held: set<Key>) {
    && Sound(env) && w.env.next <= env.next && OwnsLive(b', env, held)
    && (forall key :: key in w.env.device ==> key in env.device || Owns(b, key))
    && (forall key :: key in w.env.native ==> key in env.native || Owns(b, key))
    && (forall key :: key in env.device ==> key in w.env.device || w.env.next <= key)
    && (forall key :: key in env.native ==> key in w.env.native || w.env.next <= key)
    && (forall key :: Owns(b', key) ==> Owns(b, key) || key in w.held || w.env.next <= key)
    && held <= env.native && held <= w.held
    && (forall key :: key in w.held ==> key in held || Owns(b', key))
  }

  /** Handles live afterwards that were the buffer's or are new, and are now nobody's. */
  ghost function Dropped(w: World, b: Buffer, b': Buffer, env: Env, held: set<Key>): set<Key> {
    set key | key in LiveKeys(env) && key !in held && !Owns(b', key) && (Owns(b, key) || key !in LiveKeys(w.env))
  }

  lemma ProperKeepsInv(w: World, id: Id, b': Buffer, env: Env, held: set<Key>)
    requires Inv(w) && id in w.bufs && Proper(w, w.bufs[id], b', env, held)
    ensures Inv(Put(w, id, b', env, held))
  {
    var w' := Put(w, id, b', env, held);
    forall k | k in w'.bufs
      ensures OwnsLive(w'.bufs[k], env, held)
    {
      if k != id {
        assert OwnsLive(w.bufs[k], w.env, w.held);
      }
    }
  }

  lemma ProperLeaks(w: World, id: Id, b': Buffer, env: Env, held: set<Key>)
    requires Inv(w) && id in w.bufs && Proper(w, w.bufs[id], b', env, held)
    ensures Leaked(Put(w, id, b', env, held)) == Leaked(w) + Dropped(w, w.bufs[id], b', env, held)
  {
    var b, w' := w.bufs[id], Put(w, id, b', env, held);
    forall key | key in LiveKeys(env)
      ensures Owned(w'.bufs, key) <==> Owns(b', key) || (!Owns(b, key) && Owned(w.bufs, key))
    {
      if Owns(b', key) {
        assert Owns(w'.bufs[id], key);
      } else if !Owns(b, key) && Owned(w.bufs, key) {
        var k :| k in w.bufs && Owns(w.bufs[k], key);
        assert Owns(w'.bufs[k], key);
      }
    }
    forall key | Owned(w.bufs, key)
      ensures key in LiveKeys(w.env)
    {
      var k :| k in w.bufs && Owns(w.bufs[k], key);
      assert OwnsLive(w.bufs[k], w.env, w.held);
    }
  }

  // ----- the device keeps its books -----

  lemma AllocateSound(env: Env, w: int32, h: int32, format: int32, bpp: nat, grant: Option<Grant>)
    requires Sound(env)
    ensures Sound(Allocate(env, w, h, format, bpp, grant))
  {
  }

  lemma FreeSound(env: Env, key: Key, freed: bool)
    requires Sound(env) && key in env.device
    ensures Sound(Free(env, key, freed))
  {
  }

  lemma DestroyProper(w: World, id: Id, b: Buffer, freed: bool)
    requires Inv(w) && id in w.bufs && b == w.bufs[id]
    ensures var gone := b.(handle := None); Proper(w, b, gone, Destroy(b, w.env, freed), w.held)
    ensures var gone := b.(handle := None);
      Dropped(w, b, gone, Destroy(b, w.env, freed), w.held)
      == if b.handle.Some? && b.owner == ownData && !freed then {b.handle.value.key} else {}
  {
    if b.handle.Some? {
      var key := b.handle.value.key;
      assert OwnsLive(b, w.env, w.held);
      assert b.owner != ownNone ==> Owns(b, key);
      if b.owner == ownData {
        FreeSound(w.env, key, freed);
      }
    }
  }

  /** A buffer without a handle gets one from the device, or does not. */
  lemma InitProper(w: World, id: Id, b: Buffer, g: Geometry, bpp: nat, grant: Option<Grant>)
    requires Inv(w) && id in w.bufs && b == w.bufs[id] && b.handle == None && b.owner == ownData
    ensures var (_, b', env) := InitSize(b, w.env, g, bpp, grant);
      Proper(w, b, b', env, w.held) && Dropped(w, b, b', env, w.held) == {}
  {
    AllocateSound(w.env, g.width, g.height, g.format, bpp, grant);
  }

  /** A buffer without a handle creates and registers one for a message. */
  lemma AcceptProper(w: World, id: Id, b: Buffer, m: Message, freed: bool, created: bool, registered: bool)
    requires Inv(w) && id in w.bufs && b == w.bufs[id] && b.handle == None
    ensures var (_, b', env) := TakeOver(b, w.env, m, freed, created, registered);
      && Proper(w, b, b', env, w.held)
      && Dropped(w, b, b', env, w.held) == if CreatesInVain(m, created, registered) then {w.env.next} else {}
  {
  }

  /** The message has a handle to create, which is created but not registered. */
  predicate CreatesInVain(m: Message, created: bool, registered: bool) {
    m.status == NO_ERROR && |m.fds| + |m.ints| > 0 && created && !registered
  }

  // ----- what is lost -----

  /** A handle owned from the device whose free the device refuses. */
  function NotFreed(b: Buffer, freed: bool): set<Key> {
    if b.handle.Some? && b.owner == ownData && !freed then {b.handle.value.key} else {}
  }

  function OwnedKeys(b: Buffer): set<Key> {
    if b.handle.Some? && b.owner != ownNone then {b.handle.value.key} else {}
  }

  /** The handles a step leaves to nobody. */
  function Lost(w: World, op: Op): set<Key>
    requires Enabled(w, op)
  {
    match op
    case Realloc(id, g, _, freed, _) =>
      var b := w.bufs[id];
      if b.handle.Some? && g == b.geometry.(stride := g.stride) then {} else NotFreed(b, freed)
    case Receive(id, m, freed, created, registered) =>
      if m.status == BAD_VALUE then OwnedKeys(w.bufs[id])
      else if m.status != NO_ERROR then {}
      else NotFreed(w.bufs[id], freed) + if CreatesInVain(m, created, registered) then {w.env.next} else {}
    case Delete(id, freed) => NotFreed(w.bufs[id], freed)
    case _ => {}
  }

  // ----- each operation -----

  /** Giving up the handle, in the way the buffer's ownership asks for. */
  lemma GiveUp(w: World, id: Id, freed: bool)
    requires Inv(w) && id in w.bufs
    ensures var w1 := Put(w, id, w.bufs[id].(handle := None), Destroy(w.bufs[id], w.env, freed), w.held);
      Inv(w1) && Leaked(w1) == Leaked(w) + NotFreed(w.bufs[id], freed)
  {
    var b := w.bufs[id];
    DestroyProper(w, id, b, freed);
    ProperKeepsInv(w, id, b.(handle := None), Destroy(b, w.env, freed), w.held);
    ProperLeaks(w, id, b.(handle := None), Destroy(b, w.env, freed), w.held);
  }

  /** The world after `GiveUp`. */
  function GivenUp(w: World, id: Id, freed: bool): World
    requires id in w.bufs
  {
    Put(w, id, w.bufs[id].(handle := None), Destroy(w.bufs[id], w.env, freed), w.held)
  }

  /** Giving up the handle, then a proper change of the buffer without it. */
  lemma GiveUpThen(w: World, id: Id, freed: bool, b': Buffer, env: Env)
    requires Inv(w) && id in w.bufs
    requires Proper(GivenUp(w, id, freed), w.bufs[id].(handle := None), b', env, w.held)
    ensures Inv(Put(w, id, b', env, w.held))
    ensures Leaked(Put(w, id, b', env, w.held))
      == Leaked(w) + NotFreed(w.bufs[id], freed)
         + Dropped(GivenUp(w, id, freed), w.bufs[id].(handle := None), b', env, w.held)
  {
    var w1 := GivenUp(w, id, freed);
    GiveUp(w, id, freed);
    ProperKeepsInv(w1, id, b', env, w.held);
    ProperLeaks(w1, id, b', env, w.held);
    assert Put(w, id, b', env, w.held) == Put(w1, id, b', env, w.held);
  }

  lemma PutSame(w: World, id: Id)
    requires id in w.bufs
    ensures Put(w, id, w.bufs[id], w.env, w.held) == w
  {
    assert w.bufs[id := w.bufs[id]] == w.bufs;
  }

  lemma ReallocStep(w: World, op: Op)
    requires Inv(w) && op.Realloc? && Enabled(w, op)
    ensures Inv(Step(w, op)) && Leaked(Step(w, op)) == Leaked(w) + Lost(w, op)
  {
    var b := w.bufs[op.id];
    if b.owner != ownData || (b.handle.Some? && op.g == b.geometry.(stride := op.g.stride)) {
      PutSame(w, op.id);
    } else {
      var gone, w1 := b.(handle := None), GivenUp(w, op.id, op.freed);
      GiveUp(w, op.id, op.freed);
      InitProper(w1, op.id, gone, op.g, op.bpp, op.grant);
      var (_, b', env) := InitSize(gone, w1.env, op.g, op.bpp, op.grant);
      GiveUpThen(w, op.id, op.freed, b', env);
    }
  }

  /** A message that passes the checks is taken over in two stages. */
  lemma AcceptStep(w: World, op: Op)
    requires Inv(w) && op.Receive? && Enabled(w, op) && op.m.status == NO_ERROR
    ensures Inv(Step(w, op)) && Leaked(Step(w, op)) == Leaked(w) + Lost(w, op)
  {
    var b, m, w1 := w.bufs[op.id], op.m, GivenUp(w, op.id, op.freed);
    var gone := b.(handle := None);
    GiveUp(w, op.id, op.freed);
    AcceptProper(w1, op.id, gone, m, op.freed, op.created, op.registered);
    var (_, b', env) := TakeOver(gone, w1.env, m, op.freed, op.created, op.registered);
    GiveUpThen(w, op.id, op.freed, b', env);
    assert w1.env.next == w.env.next;
  }

  lemma ReceiveStep(w: World, op: Op)
    requires Inv(w) && op.Receive? && Enabled(w, op)
    ensures Inv(Step(w, op)) && Leaked(Step(w, op)) == Leaked(w) + Lost(w, op)
  {
    var b, m := w.bufs[op.id], op.m;
    if m.status == BAD_VALUE {
      ForgetStep(w, op.id, b.(geometry := NO_GEOMETRY, handle := None));
    } else if m.status != NO_ERROR {
      PutSame(w, op.id);
    } else {
      AcceptStep(w, op);
    }
  }

  /** Dropping the handle without giving it up loses it, if it was owned. */
  lemma ForgetStep(w: World, id: Id, b': Buffer)
    requires Inv(w) && id in w.bufs && b'.handle == None
    ensures var w' := Put(w, id, b', w.env, w.held);
      Inv(w') && Leaked(w') == Leaked(w) + OwnedKeys(w.bufs[id])
  {
    var b := w.bufs[id];
    assert OwnsLive(b, w.env, w.held);
    ProperKeepsInv(w, id, b', w.env, w.held);
    ProperLeaks(w, id, b', w.env, w.held);
    assert b.handle.Some? && b.owner != ownNone ==> Owns(b, b.handle.value.key);
    assert Dropped(w, b, b', w.env, w.held) == OwnedKeys(b);
  }

  /** Worlds that differ in a buffer that owns nothing have the same owners. */
  lemma SameOwners(w: World, w': World, id: Id)
    requires w.env == w'.env && w.held == w'.held
    requires id in w'.bufs && w'.bufs == w.bufs[id := w'.bufs[id]]
    requires w'.bufs[id].handle == None && (id in w.bufs ==> w.bufs[id].handle == None)
    ensures Leaked(w) == Leaked(w') && (Inv(w) <==> Inv(w'))
  {
    forall key
      ensures Owned(w.bufs, key) <==> Owned(w'.bufs, key)
    {
      if Owned(w.bufs, key) {
        var k :| k in w.bufs && Owns(w.bufs[k], key);
        assert Owns(w'.bufs[k], key);
      }
    }
    assert forall k, key :: k in w.bufs && Owns(w.bufs[k], key) ==> Owns(w'.bufs[k], key);
    assert forall k, key :: k in w'.bufs && Owns(w'.bufs[k], key) ==> k in w.bufs && Owns(w.bufs[k], key);
    if Inv(w') {
      forall k | k in w.bufs
        ensures OwnsLive(w.bufs[k], w.env, w.held)
      {
        assert OwnsLive(w'.bufs[k], w'.env, w'.held);
      }
    }
    if Inv(w) {
      forall k | k in w'.bufs
        ensures OwnsLive(w'.bufs[k], w.env, w.held)
      {
        assert k in w.bufs ==> OwnsLive(w.bufs[k], w.env, w.held);
      }
    }
  }

  lemma DeleteStep(w: World, op: Op)
    requires Inv(w) && op.Delete? && Enabled(w, op)
    ensures Inv(Step(w, op)) && Leaked(Step(w, op)) == Leaked(w) + Lost(w, op)
  {
    var gone := w.bufs[op.id].(handle := None);
    var w1, w' := Put(w, op.id, gone, Destroy(w.bufs[op.id], w.env, op.freed), w.held), Step(w, op);
    GiveUp(w, op.id, op.freed);
    assert w1.bufs == w'.bufs[op.id := gone];
    SameOwners(w', w1, op.id);
  }

  predicate IsConstructor(op: Op) {
    op.NewEmpty? || op.NewSized? || op.NewWrapping?
  }

  /** Every constructor gives a buffer without a handle its first one in a proper way. */
  lemma ConstructorProper(w: World, op: Op)
    requires IsConstructor(op) && Enabled(w, op)
    requires Inv(Put(w, op.id, Buffer(NO_GEOMETRY, op.uid, None, ownData), w.env, w.held))
    ensures var empty, w' := Buffer(NO_GEOMETRY, op.uid, None, ownData), Step(w, op);
      var w0 := Put(w, op.id, empty, w.env, w.held);
      && w' == Put(w0, op.id, w'.bufs[op.id], w'.env, w'.held)
      && Proper(w0, empty, w'.bufs[op.id], w'.env, w'.held)
      && Dropped(w0, empty, w'.bufs[op.id], w'.env, w'.held) == {}
  {
    var empty := Buffer(NO_GEOMETRY, op.uid, None, ownData);
    if op.NewSized? {
      InitProper(Put(w, op.id, empty, w.env, w.held), op.id, empty, op.g, op.bpp, op.grant);
    }
  }

  lemma ConstructorStep(w: World, op: Op)
    requires Inv(w) && Enabled(w, op) && IsConstructor(op)
    ensures Inv(Step(w, op)) && Leaked(Step(w, op)) == Leaked(w)
  {
    var empty := Buffer(NO_GEOMETRY, op.uid, None, ownData);
    var w0, w' := Put(w, op.id, empty, w.env, w.held), Step(w, op);
    SameOwners(w, w0, op.id);
    ConstructorProper(w, op);
    ProperKeepsInv(w0, op.id, w'.bufs[op.id], w'.env, w'.held);
    ProperLeaks(w0, op.id, w'.bufs[op.id], w'.env, w'.held);
  }

  lemma ClientStep(w: World, op: Op)
    requires Inv(w) && Enabled(w, op) && (op.ClientCreates? || op.ClientCloses?)
    ensures Inv(Step(w, op)) && Leaked(Step(w, op)) == Leaked(w)
  {
    var w' := Step(w, op);
    forall id | id in w.bufs
      ensures OwnsLive(w.bufs[id], w'.env, w'.held)
    {
      assert OwnsLive(w.bufs[id], w.env, w.held);
    }
    var key := if op.ClientCreates? then w.env.next else op.key;
    assert !Owned(w.bufs, key) by {
      forall id | id in w.bufs
        ensures !Owns(w.bufs[id], key)
      {
        assert OwnsLive(w.bufs[id], w.env, w.held);
      }
    }
  }

  /**
   One step with any answers of the device: exclusive ownership is kept, nothing
   that is not live is freed, closed or registered, and exactly `Lost` is lost.
   */
  lemma StepKeepsOwnership(w: World, op: Op)
    requires Inv(w) && Enabled(w, op)
    ensures Inv(Step(w, op)) && Leaked(Step(w, op)) == Leaked(w) + Lost(w, op)
  {
    match op
    case Realloc(_, _, _, _, _) => ReallocStep(w, op);
    case Receive(_, _, _, _, _) => ReceiveStep(w, op);
    case Delete(_, _) => DeleteStep(w, op);
    case ClientCreates => ClientStep(w, op);
    case ClientCloses(_) => ClientStep(w, op);
    case _ => ConstructorStep(w, op);
  }

  // ----- runs -----

  const EMPTY_WORLD := World(map[], Env({}, {}, map[], 0, false), {})

  ghost predicate EnabledRun(w: World, ops: seq<Op>)
    decreases |ops|
  {
    ops == [] || (Enabled(w, ops[0]) && EnabledRun(Step(w, ops[0]), ops[1..]))
  }

  ghost function Run(w: World, ops: seq<Op>): World
    requires EnabledRun(w, ops)
    decreases |ops|
  {
    if ops == [] then w else Run(Step(w, ops[0]), ops[1..])
  }

  /** Some step of the run loses a handle. */
  ghost predicate RunLoses(w: World, ops: seq<Op>)
    requires EnabledRun(w, ops)
    decreases |ops|
  {
    ops != [] && (Lost(w, ops[0]) != {} || RunLoses(Step(w, ops[0]), ops[1..]))
  }

  lemma {:induction false} RunKeepsOwnership(w: World, ops: seq<Op>)
    requires Inv(w) && EnabledRun(w, ops)
    ensures Inv(Run(w, ops)) && Leaked(w) <= Leaked(Run(w, ops))
    ensures Leaked(w) == {} ==> (Leaked(Run(w, ops)) == {} <==> !RunLoses(w, ops))
    decreases |ops|
  {
    if ops != [] {
      StepKeepsOwnership(w, ops[0]);
      RunKeepsOwnership(Step(w, ops[0]), ops[1..]);
    }
  }

  /**
   From nothing, in every run: no handle is freed twice or used after it was
   freed, every handle owned as data is live, listed by the allocator and owned
   once, and no handle is lost exactly when no step lost one.
   */
  lemma HandlesAreSafe(ops: seq<Op>)
    requires EnabledRun(EMPTY_WORLD, ops)
    ensures var w := Run(EMPTY_WORLD, ops);
      && !w.env.misused
      && (forall id :: id in w.bufs && w.bufs[id].handle.Some? && w.bufs[id].owner == ownData ==>
            var key := w.bufs[id].handle.value.key;
            && key in w.env.device && key in w.env.table
            && (forall other :: other in w.bufs && Owns(w.bufs[other], key) ==> other == id))
      && (Leaked(w) == {} <==> !RunLoses(EMPTY_WORLD, ops))
  {
    RunKeepsOwnership(EMPTY_WORLD, ops);
    assert Leaked(EMPTY_WORLD) == {};
    var w := Run(EMPTY_WORLD, ops);
    forall id | id in w.bufs && w.bufs[id].handle.Some? && w.bufs[id].owner == ownData
      ensures var key := w.bufs[id].handle.value.key;
        && key in w.env.device && key in w.env.table
        && (forall other :: other in w.bufs && Owns(w.bufs[other], key) ==> other == id)
    {
      assert Owns(w.bufs[id], w.bufs[id].handle.value.key);
      assert OwnsLive(w.bufs[id], w.env, w.held);
    }
  }

  // ----- what the constructors give -----

  /** Each new buffer has the id, geometry, handle and ownership it was constructed with. */
  lemma ConstructorsGive(w: World, id: Id, uid: int, g: Geometry, bpp: nat, grant: Grant, handle: Option<Handle>, keep: bool)
    requires id !in w.bufs && (keep && handle.Some? ==> handle.value.key in w.held)
    ensures Step(w, NewEmpty(id, uid)).bufs == w.bufs[id := Buffer(Geometry(0, 0, 0, 0, 0), uid, None, ownData)]
    ensures Step(w, NewSized(id, uid, g, bpp, Some(grant))).bufs
         == w.bufs[id := Buffer(Geometry(g.width, g.height, grant.stride, g.format, g.usage), uid,
                                Some(Handle(w.env.next, grant.fds, grant.ints)), ownData)]
    ensures Step(w, NewSized(id, uid, g, bpp, None)).bufs
         == w.bufs[id := Buffer(Geometry(0, 0, 0, 0, 0), uid, None, ownData)]
    ensures var w' := Step(w, NewWrapping(id, uid, g, handle, keep));
      && w'.bufs == w.bufs[id := Buffer(g, uid, handle, if keep then ownHandle else ownNone)]
      && w'.held == (if keep && handle.Some? then w.held - {handle.value.key} else w.held)
  {
  }

  // ----- handles do get lost -----

  /** A message that claims too many fds. */
  const TOO_MANY_FDS: seq<int32> := [GBFR, 0, 0, 0, 0, 0, 0, 0, 4096, 0]

  /** From every reachable state, such a message makes any buffer lose the handle it owns. */
  lemma BadMessageLosesHandle(w: World, id: Id, freed: bool, created: bool, registered: bool)
    requires Inv(w) && id in w.bufs && w.bufs[id].handle.Some? && w.bufs[id].owner != ownNone
    ensures Readable(TOO_MANY_FDS, 10 * INT_SIZE, [], 0)
    ensures var op := Receive(id, Parse(TOO_MANY_FDS, 10 * INT_SIZE, [], 0), freed, created, registered);
      && Enabled(w, op) && Lost(w, op) == {w.bufs[id].handle.value.key}
      && w.bufs[id].handle.value.key in Leaked(Step(w, op))
  {
    var op := Receive(id, Parse(TOO_MANY_FDS, 10 * INT_SIZE, [], 0), freed, created, registered);
    StepKeepsOwnership(w, op);
  }

  /** The shortest run that loses a handle: an allocated buffer receives such a message. */
  lemma BadMessageRunLoses(uid: int, g: Geometry, bpp: nat, grant: Grant)
    ensures Readable(TOO_MANY_FDS, 10 * INT_SIZE, [], 0)
    ensures var m := Parse(TOO_MANY_FDS, 10 * INT_SIZE, [], 0);
      var ops := [NewSized(0, uid, g, bpp, Some(grant)), Receive(0, m, true, true, true)];
      EnabledRun(EMPTY_WORLD, ops) && RunLoses(EMPTY_WORLD, ops) && Leaked(Run(EMPTY_WORLD, ops)) != {}
  {
    var m := Parse(TOO_MANY_FDS, 10 * INT_SIZE, [], 0);
    var first, second := NewSized(0, uid, g, bpp, Some(grant)), Receive(0, m, true, true, true);
    assert Leaked(EMPTY_WORLD) == {};
    StepKeepsOwnership(EMPTY_WORLD, first);
    var w := Step(EMPTY_WORLD, first);
    BadMessageLosesHandle(w, 0, true, true, true);
    assert [first, second][1..] == [second] && [second][1..] == [];
    assert EnabledRun(w, [second]) && Run(w, [second]) == Step(w, second);
  }
}
