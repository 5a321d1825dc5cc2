/** Laws of the key store over every run and every interleaving of its clients. */
module KeyStoreLaws {
  import opened Wrappers
  import opened KeyStore
  import Hex

  // ----- One update

  /** The records of a file; none when it cannot be read. */
  function Keys(f: File): seq<Record> {
    if ReadState(f).Ok? then ReadState(f).value.keys else []
  }

  /** The store holds what every reader accepts. */
  predicate Sound(f: File) {
    f.Missing? || (f.Saved? && Valid(f.state))
  }

  /** A later record is the earlier one, except that an active record may have been revoked. */
  predicate Follows(earlier: Record, later: Record) {
    later == earlier || (earlier.Active() && later == earlier.(revokedAt := later.revokedAt))
  }

  /** No record is lost, moved or altered, and a revocation time once set never changes. */
  predicate Kept(before: seq<Record>, after: seq<Record>) {
    |before| <= |after| && forall i :: 0 <= i < |before| ==> Follows(before[i], after[i])
  }

  lemma KeptTransitive(a: seq<Record>, b: seq<Record>, c: seq<Record>)
    requires Kept(a, b) && Kept(b, c)
    ensures Kept(a, c)
  {
    forall i | 0 <= i < |a|
      ensures Follows(a[i], c[i])
    {
      assert Follows(a[i], b[i]) && Follows(b[i], c[i]);
    }
  }

  /** Every update keeps the store sound and its records, and adds at most one record. */
  lemma UpdateKeeps(hash: Digest, f: File, op: Operation, write: Write)
    requires Sound(f)
    ensures var after := After(hash, f, op, write);
            && Sound(after) && Kept(Keys(f), Keys(after)) && |Keys(after)| <= |Keys(f)| + 1
            && |Keys(after)| <= MAX_KEYS && DistinctIds(Keys(after))
  {
    var read := ReadState(f);
    if read.Ok? && Prepared(hash, read.value, op).Ok? {
      PreparedKeeps(hash, read.value, op);
    }
  }

  lemma PreparedKeeps(hash: Digest, s: State, op: Operation)
    requires Prepared(hash, s, op).Ok?
    ensures var after := Prepared(hash, s, op).value;
            Valid(after) && Kept(s.keys, after.keys) && |after.keys| <= |s.keys| + 1
  {
  }

  /** Whatever an update prepares differs from what it read: a creation adds a record, a revocation sets a
      time that was not set. */
  lemma PreparedDiffers(hash: Digest, s: State, op: Operation)
    requires Prepared(hash, s, op).Ok?
    ensures Prepared(hash, s, op).value != s
    ensures op.Create? ==> Prepared(hash, s, op).value.keys != []
  {
    var next := Prepared(hash, s, op).value;
    match op
    case Create(_, _, _, _) =>
      assert |next.keys| == |s.keys| + 1;
    case Revoke(id, now) =>
      var i := Find(s.keys, id);
      assert next.keys[i] != s.keys[i];
  }

  /** A failed update has changed the file exactly when the new file had taken its place before the failure:
      the update would otherwise have gone through, and setting the permissions last is what failed. */
  lemma FailureExact(hash: Digest, f: File, op: Operation, write: Write)
    requires Reported(hash, f, op, write).Err?
    ensures After(hash, f, op, write) != f <==> write == FailedAfter && Reported(hash, f, op, Written).Ok?
    ensures After(hash, f, op, write) != f ==> After(hash, f, op, write) == After(hash, f, op, Written)
  {
    if Named(op) && ReadState(f).Ok? && Prepared(hash, ReadState(f).value, op).Ok? {
      PreparedDiffers(hash, ReadState(f).value, op);
    }
  }

  /** A concrete run of that kind: the first key of a store that does not exist yet is created, its secret is
      never handed out, and the record is there all the same. */
  lemma LateFailureChanges(hash: Digest, random: Hex.Bytes, id: Hex.Bytes, now: int)
    requires |random| == SECRET_BYTES && ValidId(id) && Hashes(hash)
    ensures var op := Create(None, Some(random), id, now);
            && Reported(hash, Missing, op, FailedAfter).Err?
            && After(hash, Missing, op, FailedAfter) == Saved(State(SCHEMA_VERSION, [NewRecord(hash, op)]))
  {
    var op := Create(None, Some(random), id, now);
    NewRecordValid(hash, op);
    assert [] + [NewRecord(hash, op)] == [NewRecord(hash, op)];
  }

  /** A revocation of any active record is visible although the caller is told of a failure. */
  lemma LateRevocationChanges(hash: Digest, s: State, i: nat, now: int)
    requires Valid(s) && i < |s.keys| && s.keys[i].Active()
    ensures var op := Revoke(s.keys[i].keyId, now);
            && Reported(hash, Saved(s), op, FailedAfter).Err?
            && After(hash, Saved(s), op, FailedAfter) ==
               Saved(s.(keys := s.keys[i := s.keys[i].(revokedAt := Some(now))]))
  {
    assert Find(s.keys, s.keys[i].keyId) == i;
    var edited := Edit(hash, s, Revoke(s.keys[i].keyId, now)).value;
    forall k | 0 <= k < |edited.keys|
      ensures ValidRecord(edited.keys[k])
    {
      assert ValidRecord(s.keys[k]);
    }
  }

  lemma NewRecordValid(hash: Digest, op: Operation)
    requires op.Create? && op.random.Some? && |op.random.value| == SECRET_BYTES && Hashes(hash)
    requires Named(op) && ValidId(op.id)
    ensures ValidRecord(NewRecord(hash, op))
  {
    var secret := Secret(op.random.value);
    NewRecordHolds(hash, op);
    assert secret[..|KEY_PREFIX| + DISPLAY_CHARS][|KEY_PREFIX|..] == Hex.Encoded(op.random.value)[..DISPLAY_CHARS];
    assert ValidName("unnamed");
  }

  /** The digest is 32 bytes long. */
  ghost predicate Hashes(hash: Digest) {
    forall s :: |hash(s)| == SECRET_BYTES
  }

  // ----- Clients that interleave

  /** Where a client stands in an update. The lock is held from `Holding` on. */
  datatype Phase =
    | Idle
    | Waiting(op: Operation)
    | Holding(op: Operation)
    | Loaded(op: Operation, state: State)

  datatype System = System(file: File, clients: map<nat, Phase>)

  predicate HoldsLock(p: Phase) {
    p.Holding? || p.Loaded?
  }

  function PhaseOf(s: System, c: nat): Phase {
    if c in s.clients then s.clients[c] else Idle
  }

  datatype Step =
    | Begin(client: nat, op: Operation)
    | Acquire(client: nat)
    | Load(client: nat)
    | Commit(client: nat, write: Write)
    | Abandon(client: nat)

  predicate Allowed(s: System, step: Step) {
    match step
    case Begin(c, op) => PhaseOf(s, c).Idle? && Named(op)
    case Acquire(c) => PhaseOf(s, c).Waiting? && forall d :: d in s.clients ==> !HoldsLock(s.clients[d])
    case Load(c) => PhaseOf(s, c).Holding?
    case Commit(c, _) => PhaseOf(s, c).Loaded?
    case Abandon(_) => true
  }

  function Move(s: System, c: nat, p: Phase): System {
    s.(clients := s.clients[c := p])
  }

  /** One atomic action. A client that stops, for whatever reason, releases the lock. */
  function Next(hash: Digest, s: System, step: Step): System
    requires Allowed(s, step)
  {
    match step
    case Begin(c, op) => Move(s, c, Waiting(op))
    case Acquire(c) => Move(s, c, Holding(PhaseOf(s, c).op))
    case Load(c) =>
      var read := ReadState(s.file);
      Move(s, c, if read.Ok? then Loaded(PhaseOf(s, c).op, read.value) else Idle)
    case Commit(c, write) =>
      var next := Prepared(hash, PhaseOf(s, c).state, PhaseOf(s, c).op);
      var file := if next.Ok? && write != RefusedBefore then Saved(next.value) else s.file;
      Move(s, c, Idle).(file := file)
    case Abandon(c) => Move(s, c, Idle)
  }

  /** At most one client holds the lock, and what it has loaded is what the file holds. */
  ghost predicate Serial(s: System) {
    && (forall c, d :: HoldsLock(PhaseOf(s, c)) && HoldsLock(PhaseOf(s, d)) ==> c == d)
    && (forall c :: PhaseOf(s, c).Loaded? ==> ReadState(s.file) == Ok(PhaseOf(s, c).state))
    && forall c :: !PhaseOf(s, c).Idle? ==> Named(PhaseOf(s, c).op)
  }

  /** Mutual exclusion makes every commit a whole update of the file as it stands. */
  lemma StepIsUpdate(hash: Digest, s: System, step: Step)
    requires Serial(s) && Allowed(s, step)
    ensures Serial(Next(hash, s, step))
    ensures Next(hash, s, step).file ==
            if step.Commit? then After(hash, s.file, PhaseOf(s, step.client).op, step.write) else s.file
  {
    var next := Next(hash, s, step);
    forall c
      ensures PhaseOf(next, c) == if c == step.client then next.clients[c] else PhaseOf(s, c)
    {
    }
  }

  ghost predicate Execution(hash: Digest, states: seq<System>, steps: seq<Step>) {
    && |states| == |steps| + 1
    && forall i :: 0 <= i < |steps| ==> Steps(hash, states, steps, i)
  }

  ghost predicate Steps(hash: Digest, states: seq<System>, steps: seq<Step>, i: nat)
    requires i < |steps| && |states| == |steps| + 1
  {
    Allowed(states[i], steps[i]) && states[i + 1] == Next(hash, states[i], steps[i])
  }

  lemma {:induction false} ExecutionSerial(hash: Digest, states: seq<System>, steps: seq<Step>, i: nat)
    requires Execution(hash, states, steps) && Serial(states[0]) && i < |states|
    ensures Serial(states[i])
  {
    if i > 0 {
      ExecutionSerial(hash, states, steps, i - 1);
      assert Steps(hash, states, steps, i - 1);
      StepIsUpdate(hash, states[i - 1], steps[i - 1]);
    }
  }

  /** One step of any client keeps the store sound and loses nothing. */
  lemma StepKeeps(hash: Digest, s: System, step: Step)
    requires Serial(s) && Allowed(s, step) && Sound(s.file)
    ensures Sound(Next(hash, s, step).file) && Kept(Keys(s.file), Keys(Next(hash, s, step).file))
    ensures |Keys(Next(hash, s, step).file)| <= MAX_KEYS && DistinctIds(Keys(Next(hash, s, step).file))
  {
    StepIsUpdate(hash, s, step);
    if step.Commit? {
      UpdateKeeps(hash, s.file, PhaseOf(s, step.client).op, step.write);
    }
  }

  /** One more step, from any later state of a run. */
  lemma KeepsOnward(hash: Digest, states: seq<System>, steps: seq<Step>, i: nat, j: nat)
    requires Execution(hash, states, steps) && Serial(states[0]) && i <= j < |steps|
    requires Sound(states[j].file) && Kept(Keys(states[i].file), Keys(states[j].file))
    ensures Sound(states[j + 1].file) && Kept(Keys(states[i].file), Keys(states[j + 1].file))
  {
    ExecutionSerial(hash, states, steps, j);
    assert Steps(hash, states, steps, j);
    StepKeeps(hash, states[j], steps[j]);
    KeptTransitive(Keys(states[i].file), Keys(states[j].file), Keys(states[j + 1].file));
  }

  lemma SoundAlways(hash: Digest, states: seq<System>, steps: seq<Step>, j: nat)
    requires Execution(hash, states, steps) && Serial(states[0]) && Sound(states[0].file) && j < |states|
    ensures Sound(states[j].file)
  {
    for k := 0 to j
      invariant Sound(states[k].file)
    {
      KeepsOnward(hash, states, steps, k, k);
    }
  }

  lemma KeptAlways(hash: Digest, states: seq<System>, steps: seq<Step>, i: nat, j: nat)
    requires Execution(hash, states, steps) && Serial(states[0]) && Sound(states[0].file) && i <= j < |states|
    ensures Sound(states[j].file) && Kept(Keys(states[i].file), Keys(states[j].file))
  {
    SoundAlways(hash, states, steps, i);
    for k := i to j
      invariant Sound(states[k].file) && Kept(Keys(states[i].file), Keys(states[k].file))
    {
      KeepsOnward(hash, states, steps, i, k);
    }
  }

  /** Over every interleaving, whatever the clients do and wherever they stop: the store stays sound, with
      unique identifiers and at most 256 records, and nothing that was recorded is lost or altered. */
  lemma EveryInterleavingKeeps(hash: Digest, states: seq<System>, steps: seq<Step>, i: nat, j: nat)
    requires Execution(hash, states, steps) && Serial(states[0]) && Sound(states[0].file) && i <= j < |states|
    ensures Sound(states[i].file) && Sound(states[j].file) && Kept(Keys(states[i].file), Keys(states[j].file))
    ensures |Keys(states[j].file)| <= MAX_KEYS && DistinctIds(Keys(states[j].file))
  {
    SoundAlways(hash, states, steps, i);
    KeptAlways(hash, states, steps, i, j);
    SoundKeys(states[j].file);
  }

  lemma SoundKeys(f: File)
    requires Sound(f)
    ensures |Keys(f)| <= MAX_KEYS && DistinctIds(Keys(f))
  {
  }

  // ----- Secrets

  lemma NewRecordHolds(hash: Digest, op: Operation)
    requires op.Create? && op.random.Some? && |op.random.value| == SECRET_BYTES && Hashes(hash)
    ensures Holds(hash, NewRecord(hash, op), Secret(op.random.value))
    ensures ValidSecret(Secret(op.random.value))
  {
    Hex.DecodeEncoded(hash(Secret(op.random.value)));
    Hex.DecodeEncoded(op.random.value);
    assert Secret(op.random.value)[|KEY_PREFIX|..] == Hex.Encoded(op.random.value);
  }

  /** A secret is accepted as soon as its creation has been written. */
  lemma CreatedSecretAccepted(hash: Digest, f: File, op: Operation)
    requires op.Create? && Hashes(hash) && Reported(hash, f, op, Written).Ok?
    ensures Accepts(hash, ReadState(After(hash, f, op, Written)).value, Secret(op.random.value))
  {
    NewRecordHolds(hash, op);
    var keys := Keys(After(hash, f, op, Written));
    assert keys[|keys| - 1] == NewRecord(hash, op);
  }

  /** The step commits a creation that has drawn its random bytes. */
  predicate Issues(states: seq<System>, steps: seq<Step>, k: nat)
    requires |states| == |steps| + 1 && k < |steps|
  {
    && steps[k].Commit?
    && var p := PhaseOf(states[k], steps[k].client);
       p.Loaded? && p.op.Create? && p.op.random.Some? && |p.op.random.value| == SECRET_BYTES
  }

  function Issued(states: seq<System>, steps: seq<Step>, k: nat): Hex.Bytes
    requires |states| == |steps| + 1 && k < |steps| && Issues(states, steps, k)
  {
    Secret(PhaseOf(states[k], steps[k].client).op.random.value)
  }

  /** Secrets are drawn afresh, and the digest does not collide on the ones that were drawn. */
  ghost predicate FreshSecrets(hash: Digest, states: seq<System>, steps: seq<Step>)
    requires |states| == |steps| + 1
  {
    forall k, m :: 0 <= k < m < |steps| && Issues(states, steps, k) && Issues(states, steps, m) ==>
      && Issued(states, steps, k) != Issued(states, steps, m)
      && (hash(Issued(states, steps, k)) == hash(Issued(states, steps, m))
          ==> Issued(states, steps, k) == Issued(states, steps, m))
  }

  /** The store the run starts from has distinct digests, none of them that of a secret the run issues. */
  ghost predicate FreshStart(hash: Digest, states: seq<System>, steps: seq<Step>)
    requires |states| == |steps| + 1
  {
    && DistinctDigests(Keys(states[0].file))
    && forall k, r :: 0 <= k < |steps| && Issues(states, steps, k) && r in Keys(states[0].file) ==>
         !Holds(hash, r, Issued(states, steps, k))
  }

  /** The record carries the digest of one that was there at the start. */
  predicate Old(states: seq<System>, r: Record)
    requires states != []
  {
    exists first :: first in Keys(states[0].file) && first.digest == r.digest
  }

  /** The record was there at the start, or its digest is that of a secret issued before step `j`. */
  ghost predicate Comes(hash: Digest, states: seq<System>, steps: seq<Step>, r: Record, j: nat)
    requires |states| == |steps| + 1 && j <= |steps|
    decreases j
  {
    if j == 0 then Old(states, r)
    else
      || Comes(hash, states, steps, r, j - 1)
      || (Issues(states, steps, j - 1) && Holds(hash, r, Issued(states, steps, j - 1)))
  }

  predicate DistinctDigests(keys: seq<Record>) {
    forall i, j :: 0 <= i < j < |keys| ==> Hex.Sha256Of(keys[i].digest) != Hex.Sha256Of(keys[j].digest)
  }

  ghost predicate Traced(hash: Digest, states: seq<System>, steps: seq<Step>, j: nat)
    requires |states| == |steps| + 1 && j <= |steps|
  {
    && (forall i :: 0 <= i < |Keys(states[j].file)| ==> Comes(hash, states, steps, Keys(states[j].file)[i], j))
    && DistinctDigests(Keys(states[j].file))
  }

  lemma {:induction false} FollowerComes(
    hash: Digest, states: seq<System>, steps: seq<Step>, r: Record, later: Record, j: nat)
    requires |states| == |steps| + 1 && j <= |steps| && Comes(hash, states, steps, r, j) && Follows(r, later)
    ensures Comes(hash, states, steps, later, j)
    decreases j
  {
    if j == 0 {
      var first :| first in Keys(states[0].file) && first.digest == r.digest;
      assert first.digest == later.digest;
    } else if Comes(hash, states, steps, r, j - 1) {
      FollowerComes(hash, states, steps, r, later, j - 1);
    }
  }

  lemma {:induction false} ComesLater(
    hash: Digest, states: seq<System>, steps: seq<Step>, r: Record, later: Record, j: nat)
    requires |states| == |steps| + 1 && j < |steps| && Comes(hash, states, steps, r, j)
    requires Follows(r, later)
    ensures Comes(hash, states, steps, later, j + 1)
  {
    FollowerComes(hash, states, steps, r, later, j);
  }

  /** What an update prepares is the records it read, up to a revocation, or those and one new record. */
  predicate Shaped(hash: Digest, before: seq<Record>, after: seq<Record>, op: Operation) {
    || (|before| == |after| && Kept(before, after))
    || (op.Create? && op.random.Some? && |op.random.value| == SECRET_BYTES && after == before + [NewRecord(hash, op)])
  }

  lemma AfterShaped(hash: Digest, f: File, op: Operation, write: Write)
    requires Sound(f)
    ensures Shaped(hash, Keys(f), Keys(After(hash, f, op, write)), op)
  {
    UpdateKeeps(hash, f, op, write);
  }

  lemma CommitShape(hash: Digest, s: System, step: Step)
    requires Serial(s) && Sound(s.file) && step.Commit? && Allowed(s, step)
    ensures Shaped(hash, Keys(s.file), Keys(Next(hash, s, step).file), PhaseOf(s, step.client).op)
  {
    StepIsUpdate(hash, s, step);
    AfterShaped(hash, s.file, PhaseOf(s, step.client).op, step.write);
  }

  lemma KeptDigests(before: seq<Record>, after: seq<Record>)
    requires Kept(before, after) && |before| == |after| && DistinctDigests(before)
    ensures DistinctDigests(after)
  {
    forall i, j | 0 <= i < j < |after|
      ensures Hex.Sha256Of(after[i].digest) != Hex.Sha256Of(after[j].digest)
    {
      assert Follows(before[i], after[i]) && Follows(before[j], after[j]);
    }
  }

  lemma NewIsDistinct(keys: seq<Record>, added: Record)
    requires DistinctDigests(keys)
    requires forall i :: 0 <= i < |keys| ==> Hex.Sha256Of(keys[i].digest) != Hex.Sha256Of(added.digest)
    ensures DistinctDigests(keys + [added])
  {
  }

  lemma TracedNew(hash: Digest, states: seq<System>, steps: seq<Step>, j: nat, added: Record)
    requires |states| == |steps| + 1 && FreshSecrets(hash, states, steps) && FreshStart(hash, states, steps)
    requires j < |steps| && Traced(hash, states, steps, j)
    requires Issues(states, steps, j) && Holds(hash, added, Issued(states, steps, j))
    ensures Comes(hash, states, steps, added, j + 1) && DistinctDigests(Keys(states[j].file) + [added])
  {
    var before := Keys(states[j].file);
    forall i | 0 <= i < |before|
      ensures Hex.Sha256Of(before[i].digest) != Hex.Sha256Of(added.digest)
    {
      assert Comes(hash, states, steps, before[i], j);
      DigestsApart(hash, states, steps, j, j, before[i], added);
    }
    NewIsDistinct(before, added);
  }

  lemma {:induction false} DigestsApart(
    hash: Digest, states: seq<System>, steps: seq<Step>, i: nat, j: nat, r: Record, added: Record)
    requires |states| == |steps| + 1 && FreshSecrets(hash, states, steps) && FreshStart(hash, states, steps)
    requires i <= j < |steps| && Comes(hash, states, steps, r, i)
    requires Issues(states, steps, j) && Holds(hash, added, Issued(states, steps, j))
    ensures Hex.Sha256Of(r.digest) != Hex.Sha256Of(added.digest)
    decreases i
  {
    if i == 0 {
      var first :| first in Keys(states[0].file) && first.digest == r.digest;
      assert !Holds(hash, first, Issued(states, steps, j));
    } else if Comes(hash, states, steps, r, i - 1) {
      DigestsApart(hash, states, steps, i - 1, j, r, added);
    } else {
      assert hash(Issued(states, steps, i - 1)) != hash(Issued(states, steps, j));
    }
  }

  lemma TracedAtFirst(hash: Digest, states: seq<System>, steps: seq<Step>)
    requires |states| == |steps| + 1 && FreshStart(hash, states, steps)
    ensures Traced(hash, states, steps, 0)
  {
    var keys := Keys(states[0].file);
    forall i | 0 <= i < |keys|
      ensures Comes(hash, states, steps, keys[i], 0)
    {
      assert keys[i] in keys;
    }
  }

  lemma TracedCommit(hash: Digest, states: seq<System>, steps: seq<Step>, j: nat)
    requires Execution(hash, states, steps) && Hashes(hash)
    requires FreshSecrets(hash, states, steps) && FreshStart(hash, states, steps)
    requires j < |steps| && steps[j].Commit? && Traced(hash, states, steps, j)
    requires Serial(states[j]) && Sound(states[j].file)
    ensures Traced(hash, states, steps, j + 1)
  {
    var before, after := Keys(states[j].file), Keys(states[j + 1].file);
    assert Steps(hash, states, steps, j);
    CommitShape(hash, states[j], steps[j]);
    forall i | 0 <= i < |before|
      ensures Comes(hash, states, steps, after[i], j + 1)
    {
      ComesLater(hash, states, steps, before[i], after[i], j);
    }
    if |after| == |before| {
      KeptDigests(before, after);
    } else {
      NewRecordHolds(hash, PhaseOf(states[j], steps[j].client).op);
      TracedNew(hash, states, steps, j, after[|before|]);
    }
  }

  lemma AlwaysSound(hash: Digest, states: seq<System>, steps: seq<Step>, j: nat)
    requires Execution(hash, states, steps) && Serial(states[0]) && Sound(states[0].file) && j < |states|
    ensures Serial(states[j]) && Sound(states[j].file)
  {
    ExecutionSerial(hash, states, steps, j);
    EveryInterleavingKeeps(hash, states, steps, j, j);
  }

  lemma AlwaysDistinct(hash: Digest, states: seq<System>, steps: seq<Step>, j: nat)
    requires Execution(hash, states, steps) && Hashes(hash)
    requires FreshSecrets(hash, states, steps) && FreshStart(hash, states, steps)
    requires Serial(states[0]) && Sound(states[0].file) && j <= |steps|
    ensures DistinctDigests(Keys(states[j].file))
  {
    AlwaysTraced(hash, states, steps, j);
  }

  lemma TracedOnward(hash: Digest, states: seq<System>, steps: seq<Step>, j: nat)
    requires Execution(hash, states, steps) && Hashes(hash)
    requires FreshSecrets(hash, states, steps) && FreshStart(hash, states, steps)
    requires Serial(states[0]) && Sound(states[0].file) && j < |steps| && Traced(hash, states, steps, j)
    ensures Traced(hash, states, steps, j + 1)
  {
    AlwaysSound(hash, states, steps, j);
    TracedStep(hash, states, steps, j);
  }

  /** Whether step `k` may be taken on, and what follows from it, as bare truth values. */
  lemma TracedOn(hash: Digest, states: seq<System>, steps: seq<Step>, k: nat) returns (now: bool, later: bool)
    requires Execution(hash, states, steps) && Hashes(hash)
    requires FreshSecrets(hash, states, steps) && FreshStart(hash, states, steps)
    requires Serial(states[0]) && Sound(states[0].file) && k < |steps|
    ensures now == Traced(hash, states, steps, k) && later == Traced(hash, states, steps, k + 1)
    ensures now ==> later
  {
    now, later := Traced(hash, states, steps, k), Traced(hash, states, steps, k + 1);
    if now {
      TracedOnward(hash, states, steps, k);
    }
  }

  lemma TracedUpTo(hash: Digest, states: seq<System>, steps: seq<Step>, j: nat) returns (now: bool)
    requires Execution(hash, states, steps) && Hashes(hash)
    requires FreshSecrets(hash, states, steps) && FreshStart(hash, states, steps)
    requires Serial(states[0]) && Sound(states[0].file) && j <= |steps|
    ensures now == Traced(hash, states, steps, j) && now
  {
    now := TracedFirst(hash, states, steps);
    for k := 0 to j
      invariant now == Traced(hash, states, steps, k) && now
    {
      now := TracedNext(hash, states, steps, k, now);
    }
  }

  lemma TracedFirst(hash: Digest, states: seq<System>, steps: seq<Step>) returns (now: bool)
    requires |states| == |steps| + 1 && FreshStart(hash, states, steps)
    ensures now == Traced(hash, states, steps, 0) && now
  {
    now := Traced(hash, states, steps, 0);
    TracedAtFirst(hash, states, steps);
  }

  lemma TracedNext(hash: Digest, states: seq<System>, steps: seq<Step>, k: nat, before: bool) returns (now: bool)
    requires Execution(hash, states, steps) && Hashes(hash)
    requires FreshSecrets(hash, states, steps) && FreshStart(hash, states, steps)
    requires Serial(states[0]) && Sound(states[0].file) && k < |steps|
    requires before == Traced(hash, states, steps, k)
    ensures now == Traced(hash, states, steps, k + 1) && (before ==> now)
  {
    var same;
    same, now := TracedOn(hash, states, steps, k);
  }

  lemma AlwaysTraced(hash: Digest, states: seq<System>, steps: seq<Step>, j: nat)
    requires Execution(hash, states, steps) && Hashes(hash)
    requires FreshSecrets(hash, states, steps) && FreshStart(hash, states, steps)
    requires Serial(states[0]) && Sound(states[0].file) && j <= |steps|
    ensures Traced(hash, states, steps, j)
  {
    var now := TracedUpTo(hash, states, steps, j);
  }

  lemma TracedStep(hash: Digest, states: seq<System>, steps: seq<Step>, j: nat)
    requires Execution(hash, states, steps) && Hashes(hash)
    requires FreshSecrets(hash, states, steps) && FreshStart(hash, states, steps)
    requires j < |steps| && Traced(hash, states, steps, j) && Serial(states[j]) && Sound(states[j].file)
    ensures Traced(hash, states, steps, j + 1)
  {
    if steps[j].Commit? {
      TracedCommit(hash, states, steps, j);
    } else {
      TracedIdle(hash, states, steps, j);
    }
  }

  lemma TracedIdle(hash: Digest, states: seq<System>, steps: seq<Step>, j: nat)
    requires Execution(hash, states, steps) && j < |steps| && !steps[j].Commit? && Traced(hash, states, steps, j)
    requires Serial(states[j])
    ensures Traced(hash, states, steps, j + 1)
  {
    assert Steps(hash, states, steps, j);
    StepIsUpdate(hash, states[j], steps[j]);
    var keys := Keys(states[j].file);
    assert keys == Keys(states[j + 1].file);
    forall i | 0 <= i < |keys|
      ensures Comes(hash, states, steps, keys[i], j + 1)
    {
      ComesLater(hash, states, steps, keys[i], keys[i], j);
    }
  }

  /** Once a record that holds a secret's digest has been revoked, that secret is never accepted again, in
      any interleaving of any clients, whatever sound store the run starts from. */
  lemma RevokedNeverVerifies(
    hash: Digest, states: seq<System>, steps: seq<Step>, r: nat, i: nat, credential: Hex.Bytes, j: nat)
    requires Execution(hash, states, steps) && Hashes(hash)
    requires FreshSecrets(hash, states, steps) && FreshStart(hash, states, steps)
    requires Serial(states[0]) && Sound(states[0].file) && r <= j < |states|
    requires i < |Keys(states[r].file)| && Holds(hash, Keys(states[r].file)[i], credential)
    requires !Keys(states[r].file)[i].Active()
    ensures ReadState(states[j].file).Ok? && !Accepts(hash, ReadState(states[j].file).value, credential)
  {
    EveryInterleavingKeeps(hash, states, steps, r, j);
    AlwaysDistinct(hash, states, steps, j);
    RevokedStaysAlone(hash, Keys(states[r].file), Keys(states[j].file), i, credential);
  }

  /** With distinct digests the revoked record is the only one that could accept the secret. */
  lemma RevokedStaysAlone(hash: Digest, before: seq<Record>, after: seq<Record>, i: nat, credential: Hex.Bytes)
    requires Kept(before, after) && DistinctDigests(after)
    requires i < |before| && Holds(hash, before[i], credential) && !before[i].Active()
    ensures forall k :: 0 <= k < |after| && Holds(hash, after[k], credential) ==> !after[k].Active()
  {
    assert Follows(before[i], after[i]);
    forall k | 0 <= k < |after| && Holds(hash, after[k], credential)
      ensures !after[k].Active()
    {
      assert Hex.Sha256Of(after[k].digest) == Hex.Sha256Of(after[i].digest);
    }
  }
}
