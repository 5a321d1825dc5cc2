/** The API-key store: a state file that every update reads, edits, validates and replaces under a lock. */
module KeyStore {
  import opened Wrappers
  import Hex

  const SCHEMA_VERSION: nat := 1
  const MAX_KEYS: nat := 256
  const SECRET_BYTES: nat := 32
  const DISPLAY_CHARS: nat := 8
  /** The ASCII bytes of `scala_sk_` and `key_`. */
  const KEY_PREFIX: Hex.Bytes := [0x73, 0x63, 0x61, 0x6C, 0x61, 0x5F, 0x73, 0x6B, 0x5F]
  const ID_PREFIX: Hex.Bytes := [0x6B, 0x65, 0x79, 0x5F]

  datatype Record = Record(
    keyId: Hex.Bytes, name: string, displayPrefix: Hex.Bytes, digest: Hex.Bytes,
    createdAt: int, revokedAt: Option<int>)
  {
    predicate Active() {
      revokedAt.None?
    }
  }

  datatype State = State(version: nat, keys: seq<Record>)

  /** What is at the store's path. */
  datatype File = Missing | Unreadable | Saved(state: State)

  datatype Error =
    | ReadFailed | UnsupportedVersion | TooManyKeys | InvalidState | InvalidName
    | RandomFailed | KeyNotFound | AlreadyRevoked | WriteFailed

  // ----- Validation

  predicate PrefixedHex(s: Hex.Bytes, prefix: Hex.Bytes, digits: nat) {
    |s| == |prefix| + digits && prefix <= s && Hex.AllHex(s[|prefix|..])
  }

  predicate ValidId(id: Hex.Bytes) {
    PrefixedHex(id, ID_PREFIX, 32)
  }

  predicate ValidDisplay(s: Hex.Bytes) {
    PrefixedHex(s, KEY_PREFIX, DISPLAY_CHARS)
  }

  predicate ValidSecret(s: Hex.Bytes) {
    PrefixedHex(s, KEY_PREFIX, 2 * SECRET_BYTES)
  }

  predicate Control(c: char) {
    c as int < 32 || 127 <= c as int < 160
  }

  predicate ValidName(name: string) {
    1 <= |name| <= 128 && forall i :: 0 <= i < |name| ==> !Control(name[i])
  }

  predicate ValidRecord(r: Record) {
    ValidId(r.keyId) && ValidName(r.name) && ValidDisplay(r.displayPrefix) && Hex.Sha256Of(r.digest).Some?
  }

  predicate DistinctIds(keys: seq<Record>) {
    forall i, j :: 0 <= i < j < |keys| ==> keys[i].keyId != keys[j].keyId
  }

  predicate Valid(s: State) {
    && s.version == SCHEMA_VERSION && |s.keys| <= MAX_KEYS
    && DistinctIds(s.keys) && forall i :: 0 <= i < |s.keys| ==> ValidRecord(s.keys[i])
  }

  /** The validation loop with its set of seen identifiers. */
  method Validate(s: State) returns (r: Result<(), Error>)
    ensures r.Ok? <==> Valid(s)
  {
    if s.version != SCHEMA_VERSION {
      return Err(UnsupportedVersion);
    }
    if |s.keys| > MAX_KEYS {
      return Err(TooManyKeys);
    }
    var ids: set<Hex.Bytes> := {};
    for i := 0 to |s.keys|
      invariant forall x :: x in ids <==> exists k :: 0 <= k < i && s.keys[k].keyId == x
      invariant DistinctIds(s.keys[..i])
      invariant forall k :: 0 <= k < i ==> ValidRecord(s.keys[k])
    {
      var key := s.keys[i];
      if key.keyId in ids {
        return Err(InvalidState);
      }
      ids := ids + {key.keyId};
      if !ValidId(key.keyId) || !ValidDisplay(key.displayPrefix) || Hex.Sha256Of(key.digest).None? {
        return Err(InvalidState);
      }
      if !ValidName(key.name) {
        return Err(InvalidName);
      }
    }
    return Ok(());
  }

  // ----- Edits

  /** One update with everything it takes from outside: random bytes (none when the system has none), the
      new identifier, and the clock. */
  datatype Operation =
    | Create(name: Option<string>, random: Option<Hex.Bytes>, id: Hex.Bytes, now: int)
    | Revoke(id: Hex.Bytes, now: int)

  /** SHA-256, left abstract. */
  type Digest = Hex.Bytes -> Hex.Bytes

  function Secret(random: Hex.Bytes): Hex.Bytes {
    KEY_PREFIX + Hex.Encoded(random)
  }

  function NewRecord(hash: Digest, op: Operation): Record
    requires op.Create? && op.random.Some? && |op.random.value| == SECRET_BYTES
  {
    var secret := Secret(op.random.value);
    Record(
      op.id, if op.name.Some? then op.name.value else "unnamed", secret[..|KEY_PREFIX| + DISPLAY_CHARS],
      Hex.Encoded(hash(secret)), op.now, None)
  }

  /** The first record of an identifier. */
  function Find(keys: seq<Record>, id: Hex.Bytes): (i: nat)
    ensures i <= |keys|
    ensures i < |keys| ==> keys[i].keyId == id
    ensures forall k :: 0 <= k < i ==> keys[k].keyId != id
  {
    if keys == [] || keys[0].keyId == id then 0 else 1 + Find(keys[1..], id)
  }

  /** The update closure of the source, on the state it has read. */
  function Edit(hash: Digest, s: State, op: Operation): Result<State, Error> {
    match op
    case Create(_, random, _, _) =>
      if |s.keys| >= MAX_KEYS then Err(TooManyKeys)
      else if random.None? || |random.value| != SECRET_BYTES then Err(RandomFailed)
      else Ok(s.(keys := s.keys + [NewRecord(hash, op)]))
    case Revoke(id, now) =>
      var i := Find(s.keys, id);
      if i == |s.keys| then Err(KeyNotFound)
      else if !s.keys[i].Active() then Err(AlreadyRevoked)
      else Ok(s.(keys := s.keys[i := s.keys[i].(revokedAt := Some(now))]))
  }

  /** The name check that precedes the lock. */
  predicate Named(op: Operation) {
    op.Create? && op.name.Some? ==> ValidName(op.name.value)
  }

  function ReadState(f: File): Result<State, Error> {
    match f
    case Missing => Ok(State(SCHEMA_VERSION, []))
    case Unreadable => Err(ReadFailed)
    case Saved(s) => if Valid(s) then Ok(s) else Err(InvalidState)
  }

  /** The state an update leaves to be written, or why it stops before writing. */
  function Prepared(hash: Digest, s: State, op: Operation): Result<State, Error> {
    var edited :- Edit(hash, s, op);
    if Valid(edited) then Ok(edited) else Err(InvalidState)
  }

  /** How writing goes: it may fail before the new file takes the old one's place, or, when the permissions
      are set last, after it has. */
  datatype Write = Written | RefusedBefore | FailedAfter

  /** The file after an update. */
  function After(hash: Digest, f: File, op: Operation, write: Write): File {
    var read := ReadState(f);
    if !Named(op) || read.Err? || write == RefusedBefore then f
    else
      var next := Prepared(hash, read.value, op);
      if next.Ok? then Saved(next.value) else f
  }

  /** What an update reports. */
  function Reported(hash: Digest, f: File, op: Operation, write: Write): Result<(), Error> {
    if !Named(op) then Err(InvalidName)
    else
      var state :- ReadState(f);
      var next :- Prepared(hash, state, op);
      if write == Written then Ok(()) else Err(WriteFailed)
  }

  /** A secret is accepted when an active record holds its digest. */
  predicate Accepts(hash: Digest, s: State, credential: Hex.Bytes) {
    && ValidSecret(credential)
    && exists i :: 0 <= i < |s.keys| && Holds(hash, s.keys[i], credential) && s.keys[i].Active()
  }

  predicate Holds(hash: Digest, r: Record, credential: Hex.Bytes) {
    Hex.Sha256Of(r.digest) == Some(hash(credential))
  }

  class ApiKeyStore {
    var file: File
    const hash: Digest

    constructor (hash: Digest, file: File)
      ensures this.hash == hash && this.file == file
    {
      this.hash := hash;
      this.file := file;
    }

    method Read() returns (r: Result<State, Error>)
      ensures r.Ok? <==> ReadState(file).Ok?
      ensures r.Ok? ==> r == ReadState(file)
    {
      match file
      case Missing =>
        return Ok(State(SCHEMA_VERSION, []));
      case Unreadable =>
        return Err(ReadFailed);
      case Saved(s) =>
        var valid := Validate(s);
        return if valid.Ok? then Ok(s) else Err(valid.error);
    }

    /** The locked read-modify-write. */
    method Update(op: Operation, write: Write) returns (r: Result<(), Error>)
      modifies this`file
      ensures file == After(hash, old(file), op, write)
      ensures r.Ok? <==> Reported(hash, old(file), op, write).Ok?
    {
      if op.Create? && op.name.Some? && !ValidName(op.name.value) {
        return Err(InvalidName);
      }
      var state := Read();
      if state.Err? {
        return Err(state.error);
      }
      var edited := Edit(hash, state.value, op);
      if edited.Err? {
        return Err(edited.error);
      }
      var valid := Validate(edited.value);
      if valid.Err? {
        return Err(valid.error);
      }
      if write == RefusedBefore {
        return Err(WriteFailed);
      }
      file := Saved(edited.value);
      return if write == Written then Ok(()) else Err(WriteFailed);
    }

    method Verify(credential: Hex.Bytes) returns (r: Result<bool, Error>)
      requires forall s :: |hash(s)| == SECRET_BYTES
      ensures r.Ok? ==> (r.value <==> ReadState(file).Ok? && Accepts(hash, ReadState(file).value, credential))
      ensures r.Err? <==> ValidSecret(credential) && ReadState(file).Err?
    {
      if !ValidSecret(credential) {
        return Ok(false);
      }
      var supplied := hash(credential);
      var state := Read();
      if state.Err? {
        return Err(state.error);
      }
      var keys := state.value.keys;
      for i := 0 to |keys|
        invariant forall k :: 0 <= k < i ==> !(Holds(hash, keys[k], credential) && keys[k].Active())
      {
        if keys[i].Active() {
          var expected := Hex.DecodeSha256(keys[i].digest);
          if expected.Some? {
            var equal := Hex.ConstantTimeEqual(supplied, expected.value[..]);
            if equal {
              return Ok(true);
            }
          }
        }
      }
      return Ok(false);
    }
  }
}
