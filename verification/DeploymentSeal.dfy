/** The seal of a deployment record: the digest of its canonical text without the sealed key. */
module DeploymentSeal {
  import opened Wrappers
  import opened CanonicalJson
  import opened CanonicalJsonLaws

  /** The lower-case hexadecimal digest of a text; left abstract. */
  type Digest = string -> string

  function Lookup(members: seq<(string, Value)>, key: string): Option<Value> {
    if members == [] then None
    else if members[0].0 == key then Some(members[0].1)
    else Lookup(members[1..], key)
  }

  function Without(members: seq<(string, Value)>, key: string): seq<(string, Value)> {
    if members == [] then []
    else (if members[0].0 == key then [] else [members[0]]) + Without(members[1..], key)
  }

  datatype Refusal = NotAnObject | MissingSeal | SealMismatch

  /** The seal check of the source. */
  function Validate(digest: Digest, v: Value, key: string): Result<(), Refusal> {
    if !v.Obj? then Err(NotAnObject)
    else
      var claimed := Lookup(v.members, key);
      if claimed.None? then Err(MissingSeal)
      else if claimed.value == Str(digest(Print(Obj(Without(v.members, key))))) then Ok(())
      else Err(SealMismatch)
  }

  /** The part of a record that its seal covers. */
  function Content(v: Value, key: string): Value
    requires v.Obj?
  {
    Obj(Without(v.members, key))
  }

  lemma {:induction false} WithoutExact(members: seq<(string, Value)>, key: string)
    ensures forall m :: m in Without(members, key) <==> m in members && m.0 != key
  {
    if members != [] {
      WithoutExact(members[1..], key);
      assert members == [members[0]] + members[1..];
    }
  }

  lemma {:induction false} WithoutWellFormed(members: seq<(string, Value)>, key: string)
    requires WellFormed(Obj(members))
    ensures WellFormed(Obj(Without(members, key)))
  {
    if members != [] {
      var first, rest := members[0], members[1..];
      TailWellFormed(members);
      WithoutWellFormed(rest, key);
      WithoutExact(rest, key);
      if first.0 != key {
        FrontWellFormed(first, Without(rest, key));
      }
    }
  }

  lemma {:induction false} TailWellFormed(members: seq<(string, Value)>)
    requires members != [] && WellFormed(Obj(members))
    ensures WellFormed(members[0].1) && WellFormed(Obj(members[1..]))
    ensures forall m :: m in members[1..] ==> m.0 != members[0].0
  {
  }

  lemma {:induction false} FrontWellFormed(first: (string, Value), rest: seq<(string, Value)>)
    requires WellFormed(first.1) && WellFormed(Obj(rest)) && forall m :: m in rest ==> m.0 != first.0
    ensures WellFormed(Obj([first] + rest))
  {
  }

  lemma {:induction false} WithoutMembers(members: seq<(string, Value)>, key: string)
    ensures forall m :: m in Without(members, key) <==> m in members && m.0 != key
    ensures WellFormed(Obj(members)) ==> WellFormed(Obj(Without(members, key)))
  {
    WithoutExact(members, key);
    if WellFormed(Obj(members)) {
      WithoutWellFormed(members, key);
    }
  }

  lemma {:induction false} LookupExact(members: seq<(string, Value)>, key: string, v: Value)
    requires forall i, j :: 0 <= i < j < |members| ==> members[i].0 != members[j].0
    ensures Lookup(members, key) == Some(v) <==> (key, v) in members
  {
    if members != [] {
      LookupExact(members[1..], key, v);
      assert members == [members[0]] + members[1..];
      forall i | 0 <= i < |members[1..]|
        ensures members[1..][i].0 != members[0].0
      {
        assert members[1..][i] == members[i + 1];
      }
    }
  }

  /** A seal covers everything but itself: a record that carries the claim of a sealed one is sealed
      exactly when the two agree everywhere else, unless the digest collides on their two texts. */
  lemma {:induction false} SealCoversContent(digest: Digest, sealed: Value, other: Value, key: string)
    requires WellFormed(sealed) && WellFormed(other) && Validate(digest, sealed, key).Ok?
    requires other.Obj? && Lookup(other.members, key) == Lookup(sealed.members, key)
    requires digest(Print(Content(sealed, key))) == digest(Print(Content(other, key)))
             ==> Print(Content(sealed, key)) == Print(Content(other, key))
    ensures Validate(digest, other, key).Ok? <==> Same(Content(sealed, key), Content(other, key))
  {
    WithoutMembers(sealed.members, key);
    WithoutMembers(other.members, key);
    PrintExact(Content(sealed, key), Content(other, key));
  }

  lemma {:induction false} ScalarSame(s: string, v: Value)
    ensures Same(v, Str(s)) <==> v == Str(s)
    ensures Same(Str(s), v) <==> v == Str(s)
  {
  }

  /** Reordering the keys of a record, at any depth, does not change the verdict: no assumption on the
      digest is needed. */
  lemma SealIgnoresKeyOrder(digest: Digest, a: Value, b: Value, key: string)
    requires WellFormed(a) && WellFormed(b) && Same(a, b)
    ensures Validate(digest, a, key) == Validate(digest, b, key)
  {
    if a.Obj? && b.Obj? {
      WithoutMembers(a.members, key);
      WithoutMembers(b.members, key);
      ContentsSame(a, b, key);
      SamePrintsAlike(Content(a, key), Content(b, key));
      ClaimsAgree(a, b, key);
      var claimed := Str(digest(Print(Content(a, key))));
      if Lookup(a.members, key).Some? {
        ScalarSame(claimed.s, Lookup(a.members, key).value);
        ScalarSame(claimed.s, Lookup(b.members, key).value);
      }
    }
  }

  lemma {:induction false} ContentsSame(a: Value, b: Value, key: string)
    requires a.Obj? && b.Obj? && WellFormed(a) && WellFormed(b) && Same(a, b)
    ensures Same(Content(a, key), Content(b, key))
  {
    var x, y := Without(a.members, key), Without(b.members, key);
    WithoutMembers(a.members, key);
    WithoutMembers(b.members, key);
    forall i | 0 <= i < |x|
      ensures HasSame(x[i], y)
    {
      assert x[i] in x;
      var k :| 0 <= k < |a.members| && a.members[k] == x[i];
      assert HasSame(a.members[k], b.members);
      var j :| 0 <= j < |b.members| && b.members[j].0 == x[i].0 && Same(x[i].1, b.members[j].1);
      assert b.members[j] in y;
    }
    forall j | 0 <= j < |y|
      ensures HasKey(x, y[j].0)
    {
      assert y[j] in y;
      var k :| 0 <= k < |b.members| && b.members[k] == y[j];
      assert HasKey(a.members, b.members[k].0);
      var i :| 0 <= i < |a.members| && a.members[i].0 == y[j].0;
      assert a.members[i] in x;
    }
  }

  lemma ClaimsAgree(a: Value, b: Value, key: string)
    requires a.Obj? && b.Obj? && WellFormed(a) && WellFormed(b) && Same(a, b)
    ensures Lookup(a.members, key).None? <==> Lookup(b.members, key).None?
    ensures Lookup(a.members, key).Some? ==>
              Lookup(b.members, key).Some? && Same(Lookup(a.members, key).value, Lookup(b.members, key).value)
  {
    var x, y := Lookup(a.members, key), Lookup(b.members, key);
    if x.Some? {
      LookupExact(a.members, key, x.value);
      var k :| 0 <= k < |a.members| && a.members[k] == (key, x.value);
      assert HasSame(a.members[k], b.members);
      var j :| 0 <= j < |b.members| && b.members[j].0 == key && Same(x.value, b.members[j].1);
      LookupExact(b.members, key, b.members[j].1);
    } else if y.Some? {
      LookupExact(b.members, key, y.value);
      var k :| 0 <= k < |b.members| && b.members[k] == (key, y.value);
      assert HasKey(a.members, b.members[k].0);
      var i :| 0 <= i < |a.members| && a.members[i].0 == key;
      LookupExact(a.members, key, a.members[i].1);
    }
  }

  lemma {:induction false} WithoutAppended(members: seq<(string, Value)>, key: string, claim: Value)
    requires forall m :: m in members ==> m.0 != key
    ensures Without(members + [(key, claim)], key) == members
    ensures Lookup(members + [(key, claim)], key) == Some(claim)
  {
    var all := members + [(key, claim)];
    if members == [] {
      assert all[1..] == [];
    } else {
      assert all[1..] == members[1..] + [(key, claim)];
      WithoutAppended(members[1..], key, claim);
      assert members == [members[0]] + members[1..];
    }
  }

  /** Sealing works, and exactly one claim seals a content. */
  lemma OneClaimSeals(digest: Digest, content: Value, key: string, claim: Value)
    requires content.Obj? && forall m :: m in content.members ==> m.0 != key
    ensures Validate(digest, Obj(content.members + [(key, claim)]), key).Ok?
            <==> claim == Str(digest(Print(content)))
  {
    WithoutAppended(content.members, key, claim);
  }
}
