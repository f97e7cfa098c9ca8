/** The lockout table and one round of the console login, proved to be steps of the throttle. */
module ConsoleLogin {
  import opened Arithmetic
  import opened Bytes
  import opened Results
  import opened Lockout
  import opened ShadowSpec

  datatype Slot = Slot(source: Source, guard: Guard)

  predicate Distinct(es: seq<Slot>) {
    forall i, j :: 0 <= i < j < |es| ==> es[i].source != es[j].source
  }

  predicate Listed(es: seq<Slot>, s: Source) {
    exists i :: 0 <= i < |es| && es[i].source == s
  }

  /** The list holds exactly the records of the map. */
  ghost predicate Represents(es: seq<Slot>, m: Guards) {
    && Distinct(es)
    && (forall i :: 0 <= i < |es| ==> es[i].source in m && m[es[i].source] == es[i].guard)
    && (forall s :: s in m ==> Listed(es, s))
  }

  lemma {:induction false} RepresentsUpdate(es: seq<Slot>, m: Guards, i: nat, g: Guard)
    requires Represents(es, m) && i < |es|
    ensures Represents(es[i := Slot(es[i].source, g)], m[es[i].source := g])
  {
    var es', src := es[i := Slot(es[i].source, g)], es[i].source;
    var m' := m[src := g];
    forall s | s in m' ensures Listed(es', s) {
      if s == src {
        assert es'[i].source == s;
      } else {
        assert Listed(es, s);
        var k :| 0 <= k < |es| && es[k].source == s;
        assert es'[k].source == s;
      }
    }
  }

  lemma {:induction false} RepresentsPush(es: seq<Slot>, m: Guards, src: Source, g: Guard)
    requires Represents(es, m) && src !in m
    ensures Represents(es + [Slot(src, g)], m[src := g])
  {
    var es' := es + [Slot(src, g)];
    var m' := m[src := g];
    forall s | s in m' ensures Listed(es', s) {
      if s == src {
        assert es'[|es|].source == s;
      } else {
        assert Listed(es, s);
        var k :| 0 <= k < |es| && es[k].source == s;
        assert es'[k].source == s;
      }
    }
  }

  lemma {:induction false} RepresentsRemove(es: seq<Slot>, m: Guards, i: nat)
    requires Represents(es, m) && i < |es|
    ensures Represents(es[..i] + es[i + 1..], m - {es[i].source})
  {
    var es', src := es[..i] + es[i + 1..], es[i].source;
    var m' := m - {src};
    forall s | s in m' ensures Listed(es', s) {
      assert Listed(es, s);
      var k :| 0 <= k < |es| && es[k].source == s;
      assert es'[if k < i then k else k - 1].source == s;
    }
  }

  class LockoutMap {
    var entries: seq<Slot>
    ghost var model: Guards

    ghost predicate Valid()
      reads this
    {
      Represents(entries, model)
    }

    constructor ()
      ensures Valid() && model == map[]
    {
      entries, model := [], map[];
    }

    /** Where `src` is in the list, if it is. */
    method Position(src: Source) returns (r: Option<nat>)
      requires Valid()
      ensures r.Some? ==> r.value < |entries| && entries[r.value].source == src
      ensures r.Some? <==> src in model
    {
      for i := 0 to |entries|
        invariant forall j :: 0 <= j < i ==> entries[j].source != src
      {
        if entries[i].source == src {
          return Some(i);
        }
      }
      return None;
    }

    method IsLocked(src: Source, now: u64) returns (locked: bool)
      requires Valid()
      ensures locked == Locked(model, src, now)
    {
      var at := Position(src);
      return at.Some? && now < entries[at.value].guard.lockedUntil;
    }

    /** The index of `src`, which gets a clean record if it had none. */
    method EntryFor(src: Source) returns (i: nat)
      requires Valid()
      modifies this
      ensures Valid()
      ensures i < |entries| && entries[i].source == src
      ensures model == old(model)[src := GuardOf(old(model), src)]
    {
      var at := Position(src);
      if at.Some? {
        assert model == model[src := GuardOf(model, src)];
        return at.value;
      }
      RepresentsPush(entries, model, src, Guard(0, 0));
      entries, model := entries + [Slot(src, Guard(0, 0))], model[src := Guard(0, 0)];
      return |entries| - 1;
    }

    method RecordFailure(src: Source, now: u64) returns (tipped: bool)
      requires Valid()
      modifies this
      ensures Valid()
      ensures model == Failed(old(model), src, now)
      ensures tipped == Tips(old(model), src, now)
    {
      var i := EntryFor(src);
      var g := entries[i].guard;
      assert g == GuardOf(old(model), src);
      var failures := Bump(g.failures);
      tipped := now >= g.lockedUntil && failures >= LOCKOUT_THRESHOLD;
      var until := if tipped then SatAdd(now, LOCKOUT_DURATION_SECS) else g.lockedUntil;
      RepresentsUpdate(entries, model, i, Guard(failures, until));
      entries, model := entries[i := Slot(src, Guard(failures, until))], model[src := Guard(failures, until)];
    }

    method RecordSuccess(src: Source)
      requires Valid()
      modifies this
      ensures Valid()
      ensures model == Succeeded(old(model), src)
    {
      var at := Position(src);
      if at.Some? {
        RepresentsRemove(entries, model, at.value);
        entries, model := entries[..at.value] + entries[at.value + 1..], model - {src};
      } else {
        assert model == model - {src};
      }
    }
  }

  // ----- the round -----

  datatype ReadError = Aborted | EndOfFile | Io

  /** What the session table says about a new session. */
  datatype SessionGrant = Granted(id: nat) | NameTooLong | TableFull

  datatype Outcome =
    | Authenticated(id: nat, username: string, role: Role, mustChange: bool)
    | LockedOut
    | LoginFailed
    | LoginAborted
    | LoginEof
    | SessionTableFull

  /** Does the password match the hash? */
  type Verifier = (string, string) -> bool

  /** The first entry with the name. */
  function Lookup(users: seq<Entry>, name: string): Option<Entry> {
    if users == [] then None
    else if users[0].username == name then Some(users[0])
    else Lookup(users[1..], name)
  }

  /** Every entry is looked at; the first match is kept. */
  method LookupUser(users: seq<Entry>, name: string) returns (found: Option<Entry>)
    ensures found == Lookup(users, name)
  {
    found := None;
    assert users[0..] == users;
    for i := 0 to |users|
      invariant Lookup(users, name) == if found.Some? then found else Lookup(users[i..], name)
    {
      assert users[i..][1..] == users[i + 1..];
      if users[i].username == name && found.None? {
        found := Some(users[i]);
      }
    }
  }

  predicate MustChange(u: Entry) {
    u.flags % 2 == 1
  }

  /** What the console input amounts to. */
  function Judge(users: seq<Entry>, verify: Verifier, name: Result<string, ReadError>,
                 password: Result<string, ReadError>): Attempt {
    if name.Err? || password.Err? then
      var e := if name.Err? then name.error else password.error;
      match e case Aborted => Abort case EndOfFile => Eof case Io => ReadFault
    else
      var user := Lookup(users, name.value);
      if user.Some? && verify(password.value, user.value.phc) then Right else Wrong
  }

  /** The `i`-th entry is the first with the name. */
  ghost predicate FirstNamed(users: seq<Entry>, name: string, i: nat) {
    i < |users| && users[i].username == name && forall j :: 0 <= j < i ==> users[j].username != name
  }

  /** Looking up a name finds the first entry that has it, or nothing exactly when none has. */
  lemma {:induction false} LookupIff(users: seq<Entry>, name: string)
    ensures Lookup(users, name).None? <==> forall i :: 0 <= i < |users| ==> users[i].username != name
    ensures forall i: nat :: FirstNamed(users, name, i) ==> Lookup(users, name) == Some(users[i])
    ensures Lookup(users, name).Some? ==> exists i: nat :: FirstNamed(users, name, i)
  {
    if users != [] {
      LookupIff(users[1..], name);
      assert users == [users[0]] + users[1..];
      if users[0].username == name {
        assert FirstNamed(users, name, 0);
      } else {
        forall i: nat | FirstNamed(users, name, i) ensures Lookup(users, name) == Some(users[i]) {
          assert FirstNamed(users[1..], name, i - 1);
        }
        if i: nat :| FirstNamed(users[1..], name, i) {
          assert FirstNamed(users, name, i + 1);
        }
      }
    }
  }

  /** What an attempt is: right exactly when both lines were read and the password verifies against the first entry of
      that name, wrong exactly when they were read and it does not, and otherwise the first interruption. */
  lemma {:induction false} JudgeIff(users: seq<Entry>, verify: Verifier, name: Result<string, ReadError>,
                                    password: Result<string, ReadError>)
    ensures var a := Judge(users, verify, name, password);
      && (a == Right <==>
            && name.Ok? && password.Ok?
            && exists i: nat :: FirstNamed(users, name.value, i) && verify(password.value, users[i].phc))
      && (a == Right || a == Wrong <==> name.Ok? && password.Ok?)
      && (a == Abort <==> name == Err(Aborted) || (name.Ok? && password == Err(Aborted)))
      && (a == Eof <==> name == Err(EndOfFile) || (name.Ok? && password == Err(EndOfFile)))
      && (a == ReadFault <==> name == Err(Io) || (name.Ok? && password == Err(Io)))
  {
    hide Lookup, FirstNamed;
    if name.Ok? {
      LookupIff(users, name.value);
    }
  }

  /** One login round: the table moves by exactly the throttle's step, a locked source is turned away before anything
      is read, and access is granted only on the matching hash of the named user. */
  method RunLoginRound(name: Result<string, ReadError>, password: Result<string, ReadError>, users: seq<Entry>,
                       grant: SessionGrant, lockouts: LockoutMap, source: Source, now: u64, dummyPhc: string,
                       verify: Verifier) returns (o: Outcome)
    requires lockouts.Valid()
    modifies lockouts
    ensures lockouts.Valid()
    ensures var r := Round(source, now, Judge(users, verify, name, password));
      && lockouts.model == Lockout.Step(old(lockouts.model), r)
      && (o == LockedOut <==> EffectOf(old(lockouts.model), r) == Refused)
      && (o.Authenticated? <==> EffectOf(old(lockouts.model), r) == Cleared && grant.Granted?)
      && (o == SessionTableFull <==> EffectOf(old(lockouts.model), r) == Cleared && grant.TableFull?)
      && (o == LoginAborted <==> EffectOf(old(lockouts.model), r) == Nothing && r.attempt == Abort)
      && (o == LoginEof <==> EffectOf(old(lockouts.model), r) == Nothing && r.attempt == Eof)
    ensures o.Authenticated? ==>
      && name.Ok? && password.Ok? && Lookup(users, name.value).Some?
      && var u := Lookup(users, name.value).value;
        && verify(password.value, u.phc)
        && o == Authenticated(grant.id, u.username, u.role, u.flags % 2 == 1)
  {
    hide Lookup, Failed, Succeeded, Locked;
    var locked := lockouts.IsLocked(source, now);
    if locked {
      return LockedOut;
    }
    if name.Err? {
      return if name.error.Aborted? then LoginAborted else if name.error.EndOfFile? then LoginEof else LoginFailed;
    }
    if password.Err? {
      return if password.error.Aborted? then LoginAborted
             else if password.error.EndOfFile? then LoginEof
             else LoginFailed;
    }
    var user := LookupUser(users, name.value);
    var phc := if user.Some? then user.value.phc else dummyPhc;
    var ok := verify(password.value, phc);
    if user.None? || !ok {
      var _ := lockouts.RecordFailure(source, now);
      return LoginFailed;
    }
    lockouts.RecordSuccess(source);
    match grant {
      case NameTooLong => return LoginFailed;
      case TableFull => return SessionTableFull;
      case Granted(id) => return Authenticated(id, user.value.username, user.value.role, MustChange(user.value));
    }
  }
}
