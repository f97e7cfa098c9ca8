/** Stage, flush, rename: what a path holds over runs of writes, crashes and clean-ups. */
module AtomicWriteSpec {
  import opened Results

  /** The contents of a file: text, or bytes that are not UTF-8. */
  datatype Stored = Text(text: string) | NotUtf8

  type Files = map<string, Stored>

  /** How far a write got: refused before it touched anything, cut short while staging, cut off before the rename, or
      through. */
  datatype Fault = Untouched | Torn(left: Option<Stored>) | AfterStage | NoFault

  /** A clean-up that is cut short has removed some of the staging files it was to remove. */
  datatype Op =
    | Write(path: string, contents: Stored, fault: Fault)
    | Cleanup(dir: string)
    | CutCleanup(dir: string, gone: set<string>)

  function Staging(path: string): string {
    path + ".tmp"
  }

  predicate EndsTmp(path: string) {
    |path| >= 4 && path[|path| - 4..] == ".tmp"
  }

  /** The directory with its trailing slash; the empty directory is everywhere. */
  function Prefix(dir: string): string {
    if dir == "" || dir[|dir| - 1] == '/' then dir else dir + "/"
  }

  predicate Orphan(dir: string, path: string) {
    Prefix(dir) <= path && EndsTmp(path)
  }

  function Get(files: Files, p: string): Option<Stored> {
    if p in files then Some(files[p]) else None
  }

  function Put(files: Files, p: string, c: Option<Stored>): Files {
    if c.Some? then files[p := c.value] else files - {p}
  }

  function Move(files: Files, from: string, to: string): Files {
    if from in files then (files - {from})[to := files[from]] else files
  }

  function Sweep(files: Files, dir: string): Files {
    map p | p in files && !Orphan(dir, p) :: files[p]
  }

  function SweepSome(files: Files, dir: string, gone: set<string>): Files {
    map p | p in files && !(Orphan(dir, p) && p in gone) :: files[p]
  }

  function Step(files: Files, op: Op): Files {
    match op
    case Cleanup(dir) => Sweep(files, dir)
    case CutCleanup(dir, gone) => SweepSome(files, dir, gone)
    case Write(path, contents, fault) =>
      if path == "" then files
      else
        match fault
        case Untouched => files
        case Torn(left) => Put(files, Staging(path), left)
        case AfterStage => files[Staging(path) := contents]
        case NoFault => Move(files[Staging(path) := contents], Staging(path), path)
  }

  predicate Acknowledged(op: Op) {
    op.Write? && op.path != "" && op.fault.NoFault?
  }

  function Run(files: Files, ops: seq<Op>): Files {
    if ops == [] then files else Step(Run(files, ops[..|ops| - 1]), ops[|ops| - 1])
  }

  /** What was last acknowledged for a path, or what it held at first. */
  function LastAcknowledged(files: Files, ops: seq<Op>, p: string): Option<Stored> {
    if ops == [] then Get(files, p)
    else
      var op := ops[|ops| - 1];
      if Acknowledged(op) && op.path == p then Some(op.contents)
      else LastAcknowledged(files, ops[..|ops| - 1], p)
  }

  lemma {:induction false} StagingEndsTmp(path: string)
    ensures EndsTmp(Staging(path))
  {
    var s := Staging(path);
    assert s[|s| - 4..] == ".tmp";
  }

  lemma {:induction false} StepHolds(files: Files, op: Op, p: string)
    requires !EndsTmp(p)
    ensures Get(Step(files, op), p) == if Acknowledged(op) && op.path == p then Some(op.contents) else Get(files, p)
  {
    if op.Write? {
      StagingEndsTmp(op.path);
    }
  }

  lemma {:induction false} RunHolds(files: Files, ops: seq<Op>, p: string)
    requires !EndsTmp(p)
    ensures Get(Run(files, ops), p) == LastAcknowledged(files, ops, p)
  {
    if ops != [] {
      RunHolds(files, ops[..|ops| - 1], p);
      StepHolds(Run(files, ops[..|ops| - 1]), ops[|ops| - 1], p);
      hide Step, Get;
    }
  }

  ghost predicate HoldsLastAcknowledged(p: string) {
    forall files, ops :: Get(Run(files, ops), p) == LastAcknowledged(files, ops, p)
  }

  /** A path holds its last acknowledged contents over every run exactly when it does not look like a staging file. */
  lemma {:induction false} HoldsIff(p: string)
    ensures HoldsLastAcknowledged(p) <==> !EndsTmp(p)
  {
    if EndsTmp(p) {
      var ops := [Write(p, NotUtf8, NoFault), Cleanup("")];
      assert ops[..1] == [Write(p, NotUtf8, NoFault)] && ops[..1][..0] == [];
      assert Run(map[], ops[..1]) == Step(map[], ops[0]);
      assert Orphan("", p);
      assert p !in Run(map[], ops);
      assert LastAcknowledged(map[], ops[..1], p) == Some(NotUtf8);
      assert Get(Run(map[], ops), p) != LastAcknowledged(map[], ops, p);
    } else {
      forall files, ops ensures Get(Run(files, ops), p) == LastAcknowledged(files, ops, p) {
        RunHolds(files, ops, p);
      }
    }
  }

  /** The directory is given by its name, with or without the slash at its end. */
  predicate Names(dir: string, name: string)
    requires dir != ""
  {
    if dir[|dir| - 1] == '/' then dir == name + "/" else dir == name
  }

  /** The path lies in the directory; every path lies in the directory without a name. */
  ghost predicate InDirectory(dir: string, p: string) {
    dir == "" || exists name, rest :: Names(dir, name) && p == name + "/" + rest
  }

  lemma {:induction false} PrefixIff(dir: string, p: string)
    ensures Prefix(dir) <= p <==> InDirectory(dir, p)
  {
    if dir != "" {
      var n := |dir| - 1;
      var name := if dir[n] == '/' then dir[..n] else dir;
      assert dir == dir[..n] + [dir[n]];
      assert Names(dir, name) && Prefix(dir) == name + "/";
      if Prefix(dir) <= p {
        assert p == name + "/" + p[|name| + 1..];
      }
      if m, rest :| Names(dir, m) && p == m + "/" + rest {
        assert p[..|m| + 1] == m + "/" == Prefix(dir);
      }
    }
  }

  /** After any run, a clean-up of a directory leaves exactly the acknowledged files in it: no staging file, and every
      other path with its last acknowledged contents. Outside the directory nothing changes. */
  lemma {:induction false} RecoveryIsClean(files: Files, ops: seq<Op>, dir: string, p: string)
    ensures Get(Run(files, ops + [Cleanup(dir)]), p) ==
            if !InDirectory(dir, p) then Get(Run(files, ops), p)
            else if EndsTmp(p) then None
            else LastAcknowledged(files, ops, p)
  {
    var all := ops + [Cleanup(dir)];
    assert all[..|all| - 1] == ops;
    if !EndsTmp(p) {
      RunHolds(files, ops, p);
    }
    PrefixIff(dir, p);
  }

  // ----- what a reader can see while a write is under way -----

  /** At every new point of a history a path that is no staging file shows its contents before the write, or, if it is
      the path written, the new contents. */
  ghost predicate NeverPartial(before: Files, path: string, contents: Stored, trail0: seq<Files>, trail: seq<Files>) {
    && trail0 <= trail
    && forall k, p :: |trail0| <= k < |trail| && !EndsTmp(p) ==>
        Get(trail[k], p) == Get(before, p) || (p == path && Get(trail[k], p) == Some(contents))
  }

  lemma {:induction false} NothingSeen(before: Files, path: string, contents: Stored, trail: seq<Files>)
    ensures NeverPartial(before, path, contents, trail, trail)
  {
  }

  lemma {:induction false} StagingUnseen(before: Files, path: string, part: Option<Stored>, p: string)
    requires !EndsTmp(p)
    ensures Get(Put(before, Staging(path), part), p) == Get(before, p)
  {
    StagingEndsTmp(path);
  }

  /** A history that first changes the staging file alone, any number of times, and may end with the rename. */
  lemma {:induction false} NeverPartialHistory(before: Files, path: string, contents: Stored, trail0: seq<Files>,
                                               parts: seq<Option<Stored>>, renamed: bool)
    ensures var staged := seq(|parts|, i requires 0 <= i < |parts| => Put(before, Staging(path), parts[i]));
            var last := Step(before, Write(path, contents, NoFault));
            NeverPartial(before, path, contents, trail0, trail0 + staged + if renamed && path != "" then [last] else [])
  {
    var staged := seq(|parts|, i requires 0 <= i < |parts| => Put(before, Staging(path), parts[i]));
    var last := Step(before, Write(path, contents, NoFault));
    var trail := trail0 + staged + if renamed && path != "" then [last] else [];
    forall k, p | |trail0| <= k < |trail| && !EndsTmp(p)
      ensures Get(trail[k], p) == Get(before, p) || (p == path && Get(trail[k], p) == Some(contents))
    {
      if k < |trail0| + |parts| {
        assert trail[k] == Put(before, Staging(path), parts[k - |trail0|]);
        StagingUnseen(before, path, parts[k - |trail0|], p);
      } else {
        StepHolds(before, Write(path, contents, NoFault), p);
      }
    }
  }
}
