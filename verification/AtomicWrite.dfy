/** The two writers, proved to be steps of the model. */
module AtomicWrite {
  import opened Results
  import opened AtomicWriteSpec

  datatype WriteError = NotImplemented | Io | InvalidPath

  /** The in-memory writer with its crash switches. */
  class TestWriter {
    var files: Files
    var crashAfterStage: bool
    var crashDuringIo: bool

    constructor (files: Files)
      ensures this.files == files && !crashAfterStage && !crashDuringIo
    {
      this.files, crashAfterStage, crashDuringIo := files, false, false;
    }

    /** What the switches will do to the next write. */
    ghost function NextFault(): Fault
      reads this
    {
      if crashDuringIo then Untouched else if crashAfterStage then AfterStage else NoFault
    }

    method WriteAtomic(path: string, contents: Stored) returns (e: Option<WriteError>)
      modifies this
      ensures files == Step(old(files), Write(path, contents, old(NextFault())))
      ensures e.None? <==> Acknowledged(Write(path, contents, old(NextFault())))
      ensures e.Some? ==> e.value == if path == "" then InvalidPath else Io
      ensures path != "" ==> !crashDuringIo
      ensures path != "" && !old(crashDuringIo) ==> !crashAfterStage
    {
      if path == "" {
        return Some(InvalidPath);
      }
      if crashDuringIo {
        crashDuringIo := false;
        return Some(Io);
      }
      var tmp := Staging(path);
      files := files[tmp := contents];
      if crashAfterStage {
        crashAfterStage := false;
        return Some(Io);
      }
      if tmp in files {
        var staged := files[tmp];
        files := files - {tmp};
        files := files[path := staged];
      }
      return None;
    }

    method CleanupOrphanTmp(dir: string)
      modifies this
      ensures files == Step(old(files), Cleanup(dir))
      ensures crashAfterStage == old(crashAfterStage) && crashDuringIo == old(crashDuringIo)
    {
      var prefix := Prefix(dir);
      var doomed := set k | k in files && prefix <= k && EndsTmp(k);
      ghost var was := files;
      while doomed != {}
        invariant forall k :: k in doomed ==> k in files && Orphan(dir, k)
        invariant forall k :: k in was <==> k in files || (k in was && Orphan(dir, k))
        invariant forall k :: k in files ==> was[k] == files[k]
        invariant forall k :: k in files && Orphan(dir, k) ==> k in doomed
        invariant crashAfterStage == old(crashAfterStage) && crashDuringIo == old(crashDuringIo)
        decreases |doomed|
      {
        var k :| k in doomed;
        files := files - {k};
        doomed := doomed - {k};
      }
      assert files == Sweep(was, dir);
    }
  }

  /** A file system whose calls may fail: each call takes the next answer from a script. A failed write leaves `left`
      behind, and a failed clean-up has already removed the staging files in `gone`. */
  datatype Answer = Done | Fails(left: Option<Stored>, gone: set<string>)

  /** The answer of the `i`-th call from now on; past the end of the script everything works. */
  function AnswerAt(script: seq<Answer>, i: nat): Answer {
    if i < |script| then script[i] else Done
  }

  class Backend {
    var files: Files
    var script: seq<Answer>
    /** Everything the file system has held, in order, what is half written included. */
    ghost var trail: seq<Files>

    constructor (files: Files, script: seq<Answer>)
      ensures this.files == files && this.script == script && trail == [files]
    {
      this.files, this.script, trail := files, script, [files];
    }

    method Next() returns (a: Answer)
      modifies this`script
      ensures a == AnswerAt(old(script), 0)
      ensures script == if old(script) == [] then [] else old(script)[1..]
    {
      if script == [] {
        return Done;
      }
      a := script[0];
      script := script[1..];
    }

    /** On the way the file may hold anything. */
    method CreateAndWrite(path: string, contents: Stored) returns (ok: bool, ghost part: Option<Stored>)
      modifies this
      ensures ok == AnswerAt(old(script), 0).Done?
      ensures files == if ok then old(files)[path := contents] else Put(old(files), path, AnswerAt(old(script), 0).left)
      ensures script == if old(script) == [] then [] else old(script)[1..]
      ensures trail == old(trail) + [Put(old(files), path, part), files]
    {
      var a := Next();
      part := *;
      trail := trail + [Put(files, path, part)];
      if a.Done? {
        files := files[path := contents];
      } else if a.left.Some? {
        files := files[path := a.left.value];
      } else {
        files := files - {path};
      }
      trail := trail + [files];
      ok := a.Done?;
    }

    method Fsync() returns (ok: bool)
      modifies this`script
      ensures ok == AnswerAt(old(script), 0).Done?
      ensures script == if old(script) == [] then [] else old(script)[1..]
    {
      var a := Next();
      return a.Done?;
    }

    method Rename(src: string, dst: string) returns (ok: bool)
      modifies this
      ensures ok == AnswerAt(old(script), 0).Done?
      ensures files == if ok then Move(old(files), src, dst) else old(files)
      ensures trail == old(trail) + if ok then [files] else []
    {
      var a := Next();
      if a.Fails? {
        return false;
      }
      if src in files {
        var moved := files[src];
        files := files - {src};
        files := files[dst := moved];
      }
      trail := trail + [files];
      return true;
    }

    method CleanupTmpIn(dir: string) returns (ok: bool)
      modifies this
      ensures ok == AnswerAt(old(script), 0).Done?
      ensures files == if ok then Sweep(old(files), dir) else SweepSome(old(files), dir, AnswerAt(old(script), 0).gone)
    {
      var a := Next();
      if a.Fails? {
        files := map p | p in files && !(Orphan(dir, p) && p in a.gone) :: files[p];
        trail := trail + [files];
        return false;
      }
      files := map p | p in files && !Orphan(dir, p) :: files[p];
      trail := trail + [files];
      return true;
    }
  }

  /** How far a write gets under a script: stage, flush and rename take one answer each. */
  function ScriptFault(script: seq<Answer>): Fault {
    if AnswerAt(script, 0).Fails? then Torn(AnswerAt(script, 0).left)
    else if AnswerAt(script, 1).Fails? || AnswerAt(script, 2).Fails? then AfterStage
    else NoFault
  }

  /** The production writer: unbound until a file system is installed. */
  class KernelWriter {
    var backend: Backend?

    constructor ()
      ensures backend == null
    {
      backend := null;
    }

    method InstallBackend(b: Backend) returns (installed: bool)
      modifies this
      ensures installed <==> old(backend) == null
      ensures backend == if installed then b else old(backend)
    {
      if backend != null {
        return false;
      }
      backend := b;
      return true;
    }

    /** The write is the model's write with the fault the file system's answers amount to, acknowledged exactly when
        there is no error; and at no moment does a reader see a half-written file. */
    method WriteAtomic(path: string, contents: Stored) returns (e: Option<WriteError>)
      modifies backend
      ensures backend != null ==>
                && backend.files == Step(old(backend.files), Write(path, contents, ScriptFault(old(backend.script))))
                && NeverPartial(old(backend.files), path, contents, old(backend.trail), backend.trail)
                && (e.None? <==> Acknowledged(Write(path, contents, ScriptFault(old(backend.script)))))
      ensures e == Some(InvalidPath) <==> path == ""
      ensures e == Some(NotImplemented) <==> path != "" && backend == null
    {
      hide NeverPartial;
      if path == "" {
        if backend != null {
          NothingSeen(backend.files, path, contents, backend.trail);
        }
        return Some(InvalidPath);
      }
      if backend == null {
        return Some(NotImplemented);
      }
      ghost var before, trail0 := backend.files, backend.trail;
      var tmp := Staging(path);
      var ok: bool;
      ghost var part;
      ok, part := backend.CreateAndWrite(tmp, contents);
      ghost var parts := [part, if ok then Some(contents) else AnswerAt(old(backend.script), 0).left];
      NeverPartialHistory(before, path, contents, trail0, parts, false);
      NeverPartialHistory(before, path, contents, trail0, parts, true);
      ghost var staged := [Put(before, tmp, part), backend.files];
      assert staged == seq(|parts|, i requires 0 <= i < |parts| => Put(before, Staging(path), parts[i]));
      assert trail0 + staged + [] == trail0 + staged;
      if !ok {
        return Some(Io);
      }
      ok := backend.Fsync();
      if !ok {
        return Some(Io);
      }
      ok := backend.Rename(tmp, path);
      if !ok {
        return Some(Io);
      }
      return None;
    }

    method CleanupOrphanTmp(dir: string) returns (e: Option<WriteError>)
      modifies backend
      ensures backend != null ==>
                var a := AnswerAt(old(backend.script), 0);
                && backend.files == Step(old(backend.files), if a.Done? then Cleanup(dir) else CutCleanup(dir, a.gone))
                && (e.None? <==> a.Done?)
      ensures backend == null <==> e == Some(NotImplemented)
    {
      if backend == null {
        return Some(NotImplemented);
      }
      var ok := backend.CleanupTmpIn(dir);
      return if ok then None else Some(Io);
    }
  }

  /** Either writer. */
  datatype Writer = Memory(memory: TestWriter) | Kernel(kernel: KernelWriter) {
    ghost function Objects(): set<object>
      reads if Kernel? then {kernel} else {}
    {
      if Memory? then {memory} else if kernel.backend == null then {} else {kernel.backend}
    }

    /** A file system is there. */
    ghost predicate Mounted()
      reads if Kernel? then {kernel} else {}
    {
      Kernel? ==> kernel.backend != null
    }

    ghost function Held(): Files
      reads if Kernel? then {kernel} else {}, Objects()
    {
      if Memory? then memory.files else if kernel.backend == null then map[] else kernel.backend.files
    }

    /** What the next write will meet. */
    ghost function NextFault(): Fault
      reads if Kernel? then {kernel} else {}, Objects()
    {
      if Memory? then memory.NextFault()
      else if kernel.backend == null then Untouched
      else ScriptFault(kernel.backend.script)
    }

    method WriteAtomic(path: string, contents: Stored) returns (e: Option<WriteError>)
      modifies Objects()
      ensures Held() == Step(old(Held()), Write(path, contents, old(NextFault())))
      ensures e.None? <==> Acknowledged(Write(path, contents, old(NextFault())))
      ensures e.Some? ==>
                e.value == if path == "" then InvalidPath else if !Mounted() then NotImplemented else Io
    {
      match this
      case Memory(w) => e := w.WriteAtomic(path, contents);
      case Kernel(w) => e := w.WriteAtomic(path, contents);
    }
  }
}
