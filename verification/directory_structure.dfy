/**
 Materialization of the directory structure: the root directory is ensured
 first, then each species' directory chain is created where missing, in
 chain order, followed by its leaf file; the first failing create stops the
 species, and in sequential mode the whole run.
 */
module DirectoryStructure {
  import opened Types
  import opened SpeciesDomain
  import opened TreeDomain
  import opened FileSystem
  import opened PathSynthesis
  import ProcessManager

  /** A storage call that creates something. */
  datatype Op = MakeDirectory(path: string) | MakeFile(path: string)

  /** Final status, storage state and the create calls made, in order. */
  datatype Outcome = Outcome(status: StatusCode, fs: Storage, ops: seq<Op>)

  /** `a` is `b` with some elements left out. */
  predicate Subsequence<T(==)>(a: seq<T>, b: seq<T>)
    decreases |b|
  {
    if |a| == 0 then true
    else if |b| == 0 then false
    else (a[0] == b[0] && Subsequence(a[1..], b[1..])) || Subsequence(a, b[1..])
  }

  /** The paths of the create calls, in order. */
  function Created(ops: seq<Op>): (ps: seq<string>)
    ensures |ps| == |ops|
    ensures forall i :: 0 <= i < |ops| ==> ps[i] == ops[i].path
  {
    if |ops| == 0 then [] else [ops[0].path] + Created(ops[1..])
  }

  /**
   Walks `paths` in order, creating each one that does not exist yet and
   stopping at the first create that fails, whose code becomes the result.
   */
  function EnsureDirectories(fs: Storage, paths: seq<string>): Outcome
    decreases |paths|
  {
    if |paths| == 0 then Outcome(Success, fs, [])
    else if DirectoryExists(fs, paths[0]) then EnsureDirectories(fs, paths[1..])
    else
      var (st, fs1) := CreateDirectory(fs, paths[0]);
      if st != Success then Outcome(st, fs, [MakeDirectory(paths[0])])
      else
        var rest := EnsureDirectories(fs1, paths[1..]);
        Outcome(rest.status, rest.fs, [MakeDirectory(paths[0])] + rest.ops)
  }

  /**
   Ensuring directories only adds directories, and only paths of the list;
   every call it makes is a directory create of a listed path that did not
   exist before.
   */
  lemma {:induction false} EnsureDirectoriesGrows(fs: Storage, paths: seq<string>)
    ensures var o := EnsureDirectories(fs, paths);
            && Grows(fs, o.fs) && o.fs.files == fs.files
            && (forall p :: p in o.fs.dirs ==> p in fs.dirs || p in paths)
            && (forall op :: op in o.ops ==> op.MakeDirectory? && op.path in paths && op.path !in fs.dirs)
    decreases |paths|
  {
    if |paths| > 0 {
      if DirectoryExists(fs, paths[0]) {
        EnsureDirectoriesGrows(fs, paths[1..]);
      } else {
        var (st, fs1) := CreateDirectory(fs, paths[0]);
        if st == Success {
          EnsureDirectoriesGrows(fs1, paths[1..]);
        }
      }
    }
  }

  /** The directories are created in list order. */
  lemma {:induction false} EnsureDirectoriesInOrder(fs: Storage, paths: seq<string>)
    ensures Subsequence(Created(EnsureDirectories(fs, paths).ops), paths)
    decreases |paths|
  {
    var o := EnsureDirectories(fs, paths);
    if |paths| > 0 {
      if DirectoryExists(fs, paths[0]) {
        EnsureDirectoriesInOrder(fs, paths[1..]);
        SubsequenceOfTail(Created(o.ops), paths);
      } else {
        var (st, fs1) := CreateDirectory(fs, paths[0]);
        if st != Success {
          assert Created(o.ops) == [paths[0]];
          assert Created(o.ops)[1..] == [];
        } else {
          EnsureDirectoriesInOrder(fs1, paths[1..]);
          var rest := EnsureDirectories(fs1, paths[1..]);
          assert Created(o.ops)[0] == paths[0];
          assert Created(o.ops)[1..] == Created(rest.ops);
        }
      }
    }
  }

  /**
   On success every listed path is a directory afterwards, unless a file
   already held it (then the create answered EEXIST and nothing was made).
   */
  lemma {:induction false} EnsureDirectoriesSuccess(fs: Storage, paths: seq<string>)
    ensures var o := EnsureDirectories(fs, paths);
            o.status == Success ==> forall p :: p in paths ==> p in o.fs.dirs || p in fs.files
    decreases |paths|
  {
    if |paths| > 0 {
      if DirectoryExists(fs, paths[0]) {
        EnsureDirectoriesSuccess(fs, paths[1..]);
        EnsureDirectoriesGrows(fs, paths[1..]);
      } else {
        var (st, fs1) := CreateDirectory(fs, paths[0]);
        if st == Success {
          EnsureDirectoriesSuccess(fs1, paths[1..]);
          EnsureDirectoriesGrows(fs1, paths[1..]);
        }
      }
    }
  }

  /** On failure the last call made is the refused create, and its refusal code is the result. */
  lemma {:induction false} EnsureDirectoriesFailure(fs: Storage, paths: seq<string>)
    ensures var o := EnsureDirectories(fs, paths);
            o.status != Success ==> |o.ops| > 0 && Refusal(fs, o.ops[|o.ops| - 1].path) == Some(o.status)
    decreases |paths|
  {
    if |paths| > 0 {
      if DirectoryExists(fs, paths[0]) {
        EnsureDirectoriesFailure(fs, paths[1..]);
      } else {
        var (st, fs1) := CreateDirectory(fs, paths[0]);
        if st == Success {
          EnsureDirectoriesFailure(fs1, paths[1..]);
          var rest := EnsureDirectories(fs1, paths[1..]);
          if rest.status != Success {
            var o := EnsureDirectories(fs, paths);
            assert o.ops[|o.ops| - 1] == rest.ops[|rest.ops| - 1];
          }
        }
      }
    }
  }

  /** When every listed path is already a directory, nothing is called and nothing changes. */
  lemma {:induction false} EnsureDirectoriesIdle(fs: Storage, paths: seq<string>)
    requires forall p :: p in paths ==> p in fs.dirs
    ensures EnsureDirectories(fs, paths) == Outcome(Success, fs, [])
    decreases |paths|
  {
    if |paths| > 0 {
      assert paths[0] in paths;
      assert forall p :: p in paths[1..] ==> p in paths;
      EnsureDirectoriesIdle(fs, paths[1..]);
    }
  }

  /**
   When every listed path is taken, by a directory or a file, the walk
   succeeds and changes nothing; its only calls are directory creates of
   the paths files hold, each answering EEXIST.
   */
  lemma {:induction false} EnsureDirectoriesOverTakenPaths(fs: Storage, paths: seq<string>)
    requires forall p :: p in paths ==> p in fs.dirs || p in fs.files
    ensures var o := EnsureDirectories(fs, paths);
            && o.status == Success && o.fs == fs
            && (forall op :: op in o.ops ==> op.MakeDirectory? && op.path in fs.files)
    decreases |paths|
  {
    if |paths| > 0 {
      assert paths[0] in paths;
      assert forall p :: p in paths[1..] ==> p in paths;
      EnsureDirectoriesOverTakenPaths(fs, paths[1..]);
    }
  }

  /** Dropping the head of the longer sequence keeps a subsequence relation. */
  lemma SubsequenceOfTail<T>(a: seq<T>, b: seq<T>)
    requires |b| > 0 && Subsequence(a, b[1..])
    ensures Subsequence(a, b)
  {
  }

  /** Creates the file unless it exists already. */
  function EnsureFile(fs: Storage, path: string): (o: Outcome)
    ensures Grows(fs, o.fs) && o.fs.dirs == fs.dirs
    ensures o.status == Success ==> o.fs.files == fs.files + {path}
    ensures o.status != Success ==> o.fs == fs && path !in fs.files
    ensures o.status != Success && path in fs.dirs ==> o.status == ErrorFileCreation
    ensures o.status != Success && path !in fs.dirs ==> Refusal(fs, path) == Some(o.status)
    ensures path in fs.files ==> o == Outcome(Success, fs, [])
    ensures path !in fs.files ==> o.ops == [MakeFile(path)]
  {
    if FileExists(fs, path) then Outcome(Success, fs, [])
    else
      var (st, fs1) := CreateFile(fs, path);
      Outcome(st, fs1, [MakeFile(path)])
  }

  /** Reference meaning of materializing one species: its directory chain, then its leaf. */
  function SpeciesStep(fs: Storage, s: Species, root: string, questions: seq<string>, cfg: Config): Outcome
  {
    var d := EnsureDirectories(fs, Walk(s, root, questions, cfg));
    if d.status != Success then d
    else
      var f := EnsureFile(d.fs, SpeciesLeaf(s, root, questions, cfg));
      Outcome(f.status, f.fs, d.ops + f.ops)
  }

  /**
   What one species' step guarantees: storage only grows, and only by the
   species' own directories and leaf; on success the leaf exists and every
   directory of the chain exists unless a file already held its path; the
   leaf file is attempted only once every directory on its path is there
   in that sense, so a
   failing directory stops the species before its file; and when everything
   already exists no create call is made.
   */
  lemma SpeciesStepProperties(fs: Storage, s: Species, root: string, questions: seq<string>, cfg: Config)
    ensures var o := SpeciesStep(fs, s, root, questions, cfg);
            var dirs := Walk(s, root, questions, cfg);
            var leaf := SpeciesLeaf(s, root, questions, cfg);
            && Grows(fs, o.fs)
            && (forall p :: p in o.fs.dirs ==> p in fs.dirs || p in dirs)
            && (forall p :: p in o.fs.files ==> p in fs.files || p == leaf)
            && (o.status == Success ==> (forall p :: p in dirs ==> p in o.fs.dirs || p in fs.files) && leaf in o.fs.files)
            && (MakeFile(leaf) in o.ops ==> forall p :: p in dirs ==> p in o.fs.dirs || p in fs.files)
            && (forall op :: op in o.ops && op.MakeFile? ==> op.path == leaf)
            && ((forall p :: p in dirs ==> p in fs.dirs) && leaf in fs.files ==> o == Outcome(Success, fs, []))
  {
    var dirs := Walk(s, root, questions, cfg);
    var leaf := SpeciesLeaf(s, root, questions, cfg);
    var d := EnsureDirectories(fs, dirs);
    EnsureDirectoriesGrows(fs, dirs);
    EnsureDirectoriesSuccess(fs, dirs);
    if forall p :: p in dirs ==> p in fs.dirs {
      EnsureDirectoriesIdle(fs, dirs);
    }
    if d.status == Success {
      var f := EnsureFile(d.fs, leaf);
      assert forall op :: op in d.ops + f.ops ==> op in d.ops || op in f.ops;
    }
  }

  /** EnsureDirectories over a concatenation runs the first part, then the second from where it left off. */
  lemma {:induction false} EnsureDirectoriesAppend(fs: Storage, a: seq<string>, b: seq<string>)
    ensures var oa := EnsureDirectories(fs, a);
            EnsureDirectories(fs, a + b)
              == if oa.status != Success then oa
                 else var ob := EnsureDirectories(oa.fs, b); Outcome(ob.status, ob.fs, oa.ops + ob.ops)
    decreases |a|
  {
    if |a| == 0 {
      assert a + b == b;
    } else {
      assert (a + b)[0] == a[0] && (a + b)[1..] == a[1..] + b;
      if DirectoryExists(fs, a[0]) {
        EnsureDirectoriesAppend(fs, a[1..], b);
      } else {
        var (st, fs1) := CreateDirectory(fs, a[0]);
        if st == Success {
          EnsureDirectoriesAppend(fs1, a[1..], b);
          var oa' := EnsureDirectories(fs1, a[1..]);
          if oa'.status == Success {
            var ob := EnsureDirectories(oa'.fs, b);
            AppendAssociative([MakeDirectory(a[0])], oa'.ops, ob.ops);
          }
        }
      }
    }
  }

  /** Ensuring one more directory after a successful prefix. */
  lemma EnsureDirectoriesSnoc(fs: Storage, done: seq<string>, path: string, fs1: Storage, ops: seq<Op>)
    requires EnsureDirectories(fs, done) == Outcome(Success, fs1, ops)
    ensures EnsureDirectories(fs, done + [path])
              == if path in fs1.dirs then Outcome(Success, fs1, ops)
                 else
                   var (st, fs2) := CreateDirectory(fs1, path);
                   if st != Success then Outcome(st, fs1, ops + [MakeDirectory(path)])
                   else Outcome(Success, fs2, ops + [MakeDirectory(path)])
  {
    EnsureDirectoriesAppend(fs, done, [path]);
    assert [path][1..] == [];
    assert ops + [] == ops;
  }

  /**
   The per-species routine of the program: walk the canonical questions,
   create each missing directory of the chain, stop at the first failing
   create, then create the leaf file if it is missing. It does exactly what
   SpeciesStep describes.
   */
  method CreateSpeciesDirectories(s: Species, root: string, questions: seq<string>, cfg: Config, fs: Storage)
    returns (status: StatusCode, fs': Storage, ops: seq<Op>)
    ensures Outcome(status, fs', ops) == SpeciesStep(fs, s, root, questions, cfg)
  {
    var current := root;
    ghost var done: seq<string> := [];
    fs' := fs;
    ops := [];
    var i := 0;
    assert questions[0..] == questions;
    while i < |questions|
      invariant 0 <= i <= |questions|
      invariant Walk(s, root, questions, cfg) == done + Walk(s, current, questions[i..], cfg)
      invariant current == FinalDirectory(root, done)
      invariant EnsureDirectories(fs, done) == Outcome(Success, fs', ops)
    {
      var question := questions[i];
      assert questions[i..][0] == question && questions[i..][1..] == questions[i + 1..];
      var found, answer := FindAnswer(s, question);
      if !found {
        i := i + 1;
        continue;
      }
      var newPath := CharacteristicPath(current, question, answer, cfg.trueText, cfg.falseText, cfg.concatMode);
      ghost var rest := Walk(s, newPath, questions[i + 1..], cfg);
      assert Walk(s, current, questions[i..], cfg) == [newPath] + rest;
      AppendAssociative(done, [newPath], rest);
      EnsureDirectoriesSnoc(fs, done, newPath, fs', ops);
      if !DirectoryExists(fs', newPath) {
        var (st, fs2) := CreateDirectory(fs', newPath);
        if st != Success {
          EnsureDirectoriesAppend(fs, done + [newPath], rest);
          return st, fs', ops + [MakeDirectory(newPath)];
        }
        fs' := fs2;
        ops := ops + [MakeDirectory(newPath)];
      }
      done := done + [newPath];
      current := newPath;
      i := i + 1;
    }
    assert done == Walk(s, root, questions, cfg);
    var leaf := LeafPath(current, s.name);
    if !FileExists(fs', leaf) {
      var (st, fs2) := CreateFile(fs', leaf);
      status := st;
      fs' := fs2;
      ops := ops + [MakeFile(leaf)];
    } else {
      status := Success;
      assert ops + [] == ops;
    }
  }

  /** The sequential loop: species in tree order, stopping at the first failure. */
  function RunSequential(fs: Storage, species: seq<Species>, questions: seq<string>, cfg: Config): Outcome
    decreases |species|
  {
    if |species| == 0 then Outcome(Success, fs, [])
    else
      var first := SpeciesStep(fs, species[0], cfg.rootDir, questions, cfg);
      if first.status != Success then first
      else
        var rest := RunSequential(first.fs, species[1..], questions, cfg);
        Outcome(rest.status, rest.fs, first.ops + rest.ops)
  }

  /** A sequential run only adds directories and files. */
  lemma {:induction false} RunSequentialGrows(fs: Storage, species: seq<Species>, questions: seq<string>, cfg: Config)
    ensures Grows(fs, RunSequential(fs, species, questions, cfg).fs)
    decreases |species|
  {
    if |species| > 0 {
      var first := SpeciesStep(fs, species[0], cfg.rootDir, questions, cfg);
      SpeciesStepProperties(fs, species[0], cfg.rootDir, questions, cfg);
      if first.status == Success {
        RunSequentialGrows(first.fs, species[1..], questions, cfg);
      }
    }
  }

  /**
   A failing sequential run failed at some species k: the species before k
   all succeeded, and the run's status, storage and calls are exactly those
   of the run cut after k, so no later species was attempted.
   */
  lemma {:induction false} SequentialStopsAtFirstFailure(fs: Storage, species: seq<Species>, questions: seq<string>, cfg: Config)
    requires RunSequential(fs, species, questions, cfg).status != Success
    ensures exists k :: 0 <= k < |species|
              && RunSequential(fs, species[..k], questions, cfg).status == Success
              && RunSequential(fs, species[..k + 1], questions, cfg) == RunSequential(fs, species, questions, cfg)
    decreases |species|
  {
    var first := SpeciesStep(fs, species[0], cfg.rootDir, questions, cfg);
    if first.status != Success {
      assert species[..0] == [];
      assert species[..1][0] == species[0] && species[..1][1..] == [];
      assert RunSequential(fs, species[..1], questions, cfg) == first;
    } else {
      SequentialStopsAtFirstFailure(first.fs, species[1..], questions, cfg);
      var k :| 0 <= k < |species[1..]|
               && RunSequential(first.fs, species[1..][..k], questions, cfg).status == Success
               && RunSequential(first.fs, species[1..][..k + 1], questions, cfg) == RunSequential(first.fs, species[1..], questions, cfg);
      assert species[..k + 1][0] == species[0] && species[..k + 1][1..] == species[1..][..k];
      assert species[..k + 2][0] == species[0] && species[..k + 2][1..] == species[1..][..k + 1];
      assert RunSequential(fs, species[..k + 1], questions, cfg).status == Success;
    }
  }

  /**
   After a successful sequential run every species' leaf exists, and every
   path of its chain is taken: a directory, or a file that held it.
   */
  lemma {:induction false} SequentialSuccessCreatesAll(fs: Storage, species: seq<Species>, questions: seq<string>, cfg: Config)
    requires RunSequential(fs, species, questions, cfg).status == Success
    ensures var after := RunSequential(fs, species, questions, cfg).fs;
            forall s :: s in species ==>
              (forall p :: p in Walk(s, cfg.rootDir, questions, cfg) ==> p in after.dirs || p in after.files)
              && SpeciesLeaf(s, cfg.rootDir, questions, cfg) in after.files
    decreases |species|
  {
    if |species| > 0 {
      var first := SpeciesStep(fs, species[0], cfg.rootDir, questions, cfg);
      SpeciesStepProperties(fs, species[0], cfg.rootDir, questions, cfg);
      SequentialSuccessCreatesAll(first.fs, species[1..], questions, cfg);
      RunSequentialGrows(first.fs, species[1..], questions, cfg);
      var after := RunSequential(fs, species, questions, cfg).fs;
      forall s | s in species
        ensures (forall p :: p in Walk(s, cfg.rootDir, questions, cfg) ==> p in after.dirs || p in after.files)
        ensures SpeciesLeaf(s, cfg.rootDir, questions, cfg) in after.files
      {
        if s != species[0] {
          assert s in species[1..];
        }
      }
    }
  }

  /** When every species' directories and leaf exist, a sequential run does nothing. */
  lemma {:induction false} SequentialRunOnCompleteStorage(fs: Storage, species: seq<Species>, questions: seq<string>, cfg: Config)
    requires forall s :: s in species ==>
               (forall p :: p in Walk(s, cfg.rootDir, questions, cfg) ==> p in fs.dirs)
               && SpeciesLeaf(s, cfg.rootDir, questions, cfg) in fs.files
    ensures RunSequential(fs, species, questions, cfg) == Outcome(Success, fs, [])
    decreases |species|
  {
    if |species| > 0 {
      assert species[0] in species;
      SpeciesStepProperties(fs, species[0], cfg.rootDir, questions, cfg);
      forall s | s in species[1..]
        ensures s in species
      {
      }
      SequentialRunOnCompleteStorage(fs, species[1..], questions, cfg);
    }
  }

  /**
   When every species' leaf exists and every path of its chain is taken, a
   sequential run succeeds and changes nothing; its only calls are directory
   creates of paths files hold.
   */
  lemma {:induction false} SequentialRunOnTakenStorage(fs: Storage, species: seq<Species>, questions: seq<string>, cfg: Config)
    requires forall s :: s in species ==>
               (forall p :: p in Walk(s, cfg.rootDir, questions, cfg) ==> p in fs.dirs || p in fs.files)
               && SpeciesLeaf(s, cfg.rootDir, questions, cfg) in fs.files
    ensures var o := RunSequential(fs, species, questions, cfg);
            && o.status == Success && o.fs == fs
            && (forall op :: op in o.ops ==> op.MakeDirectory? && op.path in fs.files)
    decreases |species|
  {
    if |species| > 0 {
      assert species[0] in species;
      var dirs := Walk(species[0], cfg.rootDir, questions, cfg);
      EnsureDirectoriesOverTakenPaths(fs, dirs);
      var d := EnsureDirectories(fs, dirs);
      assert d.ops + [] == d.ops;
      forall s | s in species[1..]
        ensures s in species
      {
      }
      SequentialRunOnTakenStorage(fs, species[1..], questions, cfg);
      var rest := RunSequential(fs, species[1..], questions, cfg);
      assert forall op :: op in d.ops + rest.ops ==> op in d.ops || op in rest.ops;
    }
  }

  /** Reference meaning of the sequential mode: ensure the root, then run the species. */
  function MaterializeSequential(fs: Storage, t: Tree, cfg: Config): Outcome
  {
    var r := EnsureDirectories(fs, [cfg.rootDir]);
    if r.status != Success then r
    else
      var run := RunSequential(r.fs, t.species, t.questions, cfg);
      Outcome(run.status, run.fs, r.ops + run.ops)
  }

  /**
   Idempotence: materializing the same tree again on the storage a
   successful run left behind succeeds and leaves the storage as it was.
   Its only calls are directory creates of paths that files hold; when no
   file holds the root or a path of any chain, it makes no call at all.
   */
  lemma MaterializeTwiceIsNoOp(fs: Storage, t: Tree, cfg: Config)
    requires MaterializeSequential(fs, t, cfg).status == Success
    ensures var after := MaterializeSequential(fs, t, cfg).fs;
            var again := MaterializeSequential(after, t, cfg);
            && again.status == Success && again.fs == after
            && (forall op :: op in again.ops ==> op.MakeDirectory? && op.path in after.files)
    ensures var after := MaterializeSequential(fs, t, cfg).fs;
            (&& cfg.rootDir !in after.files
             && forall s :: s in t.species ==> forall p :: p in Walk(s, cfg.rootDir, t.questions, cfg) ==> p !in after.files)
            ==> MaterializeSequential(after, t, cfg) == Outcome(Success, after, [])
  {
    var r := EnsureDirectories(fs, [cfg.rootDir]);
    EnsureDirectoriesSuccess(fs, [cfg.rootDir]);
    EnsureDirectoriesGrows(fs, [cfg.rootDir]);
    assert cfg.rootDir in [cfg.rootDir];
    var after := RunSequential(r.fs, t.species, t.questions, cfg).fs;
    RunSequentialGrows(r.fs, t.species, t.questions, cfg);
    SequentialSuccessCreatesAll(r.fs, t.species, t.questions, cfg);
    EnsureDirectoriesOverTakenPaths(after, [cfg.rootDir]);
    SequentialRunOnTakenStorage(after, t.species, t.questions, cfg);
    var r2 := EnsureDirectories(after, [cfg.rootDir]);
    var run2 := RunSequential(after, t.species, t.questions, cfg);
    assert forall op :: op in r2.ops + run2.ops ==> op in r2.ops || op in run2.ops;
    if && cfg.rootDir !in after.files
       && forall s :: s in t.species ==> forall p :: p in Walk(s, cfg.rootDir, t.questions, cfg) ==> p !in after.files
    {
      EnsureDirectoriesIdle(after, [cfg.rootDir]);
      SequentialRunOnCompleteStorage(after, t.species, t.questions, cfg);
    }
  }

  /** The program's sequential loop over the species, stopping at the first failing one. */
  method RunSpecies(species: seq<Species>, questions: seq<string>, cfg: Config, fs: Storage)
    returns (status: StatusCode, fs': Storage, ops: seq<Op>)
    ensures Outcome(status, fs', ops) == RunSequential(fs, species, questions, cfg)
  {
    fs' := fs;
    ops := [];
    var i := 0;
    assert species[0..] == species;
    while i < |species|
      invariant 0 <= i <= |species|
      invariant var rest := RunSequential(fs', species[i..], questions, cfg);
                RunSequential(fs, species, questions, cfg) == Outcome(rest.status, rest.fs, ops + rest.ops)
    {
      var st, fs2, stepOps := CreateSpeciesDirectories(species[i], cfg.rootDir, questions, cfg, fs');
      assert species[i..][0] == species[i] && species[i..][1..] == species[i + 1..];
      if st != Success {
        return st, fs2, ops + stepOps;
      }
      ghost var rest := RunSequential(fs2, species[i + 1..], questions, cfg);
      AppendAssociative(ops, stepOps, rest.ops);
      fs' := fs2;
      ops := ops + stepOps;
      i := i + 1;
    }
    assert ops + [] == ops;
    status := Success;
  }

  /**
   The use case. The root is ensured first and a failure there is returned
   at once. In sequential mode the species run in tree order and the first
   failing species' status is returned. In multi-process mode the parent's
   own part is modelled: admission of one child per species under the
   processor bound, fork failure, and the final reaping; the children's
   storage work runs concurrently and is not part of this model.
   */
  method CreateDirectoryStructure(t: Tree, cfg: Config, fs: Storage, env: ProcessManager.ProcessEnv)
    returns (status: StatusCode, fs': Storage, ops: seq<Op>)
    requires cfg.useMultipleProcesses ==> ProcessManager.EnvCovers(env, |t.species|)
    ensures !cfg.useMultipleProcesses ==> Outcome(status, fs', ops) == MaterializeSequential(fs, t, cfg)
    ensures cfg.useMultipleProcesses ==>
              var r := EnsureDirectories(fs, [cfg.rootDir]);
              if r.status != Success then Outcome(status, fs', ops) == r
              else status == ProcessManager.ParentStatus(env) && fs' == r.fs && ops == r.ops
  {
    fs' := fs;
    ops := [];
    assert [cfg.rootDir][1..] == [];
    if !DirectoryExists(fs, cfg.rootDir) {
      var (st, fs1) := CreateDirectory(fs, cfg.rootDir);
      ops := [MakeDirectory(cfg.rootDir)];
      if st != Success {
        return st, fs, ops;
      }
      fs' := fs1;
    }
    assert EnsureDirectories(fs, [cfg.rootDir]) == Outcome(Success, fs', ops);
    if cfg.useMultipleProcesses {
      status := ProcessManager.DispatchChildren(env);
      return;
    }
    var runOps;
    status, fs', runOps := RunSpecies(t.species, t.questions, cfg, fs');
    ops := ops + runOps;
  }
}
