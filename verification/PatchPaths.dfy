/**
 Which reported change a patch file stands for, in plain terms: what an operation declares, when a path of the patch
 fits a declared one, and when that leaves only one change.
 */
module PatchPaths {
  import opened Options
  import opened DiffPatch

  /** Everything but a deletion has a new path, and everything but an addition an old one: the source of a move or copy,
      and otherwise the path itself. */
  predicate Declares(op: Operation, paths: Paths) {
    && !op.OtherOperation?
    && paths.1 == (if op.Delete? then None else Some(op.path))
    && paths.0 == if op.Add? then None else Some(if op.Move? || op.Copy? then op.oldPath else op.path)
  }

  /** A rooted path fits only itself; a relative one fits every path that ends in its components. */
  ghost predicate Fits(patch: Option<Path>, declared: Option<Path>) {
    || (patch.None? && declared.None?)
    || (patch.Some? && patch.value.rooted && declared == patch)
    || (patch.Some? && !patch.value.rooted && declared.Some?
        && exists start: seq<string> :: declared.value.components == start + patch.value.components)
  }

  ghost predicate FitsChange(paths: Paths, change: Change) {
    exists declared :: Declares(change.operation, declared) && Fits(paths.0, declared.0) && Fits(paths.1, declared.1)
  }

  ghost predicate IsDeclaredBy(changes: seq<Change>, i: nat, paths: Paths) {
    i < |changes| && Declares(changes[i].operation, paths)
  }

  ghost predicate IsFittedBy(changes: seq<Change>, i: nat, paths: Paths) {
    i < |changes| && FitsChange(paths, changes[i])
  }

  /** The only change that declares these paths or, if none does and one of them is relative, the only one they fit. */
  ghost predicate MeansOnly(changes: seq<Change>, paths: Paths, i: nat) {
    if exists k: nat :: IsDeclaredBy(changes, k, paths)
    then IsDeclaredBy(changes, i, paths) && forall k: nat :: IsDeclaredBy(changes, k, paths) ==> k == i
    else
      && (exists p: Path :: !p.rooted && (paths.0 == Some(p) || paths.1 == Some(p)))
      && IsFittedBy(changes, i, paths) && forall k: nat :: IsFittedBy(changes, k, paths) ==> k == i
  }

  /** The paths a file of the patch goes by: its own or, if it names none, those of the only change there is. */
  ghost predicate GoesBy(changes: seq<Change>, file: PatchFile, paths: Paths) {
    if file.oldPath.Some? || file.newPath.Some? then paths == (file.oldPath, file.newPath)
    else |changes| == 1 && Declares(changes[0].operation, paths)
  }

  ghost predicate StandsPlainlyFor(changes: seq<Change>, file: PatchFile, association: Association) {
    var (i, shown) := association;
    && (exists paths :: GoesBy(changes, file, paths) && MeansOnly(changes, paths, i))
    && i < |changes| && changes[i].fileType in {None, Some(TextFile)}
    && Declares(changes[i].operation, (shown.oldPath, shown.newPath)) && shown.hunks == file.hunks
    && (shown.oldPath.None? ==> forall k :: 0 <= k < |shown.hunks| ==> shown.hunks[k].oldCount == 0)
    && (shown.newPath.None? ==> forall k :: 0 <= k < |shown.hunks| ==> shown.hunks[k].newCount == 0)
  }

  // ----- the model says the same -----

  lemma {:induction false} EndsWithExactly(path: Path, tail: Path)
    ensures EndsWith(path, tail) <==> exists start: seq<string> :: path.components == start + tail.components
  {
    var p, t := path.components, tail.components;
    if EndsWith(path, tail) {
      assert p == p[..|p| - |t|] + t;
    }
    if start: seq<string> :| p == start + t {
      assert p[|p| - |t|..] == t;
    }
  }

  lemma {:induction false} FitsExactly(patch: Option<Path>, declared: Option<Path>)
    ensures PathMatches(patch, declared) <==> Fits(patch, declared)
  {
    if patch.Some? && declared.Some? {
      EndsWithExactly(declared.value, patch.value);
    }
  }

  lemma {:induction false} DeclaresExactly(change: Change, paths: Paths)
    ensures ChangePaths(change) == Some(paths) <==> Declares(change.operation, paths)
  {
  }

  lemma {:induction false} FitsChangeExactly(paths: Paths, change: Change)
    ensures FitsChange(paths, change) <==> ChangePaths(change).Some? && BothMatch(paths, ChangePaths(change).value)
  {
    if ChangePaths(change).Some? {
      var declared := ChangePaths(change).value;
      DeclaresExactly(change, declared);
      FitsExactly(paths.0, declared.0);
      FitsExactly(paths.1, declared.1);
    }
    if d :| Declares(change.operation, d) {
      DeclaresExactly(change, d);
    }
  }

  lemma {:induction false} RelativeExactly(paths: Paths)
    ensures HasRelative(paths) <==> exists p: Path :: !p.rooted && (paths.0 == Some(p) || paths.1 == Some(p))
  {
    if paths.0.Some? && !paths.0.value.rooted {
      assert paths.0 == Some(paths.0.value);
    }
    if paths.1.Some? && !paths.1.value.rooted {
      assert paths.1 == Some(paths.1.value);
    }
  }

  lemma {:induction false} MeansOnlyExactly(changes: seq<Change>, paths: Paths, i: nat)
    ensures MeansOnly(changes, paths, i) <==> IsOnlyMatch(changes, paths, i)
  {
    forall k: nat ensures IsDeclaredBy(changes, k, paths) <==> Exact(changes, k, paths) {
      if k < |changes| {
        DeclaresExactly(changes[k], paths);
      }
    }
    forall k: nat ensures IsFittedBy(changes, k, paths) <==> Suffix(changes, k, paths) {
      if k < |changes| {
        FitsChangeExactly(paths, changes[k]);
      }
    }
    RelativeExactly(paths);
  }

  lemma {:induction false} GoesByExactly(changes: seq<Change>, file: PatchFile, paths: Paths)
    ensures GoesBy(changes, file, paths) <==> PathsOf(changes, file) == Ok(paths)
  {
    if |changes| == 1 {
      DeclaresExactly(changes[0], paths);
    }
  }

  /** A file stands for a change in the model if and only if it plainly does. */
  lemma {:induction false} StandsExactly(changes: seq<Change>, file: PatchFile, association: Association)
    ensures StandsFor(changes, file, association) <==> StandsPlainlyFor(changes, file, association)
  {
    var (i, shown) := association;
    if i < |changes| {
      DeclaresExactly(changes[i], (shown.oldPath, shown.newPath));
    }
    if PathsOf(changes, file).Ok? {
      GoesByExactly(changes, file, PathsOf(changes, file).value);
      MeansOnlyExactly(changes, PathsOf(changes, file).value, i);
    }
    if paths :| GoesBy(changes, file, paths) && MeansOnly(changes, paths, i) {
      GoesByExactly(changes, file, paths);
      MeansOnlyExactly(changes, paths, i);
    }
  }

  /** Parsing a patch gives a result if and only if there are changes and every file plainly stands for a different
      one of them. */
  lemma {:induction false} ParsedPlainly(
    changes: seq<Change>, order: seq<Paths>, files: seq<PatchFile>, all: seq<Association>)
    requires Enumerates(order, IndexOf(changes, |changes|))
    ensures Parsed(changes, order, files) == Ok(all) <==>
            && changes != [] && |all| == |files|
            && (forall a, b :: 0 <= a < b < |all| ==> all[a].0 != all[b].0)
            && (forall a :: 0 <= a < |all| ==> StandsPlainlyFor(changes, files[a], all[a]))
  {
    ParsedExactly(changes, order, files, all);
    if |all| == |files| {
      forall a | 0 <= a < |all| ensures StandsFor(changes, files[a], all[a]) <==>
                                        StandsPlainlyFor(changes, files[a], all[a]) {
        StandsExactly(changes, files[a], all[a]);
      }
    }
  }
}
