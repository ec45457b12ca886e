/**
 How the files of a patch are associated with the reported file changes (`DiffPatch::parse` and `DiffPatch::new` in
 `crates/acp_thread/src/diff.rs`). The text of the patch has been parsed already.
 */
module DiffPatch {
  import opened Options

  /** A path by its components; `rooted` is what `PathStyle::Windows.has_root` says about it. */
  datatype Path = Path(rooted: bool, components: seq<string>)

  /** The old and the new path of a file operation. */
  type Paths = (Option<Path>, Option<Path>)

  datatype Operation = Add(path: Path) | Delete(path: Path) | Modify(path: Path) | Move(oldPath: Path, path: Path)
                     | Copy(oldPath: Path, path: Path) | OtherOperation(kind: string)

  datatype FileType = TextFile | OtherType(kind: string)

  datatype Change = Change(operation: Operation, fileType: Option<FileType>)

  datatype Hunk = Hunk(oldStart: nat, oldCount: nat, newStart: nat, newCount: nat, oldText: string, newText: string)

  datatype PatchFile = PatchFile(oldPath: Option<Path>, newPath: Option<Path>, hunks: seq<Hunk>)

  datatype Error =
    | NoChanges
    | NeedsOneChange
    | UnsupportedOperation
    | AmbiguousRelative
    | NoMatch
    | Repeated
    | NotText
    | Conflict

  datatype Result<T> = Ok(value: T) | Err(error: Error)

  function ChangePaths(change: Change): Option<Paths> {
    match change.operation
    case Add(path) => Some((None, Some(path)))
    case Delete(path) => Some((Some(path), None))
    case Modify(path) => Some((Some(path), Some(path)))
    case Move(source, path) => Some((Some(source), Some(path)))
    case Copy(source, path) => Some((Some(source), Some(path)))
    case OtherOperation(_) => None
  }

  /** `Path::ends_with`: whole components. */
  predicate EndsWith(path: Path, tail: Path) {
    |tail.components| <= |path.components|
    && path.components[|path.components| - |tail.components|..] == tail.components
  }

  predicate PathMatches(patch: Option<Path>, reported: Option<Path>) {
    match (patch, reported)
    case (None, None) => true
    case (Some(p), Some(r)) => if p.rooted then p == r else EndsWith(r, p)
    case _ => false
  }

  predicate BothMatch(patch: Paths, reported: Paths) {
    PathMatches(patch.0, reported.0) && PathMatches(patch.1, reported.1)
  }

  predicate HasRelative(paths: Paths) {
    (paths.0.Some? && !paths.0.value.rooted) || (paths.1.Some? && !paths.1.value.rooted)
  }

  // ----- the index of reported changes -----

  /** The paths of the first `n` changes, each with the change's position unless several changes report it. */
  function IndexOf(changes: seq<Change>, n: nat): map<Paths, Option<nat>>
    requires n <= |changes|
  {
    if n == 0 then map[]
    else
      var before := IndexOf(changes, n - 1);
      var paths := ChangePaths(changes[n - 1]);
      if paths.None? then before
      else before[paths.value := if paths.value in before then None else Some(n - 1)]
  }

  method BuildIndex(changes: seq<Change>) returns (index: map<Paths, Option<nat>>)
    ensures index == IndexOf(changes, |changes|)
  {
    index := map[];
    for i := 0 to |changes|
      invariant index == IndexOf(changes, i)
    {
      var paths := ChangePaths(changes[i]);
      if paths.Some? {
        index := index[paths.value := if paths.value in index then None else Some(i)];
      }
    }
  }

  ghost predicate Reports(changes: seq<Change>, n: nat, i: nat, paths: Paths)
    requires n <= |changes|
  {
    i < n && ChangePaths(changes[i]) == Some(paths)
  }

  /** A path pair is in the index if some change reports it, and carries a position exactly if only one does. */
  lemma {:induction false} IndexIsExact(changes: seq<Change>, n: nat, paths: Paths)
    requires n <= |changes|
    ensures paths in IndexOf(changes, n) <==> exists i :: 0 <= i < n && Reports(changes, n, i, paths)
    ensures paths in IndexOf(changes, n) && IndexOf(changes, n)[paths].Some? ==>
              var i := IndexOf(changes, n)[paths].value;
              Reports(changes, n, i, paths) && forall j :: 0 <= j < n && Reports(changes, n, j, paths) ==> j == i
    ensures paths in IndexOf(changes, n) && IndexOf(changes, n)[paths].None? ==>
              exists i, j :: 0 <= i < j < n && Reports(changes, n, i, paths) && Reports(changes, n, j, paths)
  {
    if n > 0 {
      IndexIsExact(changes, n - 1, paths);
      var before := IndexOf(changes, n - 1);
      assert forall i :: 0 <= i < n - 1 ==> (Reports(changes, n, i, paths) <==> Reports(changes, n - 1, i, paths));
      if Reports(changes, n, n - 1, paths) {
        if paths in before {
          var i :| 0 <= i < n - 1 && Reports(changes, n - 1, i, paths);
          assert Reports(changes, n, i, paths) && Reports(changes, n, n - 1, paths);
        }
      } else if paths in before && before[paths].None? {
        var i, j :| 0 <= i < j < n - 1 && Reports(changes, n - 1, i, paths) && Reports(changes, n - 1, j, paths);
        assert Reports(changes, n, i, paths) && Reports(changes, n, j, paths);
      } else if paths in before {
        var i :| 0 <= i < n - 1 && Reports(changes, n - 1, i, paths);
        assert Reports(changes, n, i, paths);
      }
    }
  }

  // ----- finding the change of one patch file -----

  /** The reported paths that match, in the order in which the hash map yields its keys. */
  function MatchesIn(order: seq<Paths>, paths: Paths): seq<Paths> {
    if order == [] then []
    else (if BothMatch(paths, order[0]) then [order[0]] else []) + MatchesIn(order[1..], paths)
  }

  /** The change a pair of patch paths stands for. `order` lists the keys of `index` in the map's own order. */
  function Locate(index: map<Paths, Option<nat>>, order: seq<Paths>, paths: Paths): Result<nat> {
    if paths in index then
      if index[paths].Some? then Ok(index[paths].value) else Err(NoMatch)
    else if HasRelative(paths) then
      var matches := MatchesIn(order, paths);
      if |matches| > 1 then Err(AmbiguousRelative)
      else if |matches| == 1 && matches[0] in index && index[matches[0]].Some? then Ok(index[matches[0]].value)
      else Err(NoMatch)
    else Err(NoMatch)
  }

  ghost predicate Enumerates(order: seq<Paths>, index: map<Paths, Option<nat>>) {
    && (forall k :: k in order <==> k in index)
    && forall i, j :: 0 <= i < j < |order| ==> order[i] != order[j]
  }

  lemma {:induction false} MatchesExactly(order: seq<Paths>, paths: Paths)
    requires forall i, j :: 0 <= i < j < |order| ==> order[i] != order[j]
    ensures forall k :: k in MatchesIn(order, paths) <==> k in order && BothMatch(paths, k)
    ensures forall i, j :: 0 <= i < j < |MatchesIn(order, paths)| ==>
                             MatchesIn(order, paths)[i] != MatchesIn(order, paths)[j]
  {
    if order != [] {
      MatchesExactly(order[1..], paths);
      assert order == [order[0]] + order[1..];
      assert order[0] !in order[1..];
      var rest := MatchesIn(order[1..], paths);
      assert forall i :: 0 <= i < |rest| ==> rest[i] in rest;
    }
  }

  lemma {:induction false} SameMembersSameLength(a: seq<Paths>, b: seq<Paths>)
    requires forall k :: k in a <==> k in b
    requires forall i, j :: 0 <= i < j < |a| ==> a[i] != a[j]
    requires forall i, j :: 0 <= i < j < |b| ==> b[i] != b[j]
    ensures |a| > 1 <==> |b| > 1
    ensures |a| == 1 <==> |b| == 1
    ensures |a| == 1 ==> a == b
  {
    if |a| > 1 {
      assert a[0] in b && a[1] in b;
    }
    if |b| > 1 {
      assert b[0] in a && b[1] in a;
    }
    if |a| == 1 {
      assert a[0] in b;
    }
    if |b| == 1 {
      assert b[0] in a;
    }
  }

  /** The outcome does not depend on the order in which the hash map yields its keys. */
  lemma {:induction false} LocateIgnoresOrder(
    index: map<Paths, Option<nat>>, o1: seq<Paths>, o2: seq<Paths>, paths: Paths)
    requires Enumerates(o1, index) && Enumerates(o2, index)
    ensures Locate(index, o1, paths) == Locate(index, o2, paths)
  {
    MatchesExactly(o1, paths);
    MatchesExactly(o2, paths);
    SameMembersSameLength(MatchesIn(o1, paths), MatchesIn(o2, paths));
  }

  ghost predicate Exact(changes: seq<Change>, i: nat, paths: Paths) {
    i < |changes| && ChangePaths(changes[i]) == Some(paths)
  }

  ghost predicate Suffix(changes: seq<Change>, i: nat, paths: Paths) {
    i < |changes| && ChangePaths(changes[i]).Some? && BothMatch(paths, ChangePaths(changes[i]).value)
  }

  /** The only change reported under exactly these paths or, if there is none and one side is relative, the only
      change whose paths both end in them. */
  ghost predicate IsOnlyMatch(changes: seq<Change>, paths: Paths, i: nat) {
    if exists k :: Exact(changes, k, paths)
    then Exact(changes, i, paths) && forall k :: Exact(changes, k, paths) ==> k == i
    else HasRelative(paths) && Suffix(changes, i, paths) && forall k :: Suffix(changes, k, paths) ==> k == i
  }

  lemma {:induction false} LocateExact(changes: seq<Change>, order: seq<Paths>, paths: Paths, i: nat)
    requires exists k :: Exact(changes, k, paths)
    ensures paths in IndexOf(changes, |changes|)
    ensures Locate(IndexOf(changes, |changes|), order, paths) == Ok(i) <==>
            Exact(changes, i, paths) && forall k :: Exact(changes, k, paths) ==> k == i
  {
    var n := |changes|;
    IndexIsExact(changes, n, paths);
    var k :| Exact(changes, k, paths);
    assert Reports(changes, n, k, paths);
    assert forall j: nat :: Exact(changes, j, paths) <==> Reports(changes, n, j, paths);
  }

  lemma {:induction false} LocateSuffix(changes: seq<Change>, order: seq<Paths>, paths: Paths, i: nat)
    requires Enumerates(order, IndexOf(changes, |changes|))
    requires (forall k :: !Exact(changes, k, paths)) && HasRelative(paths)
    ensures Locate(IndexOf(changes, |changes|), order, paths) == Ok(i) ==>
              Suffix(changes, i, paths) && forall k :: Suffix(changes, k, paths) ==> k == i
  {
    var n, index := |changes|, IndexOf(changes, |changes|);
    IndexIsExact(changes, n, paths);
    assert paths !in index by {
      assert forall k :: Reports(changes, n, k, paths) ==> Exact(changes, k, paths);
    }
    MatchesExactly(order, paths);
    var matches := MatchesIn(order, paths);
    if |matches| == 1 {
      var key := matches[0];
      assert key in matches;
      IndexIsExact(changes, n, key);
      forall k | Suffix(changes, k, paths) ensures Reports(changes, n, k, key) {
        SuffixIsMatch(changes, order, paths, k);
      }
    }
  }

  lemma {:induction false} SuffixIsMatch(changes: seq<Change>, order: seq<Paths>, paths: Paths, k: nat)
    requires Enumerates(order, IndexOf(changes, |changes|)) && Suffix(changes, k, paths)
    ensures ChangePaths(changes[k]).value in MatchesIn(order, paths)
  {
    IndexIsExact(changes, |changes|, ChangePaths(changes[k]).value);
    assert Reports(changes, |changes|, k, ChangePaths(changes[k]).value);
    MatchesExactly(order, paths);
  }

  lemma {:induction false} OnlyElement(s: seq<Paths>, key: Paths)
    requires key in s && forall i, j :: 0 <= i < j < |s| ==> s[i] != s[j]
    requires forall k :: k in s ==> k == key
    ensures s == [key]
  {
    assert s[0] in s && s[|s| - 1] in s;
  }

  lemma {:induction false} LocateOnlySuffix(changes: seq<Change>, order: seq<Paths>, paths: Paths, i: nat)
    requires Enumerates(order, IndexOf(changes, |changes|))
    requires (forall k :: !Exact(changes, k, paths)) && HasRelative(paths)
    requires Suffix(changes, i, paths) && forall k :: Suffix(changes, k, paths) ==> k == i
    ensures Locate(IndexOf(changes, |changes|), order, paths) == Ok(i)
  {
    var n, index := |changes|, IndexOf(changes, |changes|);
    IndexIsExact(changes, n, paths);
    assert paths !in index by {
      assert forall k :: Reports(changes, n, k, paths) ==> Exact(changes, k, paths);
    }
    var key := ChangePaths(changes[i]).value;
    var matches := MatchesIn(order, paths);
    SuffixIsMatch(changes, order, paths, i);
    MatchesExactly(order, paths);
    forall m | m in matches ensures m == key {
      IndexIsExact(changes, n, m);
      var k :| 0 <= k < n && Reports(changes, n, k, m);
      assert Suffix(changes, k, paths);
    }
    OnlyElement(matches, key);
    IndexIsExact(changes, n, key);
    assert forall k :: Reports(changes, n, k, key) ==> Suffix(changes, k, paths);
    assert Reports(changes, n, i, key);
  }

  /** A patch file is associated with a change if and only if that is the only one it can mean. */
  lemma {:induction false} LocatesOnlyMatch(changes: seq<Change>, order: seq<Paths>, paths: Paths, i: nat)
    requires Enumerates(order, IndexOf(changes, |changes|))
    ensures Locate(IndexOf(changes, |changes|), order, paths) == Ok(i) <==> IsOnlyMatch(changes, paths, i)
  {
    if exists k :: Exact(changes, k, paths) {
      LocateExact(changes, order, paths, i);
    } else if HasRelative(paths) {
      LocateSuffix(changes, order, paths, i);
      if IsOnlyMatch(changes, paths, i) {
        LocateOnlySuffix(changes, order, paths, i);
      }
    } else {
      IndexIsExact(changes, |changes|, paths);
      assert forall k :: Reports(changes, |changes|, k, paths) ==> Exact(changes, k, paths);
    }
  }

  // ----- associating all files of a patch -----

  /** The paths a patch file goes by: its own, or those of the only change if it names none. */
  function PathsOf(changes: seq<Change>, file: PatchFile): Result<Paths> {
    if file.oldPath.None? && file.newPath.None? then
      if |changes| != 1 then Err(NeedsOneChange)
      else if ChangePaths(changes[0]).None? then Err(UnsupportedOperation)
      else Ok(ChangePaths(changes[0]).value)
    else Ok((file.oldPath, file.newPath))
  }

  /** A side without a file has no lines. */
  predicate HunksFit(paths: Paths, hunks: seq<Hunk>) {
    forall i :: 0 <= i < |hunks| ==>
                  (paths.0.Some? || hunks[i].oldCount == 0) && (paths.1.Some? || hunks[i].newCount == 0)
  }

  type Association = (nat, PatchFile)

  /** The checks on a located change, after those before it have taken the changes `seen`. */
  function Admit(changes: seq<Change>, i: nat, file: PatchFile, seen: set<nat>): Result<Association> {
    if i in seen then Err(Repeated)
    else if |changes| <= i then Err(NoMatch)
    else if !(changes[i].fileType == None || changes[i].fileType == Some(TextFile)) then Err(NotText)
    else
      var declared := ChangePaths(changes[i]);
      var paths := if declared.Some? then declared.value else (file.oldPath, file.newPath);
      if !HunksFit(paths, file.hunks) then Err(Conflict) else Ok((i, PatchFile(paths.0, paths.1, file.hunks)))
  }

  function Associate(
    changes: seq<Change>, index: map<Paths, Option<nat>>, order: seq<Paths>, file: PatchFile,
    seen: set<nat>): Result<Association> {
    var paths := PathsOf(changes, file);
    if paths.Err? then Err(paths.error)
    else
      var located := Locate(index, order, paths.value);
      if located.Err? then Err(located.error) else Admit(changes, located.value, file, seen)
  }

  function Taken(associations: seq<Association>): set<nat> {
    set a | a in associations :: a.0
  }

  /** The association of the first `n` files, which stops at the first error. */
  function AssociateAll(
    changes: seq<Change>, index: map<Paths, Option<nat>>, order: seq<Paths>, files: seq<PatchFile>,
    n: nat): Result<seq<Association>>
    requires n <= |files|
  {
    if n == 0 then Ok([])
    else
      var before := AssociateAll(changes, index, order, files, n - 1);
      if before.Err? then before
      else
        var next := Associate(changes, index, order, files[n - 1], Taken(before.value));
        if next.Err? then Err(next.error) else Ok(before.value + [next.value])
  }

  function Parsed(changes: seq<Change>, order: seq<Paths>, files: seq<PatchFile>): Result<seq<Association>> {
    if changes == [] then Err(NoChanges)
    else AssociateAll(changes, IndexOf(changes, |changes|), order, files, |files|)
  }

  lemma {:induction false} ErrorsStay(
    changes: seq<Change>, index: map<Paths, Option<nat>>, order: seq<Paths>, files: seq<PatchFile>, k: nat, n: nat)
    requires k <= n <= |files| && AssociateAll(changes, index, order, files, k).Err?
    ensures AssociateAll(changes, index, order, files, n) == AssociateAll(changes, index, order, files, k)
    decreases n - k
  {
    if k < n {
      ErrorsStay(changes, index, order, files, k, n - 1);
    }
  }

  /** `DiffPatch::parse`, given the files of the patch text and the order in which the hash map yields its keys. */
  method Parse(changes: seq<Change>, order: seq<Paths>, files: seq<PatchFile>)
    returns (result: Result<seq<Association>>)
    ensures result == Parsed(changes, order, files)
  {
    if changes == [] {
      return Err(NoChanges);
    }
    var index := BuildIndex(changes);
    var seen := {};
    var associations: seq<Association> := [];
    for n := 0 to |files|
      invariant AssociateAll(changes, index, order, files, n) == Ok(associations) && seen == Taken(associations)
    {
      var next := Associate(changes, index, order, files[n], seen);
      if next.Err? {
        ErrorsStay(changes, index, order, files, n + 1, |files|);
        return Err(next.error);
      }
      seen := seen + {next.value.0};
      associations := associations + [next.value];
    }
    result := Ok(associations);
  }

  /** A file stands for the only change its own paths can mean, a text file, keeps its hunks, and from then on goes
      by the paths which that change declares; a side without a path has no lines. */
  ghost predicate StandsFor(changes: seq<Change>, file: PatchFile, association: Association) {
    var (i, shown) := association;
    && PathsOf(changes, file).Ok? && IsOnlyMatch(changes, PathsOf(changes, file).value, i)
    && i < |changes| && (changes[i].fileType == None || changes[i].fileType == Some(TextFile))
    && ChangePaths(changes[i]) == Some((shown.oldPath, shown.newPath))
    && shown.hunks == file.hunks && HunksFit((shown.oldPath, shown.newPath), shown.hunks)
  }

  /** Every file stands for a different change. */
  ghost predicate OneToOne(changes: seq<Change>, files: seq<PatchFile>, associations: seq<Association>) {
    && |associations| == |files|
    && (forall a, b :: 0 <= a < b < |files| ==> associations[a].0 != associations[b].0)
    && (forall a :: 0 <= a < |files| ==> StandsFor(changes, files[a], associations[a]))
  }

  /** One file is associated as it should be if and only if its change is not taken yet. */
  lemma {:induction false} AssociatesExactly(
    changes: seq<Change>, order: seq<Paths>, file: PatchFile, seen: set<nat>, a: Association)
    requires Enumerates(order, IndexOf(changes, |changes|))
    ensures Associate(changes, IndexOf(changes, |changes|), order, file, seen) == Ok(a) <==>
            StandsFor(changes, file, a) && a.0 !in seen
  {
    var paths := PathsOf(changes, file);
    if paths.Ok? {
      LocatesOnlyMatch(changes, order, paths.value, a.0);
      var located := Locate(IndexOf(changes, |changes|), order, paths.value);
      if located.Ok? {
        LocatesOnlyMatch(changes, order, paths.value, located.value);
      }
    }
  }

  lemma {:induction false} TakenExactly(associations: seq<Association>, i: nat)
    ensures i in Taken(associations) <==> exists a :: 0 <= a < |associations| && associations[a].0 == i
  {
    if i in Taken(associations) {
      var x :| x in associations && x.0 == i;
      var a :| 0 <= a < |associations| && associations[a] == x;
      assert associations[a].0 == i;
    }
  }

  lemma {:induction false} OneToOneStep(
    changes: seq<Change>, files: seq<PatchFile>, file: PatchFile, before: seq<Association>, next: Association)
    requires |before| == |files|
    ensures OneToOne(changes, files + [file], before + [next]) <==>
            OneToOne(changes, files, before) && StandsFor(changes, file, next) && next.0 !in Taken(before)
  {
    var all, fs := before + [next], files + [file];
    TakenExactly(before, next.0);
    assert forall a :: 0 <= a < |before| ==> all[a] == before[a] && fs[a] == files[a];
    assert all[|before|] == next && fs[|before|] == file;
    if OneToOne(changes, fs, all) {
      assert forall a :: 0 <= a < |before| ==> all[a].0 != all[|before|].0;
      assert OneToOne(changes, files, before);
    }
  }

  /** The association succeeds with a result if and only if that result is one-to-one. */
  lemma {:induction false} AssociatedExactly(
    changes: seq<Change>, order: seq<Paths>, files: seq<PatchFile>, n: nat, all: seq<Association>)
    requires n <= |files| && Enumerates(order, IndexOf(changes, |changes|))
    ensures AssociateAll(changes, IndexOf(changes, |changes|), order, files, n) == Ok(all) <==>
            OneToOne(changes, files[..n], all)
  {
    var index := IndexOf(changes, |changes|);
    if n > 0 {
      var result := AssociateAll(changes, index, order, files, n - 1);
      assert files[..n] == files[..n - 1] + [files[n - 1]];
      if all != [] {
        var before, next := all[..|all| - 1], all[|all| - 1];
        assert all == before + [next];
        AssociatedExactly(changes, order, files, n - 1, before);
        AssociatesExactly(changes, order, files[n - 1], Taken(before), next);
        if |all| == n {
          OneToOneStep(changes, files[..n - 1], files[n - 1], before, next);
        }
      }
    }
  }

  /** A patch is associated in a certain way if and only if there are changes and that way is one-to-one. So parsing
      succeeds exactly if every file has its only match, a text file whose declared sides fit the hunks, and no two
      files have the same; and there is never more than one result. */
  lemma {:induction false} ParsedExactly(
    changes: seq<Change>, order: seq<Paths>, files: seq<PatchFile>, all: seq<Association>)
    requires Enumerates(order, IndexOf(changes, |changes|))
    ensures Parsed(changes, order, files) == Ok(all) <==> changes != [] && OneToOne(changes, files, all)
  {
    AssociatedExactly(changes, order, files, |files|, all);
    assert files[..|files|] == files;
  }

  lemma {:induction false} ParseSucceedsExactly(changes: seq<Change>, order: seq<Paths>, files: seq<PatchFile>)
    requires Enumerates(order, IndexOf(changes, |changes|))
    ensures Parsed(changes, order, files).Ok? <==> changes != [] && exists all :: OneToOne(changes, files, all)
  {
    if Parsed(changes, order, files).Ok? {
      ParsedExactly(changes, order, files, Parsed(changes, order, files).value);
    }
    if all :| changes != [] && OneToOne(changes, files, all) {
      ParsedExactly(changes, order, files, all);
    }
  }

  lemma {:induction false} AssociationIgnoresOrder(
    changes: seq<Change>, o1: seq<Paths>, o2: seq<Paths>, files: seq<PatchFile>, n: nat)
    requires n <= |files| && Enumerates(o1, IndexOf(changes, |changes|)) && Enumerates(o2, IndexOf(changes, |changes|))
    ensures var index := IndexOf(changes, |changes|);
            AssociateAll(changes, index, o1, files, n) == AssociateAll(changes, index, o2, files, n)
  {
    if n > 0 {
      AssociationIgnoresOrder(changes, o1, o2, files, n - 1);
      var paths := PathsOf(changes, files[n - 1]);
      if paths.Ok? {
        LocateIgnoresOrder(IndexOf(changes, |changes|), o1, o2, paths.value);
      }
    }
  }

  /** What parsing says, success or error, does not depend on the order of the hash map. */
  lemma {:induction false} ParseIgnoresOrder(
    changes: seq<Change>, o1: seq<Paths>, o2: seq<Paths>, files: seq<PatchFile>)
    requires Enumerates(o1, IndexOf(changes, |changes|)) && Enumerates(o2, IndexOf(changes, |changes|))
    ensures Parsed(changes, o1, files) == Parsed(changes, o2, files)
  {
    AssociationIgnoresOrder(changes, o1, o2, files, |files|);
  }

  // ----- the rows that are shown -----

  datatype Row = Row(changeIndex: nat, hunks: seq<Hunk>)

  /** A patch as supplied: absent or in an unknown format, unparsable, or the files in its text. */
  datatype Patch = NotGit | Unreadable | GitPatch(files: seq<PatchFile>)

  datatype Shown = Shown(rows: seq<Row>, fallback: bool)

  /** Where the hunks of change `i` come from. */
  ghost predicate RowShows(row: Row, i: nat, associations: seq<Association>) {
    && row.changeIndex == i
    && (forall a :: 0 <= a < |associations| && associations[a].0 == i ==> row.hunks == associations[a].1.hunks)
    && ((forall a :: 0 <= a < |associations| ==> associations[a].0 != i) ==> row.hunks == [])
  }

  method EmptyRows(n: nat) returns (rows: seq<Row>)
    ensures |rows| == n && forall i :: 0 <= i < n ==> rows[i] == Row(i, [])
  {
    rows := [];
    for i := 0 to n
      invariant |rows| == i && forall k :: 0 <= k < i ==> rows[k] == Row(k, [])
    {
      rows := rows + [Row(i, [])];
    }
  }

  /** The loop of `DiffPatch::new` that hands the hunks to their rows. */
  method FillRows(empty: seq<Row>, associations: seq<Association>) returns (rows: seq<Row>)
    requires forall i :: 0 <= i < |empty| ==> empty[i] == Row(i, [])
    requires forall a, b :: 0 <= a < b < |associations| ==> associations[a].0 != associations[b].0
    ensures |rows| == |empty| && forall i :: 0 <= i < |rows| ==> RowShows(rows[i], i, associations)
  {
    rows := empty;
    for n := 0 to |associations|
      invariant |rows| == |empty| && forall i :: 0 <= i < |rows| ==> RowShows(rows[i], i, associations[..n])
    {
      var (i, file) := associations[n];
      if i < |rows| {
        rows := rows[i := rows[i].(hunks := file.hunks)];
      }
      forall k | 0 <= k < |rows| ensures RowShows(rows[k], k, associations[..n + 1]) {
        assert associations[..n + 1] == associations[..n] + [associations[n]];
      }
    }
    assert associations[..|associations|] == associations;
  }

  /** `DiffPatch::new`: one row per change, always; the hunks of a patch that can be associated, and otherwise a
      fallback text. */
  method NewPatch(changes: seq<Change>, order: seq<Paths>, patch: Patch) returns (shown: Shown)
    requires Enumerates(order, IndexOf(changes, |changes|))
    ensures |shown.rows| == |changes| && forall i :: 0 <= i < |changes| ==> shown.rows[i].changeIndex == i
    ensures shown.fallback <==>
            patch.Unreadable? ||
            (patch.GitPatch? && !(changes != [] && exists all :: OneToOne(changes, patch.files, all)))
    ensures shown.fallback || patch.NotGit? ==> forall i :: 0 <= i < |changes| ==> shown.rows[i].hunks == []
    ensures patch.GitPatch? && !shown.fallback ==>
              forall all :: OneToOne(changes, patch.files, all) ==>
                              forall i :: 0 <= i < |changes| ==> RowShows(shown.rows[i], i, all)
  {
    var empty := EmptyRows(|changes|);
    match patch
    case NotGit => shown := Shown(empty, false);
    case Unreadable => shown := Shown(empty, true);
    case GitPatch(files) =>
      var result := Parse(changes, order, files);
      ParseSucceedsExactly(changes, order, files);
      if result.Err? {
        shown := Shown(empty, true);
      } else {
        ParsedExactly(changes, order, files, result.value);
        forall all | OneToOne(changes, files, all) ensures all == result.value {
          ParsedExactly(changes, order, files, all);
        }
        var rows := FillRows(empty, result.value);
        shown := Shown(rows, false);
      }
  }
}
