/**
 The include tree behind `parse_all`. The file system is a map from resolved path to parsed makefile;
 an included path that is not in the map is the "could not find include" error.
 */
module Includes {
  import opened Prelude
  import opened Reachability
  import opened Variables

  datatype MakefileText = MakefileText(vars: Vars, includes: seq<string>)

  type FileSystem = map<string, MakefileText>

  // ---- The run ----

  /** The first path that cannot be read, if any: `parse_included_makefiles` reads all before any merge. */
  function FirstMissing(fs: FileSystem, paths: seq<string>): Option<string> {
    if paths == [] then None
    else if paths[0] !in fs then Some(paths[0])
    else FirstMissing(fs, paths[1..])
  }

  lemma {:induction false} NothingMissing(fs: FileSystem, paths: seq<string>)
    ensures FirstMissing(fs, paths).None? <==> forall p :: p in paths ==> p in fs
  {
    if paths == [] {
    } else {
      NothingMissing(fs, paths[1..]);
      assert forall p :: p in paths <==> p == paths[0] || p in paths[1..];
    }
  }

  /** The path reported is the first in order that is missing. */
  lemma {:induction false} FirstMissingMeaning(fs: FileSystem, paths: seq<string>, i: nat)
    requires i < |paths| && paths[i] !in fs && forall j :: 0 <= j < i ==> paths[j] in fs
    ensures FirstMissing(fs, paths) == Some(paths[i])
  {
    if i == 0 {
    } else {
      assert paths[1..][i - 1] == paths[i] && forall j :: 0 <= j < i - 1 ==> paths[1..][j] == paths[j + 1];
      FirstMissingMeaning(fs, paths[1..], i - 1);
    }
  }

  /** What a run of `parse_all` comes to when it may follow chains of at most so many includes. */
  datatype Run = OutOfFuel | NotFound(path: string) | Finished(vars: Vars)

  /** `parse_all` on one makefile, its checks in the order of the code. */
  ghost function ParsedAll(fs: FileSystem, f: MakefileText, fuel: nat): Run
    decreases fuel, 1, 0
  {
    match FirstMissing(fs, f.includes)
    case Some(p) => NotFound(p)
    case None =>
      NothingMissing(fs, f.includes);
      match MergedIncludes(fs, f.includes, fuel)
      case Finished(acc) => Finished(Merged(acc, f.vars))
      case stopped => stopped
  }

  /** The includes merged left to right into an empty makefile, up to the first that fails. */
  ghost function MergedIncludes(fs: FileSystem, paths: seq<string>, fuel: nat): Run
    requires forall p :: p in paths ==> p in fs
    decreases fuel, 0, |paths|
  {
    if paths == [] then Finished(map[])
    else
      match MergedIncludes(fs, paths[..|paths| - 1], fuel)
      case Finished(acc) => OneMore(acc, Included(fs, paths[|paths| - 1], fuel))
      case stopped => stopped
  }

  function OneMore(acc: Vars, next: Run): Run {
    match next
    case Finished(vars) => Finished(Merged(acc, vars))
    case stopped => stopped
  }

  ghost function Included(fs: FileSystem, path: string, fuel: nat): Run
    requires path in fs
    decreases fuel, 0, 0
  {
    if fuel == 0 then OutOfFuel
    else if fs[path].includes != [] then ParsedAll(fs, fs[path], fuel - 1)
    else Finished(fs[path].vars)
  }

  /** The branch `parse_all` takes for a file without includes computes what the other branch would. */
  lemma LeafBranchAgrees(fs: FileSystem, f: MakefileText, fuel: nat)
    requires f.includes == []
    ensures ParsedAll(fs, f, fuel) == Finished(f.vars)
  {
    MergeIntoEmpty(f.vars);
  }

  lemma IncludedRuns(fs: FileSystem, path: string, fuel: nat)
    requires path in fs && fuel > 0
    ensures Included(fs, path, fuel) == ParsedAll(fs, fs[path], fuel - 1)
  {
    if fs[path].includes == [] {
      LeafBranchAgrees(fs, fs[path], fuel - 1);
    }
  }

  /** The fuel only serves termination: runs that end come to the same. */
  lemma {:induction false} FuelDoesNotMatter(fs: FileSystem, f: MakefileText, d: nat, e: nat)
    requires ParsedAll(fs, f, d) != OutOfFuel && ParsedAll(fs, f, e) != OutOfFuel
    ensures ParsedAll(fs, f, d) == ParsedAll(fs, f, e)
    decreases d, 1, 0
  {
    NothingMissing(fs, f.includes);
    if FirstMissing(fs, f.includes).None? {
      IncludesFuelDoesNotMatter(fs, f.includes, d, e);
    }
  }

  lemma {:induction false} IncludesFuelDoesNotMatter(fs: FileSystem, paths: seq<string>, d: nat, e: nat)
    requires forall p :: p in paths ==> p in fs
    requires MergedIncludes(fs, paths, d) != OutOfFuel && MergedIncludes(fs, paths, e) != OutOfFuel
    ensures MergedIncludes(fs, paths, d) == MergedIncludes(fs, paths, e)
    decreases d, 0, |paths|
  {
    if paths == [] {
    } else {
      var init, last := paths[..|paths| - 1], paths[|paths| - 1];
      IncludesFuelDoesNotMatter(fs, init, d, e);
      if MergedIncludes(fs, init, d).Finished? {
        IncludedFuelDoesNotMatter(fs, last, d, e);
      }
    }
  }

  lemma {:induction false} IncludedFuelDoesNotMatter(fs: FileSystem, path: string, d: nat, e: nat)
    requires path in fs && Included(fs, path, d) != OutOfFuel && Included(fs, path, e) != OutOfFuel
    ensures Included(fs, path, d) == Included(fs, path, e)
    decreases d, 0, 0
  {
    IncludedRuns(fs, path, d);
    IncludedRuns(fs, path, e);
    FuelDoesNotMatter(fs, fs[path], d - 1, e - 1);
  }

  /** The path an error names is missing. */
  lemma {:induction false} ErrorNamesMissing(fs: FileSystem, f: MakefileText, fuel: nat)
    requires ParsedAll(fs, f, fuel).NotFound?
    ensures ParsedAll(fs, f, fuel).path !in fs
    decreases fuel, 1, 0
  {
    NothingMissing(fs, f.includes);
    if FirstMissing(fs, f.includes).Some? {
      FirstMissingIsMissing(fs, f.includes);
    } else {
      IncludesErrorNamesMissing(fs, f.includes, fuel);
    }
  }

  lemma {:induction false} FirstMissingIsMissing(fs: FileSystem, paths: seq<string>)
    requires FirstMissing(fs, paths).Some?
    ensures FirstMissing(fs, paths).value in paths && FirstMissing(fs, paths).value !in fs
  {
    if paths[0] !in fs {
    } else {
      FirstMissingIsMissing(fs, paths[1..]);
    }
  }

  lemma {:induction false} IncludesErrorNamesMissing(fs: FileSystem, paths: seq<string>, fuel: nat)
    requires (forall p :: p in paths ==> p in fs) && MergedIncludes(fs, paths, fuel).NotFound?
    ensures MergedIncludes(fs, paths, fuel).path !in fs
    decreases fuel, 0, |paths|
  {
    var init, last := paths[..|paths| - 1], paths[|paths| - 1];
    if MergedIncludes(fs, init, fuel).NotFound? {
      IncludesErrorNamesMissing(fs, init, fuel);
    } else {
      IncludedRuns(fs, last, fuel);
      ErrorNamesMissing(fs, fs[last], fuel - 1);
    }
  }

  /** The first include that fails decides: a run that goes wrong comes to what it comes to. */
  lemma {:induction false} FirstFailureDecides(fs: FileSystem, paths: seq<string>, fuel: nat, i: nat)
    requires (forall p :: p in paths ==> p in fs) && i < |paths| && !Included(fs, paths[i], fuel).Finished?
    requires forall j :: 0 <= j < i ==> Included(fs, paths[j], fuel).Finished?
    ensures MergedIncludes(fs, paths, fuel) == Included(fs, paths[i], fuel)
  {
    var n := |paths| - 1;
    if i == n {
      assert forall p :: p in paths[..n] ==> exists j :: 0 <= j < n && paths[j] == p;
      FinishedIncludes(fs, paths[..n], fuel);
    } else {
      FirstFailureDecides(fs, paths[..n], fuel, i);
    }
  }

  // ---- Exactly when the run succeeds ----

  /** Every include of every file. */
  ghost function IncludeGraph(fs: FileSystem): Graph {
    map p | p in fs :: set i | i in fs[p].includes
  }

  /** Every file on a walk has its includes. */
  ghost predicate Complete(fs: FileSystem, path: string) {
    forall w :: WalkFrom(IncludeGraph(fs), path, w) ==> forall i :: i in fs[w[|w| - 1]].includes ==> i in fs
  }

  /** The file is there, and so is everything reachable from it, without a cycle. */
  ghost predicate Whole(fs: FileSystem, path: string) {
    path in fs && NoCycleFrom(IncludeGraph(fs), path) && Complete(fs, path)
  }

  ghost predicate AllWhole(fs: FileSystem, paths: seq<string>) {
    forall i :: 0 <= i < |paths| ==> Whole(fs, paths[i])
  }

  lemma {:induction false} FinishedIncludes(fs: FileSystem, paths: seq<string>, fuel: nat)
    requires forall p :: p in paths ==> p in fs
    ensures MergedIncludes(fs, paths, fuel).Finished? <==> forall p :: p in paths ==> Included(fs, p, fuel).Finished?
  {
    if paths == [] {
    } else {
      var init, last := paths[..|paths| - 1], paths[|paths| - 1];
      FinishedIncludes(fs, init, fuel);
      assert forall p :: p in paths <==> p in init || p == last;
      assert MergedIncludes(fs, paths, fuel).Finished? <==>
        MergedIncludes(fs, init, fuel).Finished? && Included(fs, last, fuel).Finished?;
    }
  }

  /** One step of a successful include. */
  lemma FinishedStep(fs: FileSystem, path: string, fuel: nat)
    requires path in fs && fuel > 0
    ensures Included(fs, path, fuel).Finished? <==>
      forall p :: p in fs[path].includes ==> p in fs && Included(fs, p, fuel - 1).Finished?
  {
    var paths := fs[path].includes;
    IncludedRuns(fs, path, fuel);
    NothingMissing(fs, paths);
    if FirstMissing(fs, paths).None? {
      FinishedIncludes(fs, paths, fuel - 1);
    }
  }

  lemma {:induction false} FinishedIsGrounded(fs: FileSystem, path: string, fuel: nat)
    requires path in fs && Included(fs, path, fuel).Finished?
    ensures Grounded(IncludeGraph(fs), path, fuel)
    decreases fuel
  {
    FinishedStep(fs, path, fuel);
    forall y | y in IncludeGraph(fs)[path] ensures Grounded(IncludeGraph(fs), y, fuel - 1) {
      FinishedIsGrounded(fs, y, fuel - 1);
    }
  }

  lemma {:induction false} FinishedIsComplete(fs: FileSystem, path: string, fuel: nat, w: seq<string>)
    requires path in fs && Included(fs, path, fuel).Finished? && WalkFrom(IncludeGraph(fs), path, w)
    ensures forall i :: i in fs[w[|w| - 1]].includes ==> i in fs
    decreases |w|
  {
    FinishedStep(fs, path, fuel);
    if |w| == 1 {
    } else {
      assert w[1] in fs[path].includes;
      FinishedIsComplete(fs, w[1], fuel - 1, w[1..]);
    }
  }

  lemma CompleteStep(fs: FileSystem, path: string)
    requires path in fs && Complete(fs, path)
    ensures forall i :: i in fs[path].includes ==> i in fs && Complete(fs, i)
  {
    var g := IncludeGraph(fs);
    assert WalkFrom(g, path, [path]);
    forall i, w | i in fs[path].includes && WalkFrom(g, i, w)
      ensures forall j :: j in fs[w[|w| - 1]].includes ==> j in fs
    {
      assert WalkFrom(g, path, [path] + w);
    }
  }

  lemma {:induction false} WholeFinishes(fs: FileSystem, path: string, fuel: nat)
    requires path in fs && Grounded(IncludeGraph(fs), path, fuel) && Complete(fs, path)
    ensures Included(fs, path, fuel).Finished?
    decreases fuel
  {
    CompleteStep(fs, path);
    forall i | i in fs[path].includes ensures i in fs && Included(fs, i, fuel - 1).Finished? {
      assert i in IncludeGraph(fs)[path];
      WholeFinishes(fs, i, fuel - 1);
    }
    FinishedStep(fs, path, fuel);
  }

  /** An include is read and merged exactly when it is whole; as many steps as there are files suffice. */
  lemma IncludedExactlyWhenWhole(fs: FileSystem, path: string)
    requires path in fs
    ensures (exists fuel: nat :: Included(fs, path, fuel).Finished?) <==> Whole(fs, path)
    ensures Whole(fs, path) ==> Included(fs, path, |fs|).Finished?
  {
    var g := IncludeGraph(fs);
    assert g.Keys == fs.Keys;
    GroundedExactlyWhenAcyclic(g, path);
    if Whole(fs, path) {
      WholeFinishes(fs, path, |fs|);
    }
    if fuel: nat :| Included(fs, path, fuel).Finished? {
      FinishedIsGrounded(fs, path, fuel);
      assert Terminates(g, path);
      forall w | WalkFrom(g, path, w) ensures forall i :: i in fs[w[|w| - 1]].includes ==> i in fs {
        FinishedIsComplete(fs, path, fuel, w);
      }
    }
  }

  /** `parse_all` succeeds exactly when every include is there, and whole. */
  lemma ParseAllSucceedsExactlyWhen(fs: FileSystem, f: MakefileText)
    ensures (exists fuel: nat :: ParsedAll(fs, f, fuel).Finished?) <==> AllWhole(fs, f.includes)
    ensures AllWhole(fs, f.includes) ==> ParsedAll(fs, f, |fs|).Finished?
  {
    if AllWhole(fs, f.includes) {
      WholeMeansFinished(fs, f);
    }
    if exists fuel: nat :: ParsedAll(fs, f, fuel).Finished? {
      var fuel: nat :| ParsedAll(fs, f, fuel).Finished?;
      NothingMissing(fs, f.includes);
      FinishedMeansWhole(fs, f.includes, fuel);
    }
  }

  lemma WholeMeansFinished(fs: FileSystem, f: MakefileText)
    requires AllWhole(fs, f.includes)
    ensures ParsedAll(fs, f, |fs|).Finished?
  {
    NothingMissing(fs, f.includes);
    forall p | p in f.includes ensures Included(fs, p, |fs|).Finished? { IncludedExactlyWhenWhole(fs, p); }
    FinishedIncludes(fs, f.includes, |fs|);
  }

  lemma FinishedMeansWhole(fs: FileSystem, paths: seq<string>, fuel: nat)
    requires (forall p :: p in paths ==> p in fs) && MergedIncludes(fs, paths, fuel).Finished?
    ensures AllWhole(fs, paths)
  {
    FinishedIncludes(fs, paths, fuel);
    forall i | 0 <= i < |paths| ensures Whole(fs, paths[i]) {
      assert Included(fs, paths[i], fuel).Finished?;
      IncludedExactlyWhenWhole(fs, paths[i]);
    }
  }

  // ---- Exactly when the run ends ----

  /**
   The includes a run goes into: none when one of them is missing, and otherwise each one up to the
   first that is not whole, whose failure stops the loop.
   */
  ghost function Followed(fs: FileSystem, paths: seq<string>): set<string> {
    if FirstMissing(fs, paths).Some? then {} else UpToFailure(fs, paths)
  }

  ghost function UpToFailure(fs: FileSystem, paths: seq<string>): set<string> {
    set j | 0 <= j < |paths| && (forall i :: 0 <= i < j ==> Whole(fs, paths[i])) :: paths[j]
  }

  ghost function FollowGraph(fs: FileSystem): Graph {
    map p | p in fs :: Followed(fs, fs[p].includes)
  }

  lemma UpToFailureSnoc(fs: FileSystem, paths: seq<string>, last: string)
    ensures UpToFailure(fs, paths + [last]) == UpToFailure(fs, paths) + if AllWhole(fs, paths) then {last} else {}
  {
    var all := paths + [last];
    assert forall i :: 0 <= i < |paths| ==> all[i] == paths[i];
    forall p ensures p in UpToFailure(fs, all) <==>
      p in UpToFailure(fs, paths) || (p == last && AllWhole(fs, paths))
    {
      if p in UpToFailure(fs, all) {
        var j :| 0 <= j < |all| && (forall i :: 0 <= i < j ==> Whole(fs, all[i])) && p == all[j];
        assert j < |paths| ==> forall i :: 0 <= i < j ==> Whole(fs, paths[i]);
      }
      if p in UpToFailure(fs, paths) {
        var j :| 0 <= j < |paths| && (forall i :: 0 <= i < j ==> Whole(fs, paths[i])) && p == paths[j];
        assert p == all[j];
      }
      if p == last && AllWhole(fs, paths) {
        assert p == all[|paths|];
      }
    }
  }

  /** Where a list of includes ends at all, it succeeds exactly when all are whole. */
  lemma FinishedExactlyWhenWhole(fs: FileSystem, paths: seq<string>, fuel: nat)
    requires (forall p :: p in paths ==> p in fs) && MergedIncludes(fs, paths, fuel) != OutOfFuel
    ensures MergedIncludes(fs, paths, fuel).Finished? <==> AllWhole(fs, paths)
  {
    if MergedIncludes(fs, paths, fuel).Finished? {
      FinishedMeansWhole(fs, paths, fuel);
    }
    if AllWhole(fs, paths) {
      forall p | p in paths ensures Included(fs, p, |fs|).Finished? { IncludedExactlyWhenWhole(fs, p); }
      FinishedIncludes(fs, paths, |fs|);
      IncludesFuelDoesNotMatter(fs, paths, fuel, |fs|);
    }
  }

  lemma {:induction false} IncludesEndExactlyWhen(fs: FileSystem, paths: seq<string>, fuel: nat)
    requires forall p :: p in paths ==> p in fs
    ensures MergedIncludes(fs, paths, fuel) != OutOfFuel <==>
      forall p :: p in UpToFailure(fs, paths) ==> Grounded(FollowGraph(fs), p, fuel)
    decreases fuel, 0, |paths|
  {
    if paths == [] {
    } else {
      var init, last := paths[..|paths| - 1], paths[|paths| - 1];
      assert paths == init + [last];
      IncludesEndExactlyWhen(fs, init, fuel);
      UpToFailureSnoc(fs, init, last);
      if MergedIncludes(fs, init, fuel) != OutOfFuel {
        FinishedExactlyWhenWhole(fs, init, fuel);
        IncludedEndsExactlyWhen(fs, last, fuel);
      }
    }
  }

  lemma {:induction false} IncludedEndsExactlyWhen(fs: FileSystem, path: string, fuel: nat)
    requires path in fs
    ensures Included(fs, path, fuel) != OutOfFuel <==> Grounded(FollowGraph(fs), path, fuel)
    decreases fuel, 0, 0
  {
    if fuel == 0 {
    } else {
      IncludedRuns(fs, path, fuel);
      RunEndsExactlyWhen(fs, fs[path], fuel - 1);
    }
  }

  /** With a given fuel: the run ends exactly when the followed includes nest no deeper. */
  lemma {:induction false} RunEndsExactlyWhen(fs: FileSystem, f: MakefileText, fuel: nat)
    ensures ParsedAll(fs, f, fuel) != OutOfFuel <==>
      forall p :: p in Followed(fs, f.includes) ==> Grounded(FollowGraph(fs), p, fuel)
    decreases fuel, 1, 0
  {
    NothingMissing(fs, f.includes);
    if FirstMissing(fs, f.includes).None? {
      IncludesEndExactlyWhen(fs, f.includes, fuel);
    }
  }

  /**
   The recursion of `parse_all` ends, in a result or in an error, exactly when no cycle of followed
   includes can be reached; and then it nests at most as deep as there are files.
   */
  lemma ParseAllEndsExactlyWhenAcyclic(fs: FileSystem, f: MakefileText)
    ensures (exists fuel: nat :: ParsedAll(fs, f, fuel) != OutOfFuel) <==>
      forall p :: p in Followed(fs, f.includes) ==> NoCycleFrom(FollowGraph(fs), p)
    ensures forall fuel: nat :: ParsedAll(fs, f, fuel) != OutOfFuel ==> ParsedAll(fs, f, |fs|) != OutOfFuel
  {
    var g := FollowGraph(fs);
    assert g.Keys == fs.Keys;
    RunEndsExactlyWhen(fs, f, |fs|);
    forall p | p in Followed(fs, f.includes) { GroundedExactlyWhenAcyclic(g, p); }
    forall fuel: nat | ParsedAll(fs, f, fuel) != OutOfFuel
      ensures forall p :: p in Followed(fs, f.includes) ==> NoCycleFrom(g, p)
    {
      RunEndsExactlyWhen(fs, f, fuel);
      forall p | p in Followed(fs, f.includes) ensures NoCycleFrom(g, p) { assert Terminates(g, p); }
    }
  }

  /** Files that include each other, behind a missing include. */
  function CycleBehind(vars: Vars, missing: string): FileSystem {
    map["a" := MakefileText(vars, ["b", missing]), "b" := MakefileText(vars, ["a"])]
  }

  /** The missing include stops the run at once, although the two files form a cycle. */
  lemma MissingIncludeCutsCycle(vars: Vars, missing: string)
    requires missing !in {"a", "b"}
    ensures var fs := CycleBehind(vars, missing);
      && ParsedAll(fs, fs["a"], 0) == NotFound(missing)
      && !NoCycleFrom(IncludeGraph(fs), "a") && !NoCycleFrom(IncludeGraph(fs), "b")
      && NoCycleFrom(FollowGraph(fs), "a") && NoCycleFrom(FollowGraph(fs), "b")
  {
    var fs := CycleBehind(vars, missing);
    assert ["b", missing][1..] == [missing];
    assert FirstMissing(fs, fs["a"].includes) == Some(missing);
    var w := ["a", "b", "a", "b"];
    assert WalkFrom(IncludeGraph(fs), "a", w) && w[0] == w[2];
    assert WalkFrom(IncludeGraph(fs), "b", w[1..]) && w[1..][0] == w[1..][2];
    assert ParsedAll(fs, fs["b"], 1) != OutOfFuel by {
      assert ["a"][..0] == [] && ["a"][1..] == [];
      assert Included(fs, "a", 1) == NotFound(missing);
    }
    IncludedRuns(fs, "b", 2);
    IncludedEndsExactlyWhen(fs, "a", 1);
    IncludedEndsExactlyWhen(fs, "b", 2);
    GroundedForbidsCycles(FollowGraph(fs), "a", 1);
    GroundedForbidsCycles(FollowGraph(fs), "b", 2);
  }

  // ---- The flattened order ----

  lemma LastInclude(fs: FileSystem, paths: seq<string>, fuel: nat)
    requires paths != [] && (forall p :: p in paths ==> p in fs) && MergedIncludes(fs, paths, fuel).Finished?
    ensures fuel > 0 && MergedIncludes(fs, paths[..|paths| - 1], fuel).Finished?
    ensures ParsedAll(fs, fs[paths[|paths| - 1]], fuel - 1) == Included(fs, paths[|paths| - 1], fuel)
  {
    IncludedRuns(fs, paths[|paths| - 1], fuel);
  }

  /** Each file after all its includes, for a run that succeeds. */
  ghost function PostOrder(fs: FileSystem, f: MakefileText, fuel: nat): seq<Vars>
    requires ParsedAll(fs, f, fuel).Finished?
    decreases fuel, 1, 0
  {
    NothingMissing(fs, f.includes);
    PostOrders(fs, f.includes, fuel) + [f.vars]
  }

  ghost function PostOrders(fs: FileSystem, paths: seq<string>, fuel: nat): seq<Vars>
    requires (forall p :: p in paths ==> p in fs) && MergedIncludes(fs, paths, fuel).Finished?
    decreases fuel, 0, |paths|
  {
    if paths == [] then []
    else
      LastInclude(fs, paths, fuel);
      var last := paths[|paths| - 1];
      PostOrders(fs, paths[..|paths| - 1], fuel) + PostOrder(fs, fs[last], fuel - 1)
  }

  // ---- Exactly when `parse_all` flattens ----

  ghost predicate Mentions(files: seq<Vars>, k: string) {
    exists i :: 0 <= i < |files| && k in files[i]
  }

  /**
   `parse_all` keeps a value of `k` that merging in post-order drops: the file does not set `k` itself, and its
   includes lose it.
   */
  ghost predicate LostIn(fs: FileSystem, f: MakefileText, k: string, fuel: nat)
    requires ParsedAll(fs, f, fuel).Finished?
    decreases fuel, 1, 0
  {
    NothingMissing(fs, f.includes);
    !(k in f.vars && f.vars[k].mode == Set) && LostInIncludes(fs, f.includes, k, fuel)
  }

  /**
   The last include whose files set `k` decides: either `k` is lost inside it, or its files end by
   adding to `k`, so that it comes out in mode Add, and an earlier include mentions `k`.
   */
  ghost predicate LostInIncludes(fs: FileSystem, paths: seq<string>, k: string, fuel: nat)
    requires (forall p :: p in paths ==> p in fs) && MergedIncludes(fs, paths, fuel).Finished?
    decreases fuel, 0, |paths|
  {
    if paths == [] then false
    else
      LastInclude(fs, paths, fuel);
      var init, last := paths[..|paths| - 1], fs[paths[|paths| - 1]];
      var own := PostOrder(fs, last, fuel - 1);
      if SomeSet(own, k) then
        LostIn(fs, last, k, fuel - 1) || (LastAdds(own, k) && Mentions(PostOrders(fs, init, fuel), k))
      else LostInIncludes(fs, init, k, fuel)
  }

  /**
   How a nested result `a` compares with the flat one `g` at `k`: same mode, and the same values
   unless `k` is lost, when (if every variable has values) the nested one has more.
   */
  ghost predicate Compares(a: Vars, g: Vars, k: string, lost: bool, valued: bool) {
    && (k in a <==> k in g) && (lost ==> k in g)
    && (k in g ==> a[k].mode == g[k].mode)
    && (!lost && k in g ==> a[k] == g[k])
    && (lost && valued ==> |a[k].values| > |g[k].values|)
  }

  /** A file that does not set `k` is merged into both alike; one that sets it makes them agree. */
  lemma CompareWithFile(a: Vars, g: Vars, vars: Vars, k: string, lost: bool, valued: bool)
    requires Compares(a, g, k, lost, valued)
    ensures Compares(Merged(a, vars), Merged(g, vars), k, lost && !(k in vars && vars[k].mode == Set), valued)
  {
  }

  /** Merging one more include, nested on the left and file by file on the right. */
  lemma CompareWithInclude(
      a: Vars, g: Vars, r: Vars, own: seq<Vars>, k: string, before: bool, inside: bool, valued: bool)
    requires Compares(a, g, k, before, valued) && Compares(r, MergeAll(map[], own), k, inside, valued)
    requires inside ==> SomeSet(own, k)
    requires valued && k in g ==> g[k].values != []
    ensures Compares(Merged(a, r), MergeAll(g, own), k,
      if SomeSet(own, k) then inside || (LastAdds(own, k) && k in g) else before, valued)
  {
    MergeAllKeys(g, own);
    if k in MergeAll(g, own) {
      SetForgets(g, own, k);
    }
    if k in MergeAll(map[], own) {
      ModeIsAddExactlyWhen(own, k);
    }
    if SomeSet(own, k) {
      var i :| 0 <= i < |own| && k in own[i] && own[i][k].mode == Set;
      MentionedIsMerged(map[], own, i, k);
    } else if k in MergeAll(map[], own) && MergeAll(map[], own)[k].mode == Set {
      MergedSetComesFromASet(own, k);
    }
  }

  lemma {:induction false} MentionsExactlyWhen(files: seq<Vars>, k: string)
    ensures Mentions(files, k) <==> k in MergeAll(map[], files)
  {
    if files == [] {
    } else {
      var n := |files| - 1;
      MentionsExactlyWhen(files[..n], k);
      if i :| 0 <= i < |files| && k in files[i] && i < n { assert files[..n][i] == files[i]; }
      if i :| 0 <= i < n && k in files[..n][i] { assert files[i] == files[..n][i]; }
    }
  }

  lemma {:induction false} MergedHaveValues(files: seq<Vars>)
    requires forall vars :: vars in files ==> AllHaveValues(vars)
    ensures AllHaveValues(MergeAll(map[], files))
  {
    if files == [] {
    } else {
      var n := |files| - 1;
      assert files[n] in files;
      MergedHaveValues(files[..n]);
    }
  }

  ghost predicate Valued(files: seq<Vars>) {
    forall vars :: vars in files ==> AllHaveValues(vars)
  }

  lemma {:induction false} LostNeedsSet(fs: FileSystem, f: MakefileText, k: string, fuel: nat)
    requires ParsedAll(fs, f, fuel).Finished? && LostIn(fs, f, k, fuel)
    ensures SomeSet(PostOrder(fs, f, fuel), k)
  {
    NothingMissing(fs, f.includes);
    LostIncludesNeedSet(fs, f.includes, k, fuel);
    SomeSetSnoc(PostOrders(fs, f.includes, fuel), f.vars, k);
  }

  lemma {:induction false} LostIncludesNeedSet(fs: FileSystem, paths: seq<string>, k: string, fuel: nat)
    requires (forall p :: p in paths ==> p in fs) && MergedIncludes(fs, paths, fuel).Finished?
    requires LostInIncludes(fs, paths, k, fuel)
    ensures SomeSet(PostOrders(fs, paths, fuel), k)
  {
    var init, last := paths[..|paths| - 1], fs[paths[|paths| - 1]];
    var before, own := PostOrders(fs, init, fuel), PostOrder(fs, last, fuel - 1);
    if SomeSet(own, k) {
      var i :| 0 <= i < |own| && k in own[i] && own[i][k].mode == Set;
      assert (before + own)[|before| + i] == own[i];
    } else {
      LostIncludesNeedSet(fs, init, k, fuel);
      var i :| 0 <= i < |before| && k in before[i] && before[i][k].mode == Set;
      assert (before + own)[i] == before[i];
    }
  }

  lemma {:induction false} OrderEnds(inner: seq<Vars>, vars: Vars, valued: bool)
    requires valued ==> Valued(inner + [vars])
    ensures MergeAll(map[], inner + [vars]) == Merged(MergeAll(map[], inner), vars)
    ensures valued ==> Valued(inner)
  {
    var order := inner + [vars];
    assert order[..|order| - 1] == inner && forall v :: v in inner ==> v in order;
  }

  lemma {:induction false} ParseAllCompares(fs: FileSystem, f: MakefileText, k: string, fuel: nat, valued: bool)
    requires ParsedAll(fs, f, fuel).Finished?
    requires valued ==> Valued(PostOrder(fs, f, fuel))
    ensures Compares(ParsedAll(fs, f, fuel).vars, MergeAll(map[], PostOrder(fs, f, fuel)), k,
                     LostIn(fs, f, k, fuel), valued)
    decreases fuel, 1, 0
  {
    NothingMissing(fs, f.includes);
    var inner := PostOrders(fs, f.includes, fuel);
    OrderEnds(inner, f.vars, valued);
    IncludesCompare(fs, f.includes, k, fuel, valued);
    CompareWithFile(MergedIncludes(fs, f.includes, fuel).vars, MergeAll(map[], inner), f.vars, k,
                    LostInIncludes(fs, f.includes, k, fuel), valued);
  }

  lemma {:induction false} IncludesCompare(fs: FileSystem, paths: seq<string>, k: string, fuel: nat, valued: bool)
    requires (forall p :: p in paths ==> p in fs) && MergedIncludes(fs, paths, fuel).Finished?
    requires valued ==> Valued(PostOrders(fs, paths, fuel))
    ensures Compares(MergedIncludes(fs, paths, fuel).vars, MergeAll(map[], PostOrders(fs, paths, fuel)), k,
                     LostInIncludes(fs, paths, k, fuel), valued)
    decreases fuel, 0, |paths|
  {
    if paths == [] {
    } else {
      LastInclude(fs, paths, fuel);
      var init, last := paths[..|paths| - 1], fs[paths[|paths| - 1]];
      var before, own := PostOrders(fs, init, fuel), PostOrder(fs, last, fuel - 1);
      assert forall vars :: vars in before || vars in own ==> vars in before + own;
      IncludesCompare(fs, init, k, fuel, valued);
      ParseAllCompares(fs, last, k, fuel - 1, valued);
      if last.includes == [] {
        LeafBranchAgrees(fs, last, fuel - 1);
      }
      if LostIn(fs, last, k, fuel - 1) {
        LostNeedsSet(fs, last, k, fuel - 1);
      }
      if valued {
        MergedHaveValues(before);
      }
      MentionsExactlyWhen(before, k);
      MergeAllConcat(map[], before, own);
      CompareWithInclude(MergedIncludes(fs, init, fuel).vars, MergeAll(map[], before),
                         ParsedAll(fs, last, fuel - 1).vars, own, k,
                         LostInIncludes(fs, init, k, fuel), LostIn(fs, last, k, fuel - 1), valued);
    }
  }

  /**
   `parse_all` is the left-to-right merge of the makefiles in post-order, whatever the nesting of the
   includes, when no variable is lost in a nested include; and, for makefiles whose variables have
   values, only then.
   */
  lemma ParseAllFlattens(fs: FileSystem, f: MakefileText, fuel: nat)
    requires ParsedAll(fs, f, fuel).Finished?
    ensures var flat := MergeAll(map[], PostOrder(fs, f, fuel));
      && ((forall k :: !LostIn(fs, f, k, fuel)) ==> ParsedAll(fs, f, fuel) == Finished(flat))
      && (Valued(PostOrder(fs, f, fuel)) && ParsedAll(fs, f, fuel) == Finished(flat) ==>
          forall k :: !LostIn(fs, f, k, fuel))
  {
    var order := PostOrder(fs, f, fuel);
    var flat, valued := MergeAll(map[], order), Valued(order);
    ParseAllCompares(fs, f, "", fuel, valued);
    var nested := ParsedAll(fs, f, fuel).vars;
    if forall k :: !LostIn(fs, f, k, fuel) {
      forall k ensures (k in nested <==> k in flat) && (k in flat ==> nested[k] == flat[k]) {
        ParseAllCompares(fs, f, k, fuel, valued);
      }
      assert nested == flat;
    }
    if valued && nested == flat {
      forall k ensures !LostIn(fs, f, k, fuel) {
        ParseAllCompares(fs, f, k, fuel, valued);
      }
    }
  }

  /** Each variable has its last definition in the list, and only variables defined somewhere are there. */
  ghost predicate LastDefinitions(order: seq<Vars>, vars: Vars) {
    && (forall k :: k in vars <==> exists i :: 0 <= i < |order| && k in order[i])
    && (forall k, i :: 0 <= i < |order| && k in order[i] && (forall j :: i < j < |order| ==> k !in order[j])
         ==> k in vars && vars[k] == order[i][k])
  }

  predicate AllSet(order: seq<Vars>) {
    forall i, k :: 0 <= i < |order| && k in order[i] ==> order[i][k].mode == Set
  }

  lemma {:induction false} MergeAllTakesLast(order: seq<Vars>)
    requires AllSet(order)
    ensures LastDefinitions(order, MergeAll(map[], order))
  {
    forall k { LastDefinitionWins(order, k); }
  }

  lemma {:induction false} SetOnlyLosesNothing(fs: FileSystem, f: MakefileText, k: string, fuel: nat)
    requires ParsedAll(fs, f, fuel).Finished? && AllSet(PostOrder(fs, f, fuel))
    ensures !LostIn(fs, f, k, fuel)
    decreases fuel, 1, 0
  {
    NothingMissing(fs, f.includes);
    var inner, order := PostOrders(fs, f.includes, fuel), PostOrder(fs, f, fuel);
    assert forall i :: 0 <= i < |inner| ==> order[i] == inner[i];
    SetOnlyIncludesLoseNothing(fs, f.includes, k, fuel);
  }

  lemma {:induction false} SetOnlyIncludesLoseNothing(fs: FileSystem, paths: seq<string>, k: string, fuel: nat)
    requires (forall p :: p in paths ==> p in fs) && MergedIncludes(fs, paths, fuel).Finished?
    requires AllSet(PostOrders(fs, paths, fuel))
    ensures !LostInIncludes(fs, paths, k, fuel)
    decreases fuel, 0, |paths|
  {
    if paths == [] {
    } else {
      LastInclude(fs, paths, fuel);
      var init, last := paths[..|paths| - 1], fs[paths[|paths| - 1]];
      var before, own := PostOrders(fs, init, fuel), PostOrder(fs, last, fuel - 1);
      var all := before + own;
      assert forall i :: 0 <= i < |before| ==> all[i] == before[i];
      assert forall i :: 0 <= i < |own| ==> all[|before| + i] == own[i];
      SetOnlyIncludesLoseNothing(fs, init, k, fuel);
      SetOnlyLosesNothing(fs, last, k, fuel - 1);
    }
  }

  /**
   With modes Set only, `parse_all` gives each variable its last definition in post-order, and
   only the variables defined somewhere; parsing the include-free result again changes nothing.
   */
  lemma ParseAllTakesLastDefinition(fs: FileSystem, f: MakefileText, fuel: nat)
    requires ParsedAll(fs, f, fuel).Finished?
    requires AllSet(PostOrder(fs, f, fuel))
    ensures var result := ParsedAll(fs, f, fuel);
      && LastDefinitions(PostOrder(fs, f, fuel), result.vars)
      && ParsedAll(fs, MakefileText(result.vars, []), fuel) == result
  {
    var order := PostOrder(fs, f, fuel);
    forall k { SetOnlyLosesNothing(fs, f, k, fuel); }
    ParseAllFlattens(fs, f, fuel);
    MergeAllTakesLast(order);
    LeafBranchAgrees(fs, MakefileText(MergeAll(map[], order), []), fuel);
  }

  /** Includes without includes of their own lose nothing: such trees are always flattened, modes Add included. */
  lemma OneLevelFlattens(fs: FileSystem, f: MakefileText, fuel: nat)
    requires ParsedAll(fs, f, fuel).Finished?
    requires forall p :: p in f.includes && p in fs ==> fs[p].includes == []
    ensures ParsedAll(fs, f, fuel) == Finished(MergeAll(map[], PostOrder(fs, f, fuel)))
  {
    NothingMissing(fs, f.includes);
    forall k ensures !LostIn(fs, f, k, fuel) { LeavesLoseNothing(fs, f.includes, k, fuel); }
    ParseAllFlattens(fs, f, fuel);
  }

  lemma {:induction false} LeavesLoseNothing(fs: FileSystem, paths: seq<string>, k: string, fuel: nat)
    requires (forall p :: p in paths ==> p in fs && fs[p].includes == []) && MergedIncludes(fs, paths, fuel).Finished?
    ensures !LostInIncludes(fs, paths, k, fuel)
  {
    if paths == [] {
    } else {
      LeavesLoseNothing(fs, paths[..|paths| - 1], k, fuel);
      assert PostOrder(fs, fs[paths[|paths| - 1]], fuel - 1) == [fs[paths[|paths| - 1]].vars];
    }
  }

  /**
   With the shipped grammar, which lets no Add mark through to the reader, `parse_all` always flattens.
   */
  lemma UnmarkedFilesFlatten(fs: FileSystem, f: MakefileText, fuel: nat)
    requires ParsedAll(fs, f, fuel).Finished?
    requires forall p :: p in fs ==> ReadWithoutMarks(fs[p].vars)
    requires ReadWithoutMarks(f.vars)
    ensures ParsedAll(fs, f, fuel) == Finished(MergeAll(map[], PostOrder(fs, f, fuel)))
    ensures LastDefinitions(PostOrder(fs, f, fuel), MergeAll(map[], PostOrder(fs, f, fuel)))
  {
    OrderReadWithoutMarks(fs, f, fuel);
    var order: seq<Vars> := PostOrder(fs, f, fuel);
    forall i, k: string | 0 <= i < |order| && k in order[i] ensures order[i][k].mode == Set {
      assert ReadWithoutMarks(order[i]);
      var items :| Unmarked(items) && order[i] == ReadItems(items);
      UnmarkedFilesSet(items);
    }
    forall k { SetOnlyLosesNothing(fs, f, k, fuel); }
    ParseAllFlattens(fs, f, fuel);
    MergeAllTakesLast(order);
  }

  lemma {:induction false} OrderReadWithoutMarks(fs: FileSystem, f: MakefileText, fuel: nat)
    requires ParsedAll(fs, f, fuel).Finished?
    requires forall p :: p in fs ==> ReadWithoutMarks(fs[p].vars)
    requires ReadWithoutMarks(f.vars)
    ensures forall vars :: vars in PostOrder(fs, f, fuel) ==> ReadWithoutMarks(vars)
    decreases fuel, 1, 0
  {
    NothingMissing(fs, f.includes);
    IncludesReadWithoutMarks(fs, f.includes, fuel);
  }

  lemma {:induction false} IncludesReadWithoutMarks(fs: FileSystem, paths: seq<string>, fuel: nat)
    requires (forall p :: p in paths ==> p in fs) && MergedIncludes(fs, paths, fuel).Finished?
    requires forall p :: p in fs ==> ReadWithoutMarks(fs[p].vars)
    ensures forall vars :: vars in PostOrders(fs, paths, fuel) ==> ReadWithoutMarks(vars)
    decreases fuel, 0, |paths|
  {
    if paths == [] {
    } else {
      IncludesReadWithoutMarks(fs, paths[..|paths| - 1], fuel);
      OrderReadWithoutMarks(fs, fs[paths[|paths| - 1]], fuel - 1);
    }
  }

  // ---- A nested include that loses an assignment ----

  function Nest(a: seq<string>, b: seq<string>, c: seq<string>): FileSystem {
    map["p" := MakefileText(map["X" := Variable(a, Set)], []),
        "q" := MakefileText(map["X" := Variable(c, Add)], ["r"]),
        "r" := MakefileText(map["X" := Variable(b, Set)], [])]
  }

  /**
   File `q` includes `r`, which sets X to `b`, and adds `c` to it. After `p` set X to `a`, merging
   the files in order leaves `b` and `c`; `parse_all` leaves `a` as well, because the merge of `r`
   and `q` comes out in mode Add. The two differ whenever `a` holds a value.
   */
  lemma NestedIncludeLosesSet(a: seq<string>, b: seq<string>, c: seq<string>)
    requires a != []
    ensures var fs := Nest(a, b, c);
      var nested := ParsedAll(fs, MakefileText(map[], ["p", "q"]), 2);
      var flat := MergeAll(map[], [fs["p"].vars, fs["r"].vars, fs["q"].vars]);
      && nested == Finished(map["X" := Variable(a + (b + c), Add)])
      && flat == map["X" := Variable(b + c, Add)]
      && nested != Finished(flat)
  {
    NestInOrder(a, b, c);
    assert |a + (b + c)| != |b + c|;
    assert map["X" := Variable(a + (b + c), Add)]["X"] != map["X" := Variable(b + c, Add)]["X"];
    NestInner(a, b, c);
    var fs := Nest(a, b, c);
    var first, nested := fs["p"].vars, map["X" := Variable(b + c, Add)];
    NothingMissing(fs, ["p", "q"]);
    assert ["p", "q"][..1] == ["p"] && ["p"][..0] == [];
    MergeIntoEmpty(first);
    assert MergedIncludes(fs, ["p"], 2) == Finished(first);
    assert Merged(first, nested) == map["X" := Variable(a + (b + c), Add)];
    assert MergedIncludes(fs, ["p", "q"], 2) == Finished(Merged(first, nested));
    assert Merged(Merged(first, nested), map[]) == Merged(first, nested);
  }

  lemma NestInOrder(a: seq<string>, b: seq<string>, c: seq<string>)
    ensures var fs := Nest(a, b, c);
      MergeAll(map[], [fs["p"].vars, fs["r"].vars, fs["q"].vars]) == map["X" := Variable(b + c, Add)]
  {
    var fs := Nest(a, b, c);
    var order := [fs["p"].vars, fs["r"].vars, fs["q"].vars];
    assert order[..2] == [order[0], order[1]];
    assert order[..2][..1] == [order[0]];
    assert order[..2][..1][..0] == [];
    MergeIntoEmpty(order[0]);
    assert MergeAll(map[], [order[0]]) == order[0];
    assert Merged(order[0], order[1]) == order[1];
    assert Merged(order[1], order[2]) == map["X" := Variable(b + c, Add)];
  }

  lemma NestInner(a: seq<string>, b: seq<string>, c: seq<string>)
    ensures var fs := Nest(a, b, c);
      ParsedAll(fs, fs["q"], 1) == Finished(map["X" := Variable(b + c, Add)])
  {
    var fs := Nest(a, b, c);
    NothingMissing(fs, ["r"]);
    assert ["r"][..0] == [];
    MergeIntoEmpty(fs["r"].vars);
    assert MergedIncludes(fs, ["r"], 1) == Finished(fs["r"].vars);
    assert Merged(fs["r"].vars, fs["q"].vars) == map["X" := Variable(b + c, Add)];
  }
}
