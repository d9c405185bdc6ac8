/**
 * The filesystem as the batch engine sees it: a finite set of existing paths,
 * and a rename that may fail.  When it succeeds the source path disappears
 * and the target path exists.  A sequence of rename attempts is described by
 * the moves tried and, for each, whether it succeeded.
 */
module FileSystem {
  import opened PathName

  /** A path: the directory it sits in, and its last component (pathlib's `parent` and `name`). */
  datatype Path = Path(dir: seq<char>, name: seq<char>)

  /**
   * The directory `dir` as a path of its own: everything before its last
   * '/' is its parent and the rest its name; a directory written without a
   * '/' sits in ".".
   */
  function DirectoryPath(dir: seq<char>): (r: Path)
    ensures '/' in dir ==> r.dir + "/" + r.name == dir
    ensures '/' !in dir ==> r.dir == "." && r.name == dir
    ensures '/' !in r.name
  {
    var k := RFind(dir, '/');
    if k < 0 then Path(".", dir) else Path(dir[..k], dir[k + 1..])
  }

  /**
   * pathlib's `dir / name`.  An empty name adds no component, so joining it
   * gives the directory itself, which then sits in the directory's parent.
   */
  function Join(dir: seq<char>, name: seq<char>): (r: Path)
    ensures name != [] ==> r.dir == dir && r.name == name
    ensures name == [] && '/' in dir ==> r.dir + "/" + r.name == dir
    ensures name == [] && '/' !in dir ==> r.dir == "." && r.name == dir
  {
    if name == [] then DirectoryPath(dir) else Path(dir, name)
  }

  /** One rename from `src` to `dst`: a plan entry, and a record of a batch in the history. */
  datatype Move = Move(src: Path, dst: Path)

  /** The set of existing paths after a successful rename. */
  function Moved(files: set<Path>, src: Path, dst: Path): (r: set<Path>)
    ensures dst in r && (src != dst ==> src !in r)
    ensures forall p :: p != src && p != dst ==> (p in r <==> p in files)
  {
    files - {src} + {dst}
  }

  class Disk {
    var files: set<Path>

    constructor (files: set<Path>)
      ensures this.files == files
    {
      this.files := files;
    }

    /**
     * Path.rename: fails (permission, a vanished source, the host refusing
     * to overwrite, ...) or moves `src` to `dst`.  It can only succeed when
     * `src` exists.
     */
    method Rename(src: Path, dst: Path) returns (ok: bool)
      modifies this
      ensures ok ==> src in old(files) && files == Moved(old(files), src, dst)
      ensures !ok ==> files == old(files)
    {
      ok :| ok ==> src in files;
      if ok {
        files := Moved(files, src, dst);
      }
    }
  }

  // ---------------------------------------------------------------- a sequence of attempts

  /** The existing paths after trying `moves` in order, `outcomes[i]` telling whether move i succeeded. */
  function ApplyMoves(files: set<Path>, moves: seq<Move>, outcomes: seq<bool>): set<Path>
    requires |outcomes| == |moves|
    decreases |moves|
  {
    if moves == [] then files
    else
      var n := |moves| - 1;
      var before := ApplyMoves(files, moves[..n], outcomes[..n]);
      if outcomes[n] then Moved(before, moves[n].src, moves[n].dst) else before
  }

  /** Every move reported as successful found its source in place when it was tried. */
  predicate Feasible(files: set<Path>, moves: seq<Move>, outcomes: seq<bool>)
    requires |outcomes| == |moves|
    decreases |moves|
  {
    moves == [] ||
    var n := |moves| - 1;
    Feasible(files, moves[..n], outcomes[..n]) &&
    (outcomes[n] ==> moves[n].src in ApplyMoves(files, moves[..n], outcomes[..n]))
  }

  /** The number of successes. */
  function CountTrue(outcomes: seq<bool>): nat
    decreases |outcomes|
  {
    if outcomes == [] then 0
    else CountTrue(outcomes[..|outcomes| - 1]) + (if outcomes[|outcomes| - 1] then 1 else 0)
  }

  /** The moves that succeeded, in the order they were tried. */
  function Succeeded(moves: seq<Move>, outcomes: seq<bool>): (r: seq<Move>)
    requires |outcomes| == |moves|
    ensures |r| == CountTrue(outcomes)
    decreases |moves|
  {
    if moves == [] then []
    else
      var n := |moves| - 1;
      Succeeded(moves[..n], outcomes[..n]) + (if outcomes[n] then [moves[n]] else [])
  }

  /** The successful moves are moves of the plan, each one exactly when its attempt succeeded. */
  lemma {:induction false} SucceededFromPlan(moves: seq<Move>, outcomes: seq<bool>)
    requires |outcomes| == |moves|
    ensures forall m :: m in Succeeded(moves, outcomes) ==> m in moves
    ensures forall i :: 0 <= i < |moves| && outcomes[i] ==> moves[i] in Succeeded(moves, outcomes)
    decreases |moves|
  {
    if moves != [] {
      var n := |moves| - 1;
      SucceededFromPlan(moves[..n], outcomes[..n]);
      forall i | 0 <= i < n && outcomes[i] ensures moves[i] in Succeeded(moves, outcomes) {
        assert moves[..n][i] == moves[i] && outcomes[..n][i] == outcomes[i];
      }
    }
  }

  /** One more attempt, at the end. */
  lemma AppendAttempt(files: set<Path>, moves: seq<Move>, outcomes: seq<bool>, m: Move, ok: bool)
    requires |outcomes| == |moves|
    ensures var before := ApplyMoves(files, moves, outcomes);
      ApplyMoves(files, moves + [m], outcomes + [ok]) == (if ok then Moved(before, m.src, m.dst) else before) &&
      (Feasible(files, moves + [m], outcomes + [ok]) <==> Feasible(files, moves, outcomes) && (ok ==> m.src in before)) &&
      CountTrue(outcomes + [ok]) == CountTrue(outcomes) + (if ok then 1 else 0) &&
      Succeeded(moves + [m], outcomes + [ok]) == Succeeded(moves, outcomes) + (if ok then [m] else [])
  {
    assert (moves + [m])[..|moves|] == moves;
    assert (outcomes + [ok])[..|outcomes|] == outcomes;
  }

  function AllTrue(n: nat): (r: seq<bool>)
    ensures |r| == n && forall i :: 0 <= i < n ==> r[i]
  {
    seq(n, _ => true)
  }

  /** All attempts succeeded exactly when the success count is the number of attempts. */
  lemma {:induction false} CountAll(outcomes: seq<bool>)
    ensures CountTrue(outcomes) <= |outcomes|
    ensures CountTrue(outcomes) == |outcomes| <==> outcomes == AllTrue(|outcomes|)
    decreases |outcomes|
  {
    if outcomes != [] {
      var n := |outcomes| - 1;
      CountAll(outcomes[..n]);
      if outcomes == AllTrue(|outcomes|) {
        assert outcomes[..n] == AllTrue(n);
      }
      if outcomes[..n] == AllTrue(n) && outcomes[n] {
        assert outcomes == AllTrue(|outcomes|);
      }
    }
  }

  /** When every move succeeds, the successful moves are the whole plan. */
  lemma {:induction false} SucceededAll(moves: seq<Move>)
    ensures Succeeded(moves, AllTrue(|moves|)) == moves
    decreases |moves|
  {
    if moves != [] {
      var n := |moves| - 1;
      assert AllTrue(|moves|)[..n] == AllTrue(n);
      SucceededAll(moves[..n]);
      assert moves[..n] + [moves[n]] == moves;
    }
  }

  // ---------------------------------------------------------------- sources, targets, inverse

  function Sources(moves: seq<Move>): set<Path> {
    set m | m in moves :: m.src
  }

  function Targets(moves: seq<Move>): set<Path> {
    set m | m in moves :: m.dst
  }

  /** One more move adds its target. */
  lemma TargetsAppend(moves: seq<Move>, m: Move)
    ensures Targets(moves + [m]) == Targets(moves) + {m.dst}
  {
    assert forall x :: x in moves + [m] <==> x in moves || x == m;
  }

  predicate DistinctSources(moves: seq<Move>) {
    forall i, j :: 0 <= i < j < |moves| ==> moves[i].src != moves[j].src
  }

  predicate DistinctTargets(moves: seq<Move>) {
    forall i, j :: 0 <= i < j < |moves| ==> moves[i].dst != moves[j].dst
  }

  /** The moves that put a batch back: last first, each from its target to its source. */
  function Inverse(moves: seq<Move>): (r: seq<Move>)
    ensures |r| == |moves|
  {
    seq(|moves|, k requires 0 <= k < |moves| =>
      Move(moves[|moves| - 1 - k].dst, moves[|moves| - 1 - k].src))
  }

  /** The inverse moves go from the targets back to the sources. */
  lemma InverseSwaps(moves: seq<Move>)
    ensures Sources(Inverse(moves)) == Targets(moves)
    ensures Targets(Inverse(moves)) == Sources(moves)
    ensures DistinctTargets(moves) ==> DistinctSources(Inverse(moves))
    ensures DistinctSources(moves) ==> DistinctTargets(Inverse(moves))
  {
    InverseSources(moves);
    InverseTargets(moves);
  }

  lemma InverseSources(moves: seq<Move>)
    ensures Sources(Inverse(moves)) == Targets(moves)
  {
    var inv := Inverse(moves);
    var n := |moves|;
    forall p | p in Targets(moves) ensures p in Sources(inv) {
      var m :| m in moves && m.dst == p;
      var j :| 0 <= j < n && moves[j] == m;
      assert inv[n - 1 - j].src == p;
    }
    forall p | p in Sources(inv) ensures p in Targets(moves) {
      var m :| m in inv && m.src == p;
      var k :| 0 <= k < n && inv[k] == m;
      assert moves[n - 1 - k].dst == p;
    }
  }

  lemma InverseTargets(moves: seq<Move>)
    ensures Targets(Inverse(moves)) == Sources(moves)
  {
    var inv := Inverse(moves);
    var n := |moves|;
    forall p | p in Sources(moves) ensures p in Targets(inv) {
      var m :| m in moves && m.src == p;
      var j :| 0 <= j < n && moves[j] == m;
      assert inv[n - 1 - j].dst == p;
    }
    forall p | p in Targets(inv) ensures p in Sources(moves) {
      var m :| m in inv && m.dst == p;
      var k :| 0 <= k < n && inv[k] == m;
      assert moves[n - 1 - k].src == p;
    }
  }

  /**
   * Moves whose sources are distinct, all present, and never a target can all
   * succeed, one after the other; afterwards the sources are gone and the
   * targets exist.
   */
  lemma {:induction false} AllMovesSucceed(files: set<Path>, moves: seq<Move>)
    requires DistinctSources(moves) && Sources(moves) <= files
    requires Sources(moves) !! Targets(moves)
    ensures Feasible(files, moves, AllTrue(|moves|))
    ensures ApplyMoves(files, moves, AllTrue(|moves|)) == files - Sources(moves) + Targets(moves)
    decreases |moves|
  {
    if moves != [] {
      var n := |moves| - 1;
      var init, last := moves[..n], moves[n];
      LastMove(moves);
      AllMovesSucceed(files, init);
      AppendAttempt(files, init, AllTrue(n), last, true);
      MoveOneMore(files, Sources(init), Targets(init), last.src, last.dst);
    }
  }

  /** Splitting off the last move of a plan with distinct sources. */
  lemma LastMove(moves: seq<Move>)
    requires moves != [] && DistinctSources(moves)
    ensures var n := |moves| - 1;
      var init, last := moves[..n], moves[n];
      moves == init + [last] && AllTrue(|moves|) == AllTrue(n) + [true] &&
      Sources(moves) == Sources(init) + {last.src} && Targets(moves) == Targets(init) + {last.dst} &&
      DistinctSources(init) && last.src !in Sources(init)
  {
    var n := |moves| - 1;
    var init, last := moves[..n], moves[n];
    assert moves == init + [last];
    assert AllTrue(|moves|) == AllTrue(n) + [true];
    forall m | m in init ensures m.src != last.src {
      var j :| 0 <= j < n && init[j] == m;
      assert moves[j] == m;
    }
  }

  lemma MoveOneMore(files: set<Path>, gone: set<Path>, made: set<Path>, src: Path, dst: Path)
    requires src !in made
    ensures files - gone + made - {src} + {dst} == files - (gone + {src}) + (made + {dst})
  {
  }

  /**
   * Renaming a plan whose sources are distinct existing files and whose
   * targets are distinct and absent, then renaming the inverse, restores
   * the filesystem, every rename succeeding.
   */
  lemma RoundTripFiles(files: set<Path>, plan: seq<Move>)
    requires DistinctSources(plan) && DistinctTargets(plan)
    requires Sources(plan) <= files && Targets(plan) !! files
    ensures var all := AllTrue(|plan|);
      var after := ApplyMoves(files, plan, all);
      Feasible(files, plan, all) && Feasible(after, Inverse(plan), all) &&
      ApplyMoves(after, Inverse(plan), all) == files
  {
    var all := AllTrue(|plan|);
    AllMovesSucceed(files, plan);
    var after := ApplyMoves(files, plan, all);
    InverseSwaps(plan);
    AllMovesSucceed(after, Inverse(plan));
  }
}
