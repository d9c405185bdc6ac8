/**
 * The batch engine: file discovery, conflict-free naming of a preview, the
 * execution of a rename plan, and a persistent history of batches that can
 * be undone one batch at a time.
 */
module Core {
  import opened PathName
  import opened Numerals
  import opened Patterns
  import opened FileSystem
  import Text

  // ---------------------------------------------------------------- file discovery

  /** One result of globbing a directory: a path, and whether it names a regular file. */
  datatype Entry = Entry(path: Path, isFile: bool)

  datatype Discovery = Files(paths: seq<Path>) | DirectoryNotFound(directory: seq<char>)

  /** The regular files of a listing, in listing order. */
  function OnlyFiles(listing: seq<Entry>): (r: seq<Path>)
    ensures |r| <= |listing|
    ensures forall p :: p in r <==> Entry(p, true) in listing
  {
    if listing == [] then []
    else (if listing[0].isFile then [listing[0].path] else []) + OnlyFiles(listing[1..])
  }

  /** Filtering a listing in two parts gives the two filtered parts, in the same order. */
  lemma {:induction false} OnlyFilesAppend(a: seq<Entry>, b: seq<Entry>)
    ensures OnlyFiles(a + b) == OnlyFiles(a) + OnlyFiles(b)
    decreases |a|
  {
    if a == [] {
      assert a + b == b;
    } else {
      var head := if a[0].isFile then [a[0].path] else [];
      assert (a + b)[0] == a[0] && (a + b)[1..] == a[1..] + b;
      OnlyFilesAppend(a[1..], b);
      assert OnlyFiles(a + b) == head + (OnlyFiles(a[1..]) + OnlyFiles(b));
      assert OnlyFiles(a) == head + OnlyFiles(a[1..]);
    }
  }

  /**
   * Together with OnlyFilesAppend this fixes the filter: each entry
   * contributes its path once, in its place, when it is a regular file,
   * and nothing otherwise.
   */
  lemma OnlyFilesSingle(e: Entry)
    ensures OnlyFiles([e]) == if e.isFile then [e.path] else []
  {
  }

  /**
   * get_files: a missing directory is an error; otherwise the glob results
   * (given here as `listing`) are narrowed to regular files.
   */
  function GetFiles(directory: seq<char>, dirExists: bool, listing: seq<Entry>): (r: Discovery)
    ensures r.DirectoryNotFound? <==> !dirExists
    ensures r.DirectoryNotFound? ==> r.directory == directory
    ensures r.Files? ==> |r.paths| <= |listing| && forall p :: p in r.paths <==> Entry(p, true) in listing
    ensures r.Files? ==> r.paths == OnlyFiles(listing)
  {
    if !dirExists then DirectoryNotFound(directory) else Files(OnlyFiles(listing))
  }

  // ---------------------------------------------------------------- the rename modes

  /**
   * A name transformer together with its settings.  The date-time mode reads
   * each file's modification time, formatted; `dateOf` stands for it.  The
   * remove mode's `isWord` stands for the regex class \w.
   */
  datatype Mode =
    | Prefix(prefix: seq<char>)
    | Suffix(suffix: seq<char>)
    | Replace(find: seq<char>, repl: seq<char>)
    | Case(caseType: seq<char>)
    | DateTime(dateOf: Path -> seq<char>, datePrefix: seq<char>, dateSuffix: seq<char>, keepOriginal: bool)
    | Remove(removeSpaces: bool, removeSpecial: bool, customChars: seq<char>, isWord: char -> bool)
    | Insert(text: seq<char>, position: int)
    | Truncate(maxLength: int, fromStart: bool)

  /** The name a mode proposes for a file. */
  function Propose(mode: Mode, file: Path): seq<char> {
    match mode
    case Prefix(prefix) => AddPrefix(file.name, prefix)
    case Suffix(suffix) => AddSuffix(file.name, suffix)
    case Replace(find, repl) => ReplaceText(file.name, find, repl)
    case Case(caseType) => ChangeCase(file.name, caseType)
    case DateTime(dateOf, prefix, suffix, keep) => DateTimeName(file.name, dateOf(file), prefix, suffix, keep)
    case Remove(spaces, special, custom, isWord) => RemoveCharacters(file.name, spaces, special, custom, isWord)
    case Insert(text, position) => InsertText(file.name, text, position)
    case Truncate(maxLength, fromStart) => TruncateName(file.name, maxLength, fromStart)
  }

  // ---------------------------------------------------------------- conflict resolution

  /** The k-th alternative to a taken path: `<stem>_<k><extension>` in the same directory. */
  function Candidate(p: Path, k: nat): Path {
    Path(p.dir, Stem(p.name) + "_" + Decimal(k) + Extension(p.name))
  }

  lemma CandidateInjective(p: Path, j: nat, k: nat)
    requires Candidate(p, j) == Candidate(p, k)
    ensures j == k
  {
    var s, e := Stem(p.name) + "_", Extension(p.name);
    var a, b := Decimal(j), Decimal(k);
    assert |a| == |b|;
    assert (s + a + e)[|s|..|s| + |a|] == a;
    assert (s + b + e)[|s|..|s| + |b|] == b;
    DecimalInjective(j, k);
  }

  /** Candidates 1 to n. */
  function CandidateSet(p: Path, n: nat): set<Path> {
    if n == 0 then {} else CandidateSet(p, n - 1) + {Candidate(p, n)}
  }

  lemma {:induction false} CandidateSetBelow(p: Path, n: nat, m: nat)
    requires n < m
    ensures Candidate(p, m) !in CandidateSet(p, n)
    decreases n
  {
    if n > 0 {
      CandidateSetBelow(p, n - 1, m);
      if Candidate(p, m) == Candidate(p, n) {
        CandidateInjective(p, m, n);
      }
    }
  }

  lemma {:induction false} SubsetSize<T>(a: set<T>, b: set<T>)
    requires a <= b
    ensures |a| <= |b|
  {
    if a != {} {
      var x :| x in a;
      SubsetSize(a - {x}, b - {x});
    }
  }

  lemma {:induction false} CandidateSetSize(p: Path, n: nat)
    ensures |CandidateSet(p, n)| == n
    decreases n
  {
    if n > 0 {
      CandidateSetSize(p, n - 1);
      CandidateSetBelow(p, n - 1, n);
    }
  }

  lemma {:induction false} CandidateSetTaken(files: set<Path>, p: Path, n: nat)
    requires forall j :: 1 <= j <= n ==> Candidate(p, j) in files
    ensures CandidateSet(p, n) <= files
    decreases n
  {
    if n > 0 {
      CandidateSetTaken(files, p, n - 1);
    }
  }

  /** At most |files| candidates can all be taken. */
  lemma CandidatesWithin(files: set<Path>, p: Path, n: nat)
    requires forall j :: 1 <= j <= n ==> Candidate(p, j) in files
    ensures n <= |files|
  {
    CandidateSetSize(p, n);
    CandidateSetTaken(files, p, n);
    SubsetSize(CandidateSet(p, n), files);
  }

  /** Candidate j is already used by another file. */
  predicate Taken(files: set<Path>, p: Path, original: Path, j: nat) {
    Candidate(p, j) in files && Candidate(p, j) != original
  }

  /** The first counter from `k` on whose candidate is free (or is the file itself). */
  function FreeCounter(files: set<Path>, p: Path, original: Path, k: nat): (n: nat)
    requires k >= 1
    requires forall j :: 1 <= j < k ==> Candidate(p, j) in files
    ensures k <= n && !Taken(files, p, original, n)
    ensures forall j :: k <= j < n ==> Taken(files, p, original, j)
    decreases |files| + 1 - k
  {
    if !Taken(files, p, original, k) then k
    else
      assert Candidate(p, k) in files;
      CandidatesWithin(files, p, k);
      FreeCounter(files, p, original, k + 1)
  }

  /**
   * _resolve_conflict as a function of the existing paths: a path that is
   * free, or is the file's own path, is kept; otherwise the first free
   * candidate is taken.
   */
  function Resolve(files: set<Path>, p: Path, original: Path): (r: Path)
    ensures r == original || r !in files
    ensures (p == original || p !in files) ==> r == p
    ensures r.dir == p.dir
  {
    if p == original || p !in files then p
    else Candidate(p, FreeCounter(files, p, original, 1))
  }

  /** When the proposed path is taken, the result is candidate n exactly when n is the first free counter. */
  lemma ResolveIsFirstFree(files: set<Path>, p: Path, original: Path, n: nat)
    requires p != original && p in files && n >= 1
    ensures Resolve(files, p, original) == Candidate(p, n) <==>
      !Taken(files, p, original, n) && forall j :: 1 <= j < n ==> Taken(files, p, original, j)
  {
    var m := FreeCounter(files, p, original, 1);
    if Resolve(files, p, original) == Candidate(p, n) {
      CandidateInjective(p, m, n);
    }
    if !Taken(files, p, original, n) && forall j :: 1 <= j < n ==> Taken(files, p, original, j) {
      assert !(m < n);
    }
  }

  /**
   * The counter goes after the proposed stem: with "x.txt" and "x_1.txt" in
   * a directory, proposing "x_1.txt" for "x.txt" gives "x_1_1.txt".
   */
  lemma ResolveCountsOnProposedStem()
    ensures var x, x1 := Path("d", "x.txt"), Path("d", "x_1.txt");
      Resolve({x, x1}, x1, x) == Path("d", "x_1_1.txt")
  {
    var x, x1, c := Path("d", "x.txt"), Path("d", "x_1.txt"), Path("d", "x_1_1.txt");
    FirstCandidateOfX1();
    assert |c.name| != |x.name| && |c.name| != |x1.name|;
    FirstCandidateFree({x, x1}, x1, x);
  }

  /** The first candidate for "d/x_1.txt" is "d/x_1_1.txt". */
  lemma FirstCandidateOfX1()
    ensures Candidate(Path("d", "x_1.txt"), 1) == Path("d", "x_1_1.txt")
  {
    SplitJoin("x_1", ".txt");
    assert "x_1" + ".txt" == "x_1.txt";
    assert Decimal(1) == "1";
  }

  /** A taken proposal whose first candidate is free resolves to that candidate. */
  lemma FirstCandidateFree(files: set<Path>, p: Path, original: Path)
    requires p != original && p in files && !Taken(files, p, original, 1)
    ensures Resolve(files, p, original) == Candidate(p, 1)
  {
  }

  /**
   * Two files that the same mode sends to one new name, neither existing
   * yet, both get that name: the preview checks each target against the disk
   * only.  Both renames can succeed, and afterwards one file is gone.
   */
  lemma PreviewCollision()
    ensures var ab, ac, a := Path("d", "ab.txt"), Path("d", "ac.txt"), Path("d", "a.txt");
      var plan := IndexedPlan({ab, ac}, [ab, ac], (file: Path, i: int) => Propose(Truncate(1, true), file));
      plan == [Move(ab, a), Move(ac, a)] && !DistinctTargets(plan) &&
      Feasible({ab, ac}, plan, [true, true]) &&
      ApplyMoves({ab, ac}, plan, [true, true]) == {a}
  {
    var ab, ac, a := Path("d", "ab.txt"), Path("d", "ac.txt"), Path("d", "a.txt");
    var nameAt := (file: Path, i: int) => Propose(Truncate(1, true), file);
    TruncatedTogether(ab, ac, a, 'a', 'b', 'c');
    SameFreeTarget({ab, ac}, ab, ac, nameAt, a);
    BothRenamed({ab, ac}, ab, ac, a);
  }

  /** Two files whose proposed names are one free path are both sent to it. */
  lemma SameFreeTarget(existing: set<Path>, p: Path, q: Path, nameAt: (Path, int) -> seq<char>, a: Path)
    requires a !in existing
    requires Join(p.dir, nameAt(p, 0)) == a && Join(q.dir, nameAt(q, 1)) == a
    ensures IndexedPlan(existing, [p, q], nameAt) == [Move(p, a), Move(q, a)]
    ensures !DistinctTargets([Move(p, a), Move(q, a)])
  {
    IndexedPlanEntry(existing, [p, q], nameAt, 0);
    IndexedPlanEntry(existing, [p, q], nameAt, 1);
    assert [Move(p, a), Move(q, a)][0].dst == [Move(p, a), Move(q, a)][1].dst;
  }

  /** "<x><y>.txt" and "<x><z>.txt" both truncate to "<x>.txt", a path that is neither of them. */
  lemma TruncatedTogether(p: Path, q: Path, a: Path, x: char, y: char, z: char)
    requires x != '.' && y != '.' && z != '.' && y != z
    requires p == Path(a.dir, [x, y] + ".txt") && q == Path(a.dir, [x, z] + ".txt") && a.name == [x] + ".txt"
    ensures p != q && a !in {p, q}
    ensures Join(p.dir, Propose(Truncate(1, true), p)) == a && Join(q.dir, Propose(Truncate(1, true), q)) == a
  {
    assert p.name[1] != q.name[1];
    assert |a.name| < |p.name| && |a.name| < |q.name|;
    TruncatedToOneLetter(p.name, x, y);
    TruncatedToOneLetter(q.name, x, z);
  }

  /**
   * The same collision in the remove mode, which the GUI offers: removing the
   * custom character 'x' sends both "ax.txt" and "xa.txt" to "a.txt".
   */
  lemma PreviewCollisionRemove(isWord: char -> bool)
    ensures var ax, xa, a := Path("d", "ax.txt"), Path("d", "xa.txt"), Path("d", "a.txt");
      var plan := IndexedPlan({ax, xa}, [ax, xa], (file: Path, i: int) => Propose(Remove(false, false, "x", isWord), file));
      plan == [Move(ax, a), Move(xa, a)] && !DistinctTargets(plan) &&
      Feasible({ax, xa}, plan, [true, true]) &&
      ApplyMoves({ax, xa}, plan, [true, true]) == {a}
  {
    var ax, xa, a := Path("d", "ax.txt"), Path("d", "xa.txt"), Path("d", "a.txt");
    var nameAt := (file: Path, i: int) => Propose(Remove(false, false, "x", isWord), file);
    RemovedTogether(ax, xa, a, 'a', 'x', isWord);
    SameFreeTarget({ax, xa}, ax, xa, nameAt, a);
    BothRenamed({ax, xa}, ax, xa, a);
  }

  /** "<x><y>.txt" and "<y><x>.txt" both become "<x>.txt" when y is removed, a path that is neither of them. */
  lemma RemovedTogether(p: Path, q: Path, a: Path, x: char, y: char, isWord: char -> bool)
    requires x != '.' && y != '.' && x != y
    requires p == Path(a.dir, [x, y] + ".txt") && q == Path(a.dir, [y, x] + ".txt") && a.name == [x] + ".txt"
    ensures p != q && a !in {p, q}
    ensures Join(p.dir, Propose(Remove(false, false, [y], isWord), p)) == a
    ensures Join(q.dir, Propose(Remove(false, false, [y], isWord), q)) == a
  {
    assert p.name[0] != q.name[0];
    assert |a.name| < |p.name| && |a.name| < |q.name|;
    RemovedToOneLetter(p.name, x, y, isWord);
    RemovedToOneLetter(q.name, x, y, isWord);
  }

  /** Removing the character y from "<x><y>.txt" or "<y><x>.txt" gives "<x>.txt". */
  lemma RemovedToOneLetter(name: seq<char>, x: char, y: char, isWord: char -> bool)
    requires x != '.' && y != '.' && x != y
    requires name == [x, y] + ".txt" || name == [y, x] + ".txt"
    ensures RemoveCharacters(name, false, false, [y], isWord) == [x] + ".txt"
  {
    TwoLetterName(name);
    CustomOnly(name, y, isWord);
    DropOneChar(Stem(name), x, y);
  }

  /** With only one custom character to remove, remove_characters is one str.replace on the stem. */
  lemma CustomOnly(name: seq<char>, y: char, isWord: char -> bool)
    ensures RemoveCharacters(name, false, false, [y], isWord) == Text.Replace(Stem(name), [y], []) + Extension(name)
  {
    var stem := Stem(name);
    assert [y][1..] == [];
    assert RemoveEach(stem, [y]) == RemoveEach(Text.Replace(stem, [y], []), []);
  }

  /** Deleting y from "<x><y>" or "<y><x>" leaves "<x>". */
  lemma DropOneChar(stem: seq<char>, x: char, y: char)
    requires x != y && (stem == [x, y] || stem == [y, x])
    ensures Text.Replace(stem, [y], []) == [x]
  {
    var rest := stem[1..];
    assert rest[1..] == [];
    assert [y] <= [y] && !([y] <= [x]) by {
      assert [y][..1] == [y] && [x][..1] == [x] && [y][0] != [x][0];
    }
    assert !([y] <= [x, y]) by {
      assert [x, y][0] != [y][0];
    }
    assert [y] <= [y, x] by {
      assert [y, x][..1] == [y];
    }
    assert Text.ReplaceScan(rest[1..], [y], []) == [];
    if stem == [x, y] {
      assert Text.ReplaceScan(stem, [y], []) == [x] + Text.ReplaceScan(rest, [y], []);
      assert Text.ReplaceScan(rest, [y], []) == [] + Text.ReplaceScan(rest[1..], [y], []);
    } else {
      assert Text.ReplaceScan(stem, [y], []) == [] + Text.ReplaceScan(rest, [y], []);
      assert Text.ReplaceScan(rest, [y], []) == [x] + Text.ReplaceScan(rest[1..], [y], []);
    }
  }

  /** "<x><y>.txt" with neither x nor y a dot has the stem "<x><y>" and the extension ".txt". */
  lemma TwoLetterName(name: seq<char>)
    requires |name| == 6 && name[0] != '.' && name[1] != '.' && name[2..] == ".txt"
    ensures Stem(name) == name[..2] && Extension(name) == ".txt"
  {
    assert RFind(name[..3], '.') == 2;
    assert name[..4][..3] == name[..3] && name[..4][3] == 't';
    assert RFind(name[..4], '.') == 2;
    assert name[..5][..4] == name[..4] && name[..5][4] == 'x';
    assert RFind(name[..5], '.') == 2;
    assert name[..6][..5] == name[..5] && name[5] == 't' && name[..6] == name;
    assert RFind(name, '.') == 2;
  }

  /** Truncating "<x><y>.txt" to one character from the start gives "<x>.txt". */
  lemma TruncatedToOneLetter(name: seq<char>, x: char, y: char)
    requires x != '.' && y != '.' && name == [x, y] + ".txt"
    ensures TruncateName(name, 1, true) == [x] + ".txt"
  {
    TwoLetterName(name);
  }

  /** Two different files renamed one after the other to the same free path leave only that path. */
  lemma BothRenamed(files: set<Path>, p: Path, q: Path, a: Path)
    requires files == {p, q} && p != q && a !in files
    ensures Feasible(files, [Move(p, a), Move(q, a)], [true, true])
    ensures ApplyMoves(files, [Move(p, a), Move(q, a)], [true, true]) == {a}
  {
    var plan := [Move(p, a), Move(q, a)];
    assert plan[..1] == [Move(p, a)] && [true, true][..1] == [true];
    assert [Move(p, a)][..0] == [] && [true][..0] == [];
    assert ApplyMoves(files, [Move(p, a)], [true]) == {q, a};
  }

  /**
   * An empty proposed name, which the replace mode gives when the text to
   * find is the whole name and the new text is empty, is joined to the
   * file's directory as the directory itself.  That path exists, so the
   * conflict counter runs in the directory's parent: "d/sub/a.txt" is sent
   * to "d/sub_1", out of its directory, and the move can succeed.
   */
  lemma PreviewEmptyName()
    ensures var f, sub, out := Path("d/sub", "a.txt"), Path("d", "sub"), Path("d", "sub_1");
      var plan := IndexedPlan({f, sub}, [f], (file: Path, i: int) => Propose(Replace("a.txt", ""), file));
      plan == [Move(f, out)] && out.dir != f.dir &&
      Feasible({f, sub}, plan, [true]) && ApplyMoves({f, sub}, plan, [true]) == {sub, out}
  {
    var f, sub, out := Path("d/sub", "a.txt"), Path("d", "sub"), Path("d", "sub_1");
    var nameAt := (file: Path, i: int) => Propose(Replace("a.txt", ""), file);
    EmptyReplacement();
    DirectoryOfSub();
    FirstCandidateOfSub();
    FirstCandidateFree({f, sub}, sub, f);
    IndexedPlanEntry({f, sub}, [f], nameAt, 0);
    var plan := IndexedPlan({f, sub}, [f], nameAt);
    assert plan == [Move(f, out)];
    assert plan[..0] == [] && [true][..0] == [];
  }

  /** The corrected preview refuses the same empty name: "d/sub/a.txt" stays where it is. */
  lemma PreviewEmptyNameRefused()
    ensures var f, sub := Path("d/sub", "a.txt"), Path("d", "sub");
      DistinctPlan({f, sub}, [f], file => Propose(Replace("a.txt", ""), file)) == [Move(f, f)]
  {
    var f, sub := Path("d/sub", "a.txt"), Path("d", "sub");
    var nameOf := file => Propose(Replace("a.txt", ""), file);
    EmptyReplacement();
    DistinctPlanStep({f, sub}, [f], nameOf, 0, f);
    assert [f][..1] == [f] && [f][..0] == [];
  }

  /** Replacing the whole name "a.txt" by nothing leaves nothing. */
  lemma EmptyReplacement()
    ensures ReplaceText("a.txt", "a.txt", "") == ""
  {
    assert "a.txt" <= "a.txt" && "a.txt"[5..] == [];
    assert Text.ReplaceScan("a.txt", "a.txt", "") == "";
  }

  /** The directory "d/sub" is the path "sub" in "d". */
  lemma DirectoryOfSub()
    ensures Join("d/sub", "") == Path("d", "sub")
  {
    assert "d/sub"[..4] == "d/su" && "d/su"[..3] == "d/s" && "d/s"[..2] == "d/";
    assert RFind("d/sub", '/') == 1;
    assert "d/sub"[..1] == "d" && "d/sub"[2..] == "sub";
  }

  /** The first alternative to "d/sub" is "d/sub_1". */
  lemma FirstCandidateOfSub()
    ensures Candidate(Path("d", "sub"), 1) == Path("d", "sub_1")
  {
    assert "sub"[..2] == "su" && "su"[..1] == "s" && "s"[..0] == [];
    assert RFind("sub", '.') == -1;
    assert Decimal(1) == "1";
  }

  /**
   * The corrected target for a file and its proposed name: an empty name is
   * refused and the file stays where it is; any other name is resolved in
   * the file's own directory against the paths in `taken`.
   */
  function SafeTarget(taken: set<Path>, file: Path, name: seq<char>): (r: Path)
    ensures r.dir == file.dir
    ensures r == file || r !in taken
    ensures name == [] ==> r == file
    ensures name != [] && (Path(file.dir, name) == file || Path(file.dir, name) !in taken) ==>
      r == Path(file.dir, name)
  {
    if name == [] then file else Resolve(taken, Path(file.dir, name), file)
  }

  /**
   * preview_rename as a function of the existing paths: file i is sent to
   * the resolved path for `nameAt(file i, i)` joined to its directory.  The
   * proposed name may depend on the file's position in the list, as it does
   * in the number mode; every target is checked against the disk only.
   */
  function IndexedPlan(existing: set<Path>, files: seq<Path>, nameAt: (Path, int) -> seq<char>): (plan: seq<Move>)
    ensures |plan| == |files|
    decreases |files|
  {
    if files == [] then []
    else
      var n := |files| - 1;
      IndexedPlan(existing, files[..n], nameAt) +
      [Move(files[n], Resolve(existing, Join(files[n].dir, nameAt(files[n], n)), files[n]))]
  }

  lemma IndexedPlanStep(existing: set<Path>, files: seq<Path>, nameAt: (Path, int) -> seq<char>, i: nat, target: Path)
    requires i < |files|
    requires target == Resolve(existing, Join(files[i].dir, nameAt(files[i], i)), files[i])
    ensures IndexedPlan(existing, files[..i + 1], nameAt) == IndexedPlan(existing, files[..i], nameAt) + [Move(files[i], target)]
  {
    var done := files[..i + 1];
    assert |done| - 1 == i && done[i] == files[i] && done[..i] == files[..i];
  }

  lemma {:induction false} IndexedPlanEntry(existing: set<Path>, files: seq<Path>, nameAt: (Path, int) -> seq<char>, i: nat)
    requires i < |files|
    ensures IndexedPlan(existing, files, nameAt)[i] ==
      Move(files[i], Resolve(existing, Join(files[i].dir, nameAt(files[i], i)), files[i]))
    decreases |files|
  {
    var n := |files| - 1;
    var init := files[..n];
    var last := Resolve(existing, Join(files[n].dir, nameAt(files[n], n)), files[n]);
    IndexedPlanStep(existing, files, nameAt, n, last);
    assert files[..n + 1] == files;
    if i < n {
      IndexedPlanEntry(existing, init, nameAt, i);
      assert init[i] == files[i];
    }
  }

  /**
   * Entry i of an indexed preview renames file i to the resolved path for
   * `nameAt(file i, i)` joined to the file's directory; that path is the file
   * itself or does not exist yet, and it is in the file's own directory
   * unless the proposed name is empty.
   */
  lemma IndexedPlanEntries(existing: set<Path>, files: seq<Path>, nameAt: (Path, int) -> seq<char>)
    ensures var plan := IndexedPlan(existing, files, nameAt);
      forall i :: 0 <= i < |files| ==>
        plan[i] == Move(files[i], Resolve(existing, Join(files[i].dir, nameAt(files[i], i)), files[i])) &&
        (nameAt(files[i], i) != [] ==> plan[i].dst.dir == files[i].dir) &&
        (plan[i].dst == files[i] || plan[i].dst !in existing)
  {
    forall i | 0 <= i < |files| {
      IndexedPlanEntry(existing, files, nameAt, i);
    }
  }

  /**
   * The corrected preview as a function of the existing paths: file i is sent
   * to the resolved path for its proposed name, avoiding the existing paths
   * and the targets of files 0 to i - 1; a file whose proposed name is empty
   * stays where it is.
   */
  function DistinctPlan(existing: set<Path>, files: seq<Path>, nameOf: Path -> seq<char>): (plan: seq<Move>)
    ensures |plan| == |files|
    decreases |files|
  {
    if files == [] then []
    else
      var n := |files| - 1;
      var before := DistinctPlan(existing, files[..n], nameOf);
      before + [Move(files[n], SafeTarget(existing + Targets(before), files[n], nameOf(files[n])))]
  }

  lemma DistinctPlanStep(existing: set<Path>, files: seq<Path>, nameOf: Path -> seq<char>, i: nat, target: Path)
    requires i < |files|
    requires target == SafeTarget(existing + Targets(DistinctPlan(existing, files[..i], nameOf)), files[i], nameOf(files[i]))
    ensures DistinctPlan(existing, files[..i + 1], nameOf) == DistinctPlan(existing, files[..i], nameOf) + [Move(files[i], target)]
  {
    var done := files[..i + 1];
    assert |done| - 1 == i && done[i] == files[i] && done[..i] == files[..i];
  }

  /**
   * When the files are distinct existing paths, the corrected preview sends
   * each file to a path in its own directory that is the file itself or does
   * not exist yet, and no two files to the same path.
   */
  lemma {:induction false} DistinctPlanProperties(existing: set<Path>, files: seq<Path>, nameOf: Path -> seq<char>)
    requires forall i, j :: 0 <= i < j < |files| ==> files[i] != files[j]
    requires forall i :: 0 <= i < |files| ==> files[i] in existing
    ensures var plan := DistinctPlan(existing, files, nameOf);
      (forall i :: 0 <= i < |files| ==>
        plan[i].src == files[i] && plan[i].dst.dir == files[i].dir &&
        (plan[i].dst == files[i] || plan[i].dst !in existing)) &&
      DistinctTargets(plan)
    decreases |files|
  {
    if files != [] {
      var n := |files| - 1;
      var init := files[..n];
      assert forall i :: 0 <= i < n ==> init[i] == files[i];
      var before := DistinctPlan(existing, init, nameOf);
      DistinctPlanProperties(existing, init, nameOf);
      var last := Move(files[n], SafeTarget(existing + Targets(before), files[n], nameOf(files[n])));
      DistinctPlanStep(existing, files, nameOf, n, last.dst);
      assert files[..n + 1] == files;
      LastTargetFresh(existing, files, before, last);
      AppendEntry(existing, files, before, last);
      AppendDistinctTarget(before, last);
    }
  }

  /** The entry facts of the corrected preview, extended by its last entry. */
  lemma AppendEntry(existing: set<Path>, files: seq<Path>, before: seq<Move>, last: Move)
    requires |before| + 1 == |files|
    requires forall i :: 0 <= i < |before| ==>
      before[i].src == files[i] && before[i].dst.dir == files[i].dir &&
      (before[i].dst == files[i] || before[i].dst !in existing)
    requires last.src == files[|before|] && last.dst.dir == last.src.dir
    requires last.dst == last.src || last.dst !in existing
    ensures var plan := before + [last];
      forall i :: 0 <= i < |files| ==>
        plan[i].src == files[i] && plan[i].dst.dir == files[i].dir &&
        (plan[i].dst == files[i] || plan[i].dst !in existing)
  {
    var plan := before + [last];
    forall i | 0 <= i < |files|
      ensures plan[i].src == files[i] && plan[i].dst.dir == files[i].dir &&
        (plan[i].dst == files[i] || plan[i].dst !in existing)
    {
      if i < |before| {
        assert plan[i] == before[i];
      }
    }
  }

  /** The new entry of the corrected preview: from the last file, to a path no earlier entry targets. */
  lemma LastTargetFresh(existing: set<Path>, files: seq<Path>, before: seq<Move>, last: Move)
    requires files != [] && |before| == |files| - 1
    requires forall i, j :: 0 <= i < j < |files| ==> files[i] != files[j]
    requires forall i :: 0 <= i < |files| ==> files[i] in existing
    requires forall i :: 0 <= i < |before| ==>
      before[i].src == files[i] && (before[i].dst == files[i] || before[i].dst !in existing)
    requires last.src == files[|before|]
    requires last.dst == last.src || last.dst !in existing + Targets(before)
    ensures forall k :: 0 <= k < |before| ==> before[k].dst != last.dst
  {
    forall k | 0 <= k < |before| ensures before[k].dst != last.dst {
      if last.dst != last.src {
        assert before[k].dst in Targets(before);
      }
    }
  }

  /** A plan with distinct targets stays so when a move with a new target is appended. */
  lemma AppendDistinctTarget(before: seq<Move>, last: Move)
    requires DistinctTargets(before)
    requires forall k :: 0 <= k < |before| ==> before[k].dst != last.dst
    ensures DistinctTargets(before + [last])
  {
  }

  // ---------------------------------------------------------------- history

  /** A recorded batch: when it ran, and the renames that succeeded, in order. */
  datatype Batch = Batch(timestamp: seq<char>, operations: seq<Move>)

  /** The history file: missing, not parseable, or a list of batches. */
  datatype StoredHistory = Absent | Unreadable | Entries(batches: seq<Batch>)

  const HistoryLimit := 50

  /** The history the engine starts with, given what the history file holds. */
  function Loaded(stored: StoredHistory): (h: seq<Batch>)
    ensures |h| <= HistoryLimit
    ensures stored.Entries? ==>
      |h| == (if |stored.batches| < HistoryLimit then |stored.batches| else HistoryLimit) &&
      h == stored.batches[|stored.batches| - |h|..]
    ensures !stored.Entries? ==> h == []
  {
    match stored
    case Absent => []
    case Unreadable => []
    case Entries(batches) => Text.Drop(batches, -HistoryLimit)
  }

  /** Saving writes the newest batches; loading them back gives exactly what was written. */
  lemma SaveThenLoad(history: seq<Batch>)
    ensures var saved := Text.Drop(history, -HistoryLimit);
      Loaded(Entries(saved)) == saved &&
      saved == history[|history| - |saved|..] &&
      |saved| == (if |history| < HistoryLimit then |history| else HistoryLimit)
  {
    var saved := Text.Drop(history, -HistoryLimit);
    assert |saved| <= HistoryLimit;
  }

  /**
   * What the history file holds after _save_history tried to write `history`.
   * A write that goes through leaves the newest 50 batches.  A failed one
   * leaves the file as it was when opening it failed, or cut short (and so
   * unreadable) when the failure came after opening it for writing had
   * already emptied it.
   */
  predicate SaveOutcome(after: StoredHistory, before: StoredHistory, writable: bool, history: seq<Batch>) {
    if writable then after == Entries(Text.Drop(history, -HistoryLimit))
    else after == before || after == Unreadable
  }

  /**
   * Loading after a save: a write that went through gives back the newest 50
   * batches; a failed one gives back what the old file gave, or nothing.
   */
  lemma ReloadAfterSave(after: StoredHistory, before: StoredHistory, writable: bool, history: seq<Batch>)
    requires SaveOutcome(after, before, writable, history)
    ensures writable ==> Loaded(after) == Text.Drop(history, -HistoryLimit)
    ensures !writable ==> Loaded(after) == Loaded(before) || Loaded(after) == []
  {
    if writable {
      SaveThenLoad(history);
    }
  }

  /** The history file on disk, and whether writing to it succeeds. */
  class HistoryStore {
    var contents: StoredHistory
    var writable: bool

    constructor (contents: StoredHistory, writable: bool)
      ensures this.contents == contents && this.writable == writable
    {
      this.contents := contents;
      this.writable := writable;
    }
  }

  // ---------------------------------------------------------------- results

  datatype FileError =
    | RenameFailed(name: seq<char>)   // a planned rename raised; the old name
    | Missing(name: seq<char>)        // undo found the renamed file gone; the new name
    | UndoFailed(name: seq<char>)     // undoing a rename raised; the new name

  datatype UndoResult =
    | NothingToUndo
    | Undone(count: nat, errors: seq<FileError>)
    | NotUndone(errors: seq<FileError>)

  /** The errors execute_rename reports: one per failed move, in plan order. */
  function RenameErrors(moves: seq<Move>, outcomes: seq<bool>): (r: seq<FileError>)
    requires |outcomes| == |moves|
    ensures |r| + CountTrue(outcomes) == |moves|
    decreases |moves|
  {
    if moves == [] then []
    else
      var n := |moves| - 1;
      RenameErrors(moves[..n], outcomes[..n]) +
      (if outcomes[n] then [] else [RenameFailed(moves[n].src.name)])
  }

  /** Every error execute_rename reports names a file whose rename was tried and failed. */
  lemma {:induction false} RenameErrorsAreFailures(moves: seq<Move>, outcomes: seq<bool>)
    requires |outcomes| == |moves|
    ensures forall e :: e in RenameErrors(moves, outcomes) ==>
      e.RenameFailed? && exists i :: 0 <= i < |moves| && !outcomes[i] && moves[i].src.name == e.name
    decreases |moves|
  {
    if moves != [] {
      var n := |moves| - 1;
      RenameErrorsAreFailures(moves[..n], outcomes[..n]);
      forall e | e in RenameErrors(moves[..n], outcomes[..n])
        ensures exists i :: 0 <= i < |moves| && !outcomes[i] && moves[i].src.name == e.name
      {
        var i :| 0 <= i < n && !outcomes[..n][i] && moves[..n][i].src.name == e.name;
        assert !outcomes[i] && moves[i].src.name == e.name;
      }
    }
  }

  lemma RenameErrorsAppend(moves: seq<Move>, outcomes: seq<bool>, m: Move, ok: bool)
    requires |outcomes| == |moves|
    ensures RenameErrors(moves + [m], outcomes + [ok]) ==
      RenameErrors(moves, outcomes) + (if ok then [] else [RenameFailed(m.src.name)])
  {
    assert (moves + [m])[..|moves|] == moves;
    assert (outcomes + [ok])[..|outcomes|] == outcomes;
  }

  /**
   * The errors undo reports for the inverse moves: a missing renamed file is
   * reported without an attempt, a failed attempt as a failure.
   */
  function UndoErrors(files: set<Path>, moves: seq<Move>, outcomes: seq<bool>): (r: seq<FileError>)
    requires |outcomes| == |moves|
    ensures |r| + CountTrue(outcomes) == |moves|
    decreases |moves|
  {
    if moves == [] then []
    else
      var n := |moves| - 1;
      var before := ApplyMoves(files, moves[..n], outcomes[..n]);
      UndoErrors(files, moves[..n], outcomes[..n]) +
      (if outcomes[n] then []
       else if moves[n].src in before then [UndoFailed(moves[n].src.name)]
       else [Missing(moves[n].src.name)])
  }

  /** Every error undo reports is a missing or a failed file, named by a move that did not succeed. */
  lemma {:induction false} UndoErrorsAreFailures(files: set<Path>, moves: seq<Move>, outcomes: seq<bool>)
    requires |outcomes| == |moves|
    ensures forall e :: e in UndoErrors(files, moves, outcomes) ==>
      !e.RenameFailed? && exists i :: 0 <= i < |moves| && !outcomes[i] && moves[i].src.name == e.name
    decreases |moves|
  {
    if moves != [] {
      var n := |moves| - 1;
      UndoErrorsAreFailures(files, moves[..n], outcomes[..n]);
      forall e | e in UndoErrors(files, moves[..n], outcomes[..n])
        ensures exists i :: 0 <= i < |moves| && !outcomes[i] && moves[i].src.name == e.name
      {
        var i :| 0 <= i < n && !outcomes[..n][i] && moves[..n][i].src.name == e.name;
        assert !outcomes[i] && moves[i].src.name == e.name;
      }
    }
  }

  lemma UndoErrorsAppend(files: set<Path>, moves: seq<Move>, outcomes: seq<bool>, m: Move, ok: bool)
    requires |outcomes| == |moves|
    ensures UndoErrors(files, moves + [m], outcomes + [ok]) ==
      UndoErrors(files, moves, outcomes) +
      (if ok then []
       else if m.src in ApplyMoves(files, moves, outcomes) then [UndoFailed(m.src.name)]
       else [Missing(m.src.name)])
  {
    assert (moves + [m])[..|moves|] == moves;
    assert (outcomes + [ok])[..|outcomes|] == outcomes;
  }

  // ---------------------------------------------------------------- the engine

  class FileRenamer {
    var history: seq<Batch>
    const store: HistoryStore

    constructor (store: HistoryStore)
      ensures this.store == store && history == Loaded(store.contents)
    {
      this.store := store;
      history := [];
      new;
      LoadHistory();
    }

    /** _load_history: a missing file leaves the history alone, an unreadable one empties it. */
    method LoadHistory()
      modifies this`history
      ensures history == if store.contents.Absent? then old(history) else Loaded(store.contents)
    {
      match store.contents
      case Absent =>
      case Unreadable => history := [];
      case Entries(batches) => history := Text.Drop(batches, -HistoryLimit);
    }

    /**
     * _save_history: write the newest 50 batches; a failed write is ignored,
     * whether it left the file untouched or already emptied.
     */
    method SaveHistory()
      modifies store`contents
      ensures SaveOutcome(store.contents, old(store.contents), store.writable, history)
    {
      if store.writable {
        store.contents := Entries(Text.Drop(history, -HistoryLimit));
      } else {
        var emptied: bool :| true;
        if emptied {
          store.contents := Unreadable;
        }
      }
    }

    /** get_history: the newest `limit` batches (Python's `history[-limit:]`). */
    function GetHistory(limit: int): (r: seq<Batch>)
      reads this
      ensures limit > 0 ==>
        |r| == (if |history| < limit then |history| else limit) && r == history[|history| - |r|..]
      ensures limit == 0 ==> r == history
      ensures limit < 0 ==> r == history[(if -limit < |history| then -limit else |history|)..]
    {
      Text.Drop(history, -limit)
    }

    method ClearHistory()
      modifies this`history, store`contents
      ensures history == []
      ensures SaveOutcome(store.contents, old(store.contents), store.writable, [])
    {
      history := [];
      SaveHistory();
    }

    /** _resolve_conflict: count up candidates until one is free or is the file itself. */
    method ResolveConflict(newPath: Path, original: Path, disk: Disk) returns (r: Path)
      ensures r == Resolve(disk.files, newPath, original)
    {
      if newPath == original {
        return newPath;
      }
      if newPath !in disk.files {
        return newPath;
      }
      r := newPath;
      var counter: nat := 1;
      while r in disk.files && r != original
        invariant counter >= 1
        invariant r == if counter == 1 then newPath else Candidate(newPath, counter - 1)
        invariant forall j :: 1 <= j < counter - 1 ==> Taken(disk.files, newPath, original, j)
        decreases |disk.files| + 1 - counter
      {
        if counter > 1 {
          forall j | 1 <= j <= counter - 1 ensures Candidate(newPath, j) in disk.files {
            if j < counter - 1 {
              assert Taken(disk.files, newPath, original, j);
            }
          }
          CandidatesWithin(disk.files, newPath, counter - 1);
        }
        r := Candidate(newPath, counter);
        counter := counter + 1;
      }
      ResolveIsFirstFree(disk.files, newPath, original, counter - 1);
    }

    /**
     * preview_rename: each file is paired with the resolved path for the name
     * the mode proposes joined to the file's directory, which is in that
     * directory unless the name is empty.
     */
    method PreviewRename(files: seq<Path>, mode: Mode, disk: Disk) returns (plan: seq<Move>)
      ensures plan == IndexedPlan(disk.files, files, (file: Path, i: int) => Propose(mode, file))
      ensures |plan| == |files|
      ensures forall i :: 0 <= i < |files| ==>
        plan[i].src == files[i] && (Propose(mode, files[i]) != [] ==> plan[i].dst.dir == files[i].dir) &&
        (plan[i].dst == files[i] || plan[i].dst !in disk.files)
    {
      ghost var nameAt := (file: Path, i: int) => Propose(mode, file);
      plan := [];
      for i := 0 to |files|
        invariant plan == IndexedPlan(disk.files, files[..i], nameAt)
      {
        var file := files[i];
        var newPath := Join(file.dir, Propose(mode, file));
        newPath := ResolveConflict(newPath, file, disk);
        IndexedPlanStep(disk.files, files, nameAt, i, newPath);
        plan := plan + [Move(file, newPath)];
      }
      assert files[..|files|] == files;
      IndexedPlanEntries(disk.files, files, nameAt);
    }

    /**
     * preview_rename with each target also kept clear of the targets already
     * given to earlier files of the same batch, so that no two files of a
     * batch are sent to the same path, and with an empty proposed name
     * refused, so that no file leaves its directory.
     */
    method PreviewRenameDistinct(files: seq<Path>, mode: Mode, disk: Disk) returns (plan: seq<Move>)
      requires forall i, j :: 0 <= i < j < |files| ==> files[i] != files[j]
      requires forall i :: 0 <= i < |files| ==> files[i] in disk.files
      ensures plan == DistinctPlan(disk.files, files, file => Propose(mode, file))
      ensures forall i :: 0 <= i < |files| ==>
        plan[i].src == files[i] && plan[i].dst.dir == files[i].dir &&
        (plan[i].dst == files[i] || plan[i].dst !in disk.files)
      ensures DistinctTargets(plan)
    {
      ghost var nameOf := file => Propose(mode, file);
      plan := [];
      var claimed: set<Path> := {};
      for i := 0 to |files|
        invariant plan == DistinctPlan(disk.files, files[..i], nameOf) && claimed == Targets(plan)
      {
        var file := files[i];
        var newName := Propose(mode, file);
        var target := file;
        if newName != [] {
          target := Resolve(disk.files + claimed, Path(file.dir, newName), file);
        }
        DistinctPlanStep(disk.files, files, nameOf, i, target);
        TargetsAppend(plan, Move(file, target));
        plan := plan + [Move(file, target)];
        claimed := claimed + {target};
      }
      assert files[..|files|] == files;
      DistinctPlanProperties(disk.files, files, nameOf);
    }

    /** The number mode's preview: the file's position in the list gives its number. */
    method PreviewNumberRename(files: seq<Path>, start: int, digits: int, prefix: seq<char>,
                               keepOriginal: bool, disk: Disk) returns (plan: seq<Move>)
      ensures plan == IndexedPlan(disk.files, files,
        (file: Path, i: int) => NumberSequence(file.name, i, start, digits, prefix, keepOriginal))
    {
      ghost var nameAt := (file: Path, i: int) => NumberSequence(file.name, i, start, digits, prefix, keepOriginal);
      plan := [];
      for i := 0 to |files|
        invariant plan == IndexedPlan(disk.files, files[..i], nameAt)
      {
        var file := files[i];
        var newPath := Join(file.dir, NumberSequence(file.name, i, start, digits, prefix, keepOriginal));
        newPath := ResolveConflict(newPath, file, disk);
        IndexedPlanStep(disk.files, files, nameAt, i, newPath);
        plan := plan + [Move(file, newPath)];
      }
      assert files[..|files|] == files;
    }

    /**
     * execute_rename: try every move in order, count successes, report each
     * failure, and record the successful moves as one batch.
     */
    method ExecuteRename(plan: seq<Move>, saveHistory: bool, timestamp: seq<char>, disk: Disk)
      returns (successCount: nat, errors: seq<FileError>, ghost outcomes: seq<bool>)
      modifies this`history, store`contents, disk
      ensures |outcomes| == |plan| && Feasible(old(disk.files), plan, outcomes)
      ensures disk.files == ApplyMoves(old(disk.files), plan, outcomes)
      ensures successCount == CountTrue(outcomes) && errors == RenameErrors(plan, outcomes)
      ensures successCount + |errors| == |plan|
      ensures saveHistory && successCount > 0 ==>
        history == old(history) + [Batch(timestamp, Succeeded(plan, outcomes))] &&
        SaveOutcome(store.contents, old(store.contents), store.writable, history)
      ensures !(saveHistory && successCount > 0) ==>
        history == old(history) && store.contents == old(store.contents)
    {
      var operations;
      successCount, errors, operations, outcomes := RenameAll(plan, disk);
      if saveHistory && successCount > 0 {
        history := history + [Batch(timestamp, operations)];
        SaveHistory();
      }
    }

    /**
     * undo_last_operation: rename the last batch back, newest move first;
     * a renamed file that no longer exists is reported, not attempted.  The
     * batch leaves the history only if at least one move was put back.
     */
    method UndoLastOperation(disk: Disk) returns (result: UndoResult, ghost outcomes: seq<bool>)
      modifies this`history, store`contents, disk
      ensures old(history) == [] ==>
        result == NothingToUndo && outcomes == [] && history == old(history) &&
        disk.files == old(disk.files) && store.contents == old(store.contents)
      ensures old(history) != [] ==>
        var moves := Inverse(old(history)[|old(history)| - 1].operations);
        |outcomes| == |moves| && Feasible(old(disk.files), moves, outcomes) &&
        disk.files == ApplyMoves(old(disk.files), moves, outcomes)
      ensures old(history) != [] && CountTrue(outcomes) > 0 ==>
        var moves := Inverse(old(history)[|old(history)| - 1].operations);
        |outcomes| == |moves| &&
        result == Undone(CountTrue(outcomes), UndoErrors(old(disk.files), moves, outcomes)) &&
        history == old(history)[..|old(history)| - 1] &&
        SaveOutcome(store.contents, old(store.contents), store.writable, history)
      ensures old(history) != [] && CountTrue(outcomes) == 0 ==>
        var moves := Inverse(old(history)[|old(history)| - 1].operations);
        |outcomes| == |moves| &&
        result == NotUndone(UndoErrors(old(disk.files), moves, outcomes)) &&
        history == old(history) && store.contents == old(store.contents)
    {
      if history == [] {
        return NothingToUndo, [];
      }
      var ops := history[|history| - 1].operations;
      var successCount, errors;
      successCount, errors, outcomes := RenameBack(ops, disk);
      if successCount > 0 {
        history := history[..|history| - 1];
        SaveHistory();
        result := Undone(successCount, errors);
      } else {
        result := NotUndone(errors);
      }
    }
  }

  /**
   * The loop of execute_rename: every move is tried in order; a failure is
   * reported and the loop goes on.  `operations` are the moves that succeeded.
   */
  method RenameAll(plan: seq<Move>, disk: Disk)
    returns (successCount: nat, errors: seq<FileError>, operations: seq<Move>, ghost outcomes: seq<bool>)
    modifies disk
    ensures |outcomes| == |plan| && Feasible(old(disk.files), plan, outcomes)
    ensures disk.files == ApplyMoves(old(disk.files), plan, outcomes)
    ensures successCount == CountTrue(outcomes) && errors == RenameErrors(plan, outcomes)
    ensures operations == Succeeded(plan, outcomes)
  {
    ghost var files0 := disk.files;
    successCount := 0;
    errors := [];
    outcomes := [];
    operations := [];
    ghost var tried: seq<Move> := [];
    for i := 0 to |plan|
      invariant tried == plan[..i] && |outcomes| == i
      invariant Feasible(files0, tried, outcomes)
      invariant disk.files == ApplyMoves(files0, tried, outcomes)
      invariant successCount == CountTrue(outcomes)
      invariant errors == RenameErrors(tried, outcomes)
      invariant operations == Succeeded(tried, outcomes)
    {
      var m := plan[i];
      var ok := disk.Rename(m.src, m.dst);
      successCount := successCount + (if ok then 1 else 0);
      operations := operations + (if ok then [m] else []);
      errors := errors + (if ok then [] else [RenameFailed(m.src.name)]);
      assert plan[..i + 1] == tried + [m];
      AppendAttempt(files0, tried, outcomes, m, ok);
      RenameErrorsAppend(tried, outcomes, m, ok);
      tried := tried + [m];
      outcomes := outcomes + [ok];
    }
    assert plan[..|plan|] == plan;
  }

  /**
   * The loop of undo_last_operation: the moves of a batch are put back newest
   * first; a target that no longer exists is reported as missing and not
   * attempted.
   */
  method RenameBack(ops: seq<Move>, disk: Disk) returns (successCount: nat, errors: seq<FileError>, ghost outcomes: seq<bool>)
    modifies disk
    ensures |outcomes| == |ops| && Feasible(old(disk.files), Inverse(ops), outcomes)
    ensures disk.files == ApplyMoves(old(disk.files), Inverse(ops), outcomes)
    ensures successCount == CountTrue(outcomes) && errors == UndoErrors(old(disk.files), Inverse(ops), outcomes)
  {
    ghost var moves := Inverse(ops);
    ghost var files0 := disk.files;
    successCount := 0;
    errors := [];
    outcomes := [];
    ghost var tried: seq<Move> := [];
    var i := |ops|;
    while i > 0
      invariant 0 <= i <= |ops| && tried == moves[..|ops| - i] && |outcomes| == |tried|
      invariant Feasible(files0, tried, outcomes)
      invariant disk.files == ApplyMoves(files0, tried, outcomes)
      invariant successCount == CountTrue(outcomes)
      invariant errors == UndoErrors(files0, tried, outcomes)
    {
      i := i - 1;
      var op := ops[i];
      var k := |ops| - 1 - i;
      assert moves[k] == Move(op.dst, op.src);
      assert moves[..k + 1] == tried + [Move(op.dst, op.src)];
      var ok := false;
      if op.dst in disk.files {
        ok := disk.Rename(op.dst, op.src);
        if ok {
          successCount := successCount + 1;
        } else {
          errors := errors + [UndoFailed(op.dst.name)];
        }
      } else {
        errors := errors + [Missing(op.dst.name)];
      }
      AppendAttempt(files0, tried, outcomes, Move(op.dst, op.src), ok);
      UndoErrorsAppend(files0, tried, outcomes, Move(op.dst, op.src), ok);
      tried := tried + [Move(op.dst, op.src)];
      outcomes := outcomes + [ok];
    }
    assert moves[..|ops|] == moves;
  }

  /**
   * A batch whose sources are distinct existing files and whose targets are
   * distinct and free, executed and then undone: when every rename of both
   * steps succeeds, the files and the history are as they were before.
   */
  method ExecuteThenUndo(renamer: FileRenamer, plan: seq<Move>, timestamp: seq<char>, disk: Disk)
    returns (successCount: nat, errors: seq<FileError>, undo: UndoResult)
    requires DistinctSources(plan) && DistinctTargets(plan)
    requires Sources(plan) <= disk.files && Targets(plan) !! disk.files
    modifies renamer`history, renamer.store`contents, disk
    ensures successCount + |errors| == |plan|
    ensures successCount == |plan| && undo == Undone(|plan|, []) ==>
      disk.files == old(disk.files) && renamer.history == old(renamer.history)
  {
    ghost var files0, history0 := disk.files, renamer.history;
    ghost var done, undone;
    successCount, errors, done := renamer.ExecuteRename(plan, true, timestamp, disk);
    ghost var files1 := disk.files;
    undo, undone := renamer.UndoLastOperation(disk);
    if successCount == |plan| && undo == Undone(|plan|, []) {
      CountAll(done);
      SucceededAll(plan);
      var all := AllTrue(|plan|);
      assert renamer.history == history0;
      CountAll(undone);
      assert undone == all;
      RoundTripFiles(files0, plan);
    }
  }
}
