/** The `fs:delete` test scenarios: the fixture workspace and the behaviours
    the tests check, each as a verified client of the handler. */
module DeleteActionTests {
  import opened Paths
  import opened Filesystem
  import opened DeleteAction

  const ROOT: Path := ["rootDir"]
  const WORKSPACE: Path := ["rootDir", "my-workspace"]
  const FILE_A: Path := WORKSPACE + ["unit-test-a.js"]
  const FILE_B: Path := WORKSPACE + ["unit-test-b.js"]
  const FOLDER: Path := WORKSPACE + ["a-folder"]
  const FOLDER_FILE: Path := FOLDER + ["unit-test-in-a-folder.js2"]

  /** The root is `/rootDir`, and the workspace is `resolvePath(root, 'my-workspace')`. */
  lemma WorkspaceLocation()
    ensures Resolve([], "/rootDir") == ROOT
    ensures Resolve(Resolve([], "/rootDir"), "my-workspace") == WORKSPACE
  {
    assert IsNormal(ROOT);
    ResolveFormat([], ROOT);
    assert Format(ROOT) == "/rootDir";
    ResolveName(ROOT, "my-workspace");
  }

  /** The listed files are plain names, so they resolve to children of the workspace. */
  lemma ListedFilesResolve()
    ensures Resolve(WORKSPACE, "unit-test-a.js") == FILE_A
    ensures Resolve(WORKSPACE, "unit-test-b.js") == FILE_B
    ensures IsWithin(WORKSPACE, FILE_A) && IsWithin(WORKSPACE, FILE_B)
  {
    ResolveName(WORKSPACE, "unit-test-a.js");
    ResolveName(WORKSPACE, "unit-test-b.js");
    assert FILE_A[..|WORKSPACE|] == WORKSPACE;
    assert FILE_B[..|WORKSPACE|] == WORKSPACE;
  }

  /** The configured mock filesystem: the workspace holds two files and a
      folder with one file in it, below the parent directory `/rootDir`. Only
      the configured tree is modelled; the directories mock-fs adds on its own
      (the current and the temporary directory) are not part of it. */
  function Fixture(): Tree {
    map[
      ROOT := Directory,
      WORKSPACE := Directory,
      FILE_A := File("hello"),
      FILE_B := File("world"),
      FOLDER := Directory,
      FOLDER_FILE := File("content")
    ]
  }

  lemma FixturePathsNormal()
    ensures IsNormal(ROOT) && IsNormal(WORKSPACE) && IsNormal(FILE_A)
    ensures IsNormal(FILE_B) && IsNormal(FOLDER) && IsNormal(FOLDER_FILE)
  {
    assert IsSegment("rootDir") && IsSegment("my-workspace");
    assert IsSegment("unit-test-a.js") && IsSegment("unit-test-b.js");
    assert IsSegment("a-folder") && IsSegment("unit-test-in-a-folder.js2");
  }

  /** The fixture is a well-formed tree: it is built by creating each entry
      inside a directory that already exists. */
  lemma FixtureWellFormed()
    ensures WellFormed(Fixture())
  {
    FixturePathsNormal();
    var fs0: Tree := map[];
    var fs1 := fs0[ROOT := Directory];
    AddEntry(fs0, ROOT, Directory);
    assert Parent(WORKSPACE) == ROOT;
    var fs2 := fs1[WORKSPACE := Directory];
    AddEntry(fs1, WORKSPACE, Directory);
    assert Parent(FILE_A) == WORKSPACE;
    var fs3 := fs2[FILE_A := File("hello")];
    AddEntry(fs2, FILE_A, File("hello"));
    assert Parent(FILE_B) == WORKSPACE;
    var fs4 := fs3[FILE_B := File("world")];
    AddEntry(fs3, FILE_B, File("world"));
    assert Parent(FOLDER) == WORKSPACE;
    var fs5 := fs4[FOLDER := Directory];
    AddEntry(fs4, FOLDER, Directory);
    assert Parent(FOLDER_FILE) == FOLDER;
    AddEntry(fs5, FOLDER_FILE, File("content"));
    assert fs5[FOLDER_FILE := File("content")] == Fixture();
  }

  /** In the fixture both listed files exist before the handler runs. */
  lemma ListedFilesExist()
    ensures Exists(Fixture(), Resolve(WORKSPACE, "unit-test-a.js"))
    ensures Exists(Fixture(), Resolve(WORKSPACE, "unit-test-b.js"))
  {
    ListedFilesResolve();
  }

  /** How `'/foo/../../../index.js'` splits at its slashes. */
  lemma AbsoluteEntryPieces()
    ensures Join(["", "foo", "..", "..", "..", "index.js"]) == "/foo/../../../index.js"
  {
    RelativeEntryPieces();
    JoinCons("foo", ["..", "..", "..", "index.js"]);
    assert "foo" + "/" + "../../../index.js" == "foo/../../../index.js";
    JoinCons("", ["foo", "..", "..", "..", "index.js"]);
    assert "" + "/" + "foo/../../../index.js" == "/foo/../../../index.js";
  }

  lemma AbsoluteEntryNormalizes()
    ensures Normalize([], ["", "foo", "..", "..", "..", "index.js"]) == ["index.js"]
  {
    var p := ["", "foo", "..", "..", "..", "index.js"];
    assert p[1..] == ["foo", "..", "..", "..", "index.js"];
    assert p[2..] == ["..", "..", "..", "index.js"];
    assert p[3..] == ["..", "..", "index.js"];
    assert p[4..] == ["..", "index.js"];
    assert p[5..] == ["index.js"];
  }

  /** `'/foo/../../../index.js'` climbs past the filesystem root and lands on
      `/index.js`, outside the workspace. */
  lemma AbsoluteEntryEscapes()
    ensures Resolve(WORKSPACE, "/foo/../../../index.js") == ["index.js"]
    ensures !IsWithin(WORKSPACE, Resolve(WORKSPACE, "/foo/../../../index.js"))
  {
    AbsoluteEntryPieces();
    AbsoluteEntryNormalizes();
    ResolvePieces(WORKSPACE, "/foo/../../../index.js", ["", "foo", "..", "..", "..", "index.js"]);
  }

  /** How `'../../../index.js'` splits at its slashes. */
  lemma RelativeEntryPieces()
    ensures Join(["..", "..", "..", "index.js"]) == "../../../index.js"
  {
    JoinCons("..", ["index.js"]);
    assert ".." + "/" + "index.js" == "../index.js";
    JoinCons("..", ["..", "index.js"]);
    assert ".." + "/" + "../index.js" == "../../index.js";
    JoinCons("..", ["..", "..", "index.js"]);
    assert ".." + "/" + "../../index.js" == "../../../index.js";
  }

  lemma RelativeEntryNormalizes()
    ensures Normalize(WORKSPACE, ["..", "..", "..", "index.js"]) == ["index.js"]
  {
    var p := ["..", "..", "..", "index.js"];
    assert p[1..] == ["..", "..", "index.js"];
    assert p[2..] == ["..", "index.js"];
    assert p[3..] == ["index.js"];
  }

  /** `'../../../index.js'` climbs above the two-level workspace and lands on `/index.js`. */
  lemma RelativeEntryEscapes()
    ensures Resolve(WORKSPACE, "../../../index.js") == ["index.js"]
    ensures !IsWithin(WORKSPACE, Resolve(WORKSPACE, "../../../index.js"))
  {
    RelativeEntryPieces();
    RelativeEntryNormalizes();
    ResolvePieces(WORKSPACE, "../../../index.js", ["..", "..", "..", "index.js"]);
  }

  /** A `files` value that is not an array is refused, whatever it is, and
      nothing is removed. */
  method NotAnArrayScenario() returns (outcomes: seq<Outcome>, after: Tree)
    ensures outcomes == [Failed(InvalidInput), Failed(InvalidInput), Failed(InvalidInput), Failed(InvalidInput)]
    ensures after == Fixture()
  {
    FixtureWellFormed();
    FixturePathsNormal();
    var w := new Workspace(WORKSPACE, Fixture());
    var undefined := w.Handle(Undefined);
    var empty := w.Handle(Obj);
    var str := w.Handle(Str(""));
    var nullValue := w.Handle(Null);
    outcomes := [undefined, empty, str, nullValue];
    after := w.entries;
  }

  /** Entries that resolve outside the workspace are refused, and nothing is removed. */
  method TraversalScenario() returns (outcomes: seq<Outcome>, after: Tree)
    ensures outcomes == [Failed(PathTraversal), Failed(PathTraversal)]
    ensures after == Fixture()
  {
    FixtureWellFormed();
    FixturePathsNormal();
    var w := new Workspace(WORKSPACE, Fixture());
    AbsoluteEntryEscapes();
    RelativeEntryEscapes();
    var absolute := w.Handle(Arr(["/foo/../../../index.js"]));
    var relative := w.Handle(Arr(["../../../index.js"]));
    outcomes := [absolute, relative];
    after := w.entries;
  }

  /** The call of the test validates to the two listed files. */
  lemma ListedFilesValidate()
    ensures Validate(WORKSPACE, Arr(["unit-test-a.js", "unit-test-b.js"])) == Ok([FILE_A, FILE_B])
  {
    ListedFilesResolve();
    var r := Validate(WORKSPACE, Arr(["unit-test-a.js", "unit-test-b.js"]));
    assert r.Ok?;
    assert r.value == [FILE_A, FILE_B];
  }

  /** Removing the two listed files from the fixture leaves the folder and its file. */
  lemma FixtureAfterDelete()
    ensures RemoveAll(Fixture(), [FILE_A, FILE_B]) == Fixture() - {FILE_A, FILE_B}
  {
    FixtureWellFormed();
    var targets := [FILE_A, FILE_B];
    assert FILE_A[2] != FOLDER[2] && FILE_B[2] != FOLDER[2] && |FOLDER_FILE| == 4;
    assert Fixture()[FILE_A] == File("hello") && Fixture()[FILE_B] == File("world");
    RemoveAllFiles(Fixture(), targets);
    assert (set j | 0 <= j < |targets| :: targets[j]) == {FILE_A, FILE_B};
  }

  /** Both listed files exist before the call and are gone after it; the
      folder and the file in it are left alone. */
  method DeleteScenario() returns (before: seq<bool>, outcome: Outcome, after: seq<bool>, rest: Tree)
    ensures before == [true, true]
    ensures outcome == Done
    ensures after == [false, false]
    ensures rest == Fixture() - {FILE_A, FILE_B}
  {
    FixtureWellFormed();
    FixturePathsNormal();
    var w := new Workspace(WORKSPACE, Fixture());
    ListedFilesResolve();
    before := [Exists(w.entries, Resolve(WORKSPACE, "unit-test-a.js")), Exists(w.entries, Resolve(WORKSPACE, "unit-test-b.js"))];
    ListedFilesValidate();
    outcome := w.Handle(Arr(["unit-test-a.js", "unit-test-b.js"]));
    FixtureAfterDelete();
    after := [Exists(w.entries, Resolve(WORKSPACE, "unit-test-a.js")), Exists(w.entries, Resolve(WORKSPACE, "unit-test-b.js"))];
    rest := w.entries;
  }

  /** With every entry checked before any removal, one bad entry among good
      ones refuses the whole call and the good file stays. */
  method MixedScenario() returns (outcome: Outcome, kept: bool)
    ensures outcome == Failed(PathTraversal)
    ensures kept
  {
    FixtureWellFormed();
    FixturePathsNormal();
    var w := new Workspace(WORKSPACE, Fixture());
    ListedFilesResolve();
    RelativeEntryEscapes();
    outcome := w.Handle(Arr(["unit-test-a.js", "../../../index.js"]));
    kept := Exists(w.entries, Resolve(WORKSPACE, "unit-test-a.js"));
  }
}
