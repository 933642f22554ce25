/** The scaffolder action `fs:delete`: the handler takes a list of paths,
    resolves each against the workspace directory, refuses any that leaves the
    workspace, and removes the rest from the filesystem. */
module DeleteAction {
  import opened Paths
  import opened Filesystem

  /** The `files` input as it arrives: a dynamically typed value. */
  datatype Input = Undefined | Null | Str(s: string) | Obj | Arr(items: seq<string>)

  datatype Error =
    | InvalidInput   // "files must be an Array"
    | PathTraversal  // "Relative path is not allowed to refer to a directory outside its parent"

  datatype Result<T> = Ok(value: T) | Err(error: Error)

  datatype Outcome = Done | Failed(error: Error)

  /** Resolves every entry against the workspace, failing on the first one
      whose location is not the workspace or inside it. */
  function ResolveEntries(workspace: Path, files: seq<string>): (r: Result<seq<Path>>)
    ensures r.Err? <==> exists i :: 0 <= i < |files| && !IsWithin(workspace, Resolve(workspace, files[i]))
    ensures r.Err? ==> r.error == PathTraversal
    ensures r.Ok? ==> |r.value| == |files|
    ensures r.Ok? ==> forall i :: 0 <= i < |files| ==> r.value[i] == Resolve(workspace, files[i])
    ensures r.Ok? ==> forall i :: 0 <= i < |files| ==> IsWithin(workspace, r.value[i])
    decreases |files|
  {
    if files == [] then Ok([])
    else
      var target := Resolve(workspace, files[0]);
      if !IsWithin(workspace, target) then Err(PathTraversal)
      else match ResolveEntries(workspace, files[1..])
        case Err(e) =>
          assert forall i :: 0 <= i < |files| - 1 ==> files[1..][i] == files[i + 1];
          Err(e)
        case Ok(rest) =>
          assert forall i :: 0 < i < |files| ==> files[i] == files[1..][i - 1];
          Ok([target] + rest)
  }

  /** One escaping entry is enough to fail the check. */
  lemma EntriesEscape(workspace: Path, files: seq<string>, i: nat)
    requires i < |files| && !IsWithin(workspace, Resolve(workspace, files[i]))
    ensures ResolveEntries(workspace, files) == Err(PathTraversal)
  {
  }

  /** When every entry stays inside, the check yields exactly their resolved locations. */
  lemma EntriesWithin(workspace: Path, files: seq<string>, targets: seq<Path>)
    requires |targets| == |files|
    requires forall j :: 0 <= j < |files| ==> targets[j] == Resolve(workspace, files[j])
    requires forall j :: 0 <= j < |files| ==> IsWithin(workspace, targets[j])
    ensures ResolveEntries(workspace, files) == Ok(targets)
  {
    var r := ResolveEntries(workspace, files);
    assert r.Ok?;
    assert r.value == targets;
  }

  /** The whole check the handler makes before touching the filesystem: the
      input must be an array, and every entry must stay inside the workspace. */
  function Validate(workspace: Path, input: Input): (r: Result<seq<Path>>)
    ensures r == Err(InvalidInput) <==> !input.Arr?
    ensures input.Arr? ==> r == ResolveEntries(workspace, input.items)
  {
    match input
    case Arr(files) => ResolveEntries(workspace, files)
    case _ => Err(InvalidInput)
  }

  /** Containment admits the workspace itself: `.` and the empty string both
      name the whole workspace, and pass the check. */
  lemma WorkspaceItselfAccepted(workspace: Path)
    ensures Validate(workspace, Arr(["."])) == Ok([workspace])
    ensures Validate(workspace, Arr([""])) == Ok([workspace])
  {
    assert !IsAbsolute(".") && !IsAbsolute("");
    assert ["."][1..] == [] && [""][1..] == [];
    assert Resolve(workspace, ".") == Normalize(workspace, ["."]) == workspace;
    assert Resolve(workspace, "") == Normalize(workspace, [""]) == workspace;
    assert IsWithin(workspace, workspace);
    var dot := Validate(workspace, Arr(["."]));
    assert dot.Ok? && |dot.value| == 1 && dot.value[0] == workspace;
    assert dot.value == [workspace];
    var empty := Validate(workspace, Arr([""]));
    assert empty.Ok? && |empty.value| == 1 && empty.value[0] == workspace;
    assert empty.value == [workspace];
  }

  /** The outcome the handler reports for a given input. */
  function Expected(workspace: Path, input: Input): Outcome {
    match Validate(workspace, input)
    case Ok(_) => Done
    case Err(e) => Failed(e)
  }

  /** After a successful call, no entry's location exists any longer (unless
      it is the filesystem root, which always exists). */
  lemma HandledTargetsGone(fs: Tree, workspace: Path, input: Input, i: nat)
    requires Validate(workspace, input).Ok?
    requires i < |input.items| && Resolve(workspace, input.items[i]) != []
    ensures !Exists(RemoveAll(fs, Validate(workspace, input).value), Resolve(workspace, input.items[i]))
  {
  }

  /** A successful call touches nothing outside the workspace, and nothing
      inside it that is not at or below a listed entry. */
  lemma HandledLeavesRest(fs: Tree, workspace: Path, input: Input, k: Path)
    requires Validate(workspace, input).Ok?
    requires k in fs
    requires !IsWithin(workspace, k) || forall i :: 0 <= i < |input.items| ==> !IsWithin(Resolve(workspace, input.items[i]), k)
    ensures var after := RemoveAll(fs, Validate(workspace, input).value);
            k in after && after[k] == fs[k]
  {
  }

  /** The filesystem the handler runs against, with the workspace directory of
      the running task. */
  class Workspace {
    const path: Path
    var entries: Tree

    ghost predicate Valid()
      reads this
    {
      IsNormal(path) && WellFormed(entries)
    }

    constructor (path: Path, entries: Tree)
      requires IsNormal(path) && WellFormed(entries)
      ensures Valid()
      ensures this.path == path && this.entries == entries
    {
      this.path := path;
      this.entries := entries;
    }

    /** The per-entry check: resolves the entries in order and stops at the
        first one that leaves the workspace. Changes nothing. */
    method CheckEntries(files: seq<string>) returns (r: Result<seq<Path>>)
      ensures r == ResolveEntries(path, files)
    {
      var targets: seq<Path> := [];
      var i := 0;
      while i < |files|
        invariant 0 <= i <= |files|
        invariant |targets| == i
        invariant forall j :: 0 <= j < i ==> targets[j] == Resolve(path, files[j])
        invariant forall j :: 0 <= j < i ==> IsWithin(path, targets[j])
      {
        var target := Resolve(path, files[i]);
        if !IsWithin(path, target) {
          EntriesEscape(path, files, i);
          return Err(PathTraversal);
        }
        targets := targets + [target];
        i := i + 1;
      }
      EntriesWithin(path, files, targets);
      r := Ok(targets);
    }

    /** Removes the targets from the filesystem one after the other. */
    method RemoveTargets(targets: seq<Path>)
      requires Valid()
      modifies this
      ensures Valid()
      ensures entries == RemoveAll(old(entries), targets)
    {
      var n := 0;
      while n < |targets|
        invariant 0 <= n <= |targets|
        invariant Valid()
        invariant entries == RemoveAll(old(entries), targets[..n])
      {
        assert targets[..n + 1][..n] == targets[..n];
        entries := Remove(entries, targets[n]);
        n := n + 1;
      }
      assert targets[..n] == targets;
    }

    /** The handler. The shape of the input and every entry are checked first;
        only when all of them pass are the targets removed, in order. */
    method Handle(input: Input) returns (r: Outcome)
      requires Valid()
      modifies this
      ensures Valid()
      ensures r == Expected(path, input)
      ensures r.Failed? ==> entries == old(entries)
      ensures r.Done? ==> entries == RemoveAll(old(entries), Validate(path, input).value)
    {
      if !input.Arr? {
        return Failed(InvalidInput);
      }
      var checked := CheckEntries(input.items);
      if checked.Err? {
        return Failed(checked.error);
      }
      RemoveTargets(checked.value);
      r := Done;
    }
  }
}
