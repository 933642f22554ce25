# fs:delete — a verified model of the Backstage scaffolder delete action

Backstage's scaffolder runs template steps called actions. The built-in action
`fs:delete` takes an input `files` and a task workspace directory. It removes
each listed file from the filesystem, and it refuses any entry that would reach
outside the workspace.

The model has four modules:

- `Paths` (`paths.dfy`): POSIX path resolution in the way Node's
  `path.resolve(workspacePath, file)` does it. A path is a sequence of
  segments below `/`. An absolute entry restarts at the root. Empty
  pieces and `.` are skipped. `..` drops the last segment and does nothing at the
  root. Containment (`IsWithin`) means the workspace is a segment-prefix of the
  resolved target.
- `Filesystem` (`filesystem.dfy`): the filesystem as a map from absolute path
  to `File(content)` or `Directory`. The root is implicit, and every proper
  ancestor of an entry is a directory. `Remove` behaves like fs-extra's
  `remove`: it drops the target and everything below it, and an absent target
  is a no-op. `Exists` is `fs.existsSync`.
- `DeleteAction` (`delete_action.dfy`): the dynamically typed `files` input
  (`Undefined | Null | Str | Obj | Arr`), the two error kinds (`InvalidInput`
  for "files must be an Array", `PathTraversal` for "Relative path is not
  allowed to refer to a directory outside its parent"), the pure validation
  `Validate`/`ResolveEntries`, and the class `Workspace`. That class holds the
  mutable filesystem map, and its `Handle` method is the action's handler,
  written with loops.
- `DeleteActionTests` (`delete_action_tests.dfy`): the mock-fs fixture and the
  test file's scenarios, as verified clients of `Handle`.

The implementation file `delete.ts` is not part of this model. Path
resolution and the existence check come from its test, `delete.test.ts`, and
from the semantics of the library calls that the test uses (`path.resolve`,
`fs.existsSync`). Removal does not: the test only watches files disappear, and
the one removal call it names, `fs.rm` in a test title, would throw on an
absent path or a directory under its default options. The model's removal
follows fs-extra's `remove` instead. Three points are modelling choices that
the test does not fix:

- `Handle` validates every entry before it removes any. So one escaping entry
  among good ones removes nothing (`MixedScenario`).
- Removing a directory removes everything under it. No test deletes `a-folder`.
- Removing a path that does not exist does nothing. No test removes an absent
  path.

## Model

| member | source | states |
|---|---|---|
| `Paths.Resolve` | plugins/scaffolder-backend/src/scaffolder/actions/builtin/filesystem/delete.test.ts:114 | the location an entry names is a normalised path (only proper segments) whenever the base is normalised or the entry is absolute, so `..` never climbs above `/` |
| `Paths.ResolveName` | plugins/scaffolder-backend/src/scaffolder/actions/builtin/filesystem/delete.test.ts:26 | a plain name resolves to the child of that name: `resolvePath(base, name)` is `base + [name]` |
| `Paths.ResolveAbsolute` | plugins/scaffolder-backend/src/scaffolder/actions/builtin/filesystem/delete.test.ts:94 | an absolute entry resolves the same way whatever the workspace is |
| `Paths.ResolveRelativeStaysWithin` | plugins/scaffolder-backend/src/scaffolder/actions/builtin/filesystem/delete.test.ts:100-107 | a relative entry with no `..` piece always resolves inside its base, so only `..` or a leading `/` can escape |
| `Paths.NormalizeStaysWithin` | plugins/scaffolder-backend/src/scaffolder/actions/builtin/filesystem/delete.test.ts:114 | normalising pieces that contain no `..` never leaves the starting directory |
| `Paths.ResolveFormat` | plugins/scaffolder-backend/src/scaffolder/actions/builtin/filesystem/delete.test.ts:114 | round trip: resolving the printed form `/a/b` of a normalised path gives the path back |
| `Paths.ResolveIdempotent` | plugins/scaffolder-backend/src/scaffolder/actions/builtin/filesystem/delete.test.ts:122 | resolving an already resolved path again changes nothing |
| `Paths.WithinIff` | plugins/scaffolder-backend/src/scaffolder/actions/builtin/filesystem/delete.test.ts:97 | "the workspace or inside it" holds exactly when the target is the workspace followed by further segments (both directions) |
| `Paths.JoinSplit` | plugins/scaffolder-backend/src/scaffolder/actions/builtin/filesystem/delete.test.ts:114 | splitting an entry at its slashes loses nothing: joining the pieces gives the entry back |
| `Paths.SplitJoin` | plugins/scaffolder-backend/src/scaffolder/actions/builtin/filesystem/delete.test.ts:114 | the other direction: pieces free of `/` that are joined then split come back unchanged |
| `Filesystem.AddEntry` | plugins/scaffolder-backend/src/scaffolder/actions/builtin/filesystem/delete.test.ts:45-53 | creating an entry inside an existing directory, as mock-fs does, keeps the tree well formed |
| `Filesystem.Remove` | plugins/scaffolder-backend/src/scaffolder/actions/builtin/filesystem/delete.test.ts:119-125 | removal drops the target and everything under it and nothing else, keeps every other entry's content, leaves the target non-existent and keeps the tree well formed |
| `Filesystem.ExistsAncestors` | plugins/scaffolder-backend/src/scaffolder/actions/builtin/filesystem/delete.test.ts:115-123 | about `Exists`, the model of `fs.existsSync` (the root always exists): in a well-formed tree a path that exists has every ancestor existing as a directory, and nothing below an absent path exists |
| `Filesystem.RemoveAbsent` | plugins/scaffolder-backend/src/scaffolder/actions/builtin/filesystem/delete.test.ts:119 | modelling choice (fs-extra `remove`): removing a path that does not exist leaves the filesystem unchanged |
| `Filesystem.RemoveIdempotent` | plugins/scaffolder-backend/src/scaffolder/actions/builtin/filesystem/delete.test.ts:119 | modelling choice (fs-extra `remove`): removing the same path twice is the same as removing it once, for every tree and path |
| `Filesystem.RemoveAll` | plugins/scaffolder-backend/src/scaffolder/actions/builtin/filesystem/delete.test.ts:119-125 | after removing a list of targets, an entry survives exactly when it is under none of them, with its content unchanged, and the tree stays well formed |
| `Filesystem.RemoveAllGone` | plugins/scaffolder-backend/src/scaffolder/actions/builtin/filesystem/delete.test.ts:121-125 | no removed target (other than the root) exists afterwards |
| `Filesystem.RemoveAllFiles` | plugins/scaffolder-backend/src/scaffolder/actions/builtin/filesystem/delete.test.ts:119-125 | when every target is a file, exactly those entries disappear |
| `DeleteAction.ResolveEntries` | plugins/scaffolder-backend/src/scaffolder/actions/builtin/filesystem/delete.test.ts:90-107 | fails with `PathTraversal` exactly when some entry resolves outside the workspace (both directions); otherwise it yields each entry's `resolvePath(workspacePath, file)` in order, each inside the workspace |
| `DeleteAction.EntriesEscape` | plugins/scaffolder-backend/src/scaffolder/actions/builtin/filesystem/delete.test.ts:90-107 | one entry that resolves outside the workspace is enough to fail the whole list with `PathTraversal` |
| `DeleteAction.EntriesWithin` | plugins/scaffolder-backend/src/scaffolder/actions/builtin/filesystem/delete.test.ts:110-119 | when every entry resolves inside the workspace, the check yields exactly those resolved locations, in order |
| `DeleteAction.Validate` | plugins/scaffolder-backend/src/scaffolder/actions/builtin/filesystem/delete.test.ts:60-107 | the result is `InvalidInput` exactly when `files` is not an array (undefined, null, an object, a string); an array goes on to the per-entry check |
| `DeleteAction.WorkspaceItselfAccepted` | plugins/scaffolder-backend/src/scaffolder/actions/builtin/filesystem/delete.test.ts:114 | `.` and `''` resolve to the workspace itself, which the containment check admits |
| `DeleteAction.HandledTargetsGone` | plugins/scaffolder-backend/src/scaffolder/actions/builtin/filesystem/delete.test.ts:121-125 | after a successful call, no listed entry's resolved location exists |
| `DeleteAction.HandledLeavesRest` | plugins/scaffolder-backend/src/scaffolder/actions/builtin/filesystem/delete.test.ts:110-126 | a successful call leaves every entry outside the workspace, and every entry not at or under a listed one, as it was |
| `DeleteAction.Workspace.CheckEntries` | plugins/scaffolder-backend/src/scaffolder/actions/builtin/filesystem/delete.test.ts:90-107 | the loop over the entries returns what `ResolveEntries` specifies: the first escaping entry fails the call, otherwise all resolved targets |
| `DeleteAction.Workspace.RemoveTargets` | plugins/scaffolder-backend/src/scaffolder/actions/builtin/filesystem/delete.test.ts:119 | the removal loop leaves the filesystem as `RemoveAll` of the old one and keeps it well formed |
| `DeleteAction.Workspace.Handle` | plugins/scaffolder-backend/src/scaffolder/actions/builtin/filesystem/delete.test.ts:60-126 | the handler's outcome is the validation's verdict; on failure the filesystem is unchanged, and on success it is the old one with every listed target removed |
| `DeleteActionTests.WorkspaceLocation` | plugins/scaffolder-backend/src/scaffolder/actions/builtin/filesystem/delete.test.ts:25-26 | the root is `/rootDir`, and `resolvePath(root, 'my-workspace')` is `/rootDir/my-workspace` |
| `DeleteActionTests.ListedFilesResolve` | plugins/scaffolder-backend/src/scaffolder/actions/builtin/filesystem/delete.test.ts:111-114 | `unit-test-a.js` and `unit-test-b.js` resolve to children of the workspace |
| `DeleteActionTests.FixtureWellFormed` | plugins/scaffolder-backend/src/scaffolder/actions/builtin/filesystem/delete.test.ts:45-53 | the mock-fs fixture is a well-formed tree |
| `DeleteActionTests.ListedFilesExist` | plugins/scaffolder-backend/src/scaffolder/actions/builtin/filesystem/delete.test.ts:113-117 | both listed files exist in the fixture before the handler runs |
| `DeleteActionTests.AbsoluteEntryEscapes` | plugins/scaffolder-backend/src/scaffolder/actions/builtin/filesystem/delete.test.ts:90-99 | `'/foo/../../../index.js'` climbs past the root to `/index.js`, outside the workspace |
| `DeleteActionTests.RelativeEntryEscapes` | plugins/scaffolder-backend/src/scaffolder/actions/builtin/filesystem/delete.test.ts:100-107 | `'../../../index.js'` climbs above the workspace to `/index.js` |
| `DeleteActionTests.ListedFilesValidate` | plugins/scaffolder-backend/src/scaffolder/actions/builtin/filesystem/delete.test.ts:111-119 | the test's input validates to the two resolved file paths |
| `DeleteActionTests.FixtureAfterDelete` | plugins/scaffolder-backend/src/scaffolder/actions/builtin/filesystem/delete.test.ts:119-125 | removing both files from the configured fixture leaves exactly the folder, its file and the two directories above |
| `DeleteActionTests.NotAnArrayScenario` | plugins/scaffolder-backend/src/scaffolder/actions/builtin/filesystem/delete.test.ts:60-88 | `undefined`, `{}`, `''` and `null` all fail with `InvalidInput`, and the filesystem is left as the fixture |
| `DeleteActionTests.TraversalScenario` | plugins/scaffolder-backend/src/scaffolder/actions/builtin/filesystem/delete.test.ts:90-108 | both escaping entries fail with `PathTraversal`, and the filesystem is left as the fixture |
| `DeleteActionTests.DeleteScenario` | plugins/scaffolder-backend/src/scaffolder/actions/builtin/filesystem/delete.test.ts:110-126 | both files exist before the call, the call succeeds, neither exists after it, and only those two entries are gone |
| `DeleteActionTests.MixedScenario` | plugins/scaffolder-backend/src/scaffolder/actions/builtin/filesystem/delete.test.ts:100-119 | modelling choice (validate everything first): one escaping entry after a good one fails the call, and the good file is still there |

## Left out

- `delete.ts` is not part of this model. The handler is modelled from its test. Whether the real handler removes earlier entries before it reaches an escaping one is not fixed by the test. The model checks every entry first.
- Recursive removal of directories follows fs-extra's `remove` semantics and the action's design, not the test. No test deletes a directory, and `fs.rm`, which the test's title names, refuses a directory under its default options.
- `Filesystem.RemoveAbsent`, `Filesystem.RemoveIdempotent`: the no-op on an absent target follows fs-extra's `remove` and the action's design, not the test, whose title names `fs.rm`. With default options `fs.rm` throws on an absent path. No test removes an absent path.
- The win32 root `C:\rootDir` and backslash separators: only POSIX `/`-separated paths are modelled.
- The workspace path is taken already resolved (as a segment sequence), as the test builds it with `resolvePath`. A relative `workspacePath`, resolved against the process's current directory, is not modelled.
- Array elements that are not strings: `Arr` holds strings only. For any other element, `path.resolve` would throw a type error.
- Filesystem errors during removal (permission denied and the like): removal in the model always succeeds.
- Symbolic links and realpath resolution: containment is decided on resolved path text, and no link is followed.
- The context fields `logger`, `logStream`, `output` and `createTemporaryDirectory`, the promise and rejection mechanics, mock-fs and real I/O. `Fixture()` is the configured mock tree only; the directories mock-fs creates by default for the current and the temporary directory are not modelled. Errors are result values and the filesystem is a map.
- The exact error message strings. Only the two error kinds are distinguished.
