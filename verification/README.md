# Terminal game: virtual file system, systems, internet and terminal

A Dafny model of the in-memory core of a terminal game. The game has these parts:

- A virtual internet holds operating systems.
- Each system has an owner, a password and a tree of storage units: Files, Directories and one root directory.
- A terminal on a system answers the commands `mv`, `cp` and `tree` with an (exit code, stdout, stderr) record.

**How the model represents the game.** The storage tree is an arena: a map from unit ids to records. Each record holds a unit's name, its parent's id, and either a File's data or a Directory's ordered child ids.

- Every operation is a pure function that returns either a new arena or an error.
- The error is one variant per exception class the game raises.
- The storage-unit invariants are gathered in `Arena.Wf`:
  - the root has the empty name and no parent;
  - every listed child points back at its directory;
  - every parent is a directory;
  - sibling names are distinct;
  - every parent chain reaches the root.
- These operations have a lemma proving they keep `Arena.Wf`:
  - renaming, and giving a File new data;
  - constructing a unit, `delete`, and `add` of a detached unit;
  - `set_parent` of a unit no directory lists;
  - emptying a Directory with `set_contents`;
  - `make_dir`/`make_file`, the `system/system.dat` repair, and `mv`, `cp` and `run_command`.

  A Directory `set_contents` with elements, and `set_parent` of a listed unit, can break the invariants; the lemmas `Directory.DirContentsBreaksLinks` and `Directory.SetParentOfListedBreaksLinks` show how.

**Modules**, following the program's files:

| module | file | models |
|---|---|---|
| `Common` | | Results and the error kinds. |
| `Names` | `storage_unit.py`, `file.py` | The name rule, and a file name's filename/extension split. |
| `Arena`, `Ancestors` | | The tree, its invariants, ancestry, and `is_sub_su` ("lies strictly below"). |
| `StorageUnit` | `storage_unit.py`, `file.py`, `root_dir.py` | Setting name, parent and contents; construction; paths. |
| `Directory` | `directory.py` | Lookup by name, `delete`, `add`. |
| `Parser` | `utils/parser.py` | Building a tree from a nested `{name, contents}` description. |
| `System` | `system.py` | Credentials, `make_dir`/`make_file`, the `system/system.dat` repair, the terminal check. |
| `Internet` | `internet.py` | The list of systems and lookup by address. |
| `Paths`, `Terminal` | `terminal.py` | Path splitting, command dispatch, the `mv` and `cp` decision procedures. |

**Where the model follows the evident intent rather than the code:**

- **Constructors.** The constructors disagree with their callers about their arguments, so the model reads a unit as (id, name, contents, parent). Ids and addresses are parameters supplied by the caller.
- **Lookup.** `get_element_by_name` cannot run as written (see Findings). The rest of the model uses its evident meaning: the first child with the name, else `NotFound`.
- **Path resolution.** `parse_path` has no body, so `mv` and `cp` take a resolver as a parameter. Given a path, the directory it is relative to, and whether the parent directory is wanted, the resolver returns a unit or a message.
- **Renaming in `mv`.** `File.set_name` checks the name as given but stores it without a trailing dot (see Findings). `mv` uses the corrected rule, which checks the stored name. The as-written `mv` is kept beside it as `Terminal.MvRenameAsWritten`. Construction keeps the as-written check, because there `add` checks the stored name again.
- **Terminal construction.** `get_terminal` instantiates the stored class without arguments. The model opens a terminal on the system, positioned at the root.

## Model

| member | source | states |
|---|---|---|
| Names.CheckName | terminal_game/storage_unit.py:84-98 | A name is accepted exactly when no sibling holds it, it has 1 to 50 characters, and it holds none of `< > : " / \ \| ? *`. When refused, the reason is the first failing rule in the source's order: taken, empty, too long, bad characters. |
| Names.CleanChars | terminal_game/storage_unit.py:96-98 | The letter-by-letter scan accepts a name exactly when none of its characters is forbidden. |
| Names.SplitWithoutDot | terminal_game/file.py:35-37 | A name without `.` is all filename and has no extension. |
| Names.SplitWithDot | terminal_game/file.py:35-37 | A name with a `.` splits at its last dot. The extension holds no dot, and filename + `.` + extension gives the name back. |
| Names.NormalizeKeepsName | terminal_game/file.py:35-43 | Round trip: a file given a name that does not end in `.` reports that same name back. |
| Names.NormalizeDropsTrailingDot | terminal_game/file.py:35-43 | A name ending in `.` is reported without its trailing dot, because the empty extension is dropped. |
| Names.SplitJoin | terminal_game/file.py:35-43 | Inverse direction: joining a filename with a non-empty, dot-free extension and splitting again gives back both parts. |
| Ancestors.SubSuStep | terminal_game/terminal.py:86-88 | A unit lies strictly below `a` exactly when its parent is `a` or lies strictly below `a`. |
| Ancestors.NotBelowItself | terminal_game/terminal.py:86-88 | No unit lies strictly below itself. The `mv` guard therefore needs its separate "equal" test. |
| Ancestors.Relink | terminal_game/directory.py:35-36 | Giving a unit a parent directory that is neither the unit nor below it keeps every parent chain finite: the tree stays free of cycles. |
| StorageUnit.SetNameAsWritten | terminal_game/file.py:31-37 | `set_name` as written, as construction uses it. The name rule is checked on the raw name, and a refusal carries that rule's reason. A File then stores the split-and-rejoined name. The root accepts only the empty name. A unit whose parent is missing or not a Directory fails as detached; a unit its parent does not list is still checked against that parent's children. |
| StorageUnit.SetName | terminal_game/storage_unit.py:38-42 | Names are validated before assignment. A refusal carries the name rule's reason and changes nothing. On success, only the unit's name changes, and the stored name is well formed and unused among its siblings. The root accepts only the empty name and otherwise raises the root error. |
| StorageUnit.RenameToSameNameFails | terminal_game/storage_unit.py:90-91 | Under the corrected rule, renaming a listed unit to its current name is refused as taken, because the unit counts among its parent's children. |
| StorageUnit.AsWrittenRenameToSameNameFails | terminal_game/storage_unit.py:90-91 | Under the rule as the source applies it, renaming any listed unit to the name it reports is refused as taken, a File whose name ends in "." included. |
| StorageUnit.RenameDottedToSelf | terminal_game/file.py:31-37 | A File reporting "a." (constructed as "a..") may be renamed to "a." under the corrected rule, and then stores "a". The rule as written refuses that rename as taken. |
| StorageUnit.SetNameKeepsWf | terminal_game/storage_unit.py:38-42 | A successful rename keeps every storage-unit invariant. |
| StorageUnit.SetParent | terminal_game/storage_unit.py:52-56 | A non-root unit accepts exactly a Directory as its parent, and otherwise fails with an invalid-parent error. The root refuses any parent with the root error. A refusal changes nothing, and success changes only that unit's parent. |
| StorageUnit.ElementError | terminal_game/directory.py:56-68 | A directory's new contents are accepted exactly when every element is a storage unit whose name no current child holds. Otherwise the refusal is the element error. |
| StorageUnit.SetContents | terminal_game/storage_unit.py:45-49 | A File accepts exactly text or bytes and stores them verbatim; a list or anything else is refused as invalid contents. A Directory, the root included, accepts only a list of acceptable elements and stores them in order. A refusal changes nothing, and the unit's name and parent never change. |
| StorageUnit.FileContentsKeepsWf | terminal_game/storage_unit.py:45-49 | Giving a File new data keeps every storage-unit invariant. |
| StorageUnit.Placed | terminal_game/storage_unit.py:34 | Construction first sets the parent, which succeeds exactly when the parent is a Directory. The new unit then sees that directory's children as its siblings. |
| StorageUnit.NewUnit | terminal_game/storage_unit.py:22-36 | Construction runs three checks in the order parent, name, contents. It succeeds exactly when the parent is a Directory, the name as given passes the name rule against the parent's children, and the contents fit the kind. A Directory's contents fit only as an empty list: a new Directory has no contents yet when its first elements are validated, so a unit element fails with the unset-attribute error and a non-unit with the element error. Each failure carries its own error. On success there is exactly one new unit, with that parent, a File's name split and rejoined, and the given text or bytes. No existing unit changes. |
| StorageUnit.NewUnitKeepsWf | terminal_game/storage_unit.py:22-36 | A newly constructed unit keeps every invariant. No directory lists it yet. |
| StorageUnit.RootPath | terminal_game/root_dir.py:20-23 | The root's path is the empty text. |
| StorageUnit.PathExtendsParent | terminal_game/storage_unit.py:79-82 | A unit's path is its parent's path, then `/`, then its own name. |
| StorageUnit.PathIsJoinedNames | terminal_game/storage_unit.py:82 | A non-root unit's path is `/` followed by the names from just below the root down to the unit, joined by `/`. |
| StorageUnit.AsWrittenRenameDuplicates | terminal_game/file.py:34-37 | In a well-formed root holding files "a" and "b", the as-written `set_name` accepts renaming "b" to "a.", and the resulting tree has two children named "a". The corrected rule refuses that rename as taken. |
| Directory.Find | terminal_game/directory.py:46-49 | The lookup succeeds exactly when the directory has a child with the name. It returns the child at the first position carrying that name. It fails with not-found in a directory and not-a-directory on a File. |
| Directory.FindAsWritten | terminal_game/directory.py:49 | The lookup as written raises TypeError on every call on a Directory. Only a Directory has the method. |
| Directory.AsWrittenLookupFails | terminal_game/directory.py:49 | In a root holding "a" and "b", the intended lookup of "a" finds the first file, while the lookup as written fails. |
| Directory.FindUnique | terminal_game/directory.py:46-49 | When sibling names are distinct, looking up any child's name returns that child. |
| Directory.Delete | terminal_game/directory.py:39-43 | `delete` succeeds exactly when a child carries the name. It removes the first such child and keeps the other children in their original order. Only that directory's child list changes. |
| Directory.DeleteKeepsWf | terminal_game/directory.py:39-43 | Deleting a child keeps every storage-unit invariant. The removed unit stays in the arena, detached. |
| Directory.Add | terminal_game/directory.py:31-36 | `add` succeeds exactly when the target is a Directory and the unit exists, is not the root, and has a name no child holds. The error distinguishes "not a unit" from "name taken". On success the unit is the last child, the earlier children keep their order, and the unit's parent is the directory. A refusal changes nothing. |
| Directory.AddKeepsWf | terminal_game/directory.py:31-36 | Adding a detached unit under a directory that is neither the unit nor below it keeps every invariant. |
| Directory.SetParentKeepsWf | terminal_game/storage_unit.py:52-56 | `set_parent` of a non-root unit that no directory lists, to a Directory that is neither the unit nor below it, succeeds and keeps every invariant. This is the last step of `add`. |
| Directory.SetParentOfListedBreaksLinks | terminal_game/storage_unit.py:52-56 | `set_parent` does not take a unit out of its old parent's list. Re-parenting a listed File to the root leaves its old directory listing a unit whose parent is elsewhere. |
| Directory.DirContentsDropsOldChildren | terminal_game/directory.py:56-68 | A successful Directory `set_contents` lists none of the directory's former children, because the element rule refuses every name they carry. |
| Directory.EmptyDirContentsKeepsWf | terminal_game/storage_unit.py:45-49 | Emptying a Directory with `set_contents` succeeds and keeps every invariant. The former children are left detached. |
| Directory.DirContentsBreaksLinks | terminal_game/storage_unit.py:45-49 | A Directory `set_contents` does not re-parent its new elements. Handing the root the File that sits below a subdirectory is accepted, and the result has a listed child whose parent is another directory. |
| Parser.BuildEntry | utils/parser.py:19-33 | An entry with list contents becomes a Directory, and any other entry becomes a File, named by the entry and appended as the last child of its directory. A File takes its contents verbatim and its name split and rejoined. A Directory's children are built, in order, from its own entries, and so on at every depth: each has the right parent, name, kind and File contents. Every unit of the new subtree is fresh, and the tree stays well formed. |
| Parser.BuildList | utils/parser.py:22-27 | A directory's entries become its children, in the description's order, after its existing ones. Each child mirrors its entry down to the deepest level, and every unit created is fresh. Their names are the entries' reported names, and distinct sibling names stay distinct. |
| Parser.ParseRoot | utils/parser.py:6-16 | The built root has the empty name and no parent. Its children mirror the description's entries position by position, with each child's parent being the root. Each nested Directory mirrors its own entries the same way, at every depth. No list of the description, at any depth, repeats a display name, and the tree satisfies every invariant. |
| Parser.EmptyRootFacts | terminal_game/root_dir.py:16-18 | A new root directory has the empty name, no parent and no children, and is well formed. |
| Parser.DuplicateNamesFail | utils/parser.py:9-14 | A description in which two entries of the root would report the same name cannot be built. |
| Parser.NestedDuplicatesFail | utils/parser.py:19-27 | A description in which two entries of one list, at any depth, would report the same name cannot be built. |
| Parser.NestedTwinsFail | utils/parser.py:19-33 | A Directory entry holding Files "a" and "a." cannot be built, since both are stored as "a", even though the root's own entries are distinct. |
| Parser.MirroredNamesDistinct | utils/parser.py:22-27 | In a tree whose siblings have distinct names, the entries mirrored by a directory have distinct display names at every depth. |
| Parser.MirrorsFramed | utils/parser.py:22-27 | A built subtree whose units are all newer than a bound still mirrors its entry after any change that leaves those newer units alone. |
| Parser.DotFileParses | utils/parser.py:31-33 | A File entry named "." passes the name rule as given and is stored under the empty name. |
| System.UsernameError | terminal_game/system.py:138-147 | A username is accepted exactly when it has 3 to 50 characters. Too short is reported before too long. |
| System.PasswordError | terminal_game/system.py:149-158 | A password is accepted exactly when it has 8 to 30 characters. Too short is reported before too long. |
| System.MakeUnit | terminal_game/system.py:91-103 | A construction failure is the result, with the same error. After a successful construction, `add` succeeds exactly when the new unit's stored name is not among the parent's children, and otherwise fails as name-taken. On success the new unit is the last child of its parent. |
| System.MakeDir | terminal_game/system.py:91-96 | `make_dir` succeeds exactly when the parent is a Directory, the name passes the rule, and the element list is empty. The errors are, in order: invalid parent, the name rule's reason, then the unset-attribute or element error for a non-empty list. The new Directory is the parent's last child, has no children, and carries the given name. |
| System.MakeFile | terminal_game/system.py:98-103 | `make_file` succeeds exactly when four things hold: the parent is a Directory, the name as given passes the rule, the contents are text or bytes, and the stored name is not already a child's. So "a." beside "a" passes the rule and is then refused by `add` as name-taken. The new File is the parent's last child and holds the contents verbatim. |
| System.MakeUnitKeepsWf | terminal_game/system.py:91-103 | Making a unit keeps every invariant. |
| System.FindAppended | terminal_game/system.py:117-125 | After a unit is appended, looking up its name in its parent finds it. |
| System.EnsureSystemDir | terminal_game/system.py:117-120 | An existing `system` under the root is reused unchanged. A missing one is created as a new empty Directory appended to the root. Afterwards the lookup of `system` finds the result. |
| System.EnsureSystemData | terminal_game/system.py:122-125 | An existing `system.dat` is reused unchanged. A missing one is created as a new empty text File appended to `system`, and the creation succeeds exactly when `make_file` does. Afterwards the lookup finds the result. |
| System.Repair | terminal_game/system.py:117-127 | After a successful repair, the root holds a `system` directory whose `system.dat` file holds the terminal marker. An existing `system` is kept. A `system` that is a File makes the repair fail. |
| System.StoreTerminal | terminal_game/system.py:122-127 | Storing the marker in the found or created `system.dat` leaves the `system` lookup unchanged and makes the tree pass the terminal check. |
| System.RepairOkIff | terminal_game/system.py:117-127 | On a well-formed tree the repair succeeds exactly when it is possible: `system`, if present, is a Directory, and its `system.dat`, if present, is a File. |
| System.RepairKeepsWf | terminal_game/system.py:117-127 | A successful repair keeps every invariant. |
| System.TerminalCheck | terminal_game/system.py:53-64 | A terminal is handed out exactly when `system/system.dat` exists and holds the terminal marker. Otherwise the error is the corruption error. |
| System.GetTerminal | terminal_game/system.py:50-68 | On success the new terminal starts at the root and is appended to the system's terminals. Nothing else about the system changes. |
| System.NewHost | terminal_game/system.py:30-48 | The username is validated before the password. A failing description fails the construction. Otherwise construction succeeds exactly when the parsed tree can be repaired. A built system is well formed, passes the terminal check, and has exactly one terminal, at the root. |
| Internet.AddOs | terminal_game/internet.py:13-16 | `add_os` succeeds exactly when building the system does, and otherwise carries the same error. On success the new system is appended after the existing ones, which are unchanged. |
| Internet.FirstWithIp | terminal_game/internet.py:18-22 | Reference scan: the first position holding the address, or none exactly when no system has it. |
| Internet.GetOsByIp | terminal_game/internet.py:18-22 | The lookup succeeds exactly when some system has the address. It returns the first such system. Otherwise it fails with the not-found error. |
| Internet.FindOs | terminal_game/internet.py:18-22 | The loop over the systems agrees with the lookup. |
| Internet.AddThenLookup | terminal_game/internet.py:13-21 | After adding a system under an address no other system has, looking that address up returns the new system. |
| Internet.AddKeepsLookups | terminal_game/internet.py:13-21 | Adding a system does not change any lookup for another address. It also does not change a lookup of a repeated address that already succeeded: the earlier system keeps answering. |
| Paths.JoinSplit | terminal_game/terminal.py:65-69 | Round trip: joining with `/` the parts a path splits into gives back the path. |
| Paths.TrimSlashDropsOneSlash | terminal_game/terminal.py:65-69 | A directory is asked for exactly when the destination is empty or ends in `/`. Exactly one trailing `/` is dropped, and any other path is kept as it is. |
| Paths.LastSegmentEndsPath | terminal_game/terminal.py:90 | The new name taken from a path holds no `/`. The path is either that name itself or ends with `/` followed by it. |
| Terminal.RunCommand | terminal_game/terminal.py:44-52 | The first token selects `mv`, `cp` or `tree`, and the chosen handler receives the remaining tokens. `tree` answers exit 0 with the rendered listing. Any other token answers exit 1, stderr "command not found." and changes nothing. |
| Terminal.Mv | terminal_game/terminal.py:57-105 | With fewer than two arguments, `mv` answers the syntax message and changes nothing; a source that does not resolve answers its message. A destination that resolves goes to the move-into procedure. One that does not resolve uses its parent directory, or answers the parent's message when that does not resolve either. |
| Terminal.MvInto | terminal_game/terminal.py:96-105 | Onto a File, `mv` answers "already exists" and changes nothing. A directory moved onto or below itself answers the message in stdout and changes nothing. Otherwise the unit is deleted from its parent and added to the destination. |
| Terminal.MvRename | terminal_game/terminal.py:83-95 | A File with a trailing-slash destination answers "Cannot put a file as a directory." A directory moved onto or below itself is refused. A name refusal under the corrected rule answers its message with the tree unchanged. Otherwise the renamed unit is relocated. |
| Terminal.MvRenameAsWritten | terminal_game/terminal.py:83-95 | The same decision procedure with `set_name` as written. |
| Terminal.AsWrittenMvDetachesOriginal | terminal_game/terminal.py:89-94 | Take a root holding "a" and "b", and run `mv b a.`. As written, "b" is renamed "a", the original "a" is deleted in its place, and the `add` error escapes. Afterwards the root lists only the renamed unit and the original is detached. With the corrected rule the rename is refused as taken and nothing changes. |
| Terminal.AsWrittenMvListsTwice | terminal_game/terminal.py:89-95 | Take a well-formed root holding Files "a" and "b" and an empty Directory "sub", and run `mv b sub/a.`. As written, the command answers success, but the original "a" was deleted in place of "b", and "b" is listed both under the root and in "sub", so the tree is no longer well formed. |
| Terminal.Relocate | terminal_game/terminal.py:103-104 | The move succeeds exactly when the unit's parent deletes it by name and the destination then accepts it. The result is then that deletion followed by that addition. |
| Terminal.RelocateKeepsWf | terminal_game/terminal.py:103-104 | Relocating a unit anywhere except onto or below itself keeps every invariant, even when the `add` refuses after the `delete`. |
| Terminal.MvKeepsWf | terminal_game/terminal.py:57-105 | `mv` keeps every invariant, whatever it answers and whether or not an exception escapes. |
| Terminal.MvIntoAppends | terminal_game/terminal.py:103-105 | A successful move into a directory makes the unit the destination's last child, with its own name. Its parent becomes the destination, and no other directory lists it. |
| Terminal.MvIntoClashDetaches | terminal_game/terminal.py:103-104 | When the destination directory already holds the name, the `add` error escapes after the `delete`, and no directory lists the unit any more. |
| Terminal.ContentsOf | terminal_game/storage_unit.py:69-72 | A File hands over its text or bytes. A Directory hands over the list of its children, in order. |
| Terminal.MakeCopy | terminal_game/terminal.py:137-141 | The copy succeeds exactly when the destination is a Directory and the name passes the rule. In addition, a File copy's stored name must be free, and a Directory source must have no children. A Directory with children fails construction with the unset-attribute error. The copy is a new last child of the destination holding exactly the source's contents. A File copy's name goes through the filename split. |
| Terminal.CpInto | terminal_game/terminal.py:145-153 | Onto a File, `cp` answers "already exists". Into a directory, the copy keeps the source's name. Any refusal escapes with the tree unchanged, including the one for a Directory with children. |
| Terminal.CpNamed | terminal_game/terminal.py:134-144 | A File with a trailing-slash destination is refused. The copy is named by the last segment of the path. A name refusal answers its message. Any other refusal escapes, including a stored name that is taken and a Directory with children. |
| Terminal.Cp | terminal_game/terminal.py:107-153 | `cp` dispatches like `mv`: the syntax message, then the source's message, then onto a resolved destination, else under its parent directory. |
| Terminal.CpLeavesSource | terminal_game/terminal.py:107-153 | A successful `cp` leaves the source with its name, its parent and its listings. It appends to some directory a new unit holding the source's contents. |
| Terminal.CpKeepsWf | terminal_game/terminal.py:107-153 | `cp` keeps every invariant, whatever it answers and whether or not an exception escapes. |
| Terminal.CopyKeepsWf | terminal_game/terminal.py:137-153 | A successful copy of a File or of an empty Directory keeps every invariant. |
| Terminal.RunCommandKeepsWf | terminal_game/terminal.py:44-52 | Every command line keeps every invariant, because each handler in the table does. |

## Left out

- Logging calls: they write log records and have no behaviour of their own.
- The JSON read of the initial tree description: the model takes an already-parsed description (`Parser.Entry`).
- Pickle serialisation of the Terminal class: a fixed byte string (`System.TerminalMarker`) stands for the serialised class. Only "holds the marker or not" is modelled.
- The id and address generators (randomness and file persistence): fresh ids and addresses are parameters. The model requires ids to be fresh and does not require addresses to be unique.
- `parse_path`, which has no body: it is the `Terminal.Resolver` parameter. `Terminal.Sound` says only that it returns units of the system.
- `verify_system_integrity`, `bfs` and `new_line` are called but defined nowhere: `tree` takes its listing from a `render` parameter, and the integrity check before each command is not modelled.
- `is_sub_su` is defined nowhere: `Arena.IsSubSu` reads it as "lies strictly below", as the `mv` error message implies.
- The type checks (`isinstance`) on names, usernames, passwords and the internet argument: the model is typed, so those refusals cannot arise. The `Internet` parameter of a system is not kept.
- A `KeyError` raised inside a command handler is answered as "command not found." by the source's `except` clause. The model answers that only for unknown command tokens.
- An empty command line: `args.pop(0)` raises there, which the model reports as `Common.EmptyCommand`.
- `get_terminal`'s own `except` clause reads `e.message`, which Python exceptions lack: the model reports a missing `system/system.dat` directly as the corruption error.
- `cd`, `ls`, `cat`, `connect` and `disconnect`: none of them is in the command table.
- Copy of an empty Directory: the source hands the copy the very list object of the original, so a change to one shows in the other. That includes the `add` of the copy when it is copied into the original itself. The model gives the copy its own empty list.
- Directory `set_contents` with elements: no lemma says it keeps the invariants, because it does not re-parent its elements (see `Directory.DirContentsBreaksLinks`). Construction never reaches it, and no command calls it.
- Directory.Add: refusing the root, the source has already appended it to the directory's list when `set_parent` raises. The model returns the root error with the tree unchanged. No caller passes the root: `mv` refuses to move a directory below itself, and the root is above every unit; construction and copies add fresh units.
- Terminal.MvRename: uses the corrected name rule, on the stored name, instead of `File.set_name` as written. The as-written behaviour is `Terminal.MvRenameAsWritten` (see Findings).
- Terminal.Mv: dispatches to `Terminal.MvRename`, so it shares the corrected name rule. The message of an unresolved path is whatever the resolver supplies; the texts `parse_path` would produce are not modelled.
- Terminal.MvKeepsWf: stated for `mv` with the corrected name rule. The as-written `mv b sub/a.` beside a File `a` leaves `b` listed in two directories (`Terminal.AsWrittenMvListsTwice`).
- StorageUnit.RenameToSameNameFails: stated for units whose stored name is their own name under the split-and-rejoin. A File reporting a name that ends in "." can be renamed to it under the corrected rule (`StorageUnit.RenameDottedToSelf`). `StorageUnit.AsWrittenRenameToSameNameFails` states the source's rule with no such exception.
- Terminal.CpKeepsWf: does not hold in the source for `cp d d` or `cp d d/x` with `d` an empty Directory. There the copy is given `d`'s own list object, and the `add` into `d` appends the copy to that list, so the copy lists itself. The model gives the copy its own empty list.
- Terminal.CopyKeepsWf: does not hold in the source when an empty Directory is copied into itself, for the same shared-list reason as `Terminal.CpKeepsWf`.
- Directory.FindUnique: stated for directories with distinct sibling names, which `Arena.Wf` guarantees.

## Findings

| source | as written | input that shows it | evidently intended | confidence | as-written member | corrected member |
|---|---|---|---|---|---|---|
| terminal_game/file.py:34-37 | `File.set_name` checks the uniqueness rule on the name as given, then stores the split-and-rejoined name, which drops a trailing `.` | a root holding files "a" and "b"; renaming "b" to "a." is accepted and leaves two children named "a"; `mv b a.` then deletes the original "a" and the `add` of "b" escapes; `mv b sub/a.` leaves "b" listed in two directories | validate the name the file will actually report, so the rename is refused as taken | not executed | StorageUnit.SetNameAsWritten (counterexample: StorageUnit.AsWrittenRenameDuplicates); Terminal.MvRenameAsWritten (counterexamples: Terminal.AsWrittenMvDetachesOriginal, Terminal.AsWrittenMvListsTwice) | StorageUnit.SetName; Terminal.MvRename |
| terminal_game/directory.py:49 | `filter(self.contents, lambda ...)` passes the list where the predicate belongs, so the call raises TypeError; with the arguments in order, a miss would still raise IndexError rather than the not-found error its callers catch | looking up "a" in a root holding files "a" and "b" | the first child carrying the name, and the not-found error when there is none | not executed | Directory.FindAsWritten (counterexample: Directory.AsWrittenLookupFails) | Directory.Find |
