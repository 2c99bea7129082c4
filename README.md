# A verified model of the virtual filesystem shell

The repository is a small interactive shell over a directory tree extracted
from a tar archive. Its `VirtualFileSystem` keeps a fixed root ("MyVirtualMachine")
and a current directory. It can move between directories (`cd`), list a
directory (`ls`), render the subtree (`tree`), and read and write files.
Its `CommandHandler` reads a command line, dispatches on the keyword prefix
and appends a (command, result) record to a log.

This project models both classes in Dafny, with the real disk replaced by
an abstract tree:

- **The tree** (`FileTree`) is a map from component paths to `File(content)`
  or `Dir(children)`. A directory's `children` sequence stands for the
  `os.listdir` order. `WellFormed` is the shape every extracted tree has.
  The root is a directory. Every entry is listed by its parent. Every
  listed child exists. The children of a directory are distinct names that
  contain no "/" and no NUL.
- **Paths** (`Paths`) models two things separately:
  - `os.path.join` followed by `os.path.abspath`, as lexical normalisation (`Normalize`, `Resolve`);
  - the host's own lookup behind `os.path.isdir` and `open`, where every step has to land on a directory (`Walk`).

  Both run over a `Place`: a path of the tree, or a path under the
  process's working directory, which holds the tree as "MyVirtualMachine".
  So `..` at the root reaches the working directory, and
  `../MyVirtualMachine/x` comes back into the tree. A lemma proves that the
  two agree whenever the lookup succeeds.
- **The operations** (`TreeView`, `Vfs`) are pure functions over the tree:
  `CdTarget`, `ReadAt`, `WriteAt`, `Listing` and `Rendered`.
  `Vfs.VirtualFileSystem` is a class with the fields `tree` and `current`.
  Its methods update those fields in place and are proved against the functions.
  - The listing loop and the tree-rendering loop are methods with loop invariants.
  - The rendering recursion is a recursive method.
- **The dispatcher** (`Commands`, `Handler`) has three parts.
  - `Parse` reads a line, and `Step` gives the effect of one command on a session (tree, current directory, log).
  - `Handler.CommandHandler` holds the filesystem object, the log and the process status. Its methods are proved to have exactly `Step`'s effect.
  - One lemma per command states which commands log, which print, and what stays unchanged.
- **The `..` guard as written** (`GuardAsWritten`) is covered under "## Findings".

Where the model departs from the code, it says so:

- **The `..` guard.** `change_directory` refuses `..` only when
  `current_path` equals the relative string "MyVirtualMachine"
  (virtual_file_system.py:35). Every successful `cd` stores an absolute path
  (virtual_file_system.py:42), so from the second level on the guard never
  fires. `Vfs.CdTarget`, and through it `Handler.Step` and both classes, use
  the intended guard instead: `..` is refused exactly at the root. Every
  other argument is accepted only when it names a directory of the tree.
  - The code's own text shows this is intended. The error says "You are
    already at the root directory" (virtual_file_system.py:38). The prompt
    is computed relative to that root (virtual_file_system.py:47), and
    outside the root it would start with "..".
  - The code as written is modelled as well, over the host's paths: it is
    `GuardAsWritten.CdAsWritten`. It lets `cd` leave the tree
    (`GuardLetsRootEscape`, `SlashLeavesRoot`) and otherwise agrees with
    `CdTarget` (`CdAsWrittenAgrees`). See "## Findings".
- **The host.** The model takes the host to be POSIX: "/" is the only
  separator and `\` is an ordinary name character. "## Left out" says what
  that leaves out.
- **Otherwise** the model follows the code, including:
  - the error messages (virtual_file_system.py:38, 44, 68);
  - the one blank between listing columns (virtual_file_system.py:30);
  - the relative root string (virtual_file_system.py:12);
  - the backslash replacement in the prompt (virtual_file_system.py:47);
  - text-mode reading (virtual_file_system.py:65-66), which turns each "\r\n" and each lone "\r" into "\n";
  - names holding NUL, which the host's lookups reject and `open` refuses with `ValueError`.

  The remaining gaps are listed under "## Left out".

## Model

| member | source | states |
|---|---|---|
| Text.StartsWith | command_handler.py:13-21 | `s.startswith(prefix)`: `prefix` fits in `s` and equals its first characters; what that means is stated by `StartsWithRest` |
| Text.StartsWithRest | command_handler.py:13-21 | `s.startswith(prefix)` holds exactly when `s` is `prefix` followed by the rest of `s` |
| Text.Strip | command_handler.py:32 | `strip()` returns the slice of its input with only whitespace (Python's full `isspace` set) cut off each end; the result neither starts nor ends with whitespace, and text already stripped is returned unchanged |
| Text.Words | command_handler.py:45 | `split()` yields non-empty words containing no whitespace |
| Text.WordsOfSpace | command_handler.py:45 | `split()` of whitespace alone is empty |
| Text.WordsCons | command_handler.py:45 | `split()` skips leading whitespace and takes one whole word: `(sp + w + rest).split() == [w] + rest.split()` for blanks `sp`, a non-empty word `w` and a rest that is empty or starts with whitespace; with `WordsOfSpace` this fixes `split()` on every input |
| Text.WordsOfJoin | command_handler.py:45-47 | splitting `" ".join(ws)` on whitespace gives back `ws` for non-empty, whitespace-free words |
| Text.SplitOfJoin | virtual_file_system.py:31 | `s.split(sep)` undoes `sep.join(parts)` when no part holds the separator |
| Text.JoinOfSplit | virtual_file_system.py:40 | `sep.join(s.split(sep)) == s`: splitting an argument at "/" loses nothing |
| Text.SplitOn | virtual_file_system.py:40 | `s.split(sep)` has at least one piece, and no piece holds the separator |
| Text.JoinOn | virtual_file_system.py:31 | `sep.join(parts)` holds the separator once there are two parts |
| Text.JoinOnAvoids | virtual_file_system.py:47 | `sep.join(parts)` holds no character that is neither the separator nor in a part |
| Text.ReplaceChar | virtual_file_system.py:47 | `s.replace(a, b)` keeps the length and turns exactly the `a` characters into `b` |
| Text.Newlines | virtual_file_system.py:65-66 | reading in text mode leaves no "\r" in the text, returns text holding none unchanged, and never lengthens it |
| Text.NewlinesIdempotent | virtual_file_system.py:65-66 | translating the line breaks of already-read text changes nothing |
| Text.NewlinesSplice | virtual_file_system.py:65-66 | a "\r\n" anywhere reads as one "\n", and so does a "\r" not followed by "\n"; the text on either side is read on its own |
| Text.StripAfterSpace | command_handler.py:32 | a blank followed by already-stripped text strips back to that text |
| FileTree.PathsArePlain | virtual_file_system.py:25-26 | every path in a well-formed tree is made of plain names (non-empty, not "." or "..", no "/", no NUL) |
| FileTree.BaseName | virtual_file_system.py:53 | `os.path.basename` of a directory is its last component, so the parent's path followed by it gives the path back; the root shows "MyVirtualMachine", and a plain path has a plain basename |
| Paths.Move | virtual_file_system.py:42 | one normalisation step: "" and "." stay, a plain name goes down into the tree |
| Paths.Norm | virtual_file_system.py:40-42 | normalising components that hold no "/" and no NUL keeps tree paths plain, and without ".." it never leaves the tree and extends the starting directory |
| Paths.Normalize | virtual_file_system.py:40-42 | normalising components that hold no "/" and no NUL keeps paths plain, and without ".." the result extends the starting directory |
| Paths.Resolve | virtual_file_system.py:40-42 | an absolute argument is not resolved (the tree's host location is not known here); an argument holding no NUL resolves to a plain path |
| Paths.ResolveName | virtual_file_system.py:40-42 | a single plain name resolves to that child of the current directory |
| Paths.RelativePath | virtual_file_system.py:46-47 | the relative path is "." exactly at the root (or at a directory named "."), and a top-level directory shows its name with backslashes as slashes |
| Paths.RelativePathResolves | virtual_file_system.py:46-47 | when no name holds a backslash, the prompt's relative path, taken as an argument from the root, resolves back to the current directory |
| Paths.BackslashNameMisread | virtual_file_system.py:47 | a directory named `a\b` shows as `a/b`, which resolves to the deeper path `a`, `b` |
| Paths.RelativePathAtRoot | virtual_file_system.py:46-47 | for tree paths, the relative path is "." exactly at the root, and a top-level directory without a backslash shows its own name |
| Paths.WalkFrom | virtual_file_system.py:41 | the host lookup, from the tree or the working directory, that ends in the tree ends on a directory of it |
| Paths.Walk | virtual_file_system.py:41 | the host lookup that succeeds ends on a directory of the tree |
| Paths.WalkFromIsLexical | virtual_file_system.py:41-42 | wherever the lookup ends, in the tree or in the working directory, the lexical normalisation ends too |
| Paths.WalkFromNul | virtual_file_system.py:41 | a component holding NUL is no directory: the lookup through it ends neither in the tree nor in the working directory |
| Paths.WalkNul | virtual_file_system.py:41 | `os.path.isdir` of a joined path holding NUL is false |
| Paths.ReEnterRoot | virtual_file_system.py:40-42 | going from the root up to the working directory and back in by "MyVirtualMachine" is the same lookup as staying at the root |
| Paths.WalkIsLexical | virtual_file_system.py:41-42 | whenever the lookup succeeds, `abspath`'s lexical normalisation names the same directory, and a lookup ending in the working directory normalises there too |
| Paths.WalkFromSameDirs | virtual_file_system.py:41 | the lookup from any place depends only on which paths are directories |
| Paths.WalkSameDirs | virtual_file_system.py:41 | the lookup depends only on which paths are directories |
| Paths.NormAppend | virtual_file_system.py:42 | normalising `a + b` normalises `a`, then `b` from there |
| Paths.NormPlain | virtual_file_system.py:40-42 | plain components lead straight down from the starting directory |
| Paths.NormalizePlain | virtual_file_system.py:40-42 | plain components lead straight down from the starting directory |
| Paths.WalkName | virtual_file_system.py:40-41 | a plain name is found exactly when that child is a directory |
| TreeView.Rendered | virtual_file_system.py:52-60 | the rendering of a directory starts with its indented basename and "/" on a line of its own, and ends with a newline |
| TreeView.RenderedChildren | virtual_file_system.py:54-59 | what the loop appends is empty exactly when no child has been visited, and otherwise starts two spaces deeper and ends with a newline |
| TreeView.RenderedChildrenStep | virtual_file_system.py:54-59 | each loop turn appends the next child's piece: its recursive rendering for a directory, an indented name line for a file |
| TreeView.VisitBelow | virtual_file_system.py:52-60 | the pre-order visit of `p` starts at `p` and visits only entries at or below `p` |
| TreeView.VisitChildrenBelow | virtual_file_system.py:54-57 | the entries visited for children `cs` lie strictly below `p`, under one of `cs` |
| TreeView.RenderedIsLines | virtual_file_system.py:52-60 | the recursive rendering equals the concatenation of one line per visited entry, in pre-order |
| TreeView.AncestorListed | virtual_file_system.py:54-57 | every ancestor of an entry is a directory that lists the next component |
| TreeView.VisitComplete | virtual_file_system.py:52-60 | the rendering reaches every entry below the directory |
| TreeView.VisitDistinct | virtual_file_system.py:52-60 | no entry is rendered twice |
| TreeView.TreeShape | virtual_file_system.py:52-60 | `tree` prints one line per entry at or below the directory (1 + its descendants), each entry once, the first line being its basename + "/", an entry k levels down indented by 2k spaces, directories with a trailing "/", every line ending in "\n" |
| TreeView.ListedChildInTree | virtual_file_system.py:54-59 | every child `ls` lists appears in the `tree` output one level down, with two more spaces of indent |
| Vfs.VfsError.Message | virtual_file_system.py:38-68 | the three messages `FileNotFoundException` is raised with; the two failed lookups end in " not found", the root refusal does not |
| Vfs.MessageIdentifies | command_handler.py:36-37 | the printed message tells the three errors apart |
| Vfs.CdTarget | virtual_file_system.py:33-44 | `cd` only ever moves to a directory of the tree; `..` succeeds exactly when not at the root and otherwise fails with "You are already at the root directory"; every other failure is "Directory not found" |
| Vfs.CdIsLexical | virtual_file_system.py:36-42 | the directory `cd` moves to is `dirname(current)` for "..", and `abspath(join(current, path))` otherwise |
| Vfs.CdIntoChild | virtual_file_system.py:40-44 | `cd name` moves to `current + [name]` when that is a directory and fails with "Directory not found" otherwise |
| Vfs.CdThereAndBack | virtual_file_system.py:34-47 | `cd d` then `cd ..` restores the current directory, and from the root the prompt shows `d` in between, backslashes as slashes |
| Vfs.Locate | virtual_file_system.py:63 | when a file name lands on a plain name, that name is in a directory of the tree; the names the host cannot open are exactly those holding NUL |
| Vfs.ReEntryFromRoot | virtual_file_system.py:40-42 | from the root, `../MyVirtualMachine/` followed by a relative argument reads, writes and changes directory exactly as the argument alone, and `cd ../MyVirtualMachine` goes to the root |
| Vfs.LocateName | virtual_file_system.py:63 | a plain name lands in the current directory |
| Vfs.LocateIsLexical | virtual_file_system.py:63-64 | the file a name lands on is the normalised joined path |
| Vfs.LocateSameDirs | virtual_file_system.py:63-64 | where a name lands depends only on which paths are directories |
| Vfs.ReadAt | virtual_file_system.py:62-68 | `read_file` fails only with "File not found", and what it returns holds no "\r", as text mode reads it |
| Vfs.ReadIsLexical | virtual_file_system.py:62-66 | a successful read returns the stored content of the regular file the joined path names, with its line breaks read as "\n" |
| Vfs.ReadName | virtual_file_system.py:62-68 | for a plain name, `read_file` returns the child's content (line breaks read as "\n") exactly when it is a regular file, and "File not found" otherwise, directories included |
| Vfs.Store | virtual_file_system.py:70-73 | storing a file adds only its path, gives it the content, leaves every other entry but the parent unchanged, and appends a new name to the parent's listing |
| Vfs.StoreWellFormed | virtual_file_system.py:70-73 | storing a file where no directory is keeps the tree well formed and its directories unchanged |
| Vfs.WriteAt | virtual_file_system.py:70-73 | a completed write keeps the tree well formed with the same directories, and is the store of the content at the name's location |
| Vfs.ReadAfterWrite | virtual_file_system.py:62-73 | `write_file(name, c)` followed by `read_file(name)` returns `c` with each "\r\n" and lone "\r" read as "\n", which is `c` itself when `c` holds no "\r" |
| Vfs.WriteLeavesOthers | virtual_file_system.py:70-73 | a write leaves every other name reading as before |
| Vfs.WriteName | virtual_file_system.py:70-73 | for a plain name (which holds no NUL), `write_file` fails exactly when the child is a directory, and otherwise makes it a file with the content, appending a new name to the listing, with nothing else changed |
| Vfs.NulRefused | virtual_file_system.py:62-73 | for a name holding NUL, `read_file` fails with "File not found", `write_file` fails as `open` raises, and `cd` (virtual_file_system.py:41-44) fails with "Directory not found" |
| Vfs.Kind | virtual_file_system.py:29 | the type column is "Directory" exactly for a directory and "File" exactly for anything else, and fits ten characters |
| Vfs.PadRight | virtual_file_system.py:30 | `f"{s:<width}"` starts with `s`, is `width` long when `s` is shorter, and pads with blanks |
| Vfs.ListingLines | virtual_file_system.py:23-30 | one line per child, in listing order |
| Vfs.ListingLine | virtual_file_system.py:29-30 | a listing line starts with "Directory" exactly when the child is a directory and with "File" exactly when it is not, starts with the type padded to ten and a blank, and ends with the child's name |
| Vfs.Listing | virtual_file_system.py:22-31 | an empty directory and a path that is no directory list as ""; otherwise splitting the listing at newlines gives one line per child, in listing order, when no line holds a newline |
| Vfs.VirtualFileSystem.constructor | virtual_file_system.py:11-14 | a new filesystem is at the root and its prompt shows "." |
| Vfs.VirtualFileSystem.RelativePath | virtual_file_system.py:46-47 | the prompt shows "." exactly at the root |
| Vfs.VirtualFileSystem.ReadFile | virtual_file_system.py:62-68 | returns the stored content of the regular file the joined path names, with its line breaks read as "\n", and fails only with "File not found" |
| Vfs.VirtualFileSystem.ListDirectory | virtual_file_system.py:22-31 | the loop builds exactly `Listing` of the current directory |
| Vfs.VirtualFileSystem.ChangeDirectory | virtual_file_system.py:33-44 | moves to `CdTarget`'s directory, or returns its error and stays; the tree and the invariant are kept |
| Vfs.VirtualFileSystem.WriteFile | virtual_file_system.py:70-73 | the tree becomes `WriteAt`'s tree, or stays when the write leaves the tree or fails; the invariant is kept |
| Vfs.VirtualFileSystem.DirectoryTree | virtual_file_system.py:49-50 | returns the rendering of the current directory |
| Vfs.VirtualFileSystem.DirectoryTreeFrom | virtual_file_system.py:52-60 | the loop and recursion build exactly `Rendered(p, indent)` |
| GuardAsWritten.InTree | virtual_file_system.py:12 | a host path inside the tree is the root's absolute path followed by the tree path |
| GuardAsWritten.DirName | virtual_file_system.py:36 | `os.path.dirname` of a normalised path drops exactly its last component, and keeps "/" as "/" |
| GuardAsWritten.HostWalk | virtual_file_system.py:40-42 | the host lookup of a joined path that succeeds ends on a host directory |
| GuardAsWritten.CdAsWritten | virtual_file_system.py:33-44 | as written, ".." is accepted exactly when `current_path` differs from the string "MyVirtualMachine", and any other successful `cd` stores the absolute path of a host directory, inside the tree or not; failures carry the source's two messages |
| GuardAsWritten.SlashLeavesRoot | virtual_file_system.py:39-42 | as written, `cd ../` at the root moves to the working directory, outside the tree, and `cd ../..` one level higher |
| GuardAsWritten.CdAsWrittenAgrees | virtual_file_system.py:39-44 | wherever the intended `cd` moves inside the tree by an argument other than "..", the code as written moves to the same directory under its absolute path |
| GuardAsWritten.GuardLetsRootEscape | virtual_file_system.py:33-44 | from the root, `cd d`, `cd ..`, `cd ..` all succeed as written and end outside the tree |
| GuardAsWritten.GuardHolds | virtual_file_system.py:34-38 | with the intended guard the same sequence returns to the root and then refuses the second ".." |
| Commands.Parse | command_handler.py:12-24 | each command kind is recognised exactly by its own keyword prefix, so the test order does not matter; `cd`'s argument is the stripped text after two characters; `cp` needs exactly three words |
| Handler.CopiedMessage | command_handler.py:51-52 | the result logged for a copy starts with "Copied from ", and for names `cp` accepts splits back into "Copied", "from", the source, "to", the destination |
| Commands.ParseFormat | command_handler.py:12-24 | reading back a formatted command gives the command |
| Handler.Step | command_handler.py:12-71 | every command keeps the session valid and appends at most one log entry, touching no earlier one; `exit` and a crash leave the filesystem as it was |
| Handler.UnknownChangesNothing | command_handler.py:23-24 | a line with no keyword prints "Unknown command: ..." and changes neither the filesystem nor the log |
| Handler.CdLogsOnSuccess | command_handler.py:31-37 | `cd` logs ("cd", "Changed directory to " + path) exactly when it succeeds; on failure it prints the error and changes nothing |
| Handler.CopyNeedsThreeWords | command_handler.py:44-56 | `cp` with other than three words prints "Invalid arguments for cp command", writes nothing and logs nothing |
| Handler.CopyUnreadableSource | command_handler.py:47-54 | `cp` whose source cannot be read prints "File not found", writes nothing and logs nothing |
| Handler.CopyCopies | command_handler.py:47-52 | a completed `cp src dst` makes `dst` read what `src` read, keeps every other name, and logs ("cp", "Copied from src to dst") |
| Handler.CopyOntoDirectoryCrashes | command_handler.py:49-50 | a `cp` whose write `open` refuses ends the process with the session unchanged |
| Handler.ListAndTreeLog | command_handler.py:26-29 | `ls` (and `tree`, command_handler.py:58-61) prints the rendered text and logs exactly one entry holding it, changing nothing else |
| Handler.ExitLogsThenEnds | command_handler.py:39-42 | `exit` logs ("exit", "Exiting emulator"), prints "Goodbye!" and ends the process |
| Handler.LogIsAppendOnly | command_handler.py:63-71 | no command alters or removes an earlier log entry |
| Handler.CommandHandler.constructor | command_handler.py:8-10 | a new handler drives the given filesystem, keeps the existing log, and is running |
| Handler.CommandHandler.ExecuteCommand | command_handler.py:12-24 | executing a command has exactly `Step`'s effect on the filesystem, the log, the output and the status |
| Handler.CommandHandler.ListDirectory | command_handler.py:26-29 | prints the listing and logs it |
| Handler.CommandHandler.ChangeDirectory | command_handler.py:31-37 | moves as `CdTarget` says; logs only on success, prints the error otherwise |
| Handler.CommandHandler.Exit | command_handler.py:39-42 | logs the exit record, says goodbye, stops |
| Handler.CommandHandler.CopyFile | command_handler.py:44-56 | every branch of `copy_file`: argument count, unreadable source, completed write, refused write |
| Handler.CommandHandler.Tree | command_handler.py:58-61 | prints the rendering and logs it |
| Handler.CommandHandler.LogAction | command_handler.py:63-71 | appends exactly one record at the end of the log |

## Left out

- Tar extraction and the missing-archive check (virtual_file_system.py:16-20) are foreign library calls. The constructor receives the extracted tree, required to be well formed.
- The host operating system's calls (`os.listdir`, `isdir`, `isfile`, `getsize`, `getmtime`, `open`) are replaced by the tree. The order of `os.listdir` is the `children` sequence, and a newly created file is appended at its end. The host does not fix that position.
- The size and modification-time columns of a listing and their `strftime` formatting (virtual_file_system.py:27-28) are an opaque `stat` parameter.
- Symbolic links, permissions and other processes changing the tree are not modelled. The lookup assumes a tree without links.
- Vfs.CdTarget: refuses every argument that ends outside the tree, whereas the source moves to any host directory, as `cd ../` at the root does. This follows the intended `..` guard described above. `GuardAsWritten.CdAsWritten` models the code as written.
- Vfs.CdTarget: an absolute argument fails with "Directory not found", even one that spells the tree's own absolute location, such as `/home/u/MyVirtualMachine/d`. The source follows it into the tree. `Vfs` does not know the working directory's path; `GuardAsWritten.CdAsWritten` follows such arguments.
- Vfs.Locate: an absolute name is placed outside the tree, for the same reason, even when it spells a path inside the tree. So are two other kinds of name: one that climbs above the working directory, and one that passes through a host directory other than the working directory (`../other/../MyVirtualMachine/f`). Only steps out of the root into the working directory and back in by "MyVirtualMachine" are followed (`Vfs.ReEntryFromRoot`). `Vfs.ReadAt`, `Vfs.WriteAt` and `Vfs.CdTarget` inherit this, through `Paths.Walk`.
- Vfs.ReadAt: a name outside the tree reads as "File not found", whereas the source reads the host's file if there is one.
- Vfs.WriteAt: a name outside the tree counts as a completed write that leaves the tree unchanged. The source calls `open` on that host path. It writes the host's file when `open` succeeds. When `open` fails there, the error is uncaught and the process ends. Causes include a missing directory, a host directory of that name (`cp f /tmp`, or `cp f ../d2` for a directory `d2` in the working directory) and no permission. The model counts all of these as completed writes, because the host's files are not modelled.
- Vfs.WriteAt: the different errors `open` can raise are one outcome, `WriteFailed`. The errors inside the tree are a directory, a missing parent, a parent that is a file, a last component "", "." or "..", and a name holding NUL (`ValueError`). None of them is caught, so every one ends the process.
- `current_path` lying outside any directory cannot arise in the model. The class invariant keeps it a directory of the tree, so `list_directory`'s empty-string branch is stated by `Vfs.Listing` but not reached by `Vfs.VirtualFileSystem.ListDirectory`.
- The log file's JSON encoding, the `int(time.time())` timestamp and the printing of logging errors (command_handler.py:64-73) are not modelled. The log is a sequence of (command, result) records.
- Content is a string of characters. UTF-8 encoding and decoding are not modelled, and neither is the `UnicodeDecodeError` that `read_file` raises on bytes that are not UTF-8. The line breaks of text mode are modelled (`Text.Newlines`).
- The host is taken to be POSIX: "/" is the only separator, `\` is an ordinary name character, an absolute path starts with "/", and text mode writes "\n" unchanged. On Windows, `os.path.relpath` returns backslash-separated paths, which is what the replacement at virtual_file_system.py:47 is for. There `cd a\b` goes two levels down, drive letters make paths absolute, and writing turns "\n" into "\r\n". None of this is modelled.
- Main.py's input loop is I/O plumbing and is not modelled: the prompt, `input`, stripping and skipping empty lines, and `KeyboardInterrupt`. Commands reach `ExecuteCommand` as Main.py would pass them.
- Printing is modelled as the list of messages a command prints. `sys.exit` and an uncaught exception are the statuses `Exited` and `Crashed`, and no traceback is modelled.
- GuardAsWritten.HostIsDir: the host directories known are the working directory, its ancestors and the directories of the tree. Every other host path is taken to be no directory, so `GuardAsWritten.CdAsWritten` refuses a `cd` into any other host directory.
- Konfig-master/test_main.py is not part of this model as code. Its scenarios are among the properties above.

## Findings

| source | as written | input that shows it | evidently intended | confidence | as-written member | corrected member |
|---|---|---|---|---|---|---|
| virtual_file_system.py:35 | `..` is refused only when `current_path` equals the relative string "MyVirtualMachine", but a successful `cd` stores `os.path.abspath(...)`, which never equals it | a root that holds a directory `d`: `cd d`, `cd ..`, `cd ..` both `..` succeed, and the last one leaves the tree for the working directory (GuardLetsRootEscape) | `..` is refused exactly at the root (`current == []`), so the same sequence returns to the root and then fails with "You are already at the root directory" (GuardHolds) | not executed | GuardAsWritten.CdAsWritten | Vfs.CdTarget |
