/** The `CommandHandler` of command_handler.py: one step of the shell as a
    function of the session (tree, current directory, log), and the class
    whose methods drive the filesystem object and append to the log. */
module Handler {
  import opened Wrappers
  import opened Text
  import opened FileTree
  import opened TreeView
  import opened Vfs
  import opened Commands

  /** One record of the log file; its timestamp is not modelled. */
  datatype LogEntry = LogEntry(command: string, result: string)

  /** Whether the process goes on after a command: `exit` ends it through
      `sys.exit(0)`, and an `OSError` or a `ValueError` (a name holding NUL)
      from `open` in `cp` ends it uncaught. */
  datatype Status = Running | Exited | Crashed

  datatype Session = Session(tree: Tree, current: Path, log: seq<LogEntry>)

  ghost predicate SessionValid(s: Session) {
    WellFormed(s.tree) && IsDir(s.tree, s.current)
  }

  /** What one command does: the session after it, the messages it prints,
      and whether the process goes on. */
  datatype Effect = Effect(next: Session, printed: seq<string>, status: Status)

  /** The result logged for a completed copy. For the words `cp` accepts,
      splitting it on whitespace gives back its five words. */
  function CopiedMessage(source: string, destination: string): (m: string)
    ensures StartsWith(m, "Copied from ")
    ensures source != [] && NoSpace(source) && destination != [] && NoSpace(destination)
            ==> Words(m) == ["Copied", "from", source, "to", destination]
  {
    var m := "Copied from " + source + " to " + destination;
    assert m[..12] == "Copied from ";
    if source != [] && NoSpace(source) && destination != [] && NoSpace(destination) then
      MessageWords(source, destination);
      m
    else m
  }

  lemma MessageWords(source: string, destination: string)
    requires source != [] && NoSpace(source) && destination != [] && NoSpace(destination)
    ensures Words("Copied from " + source + " to " + destination)
            == ["Copied", "from", source, "to", destination]
  {
    assert "Copied from " + source + " to " + destination
           == "Copied" + " " + "from" + " " + source + " " + "to" + " " + destination;
    assert NoSpace("Copied") && NoSpace("from") && NoSpace("to");
    FiveWords("Copied", "from", source, "to", destination);
  }

  lemma FiveWords(a: string, b: string, c: string, d: string, e: string)
    requires a != [] && NoSpace(a) && b != [] && NoSpace(b) && c != [] && NoSpace(c)
    requires d != [] && NoSpace(d) && e != [] && NoSpace(e)
    ensures Words(a + " " + b + " " + c + " " + d + " " + e) == [a, b, c, d, e]
  {
    JoinOnSnoc([a], b, ' ');
    assert [a] + [b] == [a, b];
    JoinOnSnoc([a, b], c, ' ');
    assert [a, b] + [c] == [a, b, c];
    JoinOnSnoc([a, b, c], d, ' ');
    assert [a, b, c] + [d] == [a, b, c, d];
    JoinOnSnoc([a, b, c, d], e, ' ');
    assert [a, b, c, d] + [e] == [a, b, c, d, e];
    WordsOfJoin([a, b, c, d, e]);
  }

  /** `execute_command(line)`. The log is only ever appended to, by at most
      one entry, and the session stays valid. */
  function Step(s: Session, line: string, stat: Path -> string): (e: Effect)
    requires SessionValid(s)
    ensures SessionValid(e.next)
    ensures s.log <= e.next.log && |e.next.log| <= |s.log| + 1
    ensures e.status != Running ==> e.next.tree == s.tree && e.next.current == s.current
  {
    match Parse(line)
    case List =>
      var result := Listing(s.tree, s.current, stat);
      Effect(s.(log := s.log + [LogEntry("ls", result)]), [result], Running)
    case ChangeDir(path) =>
      (match CdTarget(s.tree, s.current, path)
       case Success(d) =>
         Effect(s.(current := d, log := s.log + [LogEntry("cd", "Changed directory to " + path)]), [], Running)
       case Failure(err) => Effect(s, [err.Message()], Running))
    case Exit =>
      Effect(s.(log := s.log + [LogEntry("exit", "Exiting emulator")]), ["Goodbye!"], Exited)
    case Copy(source, destination) =>
      (match ReadAt(s.tree, s.current, source)
       case Failure(err) => Effect(s, [err.Message()], Running)
       case Success(content) =>
         var message := CopiedMessage(source, destination);
         match WriteAt(s.tree, s.current, destination, content)
         case Written(u) =>
           Effect(s.(tree := u, log := s.log + [LogEntry("cp", message)]), [message], Running)
         case WrittenOutside =>
           Effect(s.(log := s.log + [LogEntry("cp", message)]), [message], Running)
         case WriteFailed => Effect(s, [], Crashed))
    case BadCopy => Effect(s, ["Invalid arguments for cp command"], Running)
    case ShowTree =>
      var result := Rendered(s.tree, s.current, "");
      Effect(s.(log := s.log + [LogEntry("tree", result)]), [result], Running)
    case Unknown => Effect(s, ["Unknown command: " + line], Running)
  }

  /** A line that starts with no keyword prints "Unknown command" and changes
      neither the filesystem nor the log. */
  lemma UnknownChangesNothing(s: Session, line: string, stat: Path -> string)
    requires SessionValid(s)
    requires !StartsWith(line, "ls") && !StartsWith(line, "cd") && !StartsWith(line, "exit")
    requires !StartsWith(line, "cp") && !StartsWith(line, "tree")
    ensures Step(s, line, stat) == Effect(s, ["Unknown command: " + line], Running)
  {
  }

  /** A `cd` line never touches the tree; it logs exactly when the directory
      change succeeds, and a failure leaves the whole session as it was. */
  lemma CdLogsOnSuccess(s: Session, line: string, stat: Path -> string)
    requires SessionValid(s) && StartsWith(line, "cd")
    ensures var path := Strip(line[2..]);
            var r := CdTarget(s.tree, s.current, path);
            var e := Step(s, line, stat);
            && e.status == Running && e.next.tree == s.tree
            && (e.next.log == s.log + [LogEntry("cd", "Changed directory to " + path)] <==> r.Success?)
            && (r.Success? ==> e.next.current == r.value && e.printed == [])
            && (r.Failure? ==> e.next == s && e.printed == [r.error.Message()])
  {
    var path := Strip(line[2..]);
    var r := CdTarget(s.tree, s.current, path);
    if r.Failure? {
      assert Step(s, line, stat).next.log == s.log;
      assert |s.log| < |s.log + [LogEntry("cd", "Changed directory to " + path)]|;
    }
  }

  /** `cp` with other than three words prints a complaint, writes nothing and
      logs nothing. */
  lemma CopyNeedsThreeWords(s: Session, line: string, stat: Path -> string)
    requires SessionValid(s) && StartsWith(line, "cp") && |Words(line)| != 3
    ensures Step(s, line, stat) == Effect(s, ["Invalid arguments for cp command"], Running)
  {
  }

  /** `cp src dst` with an unreadable `src` writes nothing and logs nothing. */
  lemma CopyUnreadableSource(s: Session, line: string, stat: Path -> string)
    requires SessionValid(s) && StartsWith(line, "cp") && |Words(line)| == 3
    requires ReadAt(s.tree, s.current, Words(line)[1]).Failure?
    ensures Step(s, line, stat) == Effect(s, ["File not found"], Running)
  {
  }

  /** A completed `cp src dst` leaves `dst` reading exactly what `src` read,
      leaves every other name reading as before, stays in the same directory
      and logs one entry, "Copied from src to dst". */
  lemma CopyCopies(s: Session, line: string, stat: Path -> string)
    requires SessionValid(s) && StartsWith(line, "cp") && |Words(line)| == 3
    requires var src, dst := Words(line)[1], Words(line)[2];
             ReadAt(s.tree, s.current, src).Success?
             && WriteAt(s.tree, s.current, dst, ReadAt(s.tree, s.current, src).value).Written?
    ensures var src, dst := Words(line)[1], Words(line)[2];
            var e := Step(s, line, stat);
            && e.status == Running
            && e.next.current == s.current
            && ReadAt(e.next.tree, s.current, dst) == ReadAt(s.tree, s.current, src)
            && (forall other :: Locate(s.tree, s.current, other) != Locate(s.tree, s.current, dst) ==>
                  ReadAt(e.next.tree, s.current, other) == ReadAt(s.tree, s.current, other))
            && e.next.log == s.log + [LogEntry("cp", "Copied from " + src + " to " + dst)]
            && e.printed == ["Copied from " + src + " to " + dst]
  {
    var src, dst := Words(line)[1], Words(line)[2];
    var content := ReadAt(s.tree, s.current, src).value;
    ReadAfterWrite(s.tree, s.current, dst, content);
    forall other | Locate(s.tree, s.current, other) != Locate(s.tree, s.current, dst)
      ensures ReadAt(Step(s, line, stat).next.tree, s.current, other) == ReadAt(s.tree, s.current, other)
    {
      WriteLeavesOthers(s.tree, s.current, dst, content, other);
    }
  }

  /** A `cp` whose write `open` refuses ends the process with the session
      untouched: the destination is a directory, its parent is missing or is
      a file, its last component is "", "." or "..", or it holds NUL. */
  lemma CopyOntoDirectoryCrashes(s: Session, line: string, stat: Path -> string)
    requires SessionValid(s) && StartsWith(line, "cp") && |Words(line)| == 3
    requires var src, dst := Words(line)[1], Words(line)[2];
             ReadAt(s.tree, s.current, src).Success?
             && WriteAt(s.tree, s.current, dst, ReadAt(s.tree, s.current, src).value).WriteFailed?
    ensures Step(s, line, stat) == Effect(s, [], Crashed)
  {
  }

  /** `ls` and `tree` print the rendered text, log exactly one entry holding
      it, and change neither the tree nor the current directory. */
  lemma ListAndTreeLog(s: Session, line: string, stat: Path -> string)
    requires SessionValid(s) && (StartsWith(line, "ls") || StartsWith(line, "tree"))
    ensures var e := Step(s, line, stat);
            var entry := if StartsWith(line, "ls") then LogEntry("ls", Listing(s.tree, s.current, stat))
                         else LogEntry("tree", Rendered(s.tree, s.current, ""));
            && e.next == s.(log := s.log + [entry])
            && e.printed == [entry.result]
            && e.status == Running
  {
  }

  /** `exit` logs ("exit", "Exiting emulator"), says goodbye and ends the
      process, the filesystem untouched. */
  lemma ExitLogsThenEnds(s: Session, line: string, stat: Path -> string)
    requires SessionValid(s) && StartsWith(line, "exit")
    ensures Step(s, line, stat)
            == Effect(s.(log := s.log + [LogEntry("exit", "Exiting emulator")]), ["Goodbye!"], Exited)
  {
  }

  /** Whatever the command, the log only grows at its end: every earlier
      entry stays where it was. */
  lemma LogIsAppendOnly(s: Session, line: string, stat: Path -> string)
    requires SessionValid(s)
    ensures var log := Step(s, line, stat).next.log;
            forall i :: 0 <= i < |s.log| ==> log[i] == s.log[i]
  {
  }

  /** The handler object: the filesystem it drives, the log file's records and
      whether the process is still running. */
  class CommandHandler {
    const vfs: VirtualFileSystem
    var log: seq<LogEntry>
    var status: Status

    /** The log file is opened for appending, so earlier records stay. */
    constructor (vfs: VirtualFileSystem, existing: seq<LogEntry>)
      ensures this.vfs == vfs && log == existing && status == Running
    {
      this.vfs := vfs;
      log := existing;
      status := Running;
    }

    ghost function State(): Session
      reads this, vfs
    {
      Session(vfs.tree, vfs.current, log)
    }

    /** `execute_command(command)`; only a running process takes commands. */
    method ExecuteCommand(command: string, stat: Path -> string) returns (printed: seq<string>)
      requires vfs.Valid() && status == Running
      modifies this, vfs
      ensures vfs.Valid()
      ensures var e := Step(old(State()), command, stat);
              State() == e.next && printed == e.printed && status == e.status
    {
      if StartsWith(command, "ls") {
        printed := ListDirectory(stat);
      } else if StartsWith(command, "cd") {
        printed := ChangeDirectory(command);
      } else if StartsWith(command, "exit") {
        printed := Exit();
      } else if StartsWith(command, "cp") {
        printed := CopyFile(command);
      } else if StartsWith(command, "tree") {
        printed := Tree();
      } else {
        printed := ["Unknown command: " + command];
      }
    }

    method ListDirectory(stat: Path -> string) returns (printed: seq<string>)
      requires vfs.Valid()
      modifies this`log
      ensures printed == [Listing(vfs.tree, vfs.current, stat)]
      ensures log == old(log) + [LogEntry("ls", printed[0])]
    {
      var result := vfs.ListDirectory(stat);
      LogAction("ls", result);
      printed := [result];
    }

    method ChangeDirectory(command: string) returns (printed: seq<string>)
      requires vfs.Valid() && |command| >= 2
      modifies this`log, vfs`current
      ensures vfs.Valid()
      ensures var path := Strip(command[2..]);
              match CdTarget(vfs.tree, old(vfs.current), path)
              case Success(d) =>
                vfs.current == d && printed == []
                && log == old(log) + [LogEntry("cd", "Changed directory to " + path)]
              case Failure(err) =>
                vfs.current == old(vfs.current) && printed == [err.Message()] && log == old(log)
    {
      var path := Strip(command[2..]);
      var err := vfs.ChangeDirectory(path);
      if err.None? {
        LogAction("cd", "Changed directory to " + path);
        printed := [];
      } else {
        printed := [err.value.Message()];
      }
    }

    method Exit() returns (printed: seq<string>)
      modifies this`log, this`status
      ensures log == old(log) + [LogEntry("exit", "Exiting emulator")]
      ensures printed == ["Goodbye!"] && status == Exited
    {
      LogAction("exit", "Exiting emulator");
      printed := ["Goodbye!"];
      status := Exited;
    }

    method CopyFile(command: string) returns (printed: seq<string>)
      requires vfs.Valid() && status == Running
      modifies this`log, this`status, vfs`tree
      ensures vfs.Valid()
      ensures var args := Words(command);
              if |args| != 3 then
                printed == ["Invalid arguments for cp command"]
                && log == old(log) && vfs.tree == old(vfs.tree) && status == Running
              else
                match ReadAt(old(vfs.tree), vfs.current, args[1])
                case Failure(err) =>
                  printed == [err.Message()] && log == old(log) && vfs.tree == old(vfs.tree) && status == Running
                case Success(content) =>
                  var message := CopiedMessage(args[1], args[2]);
                  match WriteAt(old(vfs.tree), vfs.current, args[2], content)
                  case Written(u) =>
                    vfs.tree == u && printed == [message]
                    && log == old(log) + [LogEntry("cp", message)] && status == Running
                  case WrittenOutside =>
                    vfs.tree == old(vfs.tree) && printed == [message]
                    && log == old(log) + [LogEntry("cp", message)] && status == Running
                  case WriteFailed =>
                    vfs.tree == old(vfs.tree) && printed == [] && log == old(log) && status == Crashed
    {
      var args := Words(command);
      if |args| == 3 {
        var source, destination := args[1], args[2];
        var read := vfs.ReadFile(source);
        match read
        case Failure(err) =>
          printed := [err.Message()];
        case Success(content) =>
          var ok := vfs.WriteFile(destination, content);
          if ok {
            var message := CopiedMessage(source, destination);
            printed := [message];
            LogAction("cp", message);
          } else {
            printed := [];
            status := Crashed;
          }
      } else {
        printed := ["Invalid arguments for cp command"];
      }
    }

    method Tree() returns (printed: seq<string>)
      requires vfs.Valid()
      modifies this`log
      ensures printed == [Rendered(vfs.tree, vfs.current, "")]
      ensures log == old(log) + [LogEntry("tree", printed[0])]
    {
      var result := vfs.DirectoryTree();
      LogAction("tree", result);
      printed := [result];
    }

    /** `log_action(command, result)`: one record at the end of the log. */
    method LogAction(command: string, result: string)
      modifies this`log
      ensures log == old(log) + [LogEntry(command, result)]
    {
      log := log + [LogEntry(command, result)];
    }
  }
}
