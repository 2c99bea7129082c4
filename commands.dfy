/** How `execute_command` (command_handler.py:12-24) reads a command line:
    the keyword is recognised by prefix, `cd` takes what follows its two
    letters, stripped, and `cp` needs exactly three whitespace-separated words. */
module Commands {
  import opened Text

  datatype Command =
    | List
    | ChangeDir(path: string)
    | Exit
    | Copy(source: string, destination: string)
    | BadCopy
    | ShowTree
    | Unknown

  /** The command a line asks for. The keywords are tried in the order `ls`,
      `cd`, `exit`, `cp`, `tree`; no two of them can prefix the same line, so
      each kind is recognised exactly by its own prefix. */
  function Parse(line: string): (c: Command)
    ensures c.List? <==> StartsWith(line, "ls")
    ensures c.ChangeDir? <==> StartsWith(line, "cd")
    ensures c.Exit? <==> StartsWith(line, "exit")
    ensures (c.Copy? || c.BadCopy?) <==> StartsWith(line, "cp")
    ensures c.ShowTree? <==> StartsWith(line, "tree")
    ensures c.ChangeDir? ==> c.path == Strip(line[2..])
    ensures c.Copy? ==> |Words(line)| == 3 && c.source == Words(line)[1] && c.destination == Words(line)[2]
    ensures c.BadCopy? ==> |Words(line)| != 3
  {
    if StartsWith(line, "ls") then List
    else if StartsWith(line, "cd") then ChangeDir(Strip(line[2..]))
    else if StartsWith(line, "exit") then Exit
    else if StartsWith(line, "cp") then
      var args := Words(line);
      if |args| == 3 then Copy(args[1], args[2]) else BadCopy
    else if StartsWith(line, "tree") then ShowTree
    else Unknown
  }

  /** A line that asks for `c`. */
  function Format(c: Command): string {
    match c
    case List => "ls"
    case ChangeDir(p) => "cd " + p
    case Exit => "exit"
    case Copy(a, b) => JoinOn(["cp", a, b], ' ')
    case BadCopy => "cp"
    case ShowTree => "tree"
    case Unknown => ""
  }

  /** The commands a line can carry: a `cd` argument has no surrounding
      whitespace, and `cp` arguments are non-empty and hold none. */
  predicate Canonical(c: Command) {
    match c
    case ChangeDir(p) => p == [] || (!IsSpace(p[0]) && !IsSpace(p[|p| - 1]))
    case Copy(a, b) => a != [] && NoSpace(a) && b != [] && NoSpace(b)
    case _ => true
  }

  /** Reading back a formatted command gives the command. */
  lemma ParseFormat(c: Command)
    requires Canonical(c)
    ensures Parse(Format(c)) == c
  {
    match c
    case ChangeDir(p) =>
      var line := "cd " + p;
      assert line[..2] == "cd";
      assert line[2..] == [' '] + p;
      StripAfterSpace(p);
    case Copy(a, b) =>
      var line := JoinOn(["cp", a, b], ' ');
      assert ["cp", a, b][..2] == ["cp", a];
      assert ["cp", a][..1] == ["cp"];
      assert JoinOn(["cp", a], ' ') == "cp" + [' '] + a;
      assert line == "cp" + [' '] + a + [' '] + b;
      assert line[..2] == "cp";
      assert forall i :: 0 <= i < 3 ==> ["cp", a, b][i] != [] && NoSpace(["cp", a, b][i]);
      WordsOfJoin(["cp", a, b]);
    case Unknown =>
    case _ =>
  }
}
