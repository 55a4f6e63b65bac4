/** The linker-metadata edits the relocation steps issue, as data.  Each
    command names the file it edits; `Argv` is the exact argument vector
    build.py hands to the tool. */
module Commands {
  import opened Ordering

  datatype Command =
    | SetRpath(rpath: string, file: string)                  // patchelf --set-rpath
    | SetId(name: string, file: string)                      // install_name_tool -id
    | AddRpath(rpath: string, file: string)                  // install_name_tool -add_rpath
    | Change(oldName: string, newName: string, file: string) // install_name_tool -change

  datatype Parsed = Unrecognised | Recognised(command: Command)

  /** The argument vector of the tool call a command stands for; reading it
      back recovers the command, so distinct commands are distinct calls. */
  function Argv(c: Command): (argv: seq<string>)
    ensures |argv| >= 4 && argv[|argv| - 1] == c.file
    ensures argv[0] == (if c.SetRpath? then "patchelf" else "install_name_tool")
    ensures ParseArgv(argv) == Recognised(c)
  {
    match c
    case SetRpath(rpath, file) => ["patchelf", "--set-rpath", rpath, file]
    case SetId(name, file) => ["install_name_tool", "-id", name, file]
    case AddRpath(rpath, file) => ["install_name_tool", "-add_rpath", rpath, file]
    case Change(oldName, newName, file) => ["install_name_tool", "-change", oldName, newName, file]
  }

  /** Recognises the four tool calls the relocation steps make. */
  function ParseArgv(argv: seq<string>): Parsed
  {
    if |argv| == 4 && argv[0] == "patchelf" && argv[1] == "--set-rpath" then
      Recognised(SetRpath(argv[2], argv[3]))
    else if |argv| == 4 && argv[0] == "install_name_tool" && argv[1] == "-id" then
      Recognised(SetId(argv[2], argv[3]))
    else if |argv| == 4 && argv[0] == "install_name_tool" && argv[1] == "-add_rpath" then
      Recognised(AddRpath(argv[2], argv[3]))
    else if |argv| == 5 && argv[0] == "install_name_tool" && argv[1] == "-change" then
      Recognised(Change(argv[2], argv[3], argv[4]))
    else Unrecognised
  }

  /** The files a command list edits, in order. */
  function Files(cs: seq<Command>): (r: seq<string>)
    ensures |r| == |cs| && forall i :: 0 <= i < |cs| ==> r[i] == cs[i].file
  {
    seq(|cs|, i requires 0 <= i < |cs| => cs[i].file)
  }

  lemma FilesCons(c: Command, rest: seq<Command>)
    ensures Files([c] + rest) == [c.file] + Files(rest)
  {
    assert forall i :: 0 < i <= |rest| ==> ([c] + rest)[i] == rest[i - 1];
  }

  lemma FilesAppend(a: seq<Command>, b: seq<Command>)
    ensures Files(a + b) == Files(a) + Files(b)
  {
    assert forall i :: |a| <= i < |a| + |b| ==> (a + b)[i] == b[i - |a|];
  }

  /** Commands all for file `t` list only `t`. */
  lemma FilesAllFor(t: string, cs: seq<Command>)
    requires forall c :: c in cs ==> c.file == t
    ensures forall k :: 0 <= k < |Files(cs)| ==> Files(cs)[k] == t
  {
    forall k | 0 <= k < |Files(cs)| ensures Files(cs)[k] == t {
      assert cs[k] in cs;
    }
  }

  /** Commands all for files above `t` list files above `t`. */
  lemma FilesAbove(t: string, cs: seq<Command>)
    requires forall c :: c in cs ==> Less(t, c.file)
    ensures forall k :: 0 <= k < |Files(cs)| ==> Less(t, Files(cs)[k])
  {
    forall k | 0 <= k < |Files(cs)| ensures Less(t, Files(cs)[k]) {
      assert cs[k] in cs;
    }
  }

  /** The commands of `cs` that edit file `t`, in order. */
  function CommandsFor(cs: seq<Command>, t: string): (r: seq<Command>)
    ensures forall c :: c in r <==> c in cs && c.file == t
    decreases |cs|
  {
    if |cs| == 0 then []
    else
      var rest := CommandsFor(cs[1..], t);
      assert forall c :: c in cs <==> c == cs[0] || c in cs[1..];
      (if cs[0].file == t then [cs[0]] else []) + rest
  }

  /** Selecting one file's commands distributes over concatenation. */
  lemma {:induction false} CommandsForAppend(a: seq<Command>, b: seq<Command>, t: string)
    ensures CommandsFor(a + b, t) == CommandsFor(a, t) + CommandsFor(b, t)
    decreases |a|
  {
    if |a| == 0 {
      assert a + b == b;
    } else {
      assert (a + b)[0] == a[0] && (a + b)[1..] == a[1..] + b;
      CommandsForAppend(a[1..], b, t);
    }
  }

  /** Commands that all edit `t` are kept whole, in order. */
  lemma {:induction false} CommandsForAll(cs: seq<Command>, t: string)
    requires forall c :: c in cs ==> c.file == t
    ensures CommandsFor(cs, t) == cs
    decreases |cs|
  {
    if |cs| > 0 {
      assert cs[0] in cs;
      assert forall c :: c in cs[1..] ==> c in cs;
      CommandsForAll(cs[1..], t);
      assert [cs[0]] + cs[1..] == cs;
    }
  }
}
