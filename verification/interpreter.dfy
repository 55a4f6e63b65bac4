/** The interpreter fix-up of build.py `FixInterpreter.run`: every `.py`
    file under the package root whose first line is a `#!` line naming
    `python` gets that line replaced by one naming the configured
    interpreter.  File contents are inputs, as lists of lines that keep their
    line endings (what `readlines` returns). */
module Interpreter {
  import opened Strings
  import opened Discovery

  /** The condition under which the first line is replaced. */
  predicate RewritesFirstLine(lines: seq<string>)
  {
    |lines| > 0 && StartsWith(lines[0], "#!") && Contains(lines[0], "python")
  }

  /** `#!<python>` on a line of its own. */
  function ShebangFor(python: string): string
  {
    "#!" + python + "\n"
  }

  /** The file's lines after the fix-up: only the first line can change, and
      it changes to the interpreter line exactly when it qualifies. */
  function FixShebang(lines: seq<string>, python: string): (r: seq<string>)
    ensures |r| == |lines|
    ensures forall i :: 0 < i < |lines| ==> r[i] == lines[i]
    ensures RewritesFirstLine(lines) ==> r[0] == ShebangFor(python)
    ensures !RewritesFirstLine(lines) ==> r == lines
  {
    if RewritesFirstLine(lines) then [ShebangFor(python)] + lines[1..] else lines
  }

  /** The interpreter line itself qualifies for rewriting whenever the
      interpreter's path names `python`. */
  lemma ShebangQualifies(python: string)
    requires Contains(python, "python")
    ensures StartsWith(ShebangFor(python), "#!")
    ensures Contains(ShebangFor(python), "python")
  {
    ContainsInfix("#!", python, "\n", "python");
    assert ShebangFor(python)[..2] == "#!";
  }

  /** Running the fix-up twice leaves the file as the first run did. */
  lemma FixShebangIdempotent(lines: seq<string>, python: string)
    ensures FixShebang(FixShebang(lines, python), python) == FixShebang(lines, python)
  {
    var once := FixShebang(lines, python);
    if RewritesFirstLine(lines) && RewritesFirstLine(once) {
      assert once[0] == ShebangFor(python);
      assert [ShebangFor(python)] + once[1..] == once;
    }
  }

  /** When the interpreter path names `python`, a rewritten file's first line
      still qualifies, so a later run rewrites it to the same text. */
  lemma FixShebangStable(lines: seq<string>, python: string)
    requires Contains(python, "python") && RewritesFirstLine(lines)
    ensures RewritesFirstLine(FixShebang(lines, python))
  {
    ShebangQualifies(python);
  }

  /** One file the step writes back, with its new contents. */
  datatype Rewritten = Rewritten(file: string, lines: seq<string>)

  /** The files written back, in the order `find_ext('.py', ...)` lists them;
      `contents` gives each file's lines. */
  function PlanFiles(files: seq<string>, contents: string -> seq<string>, python: string): (r: seq<Rewritten>)
    ensures forall w :: w in r ==>
              w.file in files && RewritesFirstLine(contents(w.file))
              && w.lines == FixShebang(contents(w.file), python)
    ensures forall f :: f in files && RewritesFirstLine(contents(f)) ==>
              Rewritten(f, FixShebang(contents(f), python)) in r
  {
    if |files| == 0 then []
    else
      var rest := PlanFiles(files[1..], contents, python);
      assert forall f :: f in files <==> f == files[0] || f in files[1..];
      var f := files[0];
      if RewritesFirstLine(contents(f)) then [Rewritten(f, FixShebang(contents(f), python))] + rest
      else rest
  }

  /** `FixInterpreter.run`: the Python sources found by the walk whose first
      line is a Python `#!` line, each written back with the new line. */
  function FixInterpreter(walk: seq<WalkEntry>, contents: string -> seq<string>, python: string): (r: seq<Rewritten>)
    ensures forall w :: w in r ==>
              w.file in FindExt(".py", walk) && RewritesFirstLine(contents(w.file))
              && w.lines == FixShebang(contents(w.file), python)
    ensures forall f :: f in FindExt(".py", walk) && RewritesFirstLine(contents(f)) ==>
              Rewritten(f, FixShebang(contents(f), python)) in r
  {
    PlanFiles(FindExt(".py", walk), contents, python)
  }
}
