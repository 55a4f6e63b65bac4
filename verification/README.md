# Relocation planning of the EMAN2 build script

This project is a Dafny model of how EMAN2's `build.py` makes a staged
package relocatable. The model covers the decisions only. It finds the
candidate files, works out each file's depth below the package root, and
builds the `$ORIGIN` search path of each Linux file. For macOS it reads
`otool -L` listings, builds the `@rpath` identity and the `@loader_path`
anchor, and rewrites install names with the five-entry `args.replace` table.
The model's output is an ordered list of tool calls (`patchelf --set-rpath`,
`install_name_tool -id / -add_rpath / -change`), encoded as `Commands.Command`.
It also models the `#!` fix-up of `FixInterpreter` and the `.dylib` to `.so`
link names of `FixLinks`.

Modules, one per file:

- `Strings`: the Python 2 `str` operations the script uses, with their
  Python semantics. These are `split`, `strip`, `partition`, every-occurrence
  `replace`, `*` with a count of zero or less, `count` and `upper`.
- `Paths`: POSIX `os.path.join`, and the directory layout of
  `Target.update_cwds`.
- `Ordering`: Python string order and `sorted(set(...))`.
- `Discovery`: `find_exec`, `find_ext` and the candidate set shared by both
  relocation steps.
- `Rewrite`: anchored `re.sub` rules, the table, and why iteration order and
  repetition do not matter.
- `Commands`: the tool calls as data, with their argument vectors.
- `LinuxRpath`: `FixLinuxRpath.run`.
- `InstallNames`: `FixInstallNames` (`find_deps`, `id_rpath`, `run`).
- `Interpreter`: `FixInterpreter.run`.
- `Links`: `FixLinks.run`.

Inputs the script gets from the outside world are parameters:

- the `os.walk` listing, as `Discovery.WalkEntry` values;
- the text `find <root> -executable` prints;
- the outcome of `otool -L` for each file, as a function from path to
  `InstallNames.OtoolRun`;
- the lines of each Python file;
- the names `glob("*.dylib")` sees.

## Behaviour worth knowing

These are consequences of how `build.py` is written, and the model keeps each
of them.

- Depth (build.py:411-412). The depth is `len(xtarget.split('/')) - 2`.
  That is 1 for `lib/foo.so` under the root, 0 for a file directly in the
  root, and -1 for the root itself, which `find -executable` also lists.
  `LinuxRpath.Depth`, `LinuxRpath.RpathPerLevel` and `LinuxRpath.RpathOfRoot`
  state these values. One `../` per directory is what reaches `extlib/lib`
  from the file's directory.
- The macOS anchor (build.py:437-441). The anchor of `lib/foo.so` is
  `@loader_path/..`, one `/..` per `/` in the relative name.
  `InstallNames.MacScenario` proves the whole plan for that file.
- The `otool -L` listing (build.py:434). Only the first line of output, the
  `file:` header, is dropped. A later line naming the file itself is
  rewritten like every other reference. A trailing newline produces a final
  empty entry, which no rule changes.
- The table never chains (build.py:169-178, 483-484). `Rewrite.ApplyAll`
  applies the rules one after another, as the loop does. Every replacement
  in the table starts with `@`, and no pattern does, so at most one rule
  ever fires on a reference and the order of the dictionary does not matter.
- The root is removed everywhere, not only in front (build.py:411, 466).
  `replace(cwd_rpath, "")` drops every occurrence of the root. With root
  `/a`, the file `/a/x/a/y` becomes `/x/y`, so it gets one `../` where the
  true depth is 2, and relative name `x/y`. The model does the same.
  `LinuxRpath.RpathPerLevel`, `InstallNames.NamesForNestedFile` and
  `Paths.BelowRoot` require that the root does not recur below itself,
  because only then does the depth match the directory levels.
- The depth computation accepts any string. The model does not reject
  malformed input either.

## Model

| member | source | states |
|---|---|---|
| Strings.Split | build.py:49 | `split` on one character yields one more piece than there are separators, no piece holds the separator, and joining the pieces restores the text |
| Strings.SplitJoin | build.py:434 | splitting the newline-joined lines of a listing gives back exactly those lines (inverse of `join`) |
| Strings.SplitTrailing | build.py:434 | text ending in a separator splits into the pieces of the text before it plus one final empty piece |
| Strings.StripKeepsMiddle | build.py:49 | `strip()` keeps one contiguous slice of the line and removes only whitespace before and after it |
| Strings.BeforeSpace | build.py:434 | `partition(" ")[0]` is the longest prefix without a space, and it is followed by a space unless it is the whole text |
| Strings.ReplaceAbsent | build.py:411 | `replace` leaves text without the target unchanged |
| Strings.ReplacePiece | build.py:388 | `replace` copies a target-free stretch, replaces the occurrence that ends it, and carries on with the rest |
| Strings.ReplaceJoin | build.py:388 | `replace` replaces every occurrence: target-free pieces joined by the target come out joined by the replacement |
| Strings.Strip | build.py:49 | the result of `strip()` is no longer than the line and neither starts nor ends with whitespace |
| Paths.PathJoinOneSlash | build.py:55 | an absolute second part replaces the first; otherwise the join is the first part, then the second, with a `/` right before the second when the first is non-empty, and one character is added exactly when the first part is non-empty and does not already end in `/` |
| Paths.MakeLayout | build.py:155-163 | for a root that does not end in `/` and names without `/`, the staging, package, package-library and dependency directories are the `/`-separated concatenations of their components, with the upper-cased repository name |
| Paths.JoinCopies | build.py:440 | joining `n` copies of a plain component onto a base appends `/component` `n` times |
| Paths.BelowRoot | build.py:411 | removing the root from `root/d1/.../name` leaves `/d1/.../name`, whose joined part has exactly one `/` per directory |
| Ordering.SortedSet | build.py:405 | `sorted(set(xs))` is strictly ascending and holds exactly the strings of `xs` |
| Ordering.SortedEnumerationUnique | build.py:456 | two strictly ascending lists with the same members are equal, so the candidate order depends only on the set |
| Ordering.LessTotal | build.py:405 | Python's string order is total on distinct strings |
| Discovery.DropEmpty | build.py:49 | `filter(None, ...)` keeps exactly the non-empty strings and never lengthens the list |
| Discovery.FindExec | build.py:44-49 | every entry is non-empty with no whitespace at either end; every line with a non-blank part contributes its stripped form, and every entry comes from some line |
| Discovery.FilesWithExt | build.py:55 | a joined path is listed exactly when some file of the directory ends with the extension and joins onto the directory to give it |
| Discovery.FindExt | build.py:51-56 | a path is found exactly when some walked directory has a file ending with the extension that joins to it |
| Discovery.Candidates | build.py:400-404 | the union of the three searches, strictly ascending, holding exactly what any of them found |
| Discovery.DiscoverTargets | build.py:400-405 | the candidates are strictly ascending, and a path is a candidate exactly when `find -executable` printed it or it is a `.so` or `.dylib` file of the walk |
| Rewrite.SubAnchored | build.py:484 | an anchored `re.sub` looks only at the first pattern-length characters: on a match exactly they are replaced and the rest is kept, otherwise nothing changes |
| Rewrite.ApplyNoMatch | build.py:483-484 | when no rule matches, the loop leaves the reference unchanged |
| Rewrite.ApplyAllAppend | build.py:483-484 | the loop is sequential: running two lists of rules in a row is running their concatenation |
| Rewrite.ApplyUniqueMatch | build.py:483-484 | with pairwise-diverging patterns whose outputs no pattern matches, the single rule that matches decides the result, wherever it sits in the order |
| Rewrite.RewriteChanges | build.py:483-485 | a reference changes exactly when some rule matches it, and a changed reference is matched by no rule |
| Rewrite.RewriteOrderIrrelevant | build.py:483-484 | any two orders of the same well-formed rules rewrite every reference alike |
| Rewrite.RewriteIdempotent | build.py:483-484 | rewriting a rewritten reference changes nothing |
| Rewrite.TableWellFormed | build.py:169-178 | for a root starting with `/`, the table's patterns pairwise disagree at a literal character, and none matches text starting with `@` |
| Rewrite.TableAtMostOneMatch | build.py:169-178 | no reference is matched by two different entries of the table |
| Rewrite.TablePatternHeads | build.py:171-177 | the literal characters where the five keys of the table part ways: `/` then `l` or `b` after the root for the two root keys, and `b`, `E`, `G` at the fourth position of the three library keys |
| Rewrite.TableReplacementsAreRpath | build.py:171-177 | every replacement of the table starts with `@rpath/` |
| Rewrite.TableOrderIrrelevant | build.py:483-484 | every iteration order of the dictionary rewrites a reference to the same result |
| Rewrite.TableIdempotent | build.py:483-484 | in any order, running the table over its own output changes nothing |
| Rewrite.TableRewritesToRpath | build.py:169-178 | the table changes a reference exactly when one of its five patterns matches it, and a changed reference starts with `@rpath/` |
| Rewrite.TableKeepsEmpty | build.py:434 | the empty entry after a trailing newline is never rewritten |
| Commands.Argv | build.py:419-487 | the argument vector of each tool call passed to `cmd` (lines 419, 471, 477 and 487) ends with the file it edits, names `patchelf` or `install_name_tool`, and parses back to the same command |
| Commands.CommandsFor | build.py:456-488 | the commands that edit one file, kept in order: a command is selected exactly when it is in the list and edits that file |
| LinuxRpath.SkipReasons | build.py:406-410 | a path containing `.py`, or inside the bundled Python tree, is passed over |
| LinuxRpath.Depth | build.py:411-412 | the depth is the number of `/` in the root-relative path minus one, and never below -1 |
| LinuxRpath.OriginsJoined | build.py:413-416 | the two origins joined with `:` give `$ORIGIN/:$ORIGIN/`, then `../` depth times (none for depth 0 or less), then `extlib/lib/` |
| LinuxRpath.RpathFor | build.py:411-419 | a target's search path climbs one `../` per `/` in its root-relative path beyond the first, then enters `extlib/lib/` |
| LinuxRpath.RpathPerLevel | build.py:411-416 | a file `root/d1/.../dn/name` gets exactly `n` copies of `../` |
| LinuxRpath.RpathTopLevel | build.py:411-416 | a file directly in the root gets `$ORIGIN/:$ORIGIN/extlib/lib/` |
| LinuxRpath.RpathOfRoot | build.py:411-416 | the root directory itself has depth -1 and gets no `../` |
| LinuxRpath.PlanTargets | build.py:405-419 | every command is `--set-rpath` with the target's own search path, for a listed target that is neither in the bundled Python tree nor contains `.py`; every other listed target gets its command |
| LinuxRpath.PlanSorted | build.py:405 | ascending candidates give commands in ascending file order |
| LinuxRpath.FixLinuxRpath | build.py:397-421 | exactly the discovered, non-skipped candidates are edited, each with its depth's search path, in strictly ascending order |
| LinuxRpath.EachFileOnce | build.py:405 | no file is edited twice |
| InstallNames.InstallNameOf | build.py:434 | a listing line's install name is the stripped line up to its first space: it has no space, it starts the stripped line, and it is followed by a space unless it is the whole stripped line |
| InstallNames.FindDeps | build.py:427-435 | a file is skipped exactly when `otool` fails or prints `not an object file`; otherwise there is one entry per newline, entry `i` being the install name of line `i + 1` (the header line is dropped), with an empty last entry when the output ends in a newline |
| InstallNames.FindDepsListing | build.py:429-435 | reading back a listing of install names, each followed by its version note, gives those names and then one empty entry |
| InstallNames.RelativeName | build.py:466 | after every occurrence of the root is removed, exactly the first character of what is left is dropped; nothing is left of an empty remainder |
| InstallNames.IdRpath | build.py:437-441 | the anchor is `@loader_path` followed by one `/..` per `/` in the relative name |
| InstallNames.InstallId | build.py:469 | the identity is `@rpath/` plus the relative name, unless that name is absolute |
| InstallNames.NamesForNestedFile | build.py:466-475 | a file `root/d1/.../dn/name` has relative name `d1/.../dn/name`, identity `@rpath/d1/.../dn/name` and exactly `n` copies of `/..` in its anchor |
| InstallNames.AnchorOfTopLevelFile | build.py:437-441 | a file directly in the root is anchored at plain `@loader_path` |
| InstallNames.MacScenario | build.py:456-488 | root `/stage/EMAN2`, file `lib/foo.so`, one rule for `/stage/local/`: identity `@rpath/lib/foo.so`, anchor `@loader_path/..`, and a change for the `/stage/local/` reference only |
| InstallNames.Changes | build.py:481-488 | every `-change` is from a reference of the file to its different rewritten form, and every reference the rules change gets one |
| InstallNames.ChangesMembers | build.py:481-488 | `-change old new` is issued exactly when `old` is a reference and `new` is its rewritten form, different from `old` |
| InstallNames.ChangesAppend | build.py:481 | the changes follow the order of the references |
| InstallNames.PlanFile | build.py:459-488 | a file `otool` does not recognise gets no command at all, and every command edits the file itself |
| InstallNames.FilePlanContents | build.py:466-488 | a recognised file's commands are its `-id` first, its `-add_rpath` second, and after them only `-change` calls, in reference order, one for exactly each reference the rules rewrite |
| InstallNames.PlanTargets | build.py:456-488 | every command edits one of the candidates |
| InstallNames.PlanSound | build.py:459-462 | only recognised files are edited, and only with commands of their own plan |
| InstallNames.PlanComplete | build.py:456-488 | every command of every candidate's plan is issued |
| InstallNames.PlanAscending | build.py:456 | commands come one file at a time, files in ascending order |
| InstallNames.PlanOrderIrrelevant | build.py:483-484 | the whole plan is the same for every iteration order of the table |
| InstallNames.SecondPassChangesNothing | build.py:481-488 | references already rewritten by the table need no further change |
| InstallNames.PlanPerFile | build.py:456-488 | for ascending candidates, the commands that edit one candidate are exactly that candidate's plan, in the same order |
| InstallNames.FixInstallNames | build.py:443-488 | every command belongs to the plan of a discovered candidate that `otool` recognises, every command of every candidate's plan is issued, files come in ascending order, and the commands for each candidate are exactly its own plan in its order |
| Interpreter.FixShebang | build.py:373-374 | only the first line can change; it becomes `#!<python>` exactly when it starts with `#!` and contains `python`; an empty file is left alone |
| Interpreter.FixShebangIdempotent | build.py:373-376 | running the fix-up twice equals running it once |
| Interpreter.FixShebangStable | build.py:373-374 | when the interpreter's path names `python`, a rewritten first line still qualifies |
| Interpreter.PlanFiles | build.py:369-376 | exactly the listed files whose first line qualifies are written back, each with its fixed lines |
| Interpreter.FixInterpreter | build.py:365-376 | exactly the found `.py` files with a qualifying first line are written back, each with its fixed lines |
| Links.LinkName | build.py:388 | a name without `.dylib` is its own link name |
| Links.LinkNameOfLibrary | build.py:388 | `stem.dylib` (no other `.dylib` in it) is linked as `stem.so` |
| Links.LinkNameOfParts | build.py:388 | every `.dylib` in a name is replaced, not only the suffix: pieces joined by `.dylib` come out joined by `.so` |
| Links.PlanLinks | build.py:385-388 | exactly the listed names ending in `.dylib` and not starting with `.` get a link, under their link name |

## Left out

- Running the tools (`cmd`, `check_output`, build.py:75-104) is not modelled. The plan is the list of calls. `cmd` only warns on a non-zero exit status, so the `try`/`except` blocks around it matter only when a tool cannot be started. The model does not track per-call failure.
- A failing `find` is not modelled. `find_exec` runs it through `check_output` (build.py:47, 92-104), so a non-zero exit raises out of `FixLinuxRpath.run` or `FixInstallNames.run` before any command is issued. The model takes the text `find` prints as always available.
- The filesystem is not modelled. This covers `os.walk`, `find -executable`, reading and writing Python files, `os.chdir` and `os.symlink`. Their results are inputs, and their effects are the returned plans.
- The `print(target)` for skipped files of the bundled Python tree is output only, and is not modelled.
- The copy of the dependency prefix (`CopyExtlib`) is not modelled. Neither are the shell-profile templates (`CopyShrc`), checkout, CMake build, packaging and upload, or platform detection and argument parsing. None of them decides a relocation edit.
- Rewrite.Compile: only `.` is read as a wildcard. The build root and the distribution name (repository and release, build.py:172) are spliced into the patterns unescaped. Any other regular-expression metacharacter in either (for example `+` or `(`) would stand for itself in the model but not in `re`. The table's fixed patterns contain no such characters.
- Rewrite.TableWellFormed: assumes the build root starts with `/`. A relative root could make the first two patterns match `@` text.
- Paths.MakeLayout: states the plain form only of the five directories the relocation steps use. `co`, `co/<dist>`, `build/<dist>` and `images/<dist>` use the same joins and are not stated.
- Strings.Upper: ASCII letters only, as `str.upper` behaves on byte strings in the C locale.
- Links.PlanLinks: the order of `glob` is taken as given. Links that already exist (the swallowed `OSError`) are not modelled.
- InstallNames.PlanFile: its own contract states only which files are skipped and that every command edits the file. The order inside the plan (`-id`, `-add_rpath`, then the changes) is stated by `InstallNames.FilePlanContents`.
- InstallNames.PlanTargets: states only that each command edits a candidate. What each candidate gets is stated by `InstallNames.PlanSound`, `InstallNames.PlanComplete` and `InstallNames.FilePlanContents`.
