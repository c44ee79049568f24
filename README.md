# php-scriptify, modelled in Dafny

php-scriptify turns a PHP class method into an operating-system service. It
also offers an interactive PHP terminal that runs inside a service's
environment. This project models the decision logic of both halves. The model
leaves out the side effects.

- **The terminal loop** (`Repl`, `repl.dfy`). Lines are appended to a buffer.
  A textual test decides whether the buffer is still open: an unclosed `{`,
  `[` or `(`, or an odd count of quotes. While it is open, the loop shows the
  continuation prompt `php* ` instead of `php> `. A complete buffer is trimmed
  and discarded if blank. Otherwise it is wrapped as `return (...);` when it
  does not end in `;` or `}`, then handed to the evaluator. After that the
  buffer is cleared. `exit` and `quit` end the loop, and so does the end of
  input.
  - The loop is a step function over a session: `Step`, `Run` and `Transcript`.
  - The imperative `StartRepl` mirrors the PHP `while` loop. It is proved to
    produce exactly the transcript of that step function.
- **The environment file** (`EnvFile`, `env_file.dfy`). A service's
  `KEY=VALUE` file is parsed as follows:
  - blank lines, `#` comments and lines without `=` are skipped;
  - an `export ` prefix is dropped;
  - the line is split at the first `=`, and key and value are trimmed;
  - one matching pair of quotes is removed from the value;
  - a later key overwrites an earlier one.

  `ParseEnvFile` is the PHP `foreach` loop. It is proved equal to the function
  `ParseContent`, and the properties are proved about that function.
  `LoadEnvironment` lays command-line values over the file's values.
- **Install** (`Scriptify`, `scriptify.dfy`). This is the string assembly and
  the decision that `Scriptify::install` makes:
  - the template table and its target paths;
  - the environment-file path;
  - the `--args` string;
  - the class string with its backslashes doubled;
  - the `k="v"` environment command line;
  - the ordered checks that reject a request.

  An accepted install is the list of writes it performs. The template renderer
  is a parameter.
- **Uninstall and listing** (`ServiceFiles`, `service_files.dfy`). A
  `FileSystem` object holds a map from path to contents.
  - `Uninstall` walks the five candidate paths in order. It removes each one
    that exists, refuses at the first guarded file that lacks the
    `PHP_SCRIPTIFY` marker, and fails when nothing was found.
  - `ListServices` turns marker-bearing files into `"<type>: <name>"` lines.
  - Both methods are proved equal to specification functions, and the lemmas
    state what those functions promise.
- **PHP built-ins** (`Text`, `text.dfy`). The PHP string built-ins the code
  relies on are modelled by their PHP meaning: `trim`, `substr_count`,
  `str_replace`, `explode`, `implode` and `basename`.

The guard in `uninstall` is `strpos($service, ".env") === false`, which looks
at the whole path. So for a service whose *name* contains `.env`, no candidate
is guarded and the marker is never checked. The model keeps this as written;
`EnvInNameDisablesGuard` states it.

## Model

| member | source | states |
|---|---|---|
| Repl.QuoteCount | src/Console/TerminalCommand.php:230-231 | the quote count (quotes minus backslash-quote pairs) is never negative and never above the number of quotes, so its parity is the same under PHP's `%` |
| Repl.Incomplete | src/Console/TerminalCommand.php:225-234 | a buffer can be open only if it holds an opening bracket or a quote character |
| Repl.AppendLineCounts | src/Console/TerminalCommand.php:221-231 | appending a line and its newline to a newline-terminated buffer adds exactly the line's bracket counts and quote counts; no escaped quote straddles lines |
| Repl.NegativeSurplusIsComplete | src/Console/TerminalCommand.php:225-237 | more closers than openers (`}` alone, `)]` alone) leave the buffer complete |
| Repl.EscapedBackslashKeepsBufferOpen | src/Console/TerminalCommand.php:230-234 | the quote test is textual: `'a\\'` counts as an escaped quote and keeps the buffer open |
| Repl.OpenCallIsIncomplete | src/Console/TerminalCommand.php:227-237 | a line ending in an open call `f(` leaves the buffer incomplete |
| Repl.Wrap | src/Console/TerminalCommand.php:249-252 | the result always ends in `;` or `}`; the code is unchanged iff it already does; otherwise the result is `return (` + code + `);` |
| Repl.Report | src/Console/TerminalCommand.php:255-268 | nothing is shown iff the evaluator returned null; a value is shown as its text; a parse error is shown with its message; any other throwable is one error event carrying its class, message, file and line, which the source prints on two lines; no outcome adds history, evaluation or prompt events |
| Repl.Step | src/Console/TerminalCommand.php:205-271 | the loop stops iff the trimmed line is `exit` or `quit`, after recording it in history; otherwise the buffer grows by the line and a newline: if that is incomplete it is kept and the prompt becomes `php* `; if it is complete and blank it is cleared without evaluation; otherwise it is cleared, its trimmed and wrapped text is evaluated and the outcome's report follows the evaluation |
| Repl.StepEvents | src/Console/TerminalCommand.php:211-271 | in one pass, history gets only the line itself, and only when it is not blank; every evaluated unit ends as a statement and leaves the buffer empty |
| Repl.StepKeepsValid | src/Console/TerminalCommand.php:233-246 | after a pass that does not exit, the multiline flag equals the buffer's incompleteness, and a closed buffer is empty |
| Repl.StartRepl | src/Console/TerminalCommand.php:182-275 | the loop returns 0 and produces exactly the transcript of the step function on the input lines |
| Repl.Run | src/Console/TerminalCommand.php:197-272 | every pass of the loop, from any session, starts by prompting with that session's prompt, `php* ` while a buffer is open |
| Repl.Transcript | src/Console/TerminalCommand.php:194-272 | a fresh session starts with an empty buffer, so the first event is the `php> ` prompt |
| Repl.HistoryNeverBlank | src/Console/TerminalCommand.php:211-213 | over a whole session, no blank line ever reaches history |
| Repl.EvaluatedUnitsAreStatements | src/Console/TerminalCommand.php:249-255 | over a whole session, every unit handed to the evaluator ends in `;` or `}` |
| Repl.ReachableSessionsValid | src/Console/TerminalCommand.php:194-246 | every session reachable from a consistent one keeps the prompt flag and the buffer in agreement |
| Repl.PromptAfterLine | src/Console/TerminalCommand.php:199-239 | after a line that does not exit, the next prompt is `php* ` exactly when the buffer grown by that line is incomplete, and `php> ` otherwise |
| Repl.ExitIgnoresRest | src/Console/TerminalCommand.php:216-218 | nothing after an exit line is read: the lines that follow it do not change the transcript |
| EnvFile.Unquote | src/Console/TerminalCommand.php:139-142 | unquoting never lengthens the value, and it changes the value only when the value starts and ends with the same quote character |
| EnvFile.UnquoteQuoted | src/Console/TerminalCommand.php:139-142 | a value wrapped in one matching pair of `"` or `'` loses exactly that pair |
| EnvFile.UnquoteUnquoted | src/Console/TerminalCommand.php:139-142 | a value that does not both start and end with the same quote character (`"` or `'`) is kept as it is |
| EnvFile.ParseLineSkips | src/Console/TerminalCommand.php:120-136 | a line without `=`, a blank or `0` line, and a `#` comment define nothing |
| EnvFile.ParseLine | src/Console/TerminalCommand.php:120-144 | a parsed key contains no `=` and has no surrounding whitespace |
| EnvFile.ParseDefinition | src/Console/TerminalCommand.php:133-144 | a text defines something iff it contains `=`; the key is the trimmed text before the first `=`, so it holds no `=` and no surrounding whitespace |
| EnvFile.ReadLine | src/Console/TerminalCommand.php:120-144 | the statements of the loop body give exactly the line's definition, if any |
| EnvFile.ParseEnvFile | src/Console/TerminalCommand.php:109-149 | the loop over the file's lines builds exactly the parsed map; unreadable content gives the empty map |
| EnvFile.CollectedKeys | src/Console/TerminalCommand.php:119-146 | a key is in the folded map iff some definition names it |
| EnvFile.LastCollectedWins | src/Console/TerminalCommand.php:144 | the folded value of a key is the value of its last definition |
| EnvFile.ParsedKeys | src/Console/TerminalCommand.php:118-148 | a key is in the parsed map iff some line of the file defines it |
| EnvFile.LastDefinitionWins | src/Console/TerminalCommand.php:118-148 | when a key is defined several times, the last definition wins |
| EnvFile.ParseAssignment | src/Console/TerminalCommand.php:120-144 | a `key="value"` line, with or without `export `, parses back to that key and value |
| EnvFile.ParsePaddedLine | src/Console/TerminalCommand.php:120-144 | a `key = value` line, with any whitespace around the line, the key, the `=` and the value, and with or without `export `, parses to that key and the unquoted value (a key named `export` followed by a space is read as the prefix) |
| EnvFile.LoadEnvironment | src/Console/TerminalCommand.php:81-104 | the keys are those of the file and of the command line; a command-line value overrides the file's value; without command-line values the file's map is returned |
| Scriptify.TargetPath | src/Scriptify.php:40-53 | a target path exists iff the template is one of initd, crond, upstart, systemd |
| Scriptify.UnknownTemplateMessageLists | src/Scriptify.php:46-51 | the rejection names the template and lists `initd,crond,upstart,systemd` |
| Scriptify.ConsoleArgs | src/Scriptify.php:76-79 | the argument string is empty iff there are no arguments |
| Scriptify.ConsoleArgsAreFlags | src/Scriptify.php:76-79 | the argument string is the `--args <a>` flags of the arguments, separated by single spaces |
| Scriptify.EscapeClass | src/Scriptify.php:88 | doubling backslashes lengthens the class string by its number of backslashes |
| Scriptify.UnescapeEscapeClass | src/Scriptify.php:88-119 | the install check's un-doubling gives back exactly the class name written into the template |
| Scriptify.EnvCmdLine | src/Scriptify.php:96-110 | the environment command line is empty iff there are no variables |
| Scriptify.EnvCmdLineAppend | src/Scriptify.php:96-110 | the command line of two environments is theirs joined by one space |
| Scriptify.EnvCmdLineSplits | src/Scriptify.php:96-110 | without spaces in keys and values, splitting the command line at spaces gives back the `k="v"` assignments in order |
| Scriptify.TemplateVars | src/Scriptify.php:76-111 | the template sees the class name with backslashes doubled (which reads back as the class name), the service name, the resolved root and autoloader path (empty when unresolved), the environment-file path of the service, the argument flags, and the `k="v"` command line of the environment, empty iff there are no variables |
| Scriptify.InstallError | src/Scriptify.php:40-74 | an unknown template is rejected first, with the listing message; an install passes iff the template is known, its template file exists and, when checking, the root resolves, the bootstrap file exists and the autoloader is found |
| Scriptify.Install | src/Scriptify.php:28-133 | an install fails iff a check fails, with that check's message and no writes; otherwise it writes the environment file first, then the rendered service file at the template's target path, with no mode change |
| ServiceFiles.InstallPathsAreCandidates | src/Scriptify.php:40-53 | every file an install writes is a path that uninstall looks at |
| ServiceFiles.IsScriptifyService | src/Scriptify.php:167-178 | a file counts as a service only if it exists and is at least as long as the `PHP_SCRIPTIFY` marker |
| ServiceFiles.Candidates | src/Scriptify.php:141-147 | uninstall looks at five different paths, the environment file fourth |
| ServiceFiles.Walk | src/Scriptify.php:149-162 | the walk only ever removes files, and its only errors are "does not exists" and "was not created by Scriptify" |
| ServiceFiles.FileSystem.Uninstall | src/Scriptify.php:139-165 | the loop leaves exactly the files and raises exactly the error of the candidate walk |
| ServiceFiles.MessagesDiffer | src/Scriptify.php:154-161 | the two uninstall errors are distinguishable |
| ServiceFiles.WalkMissing | src/Scriptify.php:149-162 | the walk reports "does not exists" iff nothing was found before and none of the paths exists |
| ServiceFiles.WalkSucceeds | src/Scriptify.php:149-162 | a walk succeeds iff something was found and no existing path is guarded and unmarked; a successful walk removes exactly the walked paths and keeps every other file |
| ServiceFiles.WalkRefuses | src/Scriptify.php:150-157 | a refused walk stops at an existing, guarded, unmarked path; every earlier existing path is removed and stays removed |
| ServiceFiles.WalkRefusesExactly | src/Scriptify.php:149-157 | a walk refuses iff one of the walked paths exists, is guarded and lacks the marker |
| ServiceFiles.UninstallMissing | src/Scriptify.php:141-162 | uninstall fails with "does not exists" iff none of the five candidates exists |
| ServiceFiles.UninstallSucceeds | src/Scriptify.php:141-162 | uninstall succeeds iff some candidate exists and none is an existing guarded candidate without the marker; it then removes exactly the candidates and keeps every other file |
| ServiceFiles.UninstallRefuses | src/Scriptify.php:141-157 | a refused uninstall stopped at the first existing guarded candidate without the marker; the existing candidates before it are deleted |
| ServiceFiles.UninstallRefusesExactly | src/Scriptify.php:141-157 | uninstall refuses iff some candidate exists, is guarded and lacks the marker |
| ServiceFiles.EnvInNameDisablesGuard | src/Scriptify.php:153 | when the service name contains `.env`, uninstall never refuses a file for lacking the marker |
| ServiceFiles.EnvironmentFileUnguarded | src/Scriptify.php:145-153 | the environment-file candidate is never checked for the marker |
| ServiceFiles.UninstallWritten | src/Scriptify.php:141-162 | on a system without the service's files, after the environment file and a marked file at a candidate path are written, uninstall succeeds and removes exactly those two |
| ServiceFiles.InstallThenUninstall | src/Scriptify.php:28-165 | on a system without the service's files, uninstalling what a successful install wrote (with a marked template) succeeds and restores the original files |
| ServiceFiles.FileSystem.ListServices | src/Scriptify.php:181-209 | the nested loops return exactly the listing of the marker-bearing files, type by type |
| ServiceFiles.ListedMembers | src/Scriptify.php:192-205 | a line is listed for a type iff some listed file carries the marker and its stripped name gives that line |
| ServiceFiles.ServiceName | src/Scriptify.php:193-203 | the listed name of a path never contains `/` |
| ServiceFiles.ListingOrder | src/Scriptify.php:183-208 | the listing is the initd lines, then crond, then upstart, then systemd |
| ServiceFiles.NameOfTarget | src/Scriptify.php:193-203 | for a plain service name, stripping `.conf` and `.service` from the basename of any target path gives back the name |
| ServiceFiles.InstalledServiceIsListed | src/Scriptify.php:181-208 | a marked service file at its target path, returned by the type's directory listing, is listed as `"<type>: <name>"` |

## Left out

- Output of the terminal: the banner, the newline echoed at end of input, and `var_export` formatting. The evaluator returns the displayed text directly.
- `readline`, `readline_add_history` and the completion callback. The input is a sequence of lines, and the completion callback always returns no candidates.
- `eval`: the evaluator is a function of the units already evaluated and the new unit. This stands for variables persisting in the loop's scope, which PHP itself holds.
- `eval` runs in `startRepl`'s own scope, so an evaluated unit can assign `$buffer`, `$inMultiline`, `$line` or `$code`, and `exit;` ends the whole process. The model's evaluator cannot touch the loop's state. Repl.StepKeepsValid and Repl.ReachableSessionsValid hold only for code that leaves those variables alone and does not exit.
- `putenv`, `$_ENV`, the `require_once` of the autoloader, and the `discoverAutoload` file probing in the `execute` command. These are process and file-system effects.
- The console messages printed while loading the environment.
- EnvFile.LoadEnvironment: `parse_str` decoding of the `--env` options is the parameter `decode`. The model keeps PHP string keys; integer-like keys, which `array_merge` renumbers, are not modelled.
- EnvFile.ParseEnvFile: a file that cannot be read is given as absent content (`None`); the model leaves out how `file_get_contents` fails.
- Scriptify.Install: the `class_exists`/`method_exists` reflection check (lines 117-128) is not modelled. Where the source throws "Could not find class/method", the model accepts the install.
- Scriptify.InstallError: for the same reason, its "passes iff" leaves out the reflection check; a request that passes here can still fail in the source for a missing class or method.
- Scriptify.Install: Jinja rendering is the parameter `render`.
- Scriptify.Install: the initd `chmod` is never applied, because the comparison at line 131 sees the rendered template object. So the service write's mode is always `None`.
- Scriptify.Install: `realpath` and the two-location autoloader probe are abstracted into `Host.realRoot` and `Host.autoload`. An unresolved path reaches the template as the empty string.
- `ServiceWriter` and `http_build_query`: the environment write is applied through an `encode` parameter, and only in the lemma `InstallThenUninstall`.
- ServiceFiles.FileSystem.ListServices: `glob` is the parameter `glob`, and its sorting and hidden-file rules are the host's. The model skips a path that is not a readable file. In the source, a directory or an unreadable file makes `file_get_contents` warn, the error handler installed by `isScriptifyService` throws, and the whole listing aborts.
- ServiceFiles.FileSystem.Uninstall: an `unlink` or `file_get_contents` that fails and raises through the temporary error handler is not modelled; every existing file can be read and removed.
- The Symfony command classes, `configure`/`execute`, and the services and uninstall commands. They are command-line dispatch only.
