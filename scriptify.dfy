/*
 * Installing a service: the table of templates and target paths, the strings
 * handed to the template renderer, and the two writes an accepted install
 * performs. Rendering and the files themselves are abstract: the renderer is a
 * parameter, and the writes are returned as values for a file system to apply.
 */
module Scriptify {
  import opened Wrappers
  import opened Text

  /** The templates an install accepts, in the order the error message lists them. */
  const TemplateNames: seq<string> := ["initd", "crond", "upstart", "systemd"]

  /** Where the service definition of `name` goes for each template; `None` for an unknown one. */
  function TargetPath(template: string, name: string): (r: Option<string>)
    ensures r.Some? <==> template in TemplateNames
  {
    match template
    case "initd" => Some("/etc/init.d/" + name)
    case "crond" => Some("/etc/cron.d/" + name)
    case "upstart" => Some("/etc/init/" + name + ".conf")
    case "systemd" => Some("/etc/systemd/system/" + name + ".service")
    case _ => None
  }

  /** The environment file of a service, whatever its template. */
  function EnvironmentFile(name: string): string {
    "/etc/scriptify/" + name + ".env"
  }

  function UnknownTemplateMessage(template: string): string {
    "Template " + template + " does not exists. Available templates are: " + Join(",", TemplateNames)
  }

  /** The message names the rejected template and every accepted one, comma separated. */
  lemma UnknownTemplateMessageLists(template: string)
    ensures UnknownTemplateMessage(template) ==
            "Template " + template + " does not exists. Available templates are: initd,crond,upstart,systemd"
  {
    var names := TemplateNames;
    assert names[1..] == ["crond", "upstart", "systemd"];
    assert names[1..][1..] == ["upstart", "systemd"];
    assert names[1..][1..][1..] == ["systemd"];
  }

  /** The path of the template file of `template` inside the package directory. */
  function TemplatePath(packageDir: string, template: string): string {
    packageDir + "/../template/linux-" + template + "-service.jinja"
  }

  // ---------------------------------------------------------------------------
  // Strings handed to the template

  /** The console arguments as one string: nothing, or each argument after `--args `. */
  function ConsoleArgs(args: seq<string>): (r: string)
    ensures args == [] <==> r == []
  {
    if args == [] then "" else "--args " + Join(" --args ", args)
  }

  /** One `--args <value>` flag per argument. */
  function Flags(args: seq<string>): seq<string> {
    seq(|args|, i requires 0 <= i < |args| => "--args " + args[i])
  }

  /** The console arguments are the flags of the arguments, separated by single spaces. */
  lemma {:induction false} ConsoleArgsAreFlags(args: seq<string>)
    ensures ConsoleArgs(args) == Join(" ", Flags(args))
    decreases |args|
  {
    if |args| >= 2 {
      var rest := args[1..];
      assert Flags(args)[1..] == Flags(rest);
      ConsoleArgsAreFlags(rest);
      assert ConsoleArgs(rest) == "--args " + Join(" --args ", rest);
      calc {
        ConsoleArgs(args);
        "--args " + (args[0] + " --args " + Join(" --args ", rest));
        ("--args " + args[0]) + " " + ("--args " + Join(" --args ", rest));
        Flags(args)[0] + " " + Join(" ", Flags(rest));
      }
    }
  }

  /** The class string as the template receives it: every backslash doubled. */
  function EscapeClass(className: string): (r: string)
    ensures |r| == |className| + Count(className, '\\')
  {
    EscapeLength(className);
    ReplaceAll(className, "\\", "\\\\")
  }

  lemma {:induction false} EscapeLength(s: string)
    ensures |ReplaceAll(s, "\\", "\\\\")| == |s| + Count(s, '\\')
    decreases |s|
  {
    if s != [] {
      EscapeLength(s[1..]);
    }
  }

  /** How the install check reads the class string back: every doubled backslash made single. */
  function UnescapeClass(escaped: string): string {
    ReplaceAll(escaped, "\\\\", "\\")
  }

  /** Reading the class string back gives the class name that was written. */
  lemma {:induction false} UnescapeEscapeClass(className: string)
    ensures UnescapeClass(EscapeClass(className)) == className
    decreases |className|
  {
    var s := className;
    if s != [] {
      var tail := ReplaceAll(s[1..], "\\", "\\\\");
      UnescapeEscapeClass(s[1..]);
      if s[0] == '\\' {
        var e := "\\\\" + tail;
        assert ReplaceAll(s, "\\", "\\\\") == e;
        assert e[..2] == "\\\\" && e[2..] == tail;
        assert UnescapeClass(e) == "\\" + UnescapeClass(tail);
        assert s == [s[0]] + s[1..];
      } else {
        var e := [s[0]] + tail;
        assert ReplaceAll(s, "\\", "\\\\") == e;
        if |e| >= 2 {
          assert e[..2] != "\\\\" by { assert e[0] == s[0]; }
          assert e[1..] == tail;
        } else {
          assert tail == [] && s[1..] == [];
        }
        assert UnescapeClass(e) == [s[0]] + UnescapeClass(tail);
        assert s == [s[0]] + s[1..];
      }
    }
  }

  /** One environment variable as the service command line sets it: `key="value"`. */
  function Assignment(key: string, value: string): string {
    key + "=\"" + value + "\""
  }

  function Assignments(environment: seq<(string, string)>): seq<string> {
    seq(|environment|, i requires 0 <= i < |environment| => Assignment(environment[i].0, environment[i].1))
  }

  /**
   * The environment command line: the assignments in order, separated by
   * single spaces. It is empty exactly when there is no variable to set.
   */
  function EnvCmdLine(environment: seq<(string, string)>): (r: string)
    ensures r == [] <==> environment == []
  {
    var parts := Assignments(environment);
    if |parts| >= 2 then
      assert parts == [parts[0]] + parts[1..];
      JoinAppend(" ", [parts[0]], parts[1..]);
      Join(" ", parts)
    else
      Join(" ", parts)
  }

  /** The command line of two environments is theirs joined by one space. */
  lemma EnvCmdLineAppend(a: seq<(string, string)>, b: seq<(string, string)>)
    requires a != [] && b != []
    ensures EnvCmdLine(a + b) == EnvCmdLine(a) + " " + EnvCmdLine(b)
  {
    assert Assignments(a + b) == Assignments(a) + Assignments(b);
    JoinAppend(" ", Assignments(a), Assignments(b));
  }

  /**
   * When no key and no value holds a space, the command line splits at its
   * spaces back into the assignments, in order.
   */
  lemma EnvCmdLineSplits(environment: seq<(string, string)>)
    requires forall p <- environment :: ' ' !in p.0 && ' ' !in p.1
    ensures Split(EnvCmdLine(environment), ' ') == if environment == [] then [""] else Assignments(environment)
  {
    var parts := Assignments(environment);
    if environment != [] {
      forall k | 0 <= k < |parts|
        ensures ' ' !in parts[k]
      {
        assert environment[k] in environment;
      }
      SplitJoin(parts, ' ');
    }
  }

  // ---------------------------------------------------------------------------
  // The install decision

  /** What an install is asked to do. */
  datatype Request = Request(
    name: string,
    className: string,
    bootstrap: string,
    rootDir: string,
    template: string,
    description: string,
    consoleArgs: seq<string>,
    environment: seq<(string, string)>,
    check: bool)

  /**
   * What an install learns from the host: which files exist, where the
   * package is, the resolved root directory and autoloader (`None` when they
   * do not resolve), the PHP binary and the path of the runner script.
   */
  datatype Host = Host(
    existing: set<string>,
    packageDir: string,
    realRoot: Option<string>,
    autoload: Option<string>,
    phpBinary: string,
    scriptifyService: string)

  /** The variables handed to the template renderer. */
  datatype Vars = Vars(
    description: string,
    daemonBootstrap: string,
    className: string,
    bootstrap: string,
    svcName: string,
    rootPath: string,
    consoleArgs: string,
    environment: string,
    phpPath: string,
    scriptifyService: string,
    envCmdLine: string)

  /** The template file (by path) and its variables rendered as text. */
  type Renderer = (string, Vars) -> string

  /** A file an install writes; the service file carries the mode it is given, if any. */
  datatype Write =
    | EnvironmentWrite(path: string, environment: seq<(string, string)>)
    | ServiceWrite(path: string, contents: string, mode: Option<int>)

  /** A path that does not resolve reaches the template as the empty string. */
  function OrEmpty(s: Option<string>): string {
    if s.Some? then s.value else ""
  }

  /**
   * The variables of an install: the class string is the class name with its
   * backslashes doubled, which the install check reads back as the class name;
   * a path that does not resolve is passed as the empty string.
   */
  function TemplateVars(req: Request, host: Host): (v: Vars)
    ensures v.className == EscapeClass(req.className)
    ensures UnescapeClass(v.className) == req.className
    ensures v.daemonBootstrap == OrEmpty(host.autoload)
    ensures v.rootPath == OrEmpty(host.realRoot)
    ensures v.svcName == req.name
    ensures v.envCmdLine == EnvCmdLine(req.environment)
    ensures v.environment == EnvironmentFile(req.name)
    ensures v.consoleArgs == Join(" ", Flags(req.consoleArgs))
    ensures v.envCmdLine == [] <==> req.environment == []
  {
    UnescapeEscapeClass(req.className);
    ConsoleArgsAreFlags(req.consoleArgs);
    Vars(
      req.description,
      OrEmpty(host.autoload),
      EscapeClass(req.className),
      req.bootstrap,
      req.name,
      OrEmpty(host.realRoot),
      ConsoleArgs(req.consoleArgs),
      EnvironmentFile(req.name),
      host.phpBinary,
      host.scriptifyService,
      EnvCmdLine(req.environment))
  }

  function RootMissingMessage(rootDir: string): string {
    "RootPath '" + rootDir + "' not found. Use an absolute path. e.g. /projects/example"
  }

  function BootstrapMissingMessage(bootstrap: string): string {
    "Bootstrap '" + bootstrap + "' not found. Use a relative path from root directory. e.g. vendor/autoload.php"
  }

  const AutoloadMissingMessage := "Scriptify autoload not found. Did you run `composer dump-autload`?"

  /** The checks an install makes before writing anything, in order; `None` when all pass. */
  function InstallError(req: Request, host: Host): (e: Option<string>)
    ensures req.template !in TemplateNames ==> e == Some(UnknownTemplateMessage(req.template))
    ensures e.None? <==>
              && req.template in TemplateNames
              && TemplatePath(host.packageDir, req.template) in host.existing
              && (req.check ==> && host.realRoot.Some?
                                && req.rootDir + "/" + req.bootstrap in host.existing
                                && host.autoload.Some?)
  {
    var templatePath := TemplatePath(host.packageDir, req.template);
    if TargetPath(req.template, req.name).None? then
      Some(UnknownTemplateMessage(req.template))
    else if templatePath !in host.existing then
      Some("Template '" + templatePath + "' not found")
    else if host.realRoot.None? && req.check then
      Some(RootMissingMessage(req.rootDir))
    else if req.rootDir + "/" + req.bootstrap !in host.existing && req.check then
      Some(BootstrapMissingMessage(req.bootstrap))
    else if host.autoload.None? && req.check then
      Some(AutoloadMissingMessage)
    else
      None
  }

  /**
   * An install either fails with the first failed check and writes nothing,
   * or writes the environment file and then the rendered service file.
   */
  function Install(req: Request, host: Host, render: Renderer): (r: Result<seq<Write>, string>)
    ensures r.Failure? <==> InstallError(req, host).Some?
    ensures r.Failure? ==> r.error == InstallError(req, host).value
    ensures r.Success? ==>
              && req.template in TemplateNames
              && |r.value| == 2
              && r.value[0] == EnvironmentWrite(EnvironmentFile(req.name), req.environment)
              && r.value[1].ServiceWrite?
              && r.value[1].path == TargetPath(req.template, req.name).value
              && r.value[1].contents == render(TemplatePath(host.packageDir, req.template), TemplateVars(req, host))
              && r.value[1].mode.None?
  {
    var error := InstallError(req, host);
    if error.Some? then
      Failure(error.value)
    else
      var target := TargetPath(req.template, req.name).value;
      var text := render(TemplatePath(host.packageDir, req.template), TemplateVars(req, host));
      Success([EnvironmentWrite(EnvironmentFile(req.name), req.environment), ServiceWrite(target, text, None)])
  }
}
