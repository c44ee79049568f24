/*
 * The installed services on a file system: removing the files of one
 * service, and listing the services Scriptify created. The file system is a
 * map from path to contents; `glob` is the host's directory listing.
 */
module ServiceFiles {
  import opened Wrappers
  import opened Text
  import opened Scriptify

  /** The text every service file written from a Scriptify template carries. */
  const Marker := "PHP_SCRIPTIFY"

  /** A file exists at `path` and its contents carry the marker. */
  predicate IsScriptifyService(files: map<string, string>, path: string)
    // a missing file is never a service, and a service file is at least as long as the marker
    ensures IsScriptifyService(files, path) ==> path in files && |Marker| <= |files[path]|
  {
    path in files && Contains(files[path], Marker)
  }

  /** The paths uninstall looks at, in the order it looks at them. */
  function Candidates(name: string): (r: seq<string>)
    // five different paths, the environment file fourth
    ensures |r| == 5 && r[3] == EnvironmentFile(name)
    ensures forall i, j :: 0 <= i < j < |r| ==> r[i] != r[j]
  {
    var r := [ "/etc/init.d/" + name,
               "/etc/init/" + name + ".conf",
               "/etc/systemd/system/" + name + ".service",
               EnvironmentFile(name),
               "/etc/cron.d/" + name ];
    assert r[0][5] == 'i' && r[0][9] == '.';
    assert r[1][5] == 'i' && r[1][9] == '/';
    assert r[2][5] == 's' && r[2][6] == 'y';
    assert r[3][5] == 's' && r[3][6] == 'c';
    assert r[4][5] == 'c';
    r
  }

  /** Every file an install writes is one that uninstall looks at. */
  lemma InstallPathsAreCandidates(template: string, name: string)
    requires template in TemplateNames
    ensures TargetPath(template, name).value in Candidates(name)
    ensures EnvironmentFile(name) in Candidates(name)
  {
  }

  /** Uninstall checks the marker only of paths without ".env" anywhere in them. */
  predicate Guarded(path: string) {
    !Contains(path, ".env")
  }

  function NotCreatedMessage(name: string): string {
    "Service '" + name + "' was not created by Scriptify"
  }

  function MissingMessage(name: string): string {
    "Service '" + name + "' does not exists"
  }

  /** The files left and the error raised, if any. */
  datatype Removal = Removal(files: map<string, string>, error: Option<string>)

  function PathSet(paths: seq<string>): set<string> {
    set p | p in paths
  }

  /**
   * The walk over `paths`: an existing path is removed, unless it is guarded
   * and unmarked, which stops the walk with what was removed so far; at the
   * end, nothing found is an error.
   */
  function Walk(files: map<string, string>, paths: seq<string>, found: bool, name: string): (r: Removal)
    // the only errors are the two messages, and files are only ever removed
    ensures r.error == None || r.error == Some(MissingMessage(name)) || r.error == Some(NotCreatedMessage(name))
    ensures r.files.Keys <= files.Keys
    decreases |paths|
  {
    if paths == [] then
      Removal(files, if found then None else Some(MissingMessage(name)))
    else
      var p := paths[0];
      if p !in files then Walk(files, paths[1..], found, name)
      else if Guarded(p) && !IsScriptifyService(files, p) then Removal(files, Some(NotCreatedMessage(name)))
      else Walk(files - {p}, paths[1..], true, name)
  }

  function UninstallResult(files: map<string, string>, name: string): Removal {
    Walk(files, Candidates(name), false, name)
  }

  /** The file system whose files uninstall removes. */
  class FileSystem {
    var files: map<string, string>

    constructor(files: map<string, string>)
      ensures this.files == files
    {
      this.files := files;
    }

    /** Removes the files of service `name`, returning the error raised, if any. */
    method Uninstall(name: string) returns (error: Option<string>)
      modifies this
      ensures Removal(files, error) == UninstallResult(old(files), name)
    {
      var list := Candidates(name);
      var found := false;
      var i := 0;
      while i < |list|
        invariant 0 <= i <= |list|
        invariant Walk(files, list[i..], found, name) == Walk(old(files), list, false, name)
      {
        var service := list[i];
        assert list[i..][0] == service && list[i..][1..] == list[i + 1..];
        if service in files {
          found := true;
          if !Contains(service, ".env") && !IsScriptifyService(files, service) {
            return Some(NotCreatedMessage(name));
          }
          files := files - {service};
        }
        i := i + 1;
      }
      if !found {
        return Some(MissingMessage(name));
      }
      return None;
    }

    /** The services Scriptify created, as `"<type>: <name>"`, type by type. */
    method ListServices(glob: string -> seq<string>) returns (list: seq<string>)
      ensures list == Listing(files, glob)
    {
      list := [];
      var k := 0;
      while k < |ServiceTypes|
        invariant 0 <= k <= |ServiceTypes|
        invariant list == ListingOf(files, glob, ServiceTypes[..k])
      {
        var (svcType, pattern) := ServiceTypes[k];
        var filenames := glob(pattern);
        ghost var before := list;
        var j := 0;
        while j < |filenames|
          invariant 0 <= j <= |filenames|
          invariant list == before + Listed(files, svcType, filenames[..j])
        {
          assert filenames[..j + 1][..j] == filenames[..j];
          if IsScriptifyService(files, filenames[j]) {
            list := list + [svcType + ": " + ServiceName(filenames[j])];
          }
          j := j + 1;
        }
        assert filenames[..j] == filenames;
        assert ServiceTypes[..k + 1][..k] == ServiceTypes[..k];
        k := k + 1;
      }
      assert ServiceTypes[..k] == ServiceTypes;
    }
  }

  // ---------------------------------------------------------------------------
  // Uninstall

  lemma MessagesDiffer(name: string)
    ensures NotCreatedMessage(name) != MissingMessage(name)
  {
    assert |NotCreatedMessage(name)| != |MissingMessage(name)|;
  }

  /** The walk reports nothing found exactly when it was not told otherwise and no path exists. */
  lemma {:induction false} WalkMissing(files: map<string, string>, paths: seq<string>, found: bool, name: string)
    ensures Walk(files, paths, found, name).error == Some(MissingMessage(name)) <==>
            !found && forall p <- paths :: p !in files
    decreases |paths|
  {
    MessagesDiffer(name);
    if paths != [] {
      var p := paths[0];
      assert forall q <- paths[1..] :: q in paths;
      if p !in files {
        WalkMissing(files, paths[1..], found, name);
        assert forall q <- paths :: q == p || q in paths[1..];
      } else if Guarded(p) && !IsScriptifyService(files, p) {
      } else {
        WalkMissing(files - {p}, paths[1..], true, name);
      }
    }
  }

  /** An existing path the walk accepts: not guarded, or marked. */
  predicate Accepted(files: map<string, string>, p: string) {
    p in files ==> !Guarded(p) || IsScriptifyService(files, p)
  }

  /**
   * The walk succeeds exactly when something exists (or was found before)
   * and every existing path is accepted; it then removes every listed path.
   */
  lemma {:induction false} WalkSucceeds(files: map<string, string>, paths: seq<string>, found: bool, name: string)
    ensures var r := Walk(files, paths, found, name);
            && (r.error.None? <==> (found || exists p <- paths :: p in files) && forall p <- paths :: Accepted(files, p))
            && (r.error.None? ==> r.files == files - PathSet(paths))
    decreases |paths|
  {
    if paths != [] {
      var p := paths[0];
      var rest := paths[1..];
      assert forall q <- paths :: q == p || q in rest;
      assert forall q <- rest :: q in paths;
      assert PathSet(paths) == {p} + PathSet(rest);
      if p !in files {
        WalkSucceeds(files, rest, found, name);
        assert files - PathSet(rest) == files - PathSet(paths);
      } else if Guarded(p) && !IsScriptifyService(files, p) {
        assert !Accepted(files, p);
      } else {
        var smaller := files - {p};
        WalkSucceeds(smaller, rest, true, name);
        assert forall q <- rest :: Accepted(smaller, q) <==> Accepted(files, q);
        assert smaller - PathSet(rest) == files - PathSet(paths);
      }
    }
  }

  /** The walk refuses exactly when one of its paths exists, is guarded and lacks the marker. */
  lemma {:induction false} WalkRefusesExactly(files: map<string, string>, paths: seq<string>, found: bool, name: string)
    ensures Walk(files, paths, found, name).error == Some(NotCreatedMessage(name)) <==>
            exists p <- paths :: !Accepted(files, p)
    decreases |paths|
  {
    MessagesDiffer(name);
    if paths != [] {
      var p := paths[0];
      var rest := paths[1..];
      assert forall q <- paths :: q == p || q in rest;
      assert forall q <- rest :: q in paths;
      if p !in files {
        WalkRefusesExactly(files, rest, found, name);
      } else if Guarded(p) && !IsScriptifyService(files, p) {
        assert !Accepted(files, p);
      } else {
        var smaller := files - {p};
        WalkRefusesExactly(smaller, rest, true, name);
        assert forall q <- rest :: Accepted(smaller, q) <==> Accepted(files, q);
      }
    }
  }

  /**
   * The walk over `paths` stopped at `k`: that path exists, is guarded and
   * unmarked, every existing path before it was accepted, and `left` is the
   * files without the paths before it.
   */
  predicate RefusedAt(files: map<string, string>, paths: seq<string>, k: int, left: map<string, string>) {
    && 0 <= k < |paths|
    && paths[k] in files && Guarded(paths[k]) && !IsScriptifyService(files, paths[k])
    && (forall j :: 0 <= j < k ==> Accepted(files, paths[j]))
    && left == files - PathSet(paths[..k])
  }

  /** A refusal names the path it stopped at, and removed exactly the paths before it. */
  lemma {:induction false} WalkRefuses(files: map<string, string>, paths: seq<string>, found: bool, name: string)
    requires Walk(files, paths, found, name).error == Some(NotCreatedMessage(name))
    ensures exists k :: RefusedAt(files, paths, k, Walk(files, paths, found, name).files)
    decreases |paths|
  {
    MessagesDiffer(name);
    var p := paths[0];
    var rest := paths[1..];
    assert paths == [p] + rest;
    if p !in files {
      WalkRefuses(files, rest, found, name);
      var k :| RefusedAt(files, rest, k, Walk(files, rest, found, name).files);
      RefusedAfterSkip(files, p, rest, k, Walk(files, rest, found, name).files);
    } else if Guarded(p) && !IsScriptifyService(files, p) {
      assert paths[..0] == [];
      assert files - PathSet(paths[..0]) == files;
      assert RefusedAt(files, paths, 0, files);
    } else {
      var smaller := files - {p};
      WalkRefuses(smaller, rest, true, name);
      var k :| RefusedAt(smaller, rest, k, Walk(smaller, rest, true, name).files);
      RefusedAfterRemoval(files, p, rest, k, Walk(smaller, rest, true, name).files);
    }
  }

  lemma RefusedAfterSkip(files: map<string, string>, p: string, rest: seq<string>, k: int, left: map<string, string>)
    requires p !in files && RefusedAt(files, rest, k, left)
    ensures RefusedAt(files, [p] + rest, k + 1, left)
  {
    var paths := [p] + rest;
    assert paths[k + 1] == rest[k];
    assert paths[..k + 1] == [p] + rest[..k];
    assert PathSet(paths[..k + 1]) == {p} + PathSet(rest[..k]);
    assert files - PathSet(rest[..k]) == files - PathSet(paths[..k + 1]);
    forall j | 0 <= j < k + 1
      ensures Accepted(files, paths[j])
    {
      if j > 0 {
        assert paths[j] == rest[j - 1];
      }
    }
  }

  lemma RefusedAfterRemoval(files: map<string, string>, p: string, rest: seq<string>, k: int, left: map<string, string>)
    requires p in files && Accepted(files, p) && RefusedAt(files - {p}, rest, k, left)
    ensures RefusedAt(files, [p] + rest, k + 1, left)
  {
    var paths := [p] + rest;
    var smaller := files - {p};
    assert paths[k + 1] == rest[k];
    assert paths[..k + 1] == [p] + rest[..k];
    assert PathSet(paths[..k + 1]) == {p} + PathSet(rest[..k]);
    assert smaller - PathSet(rest[..k]) == files - PathSet(paths[..k + 1]);
    forall j | 0 <= j < k + 1
      ensures Accepted(files, paths[j])
    {
      if j > 0 {
        assert paths[j] == rest[j - 1];
        assert Accepted(smaller, rest[j - 1]);
      }
    }
  }

  /** Uninstall reports a missing service exactly when none of its paths exists. */
  lemma UninstallMissing(files: map<string, string>, name: string)
    ensures UninstallResult(files, name).error == Some(MissingMessage(name)) <==>
            forall p <- Candidates(name) :: p !in files
  {
    WalkMissing(files, Candidates(name), false, name);
  }

  /**
   * Uninstall succeeds exactly when some path of the service exists and each
   * existing one is the environment file or carries the marker; it then
   * removes every path of the service and nothing else.
   */
  lemma UninstallSucceeds(files: map<string, string>, name: string)
    ensures var r := UninstallResult(files, name);
            && (r.error.None? <==> (exists p <- Candidates(name) :: p in files)
                                   && forall p <- Candidates(name) :: Accepted(files, p))
            && (r.error.None? ==> r.files == files - PathSet(Candidates(name)))
  {
    WalkSucceeds(files, Candidates(name), false, name);
  }

  /**
   * A refused uninstall stops at the first existing unmarked path that is not
   * the environment file; the paths before it that existed stay removed and
   * no other file changes.
   */
  lemma UninstallRefuses(files: map<string, string>, name: string)
    requires UninstallResult(files, name).error == Some(NotCreatedMessage(name))
    ensures exists k :: RefusedAt(files, Candidates(name), k, UninstallResult(files, name).files)
  {
    WalkRefuses(files, Candidates(name), false, name);
  }

  /**
   * Uninstall refuses exactly when one of the service's paths exists, does
   * not hold ".env" and lacks the marker.
   */
  lemma UninstallRefusesExactly(files: map<string, string>, name: string)
    ensures UninstallResult(files, name).error == Some(NotCreatedMessage(name)) <==>
            exists p <- Candidates(name) :: p in files && Guarded(p) && !IsScriptifyService(files, p)
  {
    WalkRefusesExactly(files, Candidates(name), false, name);
  }

  /**
   * The guard looks for ".env" anywhere in the path, not only at its end: a
   * service whose name holds ".env" is never refused, marked or not.
   */
  lemma EnvInNameDisablesGuard(files: map<string, string>, name: string)
    requires Contains(name, ".env")
    ensures UninstallResult(files, name).error != Some(NotCreatedMessage(name))
  {
    var paths := Candidates(name);
    forall p <- paths
      ensures !Guarded(p)
    {
      ContainsInfix("/etc/init.d/", name, "", ".env");
      ContainsInfix("/etc/init/", name, ".conf", ".env");
      ContainsInfix("/etc/systemd/system/", name, ".service", ".env");
      ContainsInfix("/etc/scriptify/", name, ".env", ".env");
      ContainsInfix("/etc/cron.d/", name, "", ".env");
      assert "/etc/init.d/" + name + "" == "/etc/init.d/" + name;
      assert "/etc/cron.d/" + name + "" == "/etc/cron.d/" + name;
    }
    WalkWithoutGuards(files, paths, false, name);
  }

  /** A walk over paths none of which is guarded never refuses. */
  lemma {:induction false} WalkWithoutGuards(files: map<string, string>, paths: seq<string>, found: bool, name: string)
    requires forall p <- paths :: !Guarded(p)
    ensures Walk(files, paths, found, name).error != Some(NotCreatedMessage(name))
    decreases |paths|
  {
    MessagesDiffer(name);
    if paths != [] {
      assert paths[0] in paths;
      assert forall q <- paths[1..] :: q in paths;
      if paths[0] in files {
        WalkWithoutGuards(files - {paths[0]}, paths[1..], true, name);
      } else {
        WalkWithoutGuards(files, paths[1..], found, name);
      }
    }
  }

  /** The files after the writes of an install, with `encode` giving an environment file's text. */
  function Apply(files: map<string, string>, writes: seq<Write>, encode: seq<(string, string)> -> string): map<string, string>
    decreases |writes|
  {
    if writes == [] then files
    else
      var files' := match writes[0]
        case EnvironmentWrite(path, environment) => files[path := encode(environment)]
        case ServiceWrite(path, contents, _) => files[path := contents];
      Apply(files', writes[1..], encode)
  }

  /**
   * Uninstalling a service just installed, on a file system that held no file
   * of that service, succeeds and gives back the file system as it was,
   * provided the rendered service file carries the marker.
   */
  lemma InstallThenUninstall(files: map<string, string>, req: Request, host: Host, render: Renderer,
                             encode: seq<(string, string)> -> string)
    requires Install(req, host, render).Success?
    requires Contains(render(TemplatePath(host.packageDir, req.template), TemplateVars(req, host)), Marker)
    requires forall p <- Candidates(req.name) :: p !in files
    ensures UninstallResult(Apply(files, Install(req, host, render).value, encode), req.name) == Removal(files, None)
  {
    var writes := Install(req, host, render).value;
    ApplyTwo(files, writes, encode);
    InstallPathsAreCandidates(req.template, req.name);
    UninstallWritten(files, req.name, writes[1].path, encode(req.environment), writes[1].contents);
  }

  /**
   * Uninstalling removes an environment file and a marked service file
   * written at candidate paths of a service that had no files.
   */
  lemma UninstallWritten(files: map<string, string>, name: string, target: string, envText: string, contents: string)
    requires target in Candidates(name) && Contains(contents, Marker)
    requires forall p <- Candidates(name) :: p !in files
    ensures UninstallResult(files[EnvironmentFile(name) := envText][target := contents], name) == Removal(files, None)
  {
    var envPath := EnvironmentFile(name);
    var after := files[envPath := envText][target := contents];
    EnvironmentFileUnguarded(name);
    var paths := Candidates(name);
    assert IsScriptifyService(after, target);
    assert forall p <- paths :: p in after ==> p == target || p == envPath;
    assert forall p <- paths :: Accepted(after, p);
    UninstallSucceeds(after, name);
    assert after - PathSet(paths) == files;
  }

  /** Applying an environment write and then a service write. */
  lemma ApplyTwo(files: map<string, string>, writes: seq<Write>, encode: seq<(string, string)> -> string)
    requires |writes| == 2 && writes[0].EnvironmentWrite? && writes[1].ServiceWrite?
    ensures Apply(files, writes, encode) ==
              files[writes[0].path := encode(writes[0].environment)][writes[1].path := writes[1].contents]
  {
    var first := files[writes[0].path := encode(writes[0].environment)];
    assert Apply(files, writes, encode) == Apply(first, writes[1..], encode);
    assert writes[1..][0] == writes[1] && writes[1..][1..] == [];
    assert Apply(first, writes[1..], encode) == Apply(first[writes[1].path := writes[1].contents], [], encode);
  }

  /** The environment file is never checked for the marker. */
  lemma EnvironmentFileUnguarded(name: string)
    ensures !Guarded(EnvironmentFile(name))
  {
    assert OccursAt(".env", ".env", 0);
    ContainsInfix("/etc/scriptify/" + name, ".env", "", ".env");
    assert "/etc/scriptify/" + name + ".env" + "" == EnvironmentFile(name);
  }

  // ---------------------------------------------------------------------------
  // Listing

  /** The service types in listing order, each with the pattern its files match. */
  const ServiceTypes: seq<(string, string)> := [
    ("initd", "/etc/init.d/*"),
    ("crond", "/etc/cron.d/*"),
    ("upstart", "/etc/init/*.conf"),
    ("systemd", "/etc/systemd/system/*.service")
  ]

  /** The service name shown for a file: its basename without ".conf", then without ".service". */
  function ServiceName(path: string): (r: string)
    ensures '/' !in r
  {
    var base := Basename(path);
    ReplaceAllAddsNothing(base, ".conf", "", '/');
    ReplaceAllAddsNothing(ReplaceAll(base, ".conf", ""), ".service", "", '/');
    ReplaceAll(ReplaceAll(base, ".conf", ""), ".service", "")
  }

  /** The entries for the marked files among `filenames`, in order. */
  function Listed(files: map<string, string>, svcType: string, filenames: seq<string>): seq<string>
    decreases |filenames|
  {
    if filenames == [] then []
    else
      var f := filenames[|filenames| - 1];
      Listed(files, svcType, filenames[..|filenames| - 1])
        + (if IsScriptifyService(files, f) then [svcType + ": " + ServiceName(f)] else [])
  }

  function ListingOf(files: map<string, string>, glob: string -> seq<string>, types: seq<(string, string)>): seq<string>
    decreases |types|
  {
    if types == [] then []
    else
      var (svcType, pattern) := types[|types| - 1];
      ListingOf(files, glob, types[..|types| - 1]) + Listed(files, svcType, glob(pattern))
  }

  function Listing(files: map<string, string>, glob: string -> seq<string>): seq<string> {
    ListingOf(files, glob, ServiceTypes)
  }

  /** An entry is listed exactly for a marked file among those the pattern of its type matches. */
  lemma {:induction false} ListedMembers(files: map<string, string>, svcType: string, filenames: seq<string>, s: string)
    ensures s in Listed(files, svcType, filenames) <==>
            exists f <- filenames :: IsScriptifyService(files, f) && s == svcType + ": " + ServiceName(f)
    decreases |filenames|
  {
    if filenames != [] {
      var init := filenames[..|filenames| - 1];
      ListedMembers(files, svcType, init, s);
      assert filenames == init + [filenames[|filenames| - 1]];
      assert forall f <- filenames :: f in init || f == filenames[|filenames| - 1];
    }
  }

  lemma ListingOfSnoc(files: map<string, string>, glob: string -> seq<string>,
                      types: seq<(string, string)>, t: (string, string))
    ensures ListingOf(files, glob, types + [t]) == ListingOf(files, glob, types) + Listed(files, t.0, glob(t.1))
  {
    assert (types + [t])[..|types|] == types;
  }

  /** The listing is the initd entries, then the crond, upstart and systemd ones. */
  lemma ListingOrder(files: map<string, string>, glob: string -> seq<string>)
    ensures Listing(files, glob) ==
              Listed(files, "initd", glob("/etc/init.d/*"))
              + Listed(files, "crond", glob("/etc/cron.d/*"))
              + Listed(files, "upstart", glob("/etc/init/*.conf"))
              + Listed(files, "systemd", glob("/etc/systemd/system/*.service"))
  {
    var t := ServiceTypes;
    assert t == [] + [t[0]] + [t[1]] + [t[2]] + [t[3]];
    ListingOfSnoc(files, glob, [], t[0]);
    ListingOfSnoc(files, glob, [] + [t[0]], t[1]);
    ListingOfSnoc(files, glob, [] + [t[0]] + [t[1]], t[2]);
    ListingOfSnoc(files, glob, [] + [t[0]] + [t[1]] + [t[2]], t[3]);
  }

  /**
   * The name shown for the file an install writes is the service name, when
   * the name has no dot and no slash: installing and then listing gives
   * `"<template>: <name>"` back.
   */
  lemma NameOfTarget(template: string, name: string)
    requires template in TemplateNames
    requires name != [] && '.' !in name && '/' !in name
    ensures ServiceName(TargetPath(template, name).value) == name
  {
    var path := TargetPath(template, name).value;
    var suffix := if template == "upstart" then ".conf" else if template == "systemd" then ".service" else "";
    var dir := if template == "initd" then "/etc/init.d/"
               else if template == "crond" then "/etc/cron.d/"
               else if template == "upstart" then "/etc/init/"
               else "/etc/systemd/system/";
    assert path == dir + (name + suffix);
    SuffixStripped(suffix);
    BasenameOfEntry(dir, name + suffix);
    ReplaceAllSkipsPrefix(name, suffix, ".conf", "");
    ReplaceAllSkipsPrefix(name, ReplaceAll(suffix, ".conf", ""), ".service", "");
    assert name + "" == name;
  }

  /** Each suffix a target path can carry disappears from the shown name. */
  lemma SuffixStripped(suffix: string)
    requires suffix in {"", ".conf", ".service"}
    ensures '/' !in suffix
    ensures ReplaceAll(ReplaceAll(suffix, ".conf", ""), ".service", "") == ""
  {
    if suffix == ".conf" {
      ConfStripped();
    } else if suffix == ".service" {
      ServiceKeptByConf();
      ServiceStripped();
    }
  }

  lemma ConfStripped()
    ensures ReplaceAll(".conf", ".conf", "") == ""
  {
    assert ".conf"[..|".conf"|] == ".conf";
    assert ".conf"[|".conf"|..] == "";
  }

  lemma ServiceStripped()
    ensures ReplaceAll(".service", ".service", "") == ""
  {
    assert ".service"[..|".service"|] == ".service";
    assert ".service"[|".service"|..] == "";
  }

  lemma ServiceKeptByConf()
    ensures ReplaceAll(".service", ".conf", "") == ".service"
  {
    forall i | 0 <= i <= |".service"| - |".conf"|
      ensures !OccursAt(".service", ".conf", i)
    {
      assert ".service"[i + 1] != ".conf"[1];
    }
  }

  /**
   * A marked service file that the pattern of its template matches is listed
   * under that template's type with the service's name.
   */
  lemma InstalledServiceIsListed(files: map<string, string>, glob: string -> seq<string>, k: int, name: string)
    requires 0 <= k < |ServiceTypes|
    requires name != [] && '.' !in name && '/' !in name
    requires var path := TargetPath(ServiceTypes[k].0, name).value;
             path in glob(ServiceTypes[k].1) && IsScriptifyService(files, path)
    ensures ServiceTypes[k].0 + ": " + name in Listing(files, glob)
  {
    var (svcType, pattern) := ServiceTypes[k];
    var path := TargetPath(svcType, name).value;
    NameOfTarget(svcType, name);
    ListedMembers(files, svcType, glob(pattern), svcType + ": " + name);
    ListingOrder(files, glob);
  }
}
