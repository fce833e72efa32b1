/** The native-addon resolver (`nativePrebuildInstall`,
    lib/producer.js:128-167) over an abstract filesystem. The external
    prebuilt-binary fetch tool is a parameter: given its command it either
    installs new bytes in the addon file or fails, possibly after it has
    already overwritten the addon file. Locating the owning project
    directory (`findPackageJson`) is a parameter too. */
module Resolver {
  import opened Common
  import Decimal

  /** A filesystem: path to contents. */
  type Fs = map<string, Bytes>

  /** The build target; `fabricator` is an opaque handle passed through to
      the fabricator collaborator. */
  datatype Target = Target(binaryPath: string, platform: string, arch: string, output: string, fabricator: nat)

  // ---------------------------------------------------------------------
  // Paths and fields

  /** The path without its trailing slashes. */
  function StripTrailingSlashes(p: string): (r: string)
    ensures |r| <= |p| && r == p[..|r|]
    ensures r == [] || r[|r| - 1] != '/'
  {
    if |p| > 0 && p[|p| - 1] == '/' then StripTrailingSlashes(p[..|p| - 1]) else p
  }

  /** The part after the last slash. */
  function AfterLastSlash(p: string): (r: string)
    ensures |r| <= |p| && r == p[|p| - |r|..]
    ensures forall i :: 0 <= i < |r| ==> r[i] != '/'
    ensures |r| < |p| ==> p[|p| - |r| - 1] == '/'
  {
    if p == [] || p[|p| - 1] == '/' then [] else AfterLastSlash(p[..|p| - 1]) + [p[|p| - 1]]
  }

  /** POSIX `path.basename`: the last path component. */
  function Basename(p: string): (r: string)
    ensures |r| <= |p|
    ensures forall i :: 0 <= i < |r| ==> r[i] != '/'
  {
    AfterLastSlash(StripTrailingSlashes(p))
  }

  /** The basename of `dir/name` and of `dir/name/` is `name`. */
  lemma BasenameOfPath(dir: string, name: string)
    requires name != [] && forall i :: 0 <= i < |name| ==> name[i] != '/'
    ensures Basename(dir + "/" + name) == name
    ensures Basename(dir + "/" + name + "/") == name
  {
    var p := dir + "/" + name;
    assert StripTrailingSlashes(p) == p;
    assert (p + "/")[..|p + "/"| - 1] == p;
    assert StripTrailingSlashes(p + "/") == p;
    AfterSlash(dir, name);
  }

  lemma {:induction false} AfterSlash(dir: string, name: string)
    requires forall i :: 0 <= i < |name| ==> name[i] != '/'
    ensures AfterLastSlash(dir + "/" + name) == name
    decreases |name|
  {
    if name != [] {
      var p := dir + "/" + name;
      var init := name[..|name| - 1];
      assert p[..|p| - 1] == dir + "/" + init;
      AfterSlash(dir, init);
      assert init + [name[|name| - 1]] == name;
    }
  }

  /** `s.split(sep)` for a one-character separator. */
  function Split(s: string, sep: char): (parts: seq<string>)
    ensures |parts| >= 1
    ensures forall k, i :: 0 <= k < |parts| && 0 <= i < |parts[k]| ==> parts[k][i] != sep
  {
    if s == [] then [[]]
    else
      var rest := Split(s[1..], sep);
      if s[0] == sep then [[]] + rest
      else [[s[0]] + rest[0]] + rest[1..]
  }

  /** A character the input lacks is in no field. */
  lemma {:induction false} SplitAvoids(s: string, sep: char, c: char)
    requires forall j :: 0 <= j < |s| ==> s[j] != c
    ensures forall k, i :: 0 <= k < |Split(s, sep)| && 0 <= i < |Split(s, sep)[k]| ==> Split(s, sep)[k][i] != c
    decreases |s|
  {
    if s != [] {
      var rest := Split(s[1..], sep);
      SplitAvoids(s[1..], sep, c);
      if s[0] != sep {
        var head := [s[0]] + rest[0];
        assert forall i :: 0 <= i < |head| ==> head[i] != c;
        assert Split(s, sep) == [head] + rest[1..];
      }
    }
  }

  /** `parts.join(sep)`. */
  function Join(parts: seq<string>, sep: char): string
    requires |parts| >= 1
  {
    if |parts| == 1 then parts[0] else parts[0] + [sep] + Join(parts[1..], sep)
  }

  /** Splitting loses nothing: joining the fields gives the string back. */
  lemma {:induction false} JoinSplit(s: string, sep: char)
    ensures Join(Split(s, sep), sep) == s
    decreases |s|
  {
    if s != [] {
      var rest := Split(s[1..], sep);
      JoinSplit(s[1..], sep);
      if s[0] == sep {
        assert ([[]] + rest)[1..] == rest;
      } else {
        var parts := [[s[0]] + rest[0]] + rest[1..];
        if |rest| > 1 {
          assert parts[1..] == rest[1..];
          assert Join(rest, sep) == rest[0] + [sep] + Join(rest[1..], sep);
        }
      }
    }
  }

  /** Fields free of the separator are recovered by splitting their join. */
  lemma {:induction false} SplitJoin(parts: seq<string>, sep: char)
    requires |parts| >= 1
    requires forall k, i :: 0 <= k < |parts| && 0 <= i < |parts[k]| ==> parts[k][i] != sep
    ensures Split(Join(parts, sep), sep) == parts
    decreases |parts|, |parts[0]|
  {
    var p0 := parts[0];
    var s := Join(parts, sep);
    if p0 == [] {
      if |parts| > 1 {
        var tail := parts[1..];
        SplitJoin(tail, sep);
        assert s == [sep] + Join(tail, sep);
        assert s[1..] == Join(tail, sep);
        assert [[]] + tail == parts;
      }
    } else {
      var shorter := [p0[1..]] + parts[1..];
      assert shorter[1..] == parts[1..];
      SplitJoin(shorter, sep);
      JoinShift(parts, sep);
      assert s[0] == p0[0] && s[1..] == Join(shorter, sep);
      assert [p0[0]] + p0[1..] == p0;
      assert [[p0[0]] + shorter[0]] + shorter[1..] == parts;
    }
  }

  /** Moving the first character of the first field out of the join. */
  lemma JoinShift(parts: seq<string>, sep: char)
    requires |parts| >= 1 && parts[0] != []
    ensures Join(parts, sep) == [parts[0][0]] + Join([parts[0][1..]] + parts[1..], sep)
  {
    var p0 := parts[0];
    var shorter := [p0[1..]] + parts[1..];
    assert shorter[1..] == parts[1..];
    assert [p0[0]] + p0[1..] == p0;
  }

  // ---------------------------------------------------------------------
  // Version tag

  predicate Digits(s: string)
  {
    |s| > 0 && forall i :: 0 <= i < |s| ==> Decimal.IsDigit(s[i])
  }

  /** `/^v[0-9]+\.[0-9]+\.[0-9]+$/`. */
  predicate IsVersionTag(s: string)
  {
    |s| >= 1 && s[0] == 'v' &&
    var fields := Split(s[1..], '.');
    |fields| == 3 && Digits(fields[0]) && Digits(fields[1]) && Digits(fields[2])
  }

  /** Every accepted tag is `v` and three digit runs joined by dots. */
  lemma VersionTagShape(s: string)
    requires IsVersionTag(s)
    ensures var f := Split(s[1..], '.');
            && Digits(f[0]) && Digits(f[1]) && Digits(f[2])
            && s == "v" + f[0] + "." + f[1] + "." + f[2]
  {
    var f := Split(s[1..], '.');
    JoinSplit(s[1..], '.');
    assert f[1..][1..] == [f[2]];
    assert Join(f[1..], '.') == f[1] + "." + f[2];
    assert Join(f, '.') == f[0] + "." + f[1] + "." + f[2];
  }

  /** Every `v` and three digit runs joined by dots is accepted. */
  lemma VersionTagAccepts(x: string, y: string, z: string)
    requires Digits(x) && Digits(y) && Digits(z)
    ensures IsVersionTag("v" + x + "." + y + "." + z)
  {
    var parts := [x, y, z];
    assert parts[1..][1..] == [z];
    assert Join(parts[1..], '.') == y + "." + z;
    assert Join(parts, '.') == x + "." + y + "." + z;
    forall k, i | 0 <= k < 3 && 0 <= i < |parts[k]| ensures parts[k][i] != '.' {
      assert Decimal.IsDigit(parts[k][i]);
    }
    SplitJoin(parts, '.');
    var s := "v" + x + "." + y + "." + z;
    assert s[1..] == x + "." + y + "." + z;
  }

  /** `path.basename(binaryPath).split('-')[1]`; `None` is `undefined`. */
  function VersionField(binaryPath: string): (r: Option<string>)
    ensures r.Some? ==> forall i :: 0 <= i < |r.value| ==> r.value[i] != '-' && r.value[i] != '/'
  {
    var name := Basename(binaryPath);
    var fields := Split(name, '-');
    if |fields| > 1 then
      SplitAvoids(name, '-', '/');
      Some(fields[1])
    else None
  }

  /** A binary named `a-v-rest` in any directory has version field `v`. */
  lemma VersionOfPath(dir: string, a: string, v: string, rest: string)
    requires a != []
    requires forall i :: 0 <= i < |a| ==> a[i] != '-' && a[i] != '/'
    requires forall i :: 0 <= i < |v| ==> v[i] != '-' && v[i] != '/'
    requires forall i :: 0 <= i < |rest| ==> rest[i] != '-' && rest[i] != '/'
    ensures VersionField(dir + "/" + (a + "-" + v + "-" + rest)) == Some(v)
  {
    var name := a + "-" + v + "-" + rest;
    assert Basename(dir + "/" + name) == name by {
      DashedAvoids(a, v, rest, '/');
      BasenameOfPath(dir, name);
    }
    assert Split(name, '-') == [a, v, rest] by {
      SplitThree(a, v, rest);
    }
    SecondField(dir + "/" + name, name);
  }

  lemma SecondField(path: string, name: string)
    requires Basename(path) == name && |Split(name, '-')| > 1
    ensures VersionField(path) == Some(Split(name, '-')[1])
  {
  }

  /** A character none of three fields holds is not in their dashed join. */
  lemma DashedAvoids(a: string, v: string, rest: string, c: char)
    requires c != '-'
    requires forall i :: 0 <= i < |a| ==> a[i] != c
    requires forall i :: 0 <= i < |v| ==> v[i] != c
    requires forall i :: 0 <= i < |rest| ==> rest[i] != c
    ensures forall i :: 0 <= i < |a + "-" + v + "-" + rest| ==> (a + "-" + v + "-" + rest)[i] != c
  {
    var name := a + "-" + v + "-" + rest;
    forall i | 0 <= i < |name| ensures name[i] != c {
      if i < |a| { assert name[i] == a[i]; }
      else if |a| < i < |a| + 1 + |v| { assert name[i] == v[i - |a| - 1]; }
      else if |a| + 1 + |v| < i { assert name[i] == rest[i - |a| - |v| - 2]; }
    }
  }

  /** Three dash-free fields joined by dashes split back into themselves. */
  lemma SplitThree(a: string, v: string, rest: string)
    requires forall i :: 0 <= i < |a| ==> a[i] != '-'
    requires forall i :: 0 <= i < |v| ==> v[i] != '-'
    requires forall i :: 0 <= i < |rest| ==> rest[i] != '-'
    ensures Split(a + "-" + v + "-" + rest, '-') == [a, v, rest]
  {
    var parts := [a, v, rest];
    assert parts[1..][1..] == [rest];
    assert Join(parts[1..], '-') == v + "-" + rest;
    assert Join(parts, '-') == a + "-" + v + "-" + rest;
    SplitJoin(parts, '-');
  }

  /** How the field is interpolated into the error message. */
  function Shown(v: Option<string>): string
  {
    match v
    case Some(s) => s
    case None => "undefined"
  }

  // ---------------------------------------------------------------------
  // Cache name and tool command

  /** `${nodeFile}.${target.platform}.${nodeVersion}`. */
  function CacheName(nodeFile: string, platform: string, version: string): (r: string)
    ensures |r| == |nodeFile| + |platform| + |version| + 2
    ensures r[..|nodeFile|] == nodeFile
  {
    nodeFile + "." + platform + "." + version
  }

  /** For one addon, platforms without a dot never share a cache file: the
      name determines the platform and the version. */
  lemma CacheNameInjective(nodeFile: string, p1: string, v1: string, p2: string, v2: string)
    requires forall i :: 0 <= i < |p1| ==> p1[i] != '.'
    requires forall i :: 0 <= i < |p2| ==> p2[i] != '.'
    requires CacheName(nodeFile, p1, v1) == CacheName(nodeFile, p2, v2)
    ensures p1 == p2 && v1 == v2
  {
    var n := |nodeFile| + 1;
    var t1 := p1 + "." + v1;
    var t2 := p2 + "." + v2;
    assert CacheName(nodeFile, p1, v1)[n..] == t1;
    assert CacheName(nodeFile, p2, v2)[n..] == t2;
    assert t1 == t2;
    assert t1[|p1|] == '.' && t2[|p2|] == '.';
    assert |p1| == |p2|;
    assert p1 == t1[..|p1|] && p2 == t2[..|p2|];
    assert v1 == t1[|p1| + 1..] && v2 == t2[|p2| + 1..];
  }

  function BackupName(nodeFile: string): string
  {
    nodeFile + ".bak"
  }

  /** The tool's name for a platform (`platform[target.platform]`); any
      other key interpolates as `undefined`. */
  function ToolPlatform(platform: string): (r: string)
    ensures r != "undefined" <==> platform == "macos" || platform == "win" || platform == "linux"
    ensures r != "undefined" ==> r == "darwin" || r == "win32" || r == "linux"
    ensures platform == "macos" ==> r == "darwin"
    ensures platform == "win" ==> r == "win32"
    ensures platform == "linux" ==> r == "linux"
  {
    if platform == "macos" then "darwin"
    else if platform == "win" then "win32"
    else if platform == "linux" then "linux"
    else "undefined"
  }

  /** Different known platforms get different tool platform names, so the
      tool is never asked for the wrong one. */
  lemma ToolPlatformDistinct(p: string, q: string)
    requires ToolPlatform(p) != "undefined"
    requires ToolPlatform(p) == ToolPlatform(q)
    ensures p == q
  {
  }

  /** The fetch tool's invocation: working directory and arguments. */
  datatype ToolCall = ToolCall(cwd: string, version: string, platform: string, arch: string)

  /** One run of the fetch tool. It overwrites the addon file with the
      platform build, or fails; a failed run may already have overwritten
      the addon file, with the bytes in `leftBehind`. */
  datatype ToolRun = Installed(bytes: Bytes) | Crashed(error: Error, leftBehind: Option<Bytes>)

  /** The fetch tool as a function of its invocation. */
  type Tool = ToolCall -> ToolRun

  /** What the filesystem looks like after the call and what it returned. */
  datatype Resolution = Resolution(fs: Fs, result: Result<string>)

  /** The backup's contents once the backup step has run. */
  function BackupContents(fs: Fs, nodeFile: string): Bytes
    requires BackupName(nodeFile) in fs || nodeFile in fs
  {
    if BackupName(nodeFile) in fs then fs[BackupName(nodeFile)] else fs[nodeFile]
  }

  /** The steps after a cache miss: back the addon file up unless a
      backup exists, run the tool, copy its result to the cache name, and
      restore the addon file from the backup. */
  function Fetch(fs: Fs, nodeFile: string, nativeFile: string, call: ToolCall, tool: Tool): (r: Resolution)
    ensures r.result.Ok? <==> (BackupName(nodeFile) in fs || nodeFile in fs) && tool(call).Installed?
    ensures r.result.Ok? ==> r.result == Ok(nativeFile) && nativeFile in r.fs
  {
    var bak := BackupName(nodeFile);
    if bak !in fs && nodeFile !in fs then Resolution(fs, Err(Io(nodeFile)))
    else
      var fs1 := if bak in fs then fs else fs[bak := fs[nodeFile]];
      match tool(call)
      case Crashed(e, left) =>
        var fs2 := if left.Some? then fs1[nodeFile := left.value] else fs1;
        Resolution(fs2, Err(e))
      case Installed(fetched) =>
        var fs2 := fs1[nodeFile := fetched];
        var fs3 := fs2[nativeFile := fs2[nodeFile]];
        var fs4 := fs3[nodeFile := fs3[bak]];
        Resolution(fs4, Ok(nativeFile))
  }

  /** `nativePrebuildInstall(target, nodeFile)`. */
  function Resolve(target: Target, nodeFile: string, fs: Fs, projectDir: string -> Option<string>, tool: Tool): (r: Resolution)
    ensures r.result.Ok? ==> r.result.value in r.fs
  {
    match projectDir(nodeFile)
    case None => Resolution(fs, Err(Thrown("package.json not found for \"" + nodeFile + "\"")))
    case Some(dir) =>
      var field := VersionField(target.binaryPath);
      if field.None? || !IsVersionTag(field.value) then
        Resolution(fs, Err(Thrown("Couldn't find node version, instead got: " + Shown(field))))
      else
        var nativeFile := CacheName(nodeFile, target.platform, field.value);
        if nativeFile in fs then Resolution(fs, Ok(nativeFile))
        else Fetch(fs, nodeFile, nativeFile, CallFor(target, dir, field.value), tool)
  }

  /** The tool invocation for a target: project directory, node version,
      the tool's platform name and the arch. */
  function CallFor(target: Target, dir: string, version: string): ToolCall
  {
    ToolCall(dir, version, ToolPlatform(target.platform), target.arch)
  }

  /** Resolution reached the tool, and the tool failed after leaving
      `bytes` in the addon file. */
  predicate CrashedLeaving(target: Target, nodeFile: string, projectDir: string -> Option<string>, tool: Tool, bytes: Bytes)
  {
    && projectDir(nodeFile).Some?
    && VersionField(target.binaryPath).Some?
    && var run := tool(CallFor(target, projectDir(nodeFile).value, VersionField(target.binaryPath).value));
       run.Crashed? && run.leftBehind == Some(bytes)
  }

  /** Disk `after` differs from `before` at most in the addon file and its
      backup: an existing backup is kept, a new one holds the addon's
      original bytes, and the addon file is not removed. */
  predicate BackupFrame(before: Fs, after: Fs, nodeFile: string)
  {
    var bak := BackupName(nodeFile);
    && (forall p :: p in before && p != nodeFile && p != bak ==> p in after && after[p] == before[p])
    && (forall p :: p in after ==> p in before || p == nodeFile || p == bak)
    && (bak in before ==> bak in after && after[bak] == before[bak])
    && (bak !in before && bak in after ==> nodeFile in before && after[bak] == before[nodeFile])
    && (nodeFile in before ==> nodeFile in after)
  }

  /** On failure only the addon file and its backup can have changed: a
      new backup holds the addon's original bytes, and the addon file holds
      its original bytes or whatever the failed run left in it. */
  lemma FetchFailureOnlyBacksUp(fs: Fs, nodeFile: string, nativeFile: string, call: ToolCall, tool: Tool)
    requires Fetch(fs, nodeFile, nativeFile, call, tool).result.Err?
    ensures var r := Fetch(fs, nodeFile, nativeFile, call, tool);
            && BackupFrame(fs, r.fs, nodeFile)
            && (nodeFile in r.fs ==>
                  (nodeFile in fs && r.fs[nodeFile] == fs[nodeFile])
                  || (tool(call).Crashed? && tool(call).leftBehind == Some(r.fs[nodeFile])))
  {
    BackupNameDiffers(nodeFile);
  }

  /** A run that fails after overwriting the addon file leaves it
      overwritten: the restore step never runs, and only the backup still
      holds the original bytes. */
  lemma CrashLeavesAddon(fs: Fs, nodeFile: string, nativeFile: string, call: ToolCall, tool: Tool)
    requires BackupName(nodeFile) in fs || nodeFile in fs
    requires tool(call).Crashed? && tool(call).leftBehind.Some?
    ensures var r := Fetch(fs, nodeFile, nativeFile, call, tool);
            && r.result == Err(tool(call).error)
            && nodeFile in r.fs && r.fs[nodeFile] == tool(call).leftBehind.value
            && BackupName(nodeFile) in r.fs && r.fs[BackupName(nodeFile)] == BackupContents(fs, nodeFile)
  {
    BackupNameDiffers(nodeFile);
  }

  lemma BackupNameDiffers(nodeFile: string)
    ensures BackupName(nodeFile) != nodeFile
  {
    assert |BackupName(nodeFile)| == |nodeFile| + 4;
  }

  /** A successful fetch: the backup is taken only if absent, the cache file
      gets the tool's bytes and the addon file is restored from the backup. */
  lemma FetchSuccess(fs: Fs, nodeFile: string, nativeFile: string, call: ToolCall, tool: Tool)
    requires nativeFile != BackupName(nodeFile) && nativeFile != nodeFile
    requires Fetch(fs, nodeFile, nativeFile, call, tool).result.Ok?
    ensures BackupName(nodeFile) in fs || nodeFile in fs
    ensures tool(call).Installed?
    ensures Fetch(fs, nodeFile, nativeFile, call, tool).fs
         == fs[BackupName(nodeFile) := BackupContents(fs, nodeFile)][nativeFile := tool(call).bytes][nodeFile := BackupContents(fs, nodeFile)]
  {
    var bak := BackupName(nodeFile);
    var fs1 := if bak in fs then fs else fs[bak := fs[nodeFile]];
    assert fs1[bak] == BackupContents(fs, nodeFile);
    assert fs1 == fs[bak := BackupContents(fs, nodeFile)];
  }

  /** A result is always the cache name of an accepted version tag. */
  lemma ResultIsCacheName(target: Target, nodeFile: string, fs: Fs, projectDir: string -> Option<string>, tool: Tool)
    requires Resolve(target, nodeFile, fs, projectDir, tool).result.Ok?
    ensures VersionField(target.binaryPath).Some?
    ensures IsVersionTag(VersionField(target.binaryPath).value)
    ensures Resolve(target, nodeFile, fs, projectDir, tool).result.value
         == CacheName(nodeFile, target.platform, VersionField(target.binaryPath).value)
  {
  }

  /** On failure only the addon file and its backup can have changed: a
      new backup holds the addon's original bytes, and the addon file holds
      its original bytes unless the tool failed after overwriting it. */
  lemma FailureOnlyBacksUp(target: Target, nodeFile: string, fs: Fs, projectDir: string -> Option<string>, tool: Tool)
    requires Resolve(target, nodeFile, fs, projectDir, tool).result.Err?
    ensures var r := Resolve(target, nodeFile, fs, projectDir, tool);
            && BackupFrame(fs, r.fs, nodeFile)
            && (nodeFile in r.fs ==>
                  (nodeFile in fs && r.fs[nodeFile] == fs[nodeFile])
                  || CrashedLeaving(target, nodeFile, projectDir, tool, r.fs[nodeFile]))
  {
    if projectDir(nodeFile).Some? {
      var field := VersionField(target.binaryPath);
      if field.Some? && IsVersionTag(field.value) {
        var nativeFile := CacheName(nodeFile, target.platform, field.value);
        if nativeFile !in fs {
          var call := CallFor(target, projectDir(nodeFile).value, field.value);
          assert Resolve(target, nodeFile, fs, projectDir, tool) == Fetch(fs, nodeFile, nativeFile, call, tool);
          FetchFailureOnlyBacksUp(fs, nodeFile, nativeFile, call, tool);
          return;
        }
      }
    }
    assert Resolve(target, nodeFile, fs, projectDir, tool).fs == fs;
  }

  /** On a cache miss the resolution is the fetch: it succeeds exactly when
      the addon or its backup exists and the tool installs a build, and then
      answers the cache name. */
  lemma CacheMissFetches(target: Target, nodeFile: string, fs: Fs, projectDir: string -> Option<string>, tool: Tool)
    requires projectDir(nodeFile).Some?
    requires VersionField(target.binaryPath).Some? && IsVersionTag(VersionField(target.binaryPath).value)
    requires CacheName(nodeFile, target.platform, VersionField(target.binaryPath).value) !in fs
    ensures var version := VersionField(target.binaryPath).value;
            var r := Resolve(target, nodeFile, fs, projectDir, tool);
            && (r.result.Ok? <==>
                  ((BackupName(nodeFile) in fs || nodeFile in fs) && tool(CallFor(target, projectDir(nodeFile).value, version)).Installed?))
            && (r.result.Ok? ==> r.result.value == CacheName(nodeFile, target.platform, version))
  {
    var version := VersionField(target.binaryPath).value;
    var call := CallFor(target, projectDir(nodeFile).value, version);
    assert Resolve(target, nodeFile, fs, projectDir, tool) == Fetch(fs, nodeFile, CacheName(nodeFile, target.platform, version), call, tool);
  }

  /** A version field that is missing or does not match the pattern is an
      error, and nothing on disk changes. */
  lemma MalformedTagThrows(target: Target, nodeFile: string, fs: Fs, projectDir: string -> Option<string>, tool: Tool)
    requires projectDir(nodeFile).Some?
    requires VersionField(target.binaryPath).None? || !IsVersionTag(VersionField(target.binaryPath).value)
    ensures Resolve(target, nodeFile, fs, projectDir, tool)
         == Resolution(fs, Err(Thrown("Couldn't find node version, instead got: " + Shown(VersionField(target.binaryPath)))))
  {
  }

  /** A cache hit returns the cached file and changes nothing. */
  lemma CacheHitChangesNothing(target: Target, nodeFile: string, fs: Fs, projectDir: string -> Option<string>, tool: Tool)
    requires projectDir(nodeFile).Some?
    requires VersionField(target.binaryPath).Some? && IsVersionTag(VersionField(target.binaryPath).value)
    requires CacheName(nodeFile, target.platform, VersionField(target.binaryPath).value) in fs
    ensures Resolve(target, nodeFile, fs, projectDir, tool)
         == Resolution(fs, Ok(CacheName(nodeFile, target.platform, VersionField(target.binaryPath).value)))
  {
  }

  /** The cache name, the backup name and the addon name are three distinct
      files, so the restore step cannot clobber the cached result. */
  lemma NamesDistinct(nodeFile: string, platform: string, version: string)
    requires IsVersionTag(version)
    ensures CacheName(nodeFile, platform, version) != BackupName(nodeFile)
    ensures CacheName(nodeFile, platform, version) != nodeFile
    ensures BackupName(nodeFile) != nodeFile
  {
    VersionTagShape(version);
    assert |version| >= 6;
    assert |CacheName(nodeFile, platform, version)| >= |nodeFile| + 8;
    assert |BackupName(nodeFile)| == |nodeFile| + 4;
  }

  /** A fresh fetch with no earlier backup: the addon file holds its
      original bytes again, the backup holds them too, the cache file holds
      the tool's bytes, and no other file changed. */
  lemma FreshFetchRestoresAddon(target: Target, nodeFile: string, fs: Fs, projectDir: string -> Option<string>, tool: Tool)
    requires nodeFile in fs && BackupName(nodeFile) !in fs
    requires Resolve(target, nodeFile, fs, projectDir, tool).result.Ok?
    requires Resolve(target, nodeFile, fs, projectDir, tool).result.value !in fs
    ensures projectDir(nodeFile).Some? && VersionField(target.binaryPath).Some?
    ensures var r := Resolve(target, nodeFile, fs, projectDir, tool);
            var call := CallFor(target, projectDir(nodeFile).value, VersionField(target.binaryPath).value);
            && tool(call).Installed?
            && r.fs[nodeFile] == fs[nodeFile]
            && r.fs[BackupName(nodeFile)] == fs[nodeFile]
            && r.fs[r.result.value] == tool(call).bytes
            && r.fs.Keys == fs.Keys + {BackupName(nodeFile), r.result.value}
            && forall p :: p in fs && p != nodeFile ==> r.fs[p] == fs[p]
  {
    ResultIsCacheName(target, nodeFile, fs, projectDir, tool);
    var version := VersionField(target.binaryPath).value;
    var nativeFile := CacheName(nodeFile, target.platform, version);
    NamesDistinct(nodeFile, target.platform, version);
    var call := CallFor(target, projectDir(nodeFile).value, version);
    assert Resolve(target, nodeFile, fs, projectDir, tool) == Fetch(fs, nodeFile, nativeFile, call, tool);
    FetchSuccess(fs, nodeFile, nativeFile, call, tool);
    RestoredMap(fs, nodeFile, BackupName(nodeFile), nativeFile, tool(call).bytes);
  }

  /** The filesystem after backup, copy and restore, file by file. */
  lemma RestoredMap(fs: Fs, nodeFile: string, bak: string, nativeFile: string, fetched: Bytes)
    requires nodeFile in fs && bak !in fs && nativeFile !in fs
    requires bak != nodeFile && nativeFile != nodeFile && nativeFile != bak
    ensures var m := fs[bak := fs[nodeFile]][nativeFile := fetched][nodeFile := fs[nodeFile]];
            && m[nodeFile] == fs[nodeFile]
            && m[bak] == fs[nodeFile]
            && m[nativeFile] == fetched
            && m.Keys == fs.Keys + {bak, nativeFile}
            && forall p :: p in fs && p != nodeFile ==> m[p] == fs[p]
  {
    var m := fs[bak := fs[nodeFile]][nativeFile := fetched][nodeFile := fs[nodeFile]];
    forall p | p in fs && p != nodeFile ensures m[p] == fs[p] {
      assert p != bak && p != nativeFile;
    }
  }

  /** The architecture is not part of the cache key: once any architecture
      has been fetched for a platform and version, a target differing only
      in architecture gets the same file back without the tool running. */
  lemma CacheIgnoresArch(target: Target, arch: string, nodeFile: string, fs: Fs, projectDir: string -> Option<string>, tool: Tool, other: Tool)
    requires Resolve(target, nodeFile, fs, projectDir, tool).result.Ok?
    ensures var r := Resolve(target, nodeFile, fs, projectDir, tool);
            Resolve(target.(arch := arch), nodeFile, r.fs, projectDir, other) == Resolution(r.fs, Ok(r.result.value))
  {
  }
}
