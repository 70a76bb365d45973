/** `extract_gradle_info`: one pass over the lines of every build script, in the order
    the walk found them, and one pass over the lines of the wrapper properties file. The
    Java version is the first capture (later ones are skipped by the `not java_version`
    guard), every dependency match is appended, and the Gradle version is overwritten by
    every wrapper match, so the last one stays. */
module Extractor {
  import opened Text
  import opened Regex
  import opened Patterns
  import opened Scanner
  import opened Folds

  /** The dictionary the script returns. */
  datatype GradleInfo = GradleInfo(javaVersion: string, gradleVersion: string, dependencies: seq<string>)

  /** What the script reads from the file system: whether a path exists, what `os.walk`
      yields from a directory, and the lines of a file, each with its line ending, as
      iterating over a text file gives them. */
  datatype Host = Host(pathExists: string -> bool, walk: string -> seq<DirListing>, lines: string -> seq<string>)

  /** `not v` for a value that is `None` or a string. */
  predicate Falsy(v: Option<string>) {
    v.None? || v.value == []
  }

  /** `v or fallback`. */
  function OrElse(v: Option<string>, fallback: string): string {
    if Falsy(v) then fallback else v.value
  }

  /** The Java version after the lines have been scanned in order: the first capture,
      which the guard then leaves alone. */
  function FirstJava(lines: seq<string>): (r: Option<string>)
    ensures r.Some? ==> r.value != [] && AllDigits(r.value)
  {
    FirstHit(JavaCapture, lines)
  }

  /** A dependency entry: the whole match, from its keyword to its closing quote. */
  predicate IsDependencyEntry(s: string) {
    StartsWithKeyword(s) && s != [] && IsQuote(s[|s| - 1])
  }

  /** The dependency list after the lines have been scanned in order: every match. */
  function Dependencies(lines: seq<string>): (r: seq<string>)
    ensures |r| <= |lines|
    ensures forall k :: 0 <= k < |r| ==> IsDependencyEntry(r[k])
  {
    AllHits(DepFragment, lines)
  }

  /** The Gradle version after the wrapper lines have been scanned in order: every
      capture replaces the one before. */
  function LastWrapper(lines: seq<string>): (r: Option<string>)
    ensures r.Some? ==> IsVersionTriple(r.value)
  {
    LastHit(WrapperCapture, lines)
  }

  /** The lines of the files, file after file. */
  function AllLines(host: Host, files: seq<string>): seq<string> {
    if files == [] then [] else AllLines(host, files[..|files| - 1]) + host.lines(files[|files| - 1])
  }

  /** `os.path.join(project_path, "gradle", "wrapper", "gradle-wrapper.properties")`. */
  function WrapperPath(projectPath: string): string {
    Join(Join(Join(projectPath, "gradle"), "wrapper"), "gradle-wrapper.properties")
  }

  /** Below a project directory, the wrapper properties file is
      `gradle/wrapper/gradle-wrapper.properties`; a `/` is put after the directory only
      when it does not already end with one. */
  lemma WrapperPathUnder(projectPath: string)
    requires projectPath != []
    ensures projectPath[|projectPath| - 1] != '/' ==>
      WrapperPath(projectPath) == projectPath + "/" + "gradle" + "/" + "wrapper" + "/" + "gradle-wrapper.properties"
    ensures projectPath[|projectPath| - 1] == '/' ==>
      WrapperPath(projectPath) == projectPath + "gradle" + "/" + "wrapper" + "/" + "gradle-wrapper.properties"
  {
    var g := Join(projectPath, "gradle");
    var w := Join(g, "wrapper");
    if projectPath[|projectPath| - 1] != '/' {
      assert g == projectPath + "/" + "gradle";
    } else {
      assert g == projectPath + "gradle";
    }
    assert w == g + "/" + "wrapper";
  }

  /** The wrapper lines the scan sees: none when the file does not exist. */
  function WrapperLines(host: Host, projectPath: string): seq<string> {
    var path := WrapperPath(projectPath);
    if host.pathExists(path) then host.lines(path) else []
  }

  /** The result for the given build-script lines and wrapper lines, with the defaults. */
  function Extracted(buildLines: seq<string>, wrapperLines: seq<string>): GradleInfo {
    GradleInfo(OrElse(FirstJava(buildLines), "11"), OrElse(LastWrapper(wrapperLines), "7.0"), Dependencies(buildLines))
  }

  method ExtractGradleInfo(projectPath: string, host: Host) returns (info: GradleInfo)
    ensures info == Extracted(AllLines(host, GradleFiles(host.walk(projectPath))), WrapperLines(host, projectPath))
  {
    var gradleWrapperPath := Join(Join(Join(projectPath, "gradle"), "wrapper"), "gradle-wrapper.properties");
    var gradleFiles := FindGradleFiles(host.walk(projectPath));

    var javaVersion: Option<string> := None;
    var gradleVersion: Option<string> := None;
    var dependencies: seq<string> := [];

    var i := 0;
    while i < |gradleFiles|
      invariant 0 <= i <= |gradleFiles|
      invariant javaVersion == FirstJava(AllLines(host, gradleFiles[..i]))
      invariant dependencies == Dependencies(AllLines(host, gradleFiles[..i]))
    {
      ghost var before := AllLines(host, gradleFiles[..i]);
      var lines := host.lines(gradleFiles[i]);
      JavaCaptureNonEmpty();
      javaVersion, dependencies := ScanBuildFile(JavaCapture, DepFragment, before, lines, javaVersion, dependencies);
      AllLinesStep(host, gradleFiles, i);
      i := i + 1;
    }
    assert gradleFiles[..i] == gradleFiles;

    if host.pathExists(gradleWrapperPath) {
      gradleVersion := ScanWrapperFile(host.lines(gradleWrapperPath));
    }

    info := GradleInfo(OrElse(javaVersion, "11"), OrElse(gradleVersion, "7.0"), dependencies);
  }

  /** The lines of one build script, scanned with the Java matcher `java` and the
      dependency matcher `dependency` after the scripts whose lines are `before`: the
      Java version is set by the first capture only while it is still unset, and every
      dependency match is appended. */
  method ScanBuildFile(java: string -> Option<string>, dependency: string -> Option<string>,
                       ghost before: seq<string>, lines: seq<string>,
                       javaVersion0: Option<string>, dependencies0: seq<string>)
    returns (javaVersion: Option<string>, dependencies: seq<string>)
    requires forall line :: java(line).Some? ==> java(line).value != []
    requires javaVersion0 == FirstHit(java, before) && dependencies0 == AllHits(dependency, before)
    ensures javaVersion == FirstHit(java, before + lines)
    ensures dependencies == AllHits(dependency, before + lines)
  {
    javaVersion, dependencies := javaVersion0, dependencies0;
    var k := 0;
    assert before + lines[..k] == before;
    while k < |lines|
      invariant 0 <= k <= |lines|
      invariant javaVersion == FirstHit(java, before + lines[..k])
      invariant dependencies == AllHits(dependency, before + lines[..k])
    {
      var line := lines[k];
      assert before + lines[..k + 1] == (before + lines[..k]) + [line];
      FirstHitSnoc(java, before + lines[..k], line);
      AllHitsSnoc(dependency, before + lines[..k], line);
      var javaMatch := java(line);
      if javaMatch.Some? && Falsy(javaVersion) {
        javaVersion := javaMatch;
      }
      var dependencyMatch := dependency(line);
      if dependencyMatch.Some? {
        dependencies := dependencies + [dependencyMatch.value];
      }
      k := k + 1;
    }
    assert lines[..k] == lines;
  }

  /** The lines of the wrapper properties file: every capture overwrites the version. */
  method ScanWrapperFile(lines: seq<string>) returns (gradleVersion: Option<string>)
    ensures gradleVersion == LastWrapper(lines)
  {
    gradleVersion := None;
    var k := 0;
    while k < |lines|
      invariant 0 <= k <= |lines|
      invariant gradleVersion == LastWrapper(lines[..k])
    {
      assert lines[..k + 1] == lines[..k] + [lines[k]];
      LastHitSnoc(WrapperCapture, lines[..k], lines[k]);
      var gradleMatch := WrapperCapture(lines[k]);
      if gradleMatch.Some? {
        gradleVersion := gradleMatch;
      }
      k := k + 1;
    }
    assert lines[..k] == lines;
  }

  // ---------------------------------------------------------------------------
  // The result

  /** The build scripts are read one after the other, each from its first line. */
  /** One more build script adds its lines after those of the scripts before it. */
  lemma AllLinesStep(host: Host, files: seq<string>, i: nat)
    requires i < |files|
    ensures AllLines(host, files[..i + 1]) == AllLines(host, files[..i]) + host.lines(files[i])
  {
    assert files[..i + 1][..i] == files[..i];
  }

  /** A Java capture is never the empty string. */
  lemma JavaCaptureNonEmpty()
    ensures forall line :: JavaCapture(line).Some? ==> JavaCapture(line).value != []
  {
  }

  lemma {:induction false} AllLinesAppend(host: Host, f1: seq<string>, f2: seq<string>)
    ensures AllLines(host, f1 + f2) == AllLines(host, f1) + AllLines(host, f2)
    decreases |f2|
  {
    if f2 == [] {
      assert f1 + f2 == f1;
    } else {
      var n := |f2| - 1;
      assert (f1 + f2)[..|f1 + f2| - 1] == f1 + f2[..n];
      assert (f1 + f2)[|f1 + f2| - 1] == f2[n];
      AllLinesAppend(host, f1, f2[..n]);
    }
  }

  /** The Java version is never empty: it is a run of digits, `"11"` exactly when no
      line declares one. The Gradle version is `digits.digits.digits`, or `"7.0"`
      exactly when no wrapper line names a distribution. */
  lemma ExtractedVersions(buildLines: seq<string>, wrapperLines: seq<string>)
    ensures var info := Extracted(buildLines, wrapperLines);
      && info.javaVersion != [] && AllDigits(info.javaVersion)
      && (info.javaVersion == "11" <==> FirstJava(buildLines).None? || FirstJava(buildLines) == Some("11"))
      && (IsVersionTriple(info.gradleVersion) <==> LastWrapper(wrapperLines).Some?)
      && (LastWrapper(wrapperLines).None? ==> info.gradleVersion == "7.0")
  {
    var info := Extracted(buildLines, wrapperLines);
    assert !IsVersionTriple("7.0");
  }

  /** Without a wrapper properties file the Gradle version is `"7.0"`. */
  lemma NoWrapperFile(host: Host, projectPath: string)
    requires !host.pathExists(WrapperPath(projectPath))
    ensures forall buildLines :: Extracted(buildLines, WrapperLines(host, projectPath)).gradleVersion == "7.0"
  {
  }

  /** The key and the address in front of the distribution name on the `distributionUrl`
      line of a wrapper properties file, with the `:` escaped as properties files write it.
      It is written in three parts, each holding at most one `g`, so that the proof
      below can look at each part on its own. */
  const DistributionAddress := "distributionUrl=https\\://services." + "gradle." + "org/distributions/"

  /** Neither `gradle.` in the host name nor `g/` in `org/distributions/` starts the
      wrapper pattern. */
  lemma DistributionAddressNoStart()
    ensures NoDistributionStart(DistributionAddress)
  {
    var x, y, z := "distributionUrl=https\\://services.", "gradle.", "org/distributions/";
    assert 'g' !in x;
    assert y[6] == '.' && z[3] == '/';
    OneGNoStart(y, 0);
    OneGNoStart(z, 2);
    NoStartAppend(x, y);
    NoStartAppend(x + y, z);
  }

  /** A wrapper file whose `distributionUrl` names a two-part distribution version,
      `gradle-8.4-all.zip`, leaves the Gradle version at its default. */
  lemma TwoPartDistribution(buildLines: seq<string>)
    ensures Extracted(buildLines, [DistributionAddress + TwoPartName("8", "4", "-all.zip\n")]).gradleVersion
      == "7.0"
  {
    var line := DistributionAddress + TwoPartName("8", "4", "-all.zip\n");
    DistributionAddressNoStart();
    TwoPartVersion(DistributionAddress, "8", "4", "-all.zip\n");
    LastHitSnoc(WrapperCapture, [], line);
    assert [] + [line] == [line];
  }

  /** With nothing to scan, the defaults. */
  lemma EmptyProject()
    ensures Extracted([], []) == GradleInfo("11", "7.0", [])
  {
  }

  /** A project whose only build script declares one dependency and no Java version,
      and that has no wrapper file. */
  lemma OneDependencyScenario(host: Host, projectPath: string)
    requires host.walk(projectPath) == [DirListing(projectPath, ["build.gradle"])]
    requires host.lines(Join(projectPath, "build.gradle")) == ["implementation \"a:b:1.0\"\n"]
    requires !host.pathExists(WrapperPath(projectPath))
    ensures Extracted(AllLines(host, GradleFiles(host.walk(projectPath))), WrapperLines(host, projectPath))
      == GradleInfo("11", "7.0", ["implementation \"a:b:1.0\""])
  {
    ScenarioFiles(host, projectPath);
    ScenarioLines(host.lines(Join(projectPath, "build.gradle")));
  }

  lemma ScenarioFiles(host: Host, projectPath: string)
    requires host.walk(projectPath) == [DirListing(projectPath, ["build.gradle"])]
    ensures AllLines(host, GradleFiles(host.walk(projectPath))) == host.lines(Join(projectPath, "build.gradle"))
  {
    GradleFilesSingle(projectPath, "build.gradle");
    var files := [Join(projectPath, "build.gradle")];
    assert files[..0] == [];
    assert AllLines(host, files) == AllLines(host, []) + host.lines(files[0]);
  }

  lemma ScenarioLines(lines: seq<string>)
    requires lines == ["implementation \"a:b:1.0\"\n"]
    ensures Extracted(lines, []) == GradleInfo("11", "7.0", ["implementation \"a:b:1.0\""])
  {
    var line := lines[0];
    NoJavaKeyword(line);
    JavaCaptureNeedsKeyword(line);
    OneDependencyLine(line);
    assert [line][..0] == [];
    FirstHitSnoc(JavaCapture, [], line);
    AllHitsSnoc(DepFragment, [], line);
    assert [] + [line] == lines;
  }

  lemma NoJavaKeyword(line: string)
    requires line == "implementation \"a:b:1.0\"\n"
    ensures forall j: nat :: j <= |line| ==> !StartsWith(line[j..], "java")
  {
    assert forall k :: 0 <= k < |line| ==> line[k] != 'j';
    forall j: nat | j <= |line| ensures !StartsWith(line[j..], "java") {
      if j < |line| { assert line[j..][0] == line[j]; }
    }
  }

  /** A line with one plain dependency declaration parses as one whole declaration. */
  lemma OneDependencyLine(line: string)
    requires line == "implementation \"a:b:1.0\"\n"
    ensures DepFragment(line) == Some("implementation \"a:b:1.0\"")
  {
    var head := ["implementation", " ", "\""];
    var d := DepDecl(head, "a", "b", "1.0", '"');
    assert head[1..][1..][1..] == [];
    assert Concat(head[1..][1..]) == "\"";
    assert Concat(head[1..]) == " \"";
    assert DepText(d) == "implementation \"a:b:1.0\"";
    assert MatchesAll(DepHead, d.head);
    assert DepWellFormed(d) && PlainFields(d);
    assert line[0..] == line;
    ParseDepExact(line, d);
  }
}
