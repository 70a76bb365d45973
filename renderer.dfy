/** The Dockerfile that `generate_dockerfile` writes: one f-string with the Java and
    Gradle versions substituted, then `strip()`. The dependency list is only printed,
    never rendered. */
module Renderer {
  import opened Text
  import opened Extractor

  /** The indentation the f-string keeps from the function body around it. */
  const Indent := "    "

  /** The template's fixed lines between the `FROM` line and the `CMD` line, without the
      common indentation; blank lines are empty, and shell continuation lines keep their
      extra indentation and end with one backslash. The list is written as a sum of
      one-line lists so that the verifier does not unfold one long literal. */
  const SetupLines: seq<string> :=
      [""]
    + ["# Set environment variables"]
    + ["ENV ANDROID_SDK_ROOT /opt/android-sdk"]
    + ["ENV PATH $ANDROID_SDK_ROOT/cmdline-tools/tools/bin:$ANDROID_SDK_ROOT/platform-tools:$PATH"]
    + [""]
    + ["# Install required dependencies"]
    + ["RUN mkdir -p $ANDROID_SDK_ROOT/cmdline-tools && apt-get update && apt-get install -y --no-install-recommends \\"]
    + ["    wget unzip lib32stdc++6 lib32z1 && \\"]
    + ["    wget https://dl.google.com/android/repository/commandlinetools-linux-8512546_latest.zip -O /cmdline-tools.zip && \\"]
    + ["    unzip /cmdline-tools.zip -d $ANDROID_SDK_ROOT/cmdline-tools && \\"]
    + ["    mv $ANDROID_SDK_ROOT/cmdline-tools/cmdline-tools $ANDROID_SDK_ROOT/cmdline-tools/tools && \\"]
    + ["    rm /cmdline-tools.zip && \\"]
    + ["    yes | $ANDROID_SDK_ROOT/cmdline-tools/tools/bin/sdkmanager --licenses || true && \\"]
    + ["    yes | $ANDROID_SDK_ROOT/cmdline-tools/tools/bin/sdkmanager \"platform-tools\" \"platforms;android-32\" --verbose || true && \\"]
    + ["    yes | $ANDROID_SDK_ROOT/cmdline-tools/tools/bin/sdkmanager \"build-tools;32.0.0\" --verbose || true"]
    + [""]
    + ["# Set working directory"]
    + ["WORKDIR /app"]
    + [""]
    + ["# Copy project files"]
    + ["COPY . ."]
    + [""]
    + ["# Preload Gradle dependencies"]
    + ["RUN ./gradlew dependencies --refresh-dependencies"]
    + [""]
    + ["# Default command to build the project"]

  const CmdLine := "CMD [\"./gradlew\", \"assemble\"]"

  /** Each line on a new line of its own, indented unless it is blank. */
  function Block(lines: seq<string>): string {
    if lines == [] then [] else "\n" + (if lines[0] == [] then [] else Indent + lines[0]) + Block(lines[1..])
  }

  /** The base-image line of the template. */
  function FromLine(javaVersion: string, gradleVersion: string): string {
    "FROM gradle:" + gradleVersion + "-jdk" + javaVersion
  }

  /** The first two lines of the template: the base-image comment and the `FROM` line. */
  function Heading(javaVersion: string, gradleVersion: string): (r: string)
    ensures r != [] && r[0] == '#'
  {
    "# Base image with Java " + javaVersion + Padding + FromLine(javaVersion, gradleVersion)
  }

  /** The line break before the build command, and the command. */
  const Closing := Padding + CmdLine

  /** The template from its first comment to its last line, as it reads without the
      common indentation. */
  function Body(javaVersion: string, gradleVersion: string): string {
    Heading(javaVersion, gradleVersion) + Block(SetupLines) + Closing
  }

  /** The whitespace the f-string opens and closes with: a line break and the
      indentation of its first line, and of its closing quotes. */
  const Padding := "\n" + Indent

  /** The f-string. */
  function Template(javaVersion: string, gradleVersion: string): string {
    Padding + Body(javaVersion, gradleVersion) + Padding
  }

  /** What is written to the Dockerfile. */
  function DockerfileContent(info: GradleInfo): string {
    Strip(Template(info.javaVersion, info.gradleVersion))
  }

  lemma ClosingEnd()
    ensures Closing != [] && Closing[|Closing| - 1] == ']'
  {
    assert Closing[|Closing| - 1] == CmdLine[|CmdLine| - 1];
  }

  /** Text that starts and ends with a non-blank character loses exactly the padding
      around it to `strip()`, and nothing when it has none. */
  lemma PaddedStrip(x: string, middle: string, y: string)
    requires x != [] && y != [] && !IsSpace(x[0]) && !IsSpace(y[|y| - 1])
    ensures Strip(Padding + (x + middle + y) + Padding) == x + middle + y
    ensures Strip(x + middle + y) == x + middle + y
  {
    var r := x + middle + y;
    assert r[0] == x[0] && r[|r| - 1] == y[|y| - 1];
    assert AllSpace(Padding) by { assert IsSpace('\n') && IsSpace(' '); }
    StripPadded(Padding, r, Padding);
    StripPadded([], r, []);
    assert [] + r + [] == r;
  }

  /** It starts with its first part and ends with its last, with no whitespace at either
      end. */
  lemma PaddedEnds(x: string, middle: string, y: string)
    requires x != [] && y != [] && !IsSpace(x[0]) && !IsSpace(y[|y| - 1])
    ensures var r := x + middle + y;
      && StartsWith(r, x) && EndsWith(r, y) && !IsSpace(r[0]) && !IsSpace(r[|r| - 1])
  {
    var r := x + middle + y;
    assert r[..|x|] == x;
    assert r[|r| - |y|..] == y;
    assert r[0] == x[0] && r[|r| - 1] == y[|y| - 1];
  }

  /** The content is the body: it depends on the two versions only. */
  lemma ContentIsBody(info: GradleInfo)
    ensures DockerfileContent(info) == Body(info.javaVersion, info.gradleVersion)
  {
    ClosingEnd();
    PaddedStrip(Heading(info.javaVersion, info.gradleVersion), Block(SetupLines), Closing);
  }

  /** Two results with the same versions give the same Dockerfile, whatever their
      dependency lists. */
  lemma ContentIgnoresDependencies(a: GradleInfo, b: GradleInfo)
    requires a.javaVersion == b.javaVersion && a.gradleVersion == b.gradleVersion
    ensures DockerfileContent(a) == DockerfileContent(b)
  {
  }

  /** The body opens with the base-image comment naming the Java version and the `FROM`
      line built from the two versions, ends with the build command, and has no
      whitespace at either end, so `strip()` leaves it as it is. */
  lemma BodyShape(javaVersion: string, gradleVersion: string)
    ensures var r := Body(javaVersion, gradleVersion);
      && StartsWith(r, "# Base image with Java " + javaVersion + Padding + FromLine(javaVersion, gradleVersion))
      && EndsWith(r, Padding + CmdLine)
      && !IsSpace(r[0]) && !IsSpace(r[|r| - 1])
      && Strip(r) == r
  {
    ClosingEnd();
    PaddedEnds(Heading(javaVersion, gradleVersion), Block(SetupLines), Closing);
    PaddedStrip(Heading(javaVersion, gradleVersion), Block(SetupLines), Closing);
  }
}
