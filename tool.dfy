/** The script's main block: read the project path, stop if it does not exist,
    otherwise extract the project information, write the Dockerfile, read the image
    name and, unless it is blank, run `docker build` and exit with status 1 when the
    build fails. The two answers typed at the prompts and the exit status of
    `docker build` for each command line are inputs. */
module Tool {
  import opened Text
  import opened Scanner
  import opened Extractor
  import opened Renderer

  /** What happened about the image. */
  datatype BuildStep =
    | Skipped
    | Invoked(argv: seq<string>, status: int)

  /** A run of the script: either the path did not exist, or the project was scanned,
      the Dockerfile written and the build step taken. */
  datatype Outcome =
    | PathMissing
    | Finished(info: GradleInfo, dockerfile: string, build: BuildStep)

  /** The image name to build, or `None` when the answer is blank. */
  function ImageTag(answer: string): (r: Option<string>)
    ensures r.None? <==> AllSpace(answer)
    ensures r.Some? ==>
      r.value == Strip(answer) && r.value != [] && !IsSpace(r.value[0]) && !IsSpace(r.value[|r.value| - 1])
  {
    StripIsCore(answer);
    var tag := Strip(answer);
    if tag == [] then None else Some(tag)
  }

  /** The command line `build_and_tag_image` runs. */
  function BuildCommand(projectPath: string, imageName: string): (r: seq<string>)
    ensures |r| == 5 && r[..3] == ["docker", "build", "-t"] && r[3] == imageName && r[4] == projectPath
  {
    ["docker", "build", "-t", imageName, projectPath]
  }

  /** The build step for the image-name answer, with `docker` giving the exit status of a
      command line. */
  function BuildStepFor(projectPath: string, answer: string, docker: seq<string> -> int): BuildStep {
    match ImageTag(answer)
    case None => Skipped
    case Some(tag) => Invoked(BuildCommand(projectPath, tag), docker(BuildCommand(projectPath, tag)))
  }

  /** The whole run, for the two answers typed at the prompts. */
  function MainOutcome(pathAnswer: string, tagAnswer: string, host: Host, docker: seq<string> -> int): Outcome {
    var projectPath := Strip(pathAnswer);
    if !host.pathExists(projectPath) then PathMissing
    else
      var info := Extracted(AllLines(host, GradleFiles(host.walk(projectPath))), WrapperLines(host, projectPath));
      Finished(info, DockerfileContent(info), BuildStepFor(projectPath, tagAnswer, docker))
  }

  /** The script's exit status: 1 after a failed build (`check=True` raises, the handler
      calls `exit(1)`), 0 otherwise. */
  function ExitStatus(outcome: Outcome): int {
    if outcome.Finished? && outcome.build.Invoked? && outcome.build.status != 0 then 1 else 0
  }

  /** The main block, step by step. */
  method Run(pathAnswer: string, tagAnswer: string, host: Host, docker: seq<string> -> int)
    returns (outcome: Outcome)
    ensures outcome == MainOutcome(pathAnswer, tagAnswer, host, docker)
  {
    var projectPath := Strip(pathAnswer);
    if !host.pathExists(projectPath) {
      outcome := PathMissing;
      return;
    }
    var gradleInfo := ExtractGradleInfo(projectPath, host);
    var dockerfile := DockerfileContent(gradleInfo);
    var imageName := Strip(tagAnswer);
    var build: BuildStep;
    if imageName != [] {
      var argv := BuildCommand(projectPath, imageName);
      build := Invoked(argv, docker(argv));
    } else {
      build := Skipped;
    }
    outcome := Finished(gradleInfo, dockerfile, build);
  }

  /** A blank image name never builds; any other name always does, with the stripped
      name as the tag and the stripped project path as the build context. */
  lemma BuildDecision(pathAnswer: string, tagAnswer: string, host: Host, docker: seq<string> -> int)
    requires host.pathExists(Strip(pathAnswer))
    ensures var outcome := MainOutcome(pathAnswer, tagAnswer, host, docker);
      && outcome.Finished?
      && (outcome.build.Skipped? <==> AllSpace(tagAnswer))
      && (outcome.build.Invoked? ==>
            outcome.build.argv == ["docker", "build", "-t", Strip(tagAnswer), Strip(pathAnswer)]
            && outcome.build.status == docker(outcome.build.argv))
  {
  }

  /** A path that does not exist stops the run before anything is scanned, written or
      built, and the script exits normally. */
  lemma MissingPath(pathAnswer: string, tagAnswer: string, host: Host, docker: seq<string> -> int)
    requires !host.pathExists(Strip(pathAnswer))
    ensures MainOutcome(pathAnswer, tagAnswer, host, docker) == PathMissing
    ensures ExitStatus(PathMissing) == 0
  {
  }

  /** The script fails exactly when the path exists, the image name is not blank and
      `docker build` exits with a nonzero status. */
  lemma ExitStatusCases(pathAnswer: string, tagAnswer: string, host: Host, docker: seq<string> -> int)
    ensures var projectPath, tag := Strip(pathAnswer), Strip(tagAnswer);
      ExitStatus(MainOutcome(pathAnswer, tagAnswer, host, docker)) == 1 <==>
        host.pathExists(projectPath) && !AllSpace(tagAnswer)
        && docker(BuildCommand(projectPath, tag)) != 0
  {
  }

  /** The Dockerfile written for an existing project is the rendering of the extracted
      versions. */
  lemma WrittenDockerfile(pathAnswer: string, tagAnswer: string, host: Host, docker: seq<string> -> int)
    requires host.pathExists(Strip(pathAnswer))
    ensures var outcome := MainOutcome(pathAnswer, tagAnswer, host, docker);
      outcome.Finished? && outcome.dockerfile == Body(outcome.info.javaVersion, outcome.info.gradleVersion)
  {
    var outcome := MainOutcome(pathAnswer, tagAnswer, host, docker);
    ContentIsBody(outcome.info);
  }
}
