# Dockerfile generator for Android Gradle projects, modelled in Dafny

`in-Docker/generate_dockerfile_and_build.py` is an interactive script. It asks for the path of an Android
Gradle project and scans the project's build scripts for three things: the Java toolchain version, the
dependency declarations, and the version of the Gradle distribution named in the wrapper properties file. It then writes a Dockerfile
for those versions and, when given a non-blank image name, runs `docker build` on the project.

The model follows the script function by function:

- `Scanner` — `find_gradle_files`. The list of build scripts is gathered from a walk of the project tree in nested loops.
- `Regex`, `Patterns` — the three regular expressions of `extract_gradle_info`, with `re.search`
  semantics. The search finds the leftmost start position, greedy runs and the alternation are read
  deterministically, and the three lazy `(.+?)` groups of the dependency pattern stop at the
  first possible place. `\s` is Python's whitespace set and `.` is any character but a line feed.
- `Folds` — the three ways the scan accumulates matches. The Java version is the first hit (the `not java_version`
  guard). The Gradle version is the last hit (each match overwrites). The dependencies are every hit, appended. Each is defined
  line by line and characterised by line positions.
- `Extractor` — `extract_gradle_info`. One loop runs over the build scripts and one over the lines of each, then
  one loop runs over the wrapper file, and the defaults `"11"` and `"7.0"` are applied at the end. The method is proved equal to a specification function,
  `Extracted`, and the lemmas are about that function.
- `Renderer` — the f-string of `generate_dockerfile` and its `strip()`.
- `Tool` — the main block: the stripped path must exist, the Dockerfile is written, a blank image name skips the build,
  and a failed build makes the script exit with status 1.

The file system is an input. A `Host` value gives, for a path, whether it exists, what `os.walk` yields from it,
and the lines of the file, each with its line ending. The two answers typed at the prompts and the exit status
of `docker build` for each command line are inputs too.

Three points of the code are easy to misread:

- The Gradle version is the one of the *last* matching wrapper line. The loop has no `not gradle_version` guard.
- The wrapper pattern needs a three-part version. The line
  `distributionUrl=https\://services.gradle.org/distributions/gradle-8.4-all.zip` therefore has no capture, and
  the Gradle version stays `"7.0"` (`Extractor.TwoPartDistribution`).
- The wrapper pattern's `.` before `zip` is unescaped, so it matches any character but a line feed.

## Model

| member | source | states |
|---|---|---|
| Text.IsSpace | in-Docker/generate_dockerfile_and_build.py:34 | `\s` and the whitespace `strip()` removes: the characters for which Python's `str.isspace` holds |
| Text.NotNewline | in-Docker/generate_dockerfile_and_build.py:39 | the characters `.` matches without `re.DOTALL`: all but the line feed |
| Text.NoNewline | in-Docker/generate_dockerfile_and_build.py:39 | text every character of which `.` matches |
| Text.Strip | in-Docker/generate_dockerfile_and_build.py:108 | `str.strip()` with no argument: the leading whitespace is dropped, then the trailing whitespace of what is left |
| Text.StripIsCore | in-Docker/generate_dockerfile_and_build.py:108 | `strip()` removes only whitespace, from both ends: what remains is a slice, empty exactly when the text is all whitespace, and otherwise starts and ends with non-whitespace |
| Text.StripPadded | in-Docker/generate_dockerfile_and_build.py:108 | text with non-blank ends, padded with whitespace on both sides, strips back to itself |
| Regex.Matches | in-Docker/generate_dockerfile_and_build.py:34 | a text matched by one piece: the literal itself, one of the alternation's options, a run of the class (non-empty for `+`), or one character of the class |
| Regex.MatchesAll | in-Docker/generate_dockerfile_and_build.py:34 | one part per piece, each matched by its piece: what a match of the whole pattern is made of, independent of how it is found |
| Regex.Concat | in-Docker/generate_dockerfile_and_build.py:34 | the text a match spans: its parts joined in order |
| Regex.Parse | in-Docker/generate_dockerfile_and_build.py:34 | a greedy read of a pattern returns one part per piece, each matched by its piece, and together they are a prefix of the text |
| Regex.ParseComplete | in-Docker/generate_dockerfile_and_build.py:34 | for a deterministic pattern, every match of the pattern at the start of a text is the one the greedy read returns |
| Regex.FirstPrefixFinds | in-Docker/generate_dockerfile_and_build.py:39 | an alternation whose options start differently picks the option the text starts with |
| Regex.Search | in-Docker/generate_dockerfile_and_build.py:34 | `re.search`: the leftmost start position at which the pattern reads, with no reading start before it, or none when no position reads |
| Regex.SearchLeftmost | in-Docker/generate_dockerfile_and_build.py:34 | for a deterministic pattern, a match starting at `j` makes the search succeed at `j` or further left, and with exactly that match when it stops at `j` |
| Regex.ParseNoneAfter | in-Docker/generate_dockerfile_and_build.py:47 | a read fails when the first piece reads and the rest of the pattern then fails |
| Regex.PlusReads | in-Docker/generate_dockerfile_and_build.py:47 | a greedy `c+` takes a whole run of `c` up to the first other character |
| Patterns.JavaPattern | in-Docker/generate_dockerfile_and_build.py:34 | `java\s*\(\s*version\s*=\s*['"](\d+)['"]\)` as twelve literal, `\s*` run, quote-class and `\d+` pieces |
| Patterns.JavaGroup | in-Docker/generate_dockerfile_and_build.py:34 | group 1, `(\d+)`, is piece 9 |
| Patterns.JavaPatternDeterministic | in-Docker/generate_dockerfile_and_build.py:34 | the Java pattern never needs backtracking |
| Patterns.JavaCapture | in-Docker/generate_dockerfile_and_build.py:34-36 | the captured Java version is a non-empty run of digits |
| Patterns.JavaCaptureLeftmost | in-Docker/generate_dockerfile_and_build.py:34-36 | the capture is group 1 of the leftmost occurrence of the Java declaration in the line |
| Patterns.JavaCaptureNone | in-Docker/generate_dockerfile_and_build.py:34-35 | there is no capture exactly when no position of the line starts an occurrence |
| Patterns.JavaCaptureNeedsKeyword | in-Docker/generate_dockerfile_and_build.py:34 | a line in which `java` does not occur has no capture |
| Patterns.WrapperPattern | in-Docker/generate_dockerfile_and_build.py:47 | `gradle-(\d+\.\d+\.\d+)-all.zip` as nine pieces, the escaped dots as literals and the unescaped `.` as any character but a line feed |
| Patterns.WrapperPatternDeterministic | in-Docker/generate_dockerfile_and_build.py:47 | the wrapper pattern never needs backtracking |
| Patterns.WrapperGroup | in-Docker/generate_dockerfile_and_build.py:47-49 | group 1 is the text of pieces 1-5: the three digit runs and the two dots |
| Patterns.WrapperGroupIsTriple | in-Docker/generate_dockerfile_and_build.py:47-49 | group 1 of any occurrence has the form digits.digits.digits |
| Patterns.WrapperCapture | in-Docker/generate_dockerfile_and_build.py:47-49 | the captured Gradle version has the form digits.digits.digits |
| Patterns.WrapperCaptureLeftmost | in-Docker/generate_dockerfile_and_build.py:47-49 | the capture is group 1 of the leftmost occurrence of the distribution name in the line |
| Patterns.WrapperCaptureNone | in-Docker/generate_dockerfile_and_build.py:47-48 | no capture exactly when no position of the line starts an occurrence |
| Patterns.TwoPartName | in-Docker/generate_dockerfile_and_build.py:47 | the text `gradle-<a>.<b>` followed by the rest of the line |
| Patterns.NoStartAppend | in-Docker/generate_dockerfile_and_build.py:47 | two texts that cannot start the wrapper pattern still cannot when put one after the other |
| Patterns.OneGNoStart | in-Docker/generate_dockerfile_and_build.py:47 | a text whose only `g` does not begin `gradle-` cannot start the wrapper pattern |
| Patterns.TwoPartVersion | in-Docker/generate_dockerfile_and_build.py:47 | a line made of a prefix that cannot start the pattern, then `gradle-<digits>.<digits>`, then a non-digit other than `.` and no further `g`, has no capture |
| Patterns.PrefixNoStart | in-Docker/generate_dockerfile_and_build.py:47 | no position inside a prefix in which no `g` begins `gradle-` reads the wrapper pattern, whatever follows the prefix |
| Patterns.TwoPartAt | in-Docker/generate_dockerfile_and_build.py:47 | in the part of such a line from `gradle-` on, no start position reads the wrapper pattern |
| Patterns.TwoPartAtStart | in-Docker/generate_dockerfile_and_build.py:47 | at the start of such a line the pattern fails for want of a third `.` |
| Patterns.PlainStops | in-Docker/generate_dockerfile_and_build.py:39 | in a plain declaration the lazy groups stop at its two colons and its closing quote |
| Patterns.Keywords | in-Docker/generate_dockerfile_and_build.py:39 | the alternation `implementation|api|compileOnly|runtimeOnly`, options in source order |
| Patterns.DepHead | in-Docker/generate_dockerfile_and_build.py:39 | the head of the pattern: the keyword alternation, `\s*` and the opening quote class `['"]` |
| Patterns.DepWellFormed | in-Docker/generate_dockerfile_and_build.py:39 | an occurrence: a head match, three non-empty groups without line feeds, and a closing quote |
| Patterns.DepText | in-Docker/generate_dockerfile_and_build.py:39-41 | group 0 of an occurrence: the head's text, the three groups joined by `:`, and the closing quote |
| Patterns.DepBody | in-Docker/generate_dockerfile_and_build.py:39 | what follows the opening quote: `group:artifact:version` and the closing quote |
| Patterns.DepHeadDeterministic | in-Docker/generate_dockerfile_and_build.py:39 | the keyword, the spaces and the opening quote of the dependency pattern never need backtracking |
| Patterns.FindStop | in-Docker/generate_dockerfile_and_build.py:39 | a lazy `.+?` followed by a class stops at the first character of that class from the given position on, with no line feed before it; none when there is none |
| Patterns.ParseDep | in-Docker/generate_dockerfile_and_build.py:39 | what is read at a position is a well-formed declaration (keyword, spaces, quote, three non-empty groups without line feeds separated by `:`, closing quote) that the text starts with |
| Patterns.ReadBody | in-Docker/generate_dockerfile_and_build.py:39 | the three lazy groups and the closing quote read after the opening quote are non-empty, free of line feeds and spelled out by the text |
| Patterns.LazyGroupsSound | in-Docker/generate_dockerfile_and_build.py:39 | colons at the stop positions split the text into the three groups and the closing quote |
| Patterns.DepHeadSplit | in-Docker/generate_dockerfile_and_build.py:39 | in an occurrence, the deterministic head reads exactly the occurrence's keyword, spaces and quote, and the body follows |
| Patterns.BodyStops | in-Docker/generate_dockerfile_and_build.py:39 | an occurrence's own colons and closing quote are positions the lazy groups may stop at |
| Patterns.ParseDepShortest | in-Docker/generate_dockerfile_and_build.py:39 | wherever an occurrence starts, a declaration is read there, and it is no longer than that occurrence (lazy groups) |
| Patterns.DepSearch | in-Docker/generate_dockerfile_and_build.py:39 | the leftmost position at which a declaration is read, or none when there is none |
| Patterns.DepFragment | in-Docker/generate_dockerfile_and_build.py:39-41 | the appended entry, group 0, starts with `implementation`, `api`, `compileOnly` or `runtimeOnly` and ends with a quote |
| Patterns.DepTextShape | in-Docker/generate_dockerfile_and_build.py:39 | every well-formed occurrence starts with a keyword and ends with a quote |
| Patterns.DepFragmentLeftmost | in-Docker/generate_dockerfile_and_build.py:39 | a match starting at `j` makes the search stop at `j` or before, and no longer than that match when at `j` |
| Patterns.DepFragmentNone | in-Docker/generate_dockerfile_and_build.py:39-40 | there is no entry exactly when no position of the line starts a well-formed occurrence |
| Patterns.ParseDepExact | in-Docker/generate_dockerfile_and_build.py:39 | an occurrence without `:` in its group and artifact and without quotes in its version is read back exactly |
| Patterns.ExactStops | in-Docker/generate_dockerfile_and_build.py:39 | for such fields, the lazy groups stop exactly at the field boundaries |
| Scanner.IsBuildFileName | in-Docker/generate_dockerfile_and_build.py:13 | a file name is a build script exactly when it equals `build.gradle` or `build.gradle.kts` as a whole |
| Scanner.InDir | in-Docker/generate_dockerfile_and_build.py:12-14 | the paths one directory contributes: its root joined to each file name that is a build-script name, in listing order |
| Scanner.GradleFiles | in-Docker/generate_dockerfile_and_build.py:11-14 | the paths the whole walk contributes: the contributions of its directories, concatenated in the order the walk visits them |
| Scanner.Join | in-Docker/generate_dockerfile_and_build.py:14 | `os.path.join` ends with the file name, and below a directory not ending in `/` it is the directory, `/`, the name |
| Scanner.FindGradleFiles | in-Docker/generate_dockerfile_and_build.py:6-15 | the nested loop returns exactly `GradleFiles` of the walk |
| Scanner.GradleFilesSingle | in-Docker/generate_dockerfile_and_build.py:13-14 | a single file is kept exactly when its name is `build.gradle` or `build.gradle.kts` |
| Scanner.InDirAppend | in-Docker/generate_dockerfile_and_build.py:12-14 | the files of a directory contribute in listing order |
| Scanner.GradleFilesAppend | in-Docker/generate_dockerfile_and_build.py:11-14 | the walk's directories contribute in traversal order, nothing merged or dropped |
| Scanner.InDirMembers | in-Docker/generate_dockerfile_and_build.py:12-14 | a path comes from a directory exactly when some file of it has a build-script name and joins to the path |
| Scanner.InDirFound | in-Docker/generate_dockerfile_and_build.py:12-14 | every path a directory contributes is its root joined with one of its build-script names |
| Scanner.InDirYields | in-Docker/generate_dockerfile_and_build.py:12-14 | every build-script name of a directory, joined with its root, is among the paths it contributes |
| Scanner.GradleFilesMembers | in-Docker/generate_dockerfile_and_build.py:11-14 | a path is collected exactly when some directory of the walk has a file with a build-script name that joins to it |
| Scanner.GradleFilesNames | in-Docker/generate_dockerfile_and_build.py:13-14 | every collected path ends with `build.gradle` or `build.gradle.kts` |
| Folds.FirstHit | in-Docker/generate_dockerfile_and_build.py:35-36 | the value kept under the guard is the hit of some line |
| Folds.LastHit | in-Docker/generate_dockerfile_and_build.py:48-49 | the value kept by overwriting is the hit of some line |
| Folds.AllHits | in-Docker/generate_dockerfile_and_build.py:40-41 | at most one entry per line, each the hit of some line |
| Folds.HitLines | in-Docker/generate_dockerfile_and_build.py:40 | the lines with a hit, in strictly increasing order, all of them |
| Folds.FirstHitSnoc | in-Docker/generate_dockerfile_and_build.py:35-36 | one more line changes the kept value only while it is unset |
| Folds.LastHitSnoc | in-Docker/generate_dockerfile_and_build.py:48-49 | one more line with a hit replaces the kept value |
| Folds.AllHitsSnoc | in-Docker/generate_dockerfile_and_build.py:40-41 | one more line appends its hit, if any |
| Folds.FirstHitIsFirstLine | in-Docker/generate_dockerfile_and_build.py:30-36 | the kept Java value is the hit of the first line that has one |
| Folds.FirstHitNone | in-Docker/generate_dockerfile_and_build.py:35 | nothing is kept exactly when no line has a hit |
| Folds.FirstHitAppend | in-Docker/generate_dockerfile_and_build.py:30-36 | once set, later lines and files never change it |
| Folds.LastHitIsLastLine | in-Docker/generate_dockerfile_and_build.py:46-49 | the kept wrapper value is the hit of the last line that has one |
| Folds.LastHitNone | in-Docker/generate_dockerfile_and_build.py:48 | nothing is kept exactly when no line has a hit |
| Folds.LastHitAppend | in-Docker/generate_dockerfile_and_build.py:46-49 | a later hit always replaces an earlier one |
| Folds.AllHitsAreHitLines | in-Docker/generate_dockerfile_and_build.py:39-41 | the list has one entry per matching line, in line order, entry k being the hit of the k-th matching line (no deduplication) |
| Folds.AllHitsAppend | in-Docker/generate_dockerfile_and_build.py:30-41 | the entries of two runs of lines are concatenated |
| Extractor.AllLines | in-Docker/generate_dockerfile_and_build.py:30-32 | the lines the scan sees: the lines of the collected build scripts, file after file, each file's lines in order |
| Extractor.WrapperPath | in-Docker/generate_dockerfile_and_build.py:22 | the wrapper file's path: the project path joined with `gradle`, `wrapper` and `gradle-wrapper.properties` |
| Extractor.WrapperLines | in-Docker/generate_dockerfile_and_build.py:44-46 | the wrapper lines the scan sees: the wrapper file's lines when `os.path.exists` holds of its path, and none otherwise |
| Extractor.Falsy | in-Docker/generate_dockerfile_and_build.py:35 | Python's `not v` for a value that is `None` or a string: it is `None` or the empty string |
| Extractor.OrElse | in-Docker/generate_dockerfile_and_build.py:52-53 | `v or fallback`: the fallback when `v` is falsy, otherwise the string `v` holds |
| Extractor.Extracted | in-Docker/generate_dockerfile_and_build.py:51-55 | the returned dictionary: the first Java capture or `"11"`, the last wrapper capture or `"7.0"`, and every dependency entry |
| Extractor.FirstJava | in-Docker/generate_dockerfile_and_build.py:30-36 | the Java version found, if any, is a non-empty run of digits |
| Extractor.Dependencies | in-Docker/generate_dockerfile_and_build.py:39-41 | no more entries than lines, each a keyword-to-quote dependency entry |
| Extractor.LastWrapper | in-Docker/generate_dockerfile_and_build.py:44-49 | the Gradle version found, if any, is digits.digits.digits |
| Extractor.WrapperPathUnder | in-Docker/generate_dockerfile_and_build.py:22 | below a non-empty project path, the wrapper file is `gradle/wrapper/gradle-wrapper.properties`, with a `/` put after the path unless it already ends with one (the empty path never exists) |
| Extractor.ExtractGradleInfo | in-Docker/generate_dockerfile_and_build.py:18-55 | the result is `Extracted` of the lines of the collected build scripts, in order, and of the wrapper file's lines when it exists |
| Extractor.ScanBuildFile | in-Docker/generate_dockerfile_and_build.py:30-41 | scanning one more build script extends the first-hit Java value and the dependency list exactly as for all lines so far plus its lines |
| Extractor.ScanWrapperFile | in-Docker/generate_dockerfile_and_build.py:44-49 | the wrapper loop leaves the last capture |
| Extractor.AllLinesStep | in-Docker/generate_dockerfile_and_build.py:30-32 | one more build script adds its lines after those of the scripts before it |
| Extractor.JavaCaptureNonEmpty | in-Docker/generate_dockerfile_and_build.py:34-36 | a Java capture is never the empty string, so the `not java_version` guard is false once a version is kept |
| Extractor.AllLinesAppend | in-Docker/generate_dockerfile_and_build.py:30-32 | the build scripts are read one after the other |
| Extractor.ExtractedVersions | in-Docker/generate_dockerfile_and_build.py:51-55 | the Java version is never empty and all digits, `"11"` exactly when none or `11` was found; the Gradle version is a triple exactly when one was found, and `"7.0"` otherwise |
| Extractor.NoWrapperFile | in-Docker/generate_dockerfile_and_build.py:44-53 | without a wrapper file the Gradle version is `"7.0"` |
| Extractor.TwoPartDistribution | in-Docker/generate_dockerfile_and_build.py:47-53 | a wrapper file whose one line is `distributionUrl=https\://services.gradle.org/distributions/gradle-8.4-all.zip` leaves the Gradle version at `"7.0"` |
| Extractor.DistributionAddressNoStart | in-Docker/generate_dockerfile_and_build.py:47 | the key and address `distributionUrl=https\://services.gradle.org/distributions/` contain no position at which the wrapper pattern can start |
| Extractor.EmptyProject | in-Docker/generate_dockerfile_and_build.py:51-55 | with nothing to scan, `"11"`, `"7.0"` and no dependencies |
| Extractor.OneDependencyScenario | in-Docker/generate_dockerfile_and_build.py:18-55 | a project with one `build.gradle` holding `implementation "a:b:1.0"` and no wrapper file gives `"11"`, `"7.0"` and that one entry |
| Extractor.ScenarioFiles | in-Docker/generate_dockerfile_and_build.py:6-15 | a walk with one `build.gradle` scans exactly that file's lines |
| Extractor.ScenarioLines | in-Docker/generate_dockerfile_and_build.py:30-55 | the line `implementation "a:b:1.0"` scans to the defaults and that one entry |
| Extractor.OneDependencyLine | in-Docker/generate_dockerfile_and_build.py:39-41 | the entry of that line is the declaration without the line ending |
| Renderer.Body | in-Docker/generate_dockerfile_and_build.py:76-104 | the template from its first comment to its `CMD` line: the heading and `FROM` line for the two versions, the fixed setup lines, the closing command, each line after the first indented as in the script |
| Renderer.Template | in-Docker/generate_dockerfile_and_build.py:75-105 | the f-string: the body between the line break and indentation that open it and those before its closing quotes |
| Renderer.DockerfileContent | in-Docker/generate_dockerfile_and_build.py:107-108 | the text written to the Dockerfile: the stripped f-string for the result's two versions |
| Renderer.Heading | in-Docker/generate_dockerfile_and_build.py:76-77 | the template's first line starts with `#` |
| Renderer.PaddedStrip | in-Docker/generate_dockerfile_and_build.py:75-108 | `strip()` removes exactly the f-string's opening and closing line break and indentation |
| Renderer.PaddedEnds | in-Docker/generate_dockerfile_and_build.py:76-104 | a text `x + middle + y` whose `x` starts and whose `y` ends with non-whitespace starts with `x`, ends with `y` and has no outer whitespace: the step `BodyShape` applies to the heading and the closing line of the body |
| Renderer.ContentIsBody | in-Docker/generate_dockerfile_and_build.py:75-108 | the content written is the template body for the two versions |
| Renderer.ContentIgnoresDependencies | in-Docker/generate_dockerfile_and_build.py:62-63 | results with the same versions give the same Dockerfile, whatever their dependencies |
| Renderer.BodyShape | in-Docker/generate_dockerfile_and_build.py:75-108 | the body, and so the content, starts with `# Base image with Java <java>` and `FROM gradle:<gradle>-jdk<java>`, ends with `CMD ["./gradlew", "assemble"]`, and has no whitespace at either end |
| Tool.ImageTag | in-Docker/generate_dockerfile_and_build.py:145-146 | no image name exactly when the answer is all whitespace; otherwise the stripped answer, non-empty and without outer whitespace |
| Tool.BuildCommand | in-Docker/generate_dockerfile_and_build.py:119 | the argv `docker`, `build`, `-t`, the image name, the project path, five entries in that order |
| Tool.BuildStepFor | in-Docker/generate_dockerfile_and_build.py:145-149 | the build step: skipped when the stripped image name is empty, otherwise `docker build -t <name> <path>` with the exit status `docker` gives it |
| Tool.MainOutcome | in-Docker/generate_dockerfile_and_build.py:126-149 | the whole run: for a stripped path that does not exist, nothing else; otherwise the extracted result, its Dockerfile and the build step |
| Tool.ExitStatus | in-Docker/generate_dockerfile_and_build.py:121-123 | the script's exit status: 1 when the build ran and `docker` exited with a nonzero status, 0 otherwise |
| Tool.Run | in-Docker/generate_dockerfile_and_build.py:126-149 | the main block gives `MainOutcome` of the two answers |
| Tool.BuildDecision | in-Docker/generate_dockerfile_and_build.py:145-149 | for an existing path, the build is skipped exactly when the image name is blank, and otherwise runs `docker build -t <stripped name> <stripped path>` |
| Tool.MissingPath | in-Docker/generate_dockerfile_and_build.py:127-129 | a path that does not exist ends the run with nothing scanned, written or built, and exit status 0 |
| Tool.ExitStatusCases | in-Docker/generate_dockerfile_and_build.py:113-123 | the script exits with 1 exactly when the path exists, the image name is not blank and `docker build` fails |
| Tool.WrittenDockerfile | in-Docker/generate_dockerfile_and_build.py:131-142 | the Dockerfile written is the template body for the extracted versions |

## Left out

- File-system access (`os.walk`, `os.path.exists`, `open`) is a `Host` value given to the model. Reading a file yields its lines with their line endings. The line splitting itself, and text decoding, are not modelled.
- Console I/O: the two `input()` prompts are parameters, and every `print` is left out.
- `docker build` is a function from the command line to an exit status. Its output, and the `FileNotFoundError` raised when `docker` is not installed, are not modelled.
- Tool.ExitStatusCases: a build script or wrapper file that `open()` cannot read, or whose text cannot be decoded (a file without read permission, a broken link named `build.gradle`, a directory named `gradle-wrapper.properties`), ends the script with a traceback and status 1 before the Dockerfile is written. The model's `Host` always yields lines, so this exit is not modelled and the "exactly when" holds only for readable files.
- Writing the Dockerfile to `Dockerfile` in the working directory is modelled as the content returned in the outcome. A failed write is not modelled.
- Patterns.JavaCapture, Patterns.WrapperCapture: `\d` is ASCII digits only. Python's `\d` also matches other Unicode decimal digits.
- Extractor.ExtractGradleInfo: the per-line loop of `extract_gradle_info` is split into `ScanBuildFile` and `ScanWrapperFile`. Their loops are the ones of the script.
- Patterns.ParseDepExact: the exact read-back is proved only for declarations whose group and artifact hold no `:` and whose version holds no quote. Other declarations are covered by `ParseDepShortest` (the lazy groups give a match no longer than the occurrence).
- Scanner.Join: `os.path.join` is modelled for two components, POSIX style. The wrapper path joins three times.
