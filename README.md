# Tekton examples end-to-end test: a verified model of its helpers

The examples end-to-end test of the Tekton pipeline repository
(`test/examples_test.go`) turns every YAML manifest under `../examples` into
a test case. For each case it does the following:

- rewrites the manifest for the test cluster: the default image registry
  becomes `KO_DOCKER_REPO`, and `namespace: default` becomes the test
  namespace;
- applies the manifest with `ko create`;
- reads the name of the created PipelineRun or TaskRun from the tool's
  output;
- waits for that run to finish.

This project models the deterministic part of that harness in Dafny and
proves what it does:

- `FixedRegex`: the fixed-pattern subset of Go's `regexp` the file uses.
  Patterns are literal characters plus the unescaped `.`, which matches any
  character but a newline. Matching is leftmost-first with a greedy `(.+)`
  group. The module also gives `ReplaceAll` over non-overlapping matches
  taken left to right, and `strings.Contains`.
- `FilePath`: `filepath.Ext`.
- `ExampleWalk`: `getExamplePaths`, which walks a directory tree:
  - `no-ci` directories are pruned;
  - `examples` directories are walked through;
  - `.yaml` files are collected unless the TEST_EXAMPLES_IGNORES pattern
    matches them.

  The walk is an imperative method proved against the specification
  function `Collect`.
- `ExamplesTest`:
  - `GetCreatedTektonCrd`, `SubstituteEnv` and `extractTestName`;
  - the sequence of decisions in `exampleTest`, as a function that returns
    the case's verdict and its registered cleanups;
  - the registration loop of `TestExamples`, which picks the kind and the
    waiter by whether the path contains `/taskruns/`.

Text is a sequence of characters. Environment values, file contents and the
output of `ko create` are parameters. The ignore pattern is a predicate on
paths.

Two properties of the code are worth stating up front:

- The rewrite is not idempotent. A namespace such as `default-x` makes a
  second pass rewrite the namespace line again and append another `-x`
  (`ExamplesTest.SubstituteNotIdempotent`).
- `GetCreatedTektonCrd` never returns an error: its error result is nil on
  every path, and a missing match gives the empty name. So the fatal branches
  of `exampleTest` that test this error can never be taken
  (`ExamplesTest.AfterCreate`).

## Model

| member | source | states |
|---|---|---|
| ExamplesTest.GetCreatedTektonCrd | test/examples_test.go:47-54 | The error is always None. The name is empty iff no `<kind>?tekton?dev/(.+) created` match starts anywhere in the output. Otherwise the name is the group of the leftmost match, with the longest group at that start. |
| ExamplesTest.CreatedHead | test/examples_test.go:48 | The pattern before the group has the kind's length plus 12 tokens. Exactly two of them are wildcards: the dots after the kind and after `tekton`. The kind's characters are literal, and the remaining tokens are the literals `tekton` and `dev/`. |
| ExamplesTest.CreationLineFound | test/examples_test.go:47-53 | Take any earlier output in which no match starts, then the line `<kind>.tekton.dev/<name> created`, where the name is non-empty and has no newline. The result is `(name, nil)`. |
| ExamplesTest.SubstituteEnv | test/examples_test.go:78-91 | Fails iff KO_DOCKER_REPO is unset, and then with the error "KO_DOCKER_REPO is not set". |
| ExamplesTest.NamespaceLine | test/examples_test.go:89 | Replacing "default" in `namespace: default` by the namespace gives `namespace: ` followed by the namespace. |
| ExamplesTest.SubstituteUnchanged | test/examples_test.go:82-90 | A manifest with neither the default registry nor `namespace: default` in it comes back unchanged. |
| ExamplesTest.SubstituteByLine | test/examples_test.go:82-90 | The rewrite works line by line: rewriting `line + "\n" + rest` gives the rewritten line, a newline, and the rewritten rest. |
| ExamplesTest.SubstituteNamespaceLine | test/examples_test.go:88-89 | An indented `namespace: default` line becomes `namespace: <namespace>` with the same indent. |
| ExamplesTest.SubstituteRegistryLine | test/examples_test.go:82-83 | `gcr?io/christiewilson-catfactory`, with any non-newline character for `?`, is replaced by the KO_DOCKER_REPO value when no registry match starts before it or in the text after it, and the result holds no `namespace: default`. The text around it is kept. |
| ExamplesTest.SubstituteImageLine | test/examples_test.go:82-83 | A manifest line `<indent>image: gcr.io/christiewilson-catfactory<suffix>` becomes `<indent>image: <KO_DOCKER_REPO><suffix>`, provided the indent contains no 'g', the suffix holds no further registry reference, and the rewritten line contains no `namespace: default`. |
| ExamplesTest.RegistryReferenceMatches | test/examples_test.go:41 | The registry pattern matches `gcr` + any non-newline character + `io/christiewilson-catfactory`, because its dot is unescaped. |
| ExamplesTest.FirstPassAppends | test/examples_test.go:89 | With the namespace `"default" + x`, the line `namespace: default` becomes `namespace: default` + x. |
| ExamplesTest.SecondPassAppends | test/examples_test.go:88-89 | If x contains no 'g' and no `namespace: default`, rewriting that output again with the same namespace appends x once more. |
| ExamplesTest.SubstituteNotIdempotent | test/examples_test.go:78-91 | For a non-empty x that contains no 'g' and no `namespace: default`, a second pass with namespace `"default" + x` changes the result of the first: the rewrite is not idempotent. |
| ExamplesTest.TestNameHead | test/examples_test.go:211 | The pattern before the group is the base directory, with exactly its dots as wildcards and its other characters literal, followed by a literal `/`. |
| ExamplesTest.ExtractTestName | test/examples_test.go:210-217 | The path is returned unchanged when `<baseDir>/(.+).yaml` matches nowhere. Otherwise the result is the group of the leftmost, longest match. |
| ExamplesTest.TestNameOfManifest | test/examples_test.go:210-216 | For `baseDir/n.yaml`, where n is non-empty and has no newline, the test name is n. |
| ExamplesTest.ExampleTest | test/examples_test.go:117-169 | The namespace teardown is registered first. A read error is fatal, and an unset KO_DOCKER_REPO skips the case. Otherwise the case goes on as `AfterCreate` with what `ko create` gave for the rewritten manifest. At most one cleanup follows the teardown, and only a read or create error is fatal. |
| ExamplesTest.AfterCreate | test/examples_test.go:141-167 | A `ko create` error is fatal with its output. If no resource of the kind was created, the case is skipped. Otherwise it waits with the given waiter on the name `GetCreatedTektonCrd` extracted. A cleanup deleting the clustertask named by `GetCreatedTektonCrd(out, "clustertask")` is registered iff a clustertask was created. No other fatal outcome is reachable. |
| ExamplesTest.TestExamples | test/examples_test.go:219-235 | There is one case per collected manifest, in walk order, named by `extractTestName("../examples", path)`. Kind and waiter are `taskrun` and the task-run waiter iff the path contains `/taskruns/`, and `pipelinerun` and the pipeline-run waiter otherwise. |
| ExampleWalk.WalkCallback | test/examples_test.go:174-201 | Prunes exactly directories named `no-ci`. Appends the path exactly for non-directories whose name ends in `.yaml` and that the ignore pattern does not match. |
| ExampleWalk.Walk | test/examples_test.go:174-202 | The walk appends `Collect` of the tree to the paths gathered so far: a pre-order visit with children in order and pruned directories skipped. |
| ExampleWalk.GetExamplePaths | test/examples_test.go:171-208 | The result is `Collect(root)`. A path is in it iff it is eligible. If entry names are well formed, no path appears twice. |
| ExampleWalk.CollectIsEligible | test/examples_test.go:178-200 | A path is collected iff it names a `.yaml` file, is not ignored, and has no `no-ci` directory on its route from the root. `examples` directories are walked through. |
| ExampleWalk.CollectDistinct | test/examples_test.go:178-200 | When no name contains `/` and sibling names differ, every qualifying file is collected exactly once. |
| FilePath.Ext | test/examples_test.go:185 | The extension is empty, or a suffix of the name that starts with a dot and contains no further dot and no separator. It is empty only when the final element has no dot, that is, every dot is followed by a separator. |
| FilePath.ExtIsYaml | test/examples_test.go:185 | `filepath.Ext(name) == ".yaml"` iff the name ends in `.yaml`. |
| FixedRegex.ReplaceAll | test/examples_test.go:83 | Every character of the result comes from the input or from the replacement. `ReplaceAllNoMatch` and `ReplaceAllFirst` pin down the rest of its behaviour. |
| FixedRegex.ReplaceAllNoMatch | test/examples_test.go:83 | Text in which the pattern occurs nowhere is returned unchanged. |
| FixedRegex.ReplaceAllFirst | test/examples_test.go:89 | When no match starts earlier, the first match is replaced, the text before it is copied, and replacement resumes after it. |
| FixedRegex.ReplaceAllAppend | test/examples_test.go:83 | When no match straddles the boundary, replacing in a concatenation equals replacing in each part. |
| FixedRegex.ReplaceAllByLine | test/examples_test.go:89 | A pattern without newlines is replaced independently on each side of a newline. |
| FixedRegex.FindSubmatch | test/examples_test.go:49 | None iff no match of `head(.+)tail` starts anywhere. Otherwise the match at the leftmost start, with the longest group there. |
| FixedRegex.FindSubmatchAtLineEnd | test/examples_test.go:49 | A match that no earlier match precedes, and whose tail ends its line, is the one reported. |
| FixedRegex.FindSubmatchIs | test/examples_test.go:212 | The leftmost, longest match is the one FindSubmatch returns. |
| FixedRegex.LeftmostGreedyUnique | test/examples_test.go:212 | At most one match is leftmost with the longest group. |
| FixedRegex.Contains | test/examples_test.go:228 | True iff the substring occurs in the text. |

## Left out

- `KoCreate` (test/examples_test.go:95-101) runs the `ko` subprocess. Its outcome is the `koCreate` parameter of `ExamplesTest.ExampleTest`.
- Reading the manifest file (`ioutil.ReadFile`) and `os.LookupEnv` are I/O. Their results are parameters: `file`, `koDockerRepo` and the ignore pattern.
- `WaitForPipelineRunState`, `WaitForTaskRunState`, `Succeed`, `setup`, `tearDown` and `SkipIfExcluded` are not part of this model. The waiters are the names `WaitPipelineRunDone` and `WaitTaskRunDone`, and teardown is the registered `TearDown` cleanup.
- `DeleteClusterTask` (a cluster client call), `knativetest.CleanupOnInterrupt` (signal handling), `t.Parallel` and `t.Run` (test-runner concurrency) are left out. Cleanups are recorded in registration order only.
- The fixture builders of test/v1alpha1/cluster_resource_test.go have no logic of their own and are not part of this model.
- The general Go regexp engine is left out. Only the fixed patterns of this file are matched by hand-written matchers.
- The ignore pattern is an arbitrary predicate on paths, standing for "the TEST_EXAMPLES_IGNORES regexp matches somewhere in the path".
- ExamplesTest.SubstituteEnv: `$` expansion in `regexp.ReplaceAll`'s replacement is not modelled. The KO_DOCKER_REPO value and the namespace are inserted literally, which is Go's behaviour only when they contain no `$`.
- ExamplesTest.GetCreatedTektonCrd: the kind is inserted into the pattern as literal text. Regexp metacharacters in a kind are not modelled; the kinds used are `taskrun`, `pipelinerun` and `clustertask`.
- ExamplesTest.ExtractTestName: only `.` is treated as a metacharacter in the base directory. `../examples` contains no other.
- Text is modelled as characters rather than bytes, so UTF-8 encoding is not modelled.
- `regexp.MustCompile(val)` (test/examples_test.go:190) panics during the walk when TEST_EXAMPLES_IGNORES is not a valid regexp. The model takes the pattern as an already-compiled predicate, so that panic is not modelled.
- Walk errors and `t.Fatalf` on them (test/examples_test.go:175-177, 203-205) are left out: the tree is a value, so reading it cannot fail. The log lines are left out as well.
- Directory entries are a tree value. Their lexical order is the order of `children`, and `filepath.Join` is `path + "/" + name`.
- The 10-minute `pipelineRunTimeout` is used only by the waiters, which are not part of this model.
