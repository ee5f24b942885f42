# hsutil core, modelled in Dafny

This project models the core of hsutil, Hardcoded Software's Python utility
library, as pure Dafny functions over immutable datatypes, and proves
properties about that model.

- **Progress jobs** (`job.py`).
  - Module `Jobs` models one `Job`: a plan of child weights, the weight of the
    active child, the finished weight (`passed`), the active child's progress
    and its maximum, and the integer percentage `_do_update` reports.
  - Module `JobTree` models a family of jobs created with `start_subjob`.
    Reports from a subjob are forwarded into its parent's `set_progress`, up
    to the root's callback. It also covers `iter_with_progress`, both
    consumed to the end and abandoned by its consumer part-way, and
    `nulljob`.
- **Paths** (`path.py`, module `Paths`). The tuple-of-components `Path`:
  - parsing, with the `/` fallback and the trailing-empty-component rule;
  - `+` and reverse `+`;
  - containment and equality;
  - slicing by index or by a common prefix or suffix;
  - rendering.
- **Conflict names** (`conflict.py`, module `Conflict`). The `[NNN] ` prefix,
  its removal, and the search for the first free conflicted name.
- **String helpers** (`str.py`, module `Strs`; `util.py`, module `Util`):
  - `escape`, `escape_re` and `sqlite_escape`;
  - `get_file_ext` and `rem_file_ext`;
  - integer `format_time`;
  - `multi_replace`.
- **Misc helpers** (`misc.py`, module `Misc`):
  - bit-flag conversions;
  - `cond`, `nonone`, `stripnone`, `first` and `allsame`;
  - `dedupe`, `flatten` and `extract`.
- **GUI tree** (`gui/tree.py`, module `GuiTree`). A node tree addressed by
  index paths, `find`/`findall` in preorder, and a `Tree` whose selection is
  set and read through paths.
- **Notifications** (`notify.py`, module `Notify`). A broadcaster's listener
  set, and `notify` over a snapshot of that set.
- **Rectangles** (`geometry.py`, module `Geometry`). `from_corners`, `corners`
  and `intersects` over integers.
- **Patcher** (`patcher.py`, module `Patcher`). `patch` and `unpatch` as a log
  over a map from (object, attribute name) to value.
- **Registration** (`reg.py`, module `Reg`). `is_code_valid` and
  `set_registration`. MD5 is a function parameter.

Module `Text` holds shared string helpers: decimal digits, split/join on one
character, ASCII `lower` and `strip`, and substrings. Module `Results` holds
`Option` (Python's `None`) and `Result` (a value or a raised exception).

Python exceptions are modelled as `Err` results, or as an `error` field that
carries the state reached before the raise. The source keeps state changes
made before an exception, and so does the model. For example, `start_job`
raises `JobCountError` after it has already added the active weight to
`passed`, and `JobCancelled` is raised after the progress has been stored.

## Model

| member | source | states |
|---|---|---|
| Jobs.NewJob | job.py:80-88 | An integer plan n becomes n weights of 1, and an explicit list is kept as given. The total is the sum of the weights. A fresh job has no active child, nothing passed, progress 0 and maximum 1. With non-negative weights and a positive total, it satisfies the job invariant and reports 0. |
| Jobs.PlanWeightsSum | job.py:80-83 | For an integer plan n the total is max(0, n). |
| Jobs.Report | job.py:102-105 | The report is an error (ZeroDivisionError) exactly when total times currmax is zero. |
| Jobs.ReportIsFloor | job.py:102-105 | The report is the floor of 100 times (passed times currmax plus current times progress) over (total times currmax). |
| Jobs.ReportWhenNothingDone | job.py:85-88 | With nothing passed and no progress, any job with a positive denominator reports 0. |
| Jobs.ReportBounds | job.py:97-105 | Under the job invariant (non-negative weights, at most as many starts as children, progress within its maximum) every report lies in [0, 100]. |
| Jobs.ReportHundredIff | job.py:102-105 | Under the invariant the report is 100 exactly when no planned child is left and the active child is empty or at its maximum. |
| Jobs.HundredIffFull | job.py:105 | For 0 <= n <= d, the floor of 100n/d is 100 exactly when n == d. |
| Jobs.FullIff | job.py:102-104 | The numerator equals the denominator exactly when the remaining plan weighs nothing and the active child is empty or full. |
| Jobs.FloorDivIsFloor | job.py:105 | Python's `//` rounds toward negative infinity for either sign of the divisor. |
| Jobs.SetProgress | job.py:157-165 | Only the progress changes. It is clamped into [0, currmax]: kept when in range, currmax when above, 0 when below. |
| Jobs.AddProgress | job.py:112-113 | `add_progress(d)` moves the progress by d and clamps it into [0, currmax]: an in-range sum is kept, an overshoot stops at the maximum, a negative sum at 0, and a non-negative d never lowers an in-range progress. Nothing else changes. |
| Jobs.ClampEquivalence | job.py:161-165 | Any negative progress acts as 0, and any progress above the maximum acts as the maximum. |
| Jobs.AddAfterSet | job.py:112-113 | Adding d after setting an in-range p is the same as setting p + d. |
| Jobs.StartJob | job.py:132-145 | On an exhausted plan the result is JobCountError, and `passed` already includes the active weight. Otherwise the next weight becomes active, progress resets to 0, the maximum becomes max(1, m), and the report is floor(100 times passed over total), or a division error when the total is 0. The invariant is preserved. |
| Jobs.ReportAfterStart | job.py:143-145 | Right after a start, the report depends only on the finished weight: floor(100 times passed over total). |
| Jobs.SetProgressMonotone | job.py:157-166 | Under the invariant, raising the requested progress never lowers the report. |
| Jobs.StartJobMonotone | job.py:138-145 | Under the invariant, starting the next child never lowers the report. |
| Jobs.CompletedChildReport | job.py:138-166 | Once a started child is set to its maximum, the report is floor(100 times the weight done so far, including that child, over total). |
| Jobs.ZeroCountRejectsStart | job.py:80-81 | `Job(0)` rejects its first `start_job` with JobCountError. |
| Jobs.OvershootAfterCountError | job.py:138-142 | After a caught JobCountError, `passed` already holds the last child's weight while the child is still active. A following `set_progress(100)` then reports 200. |
| Jobs.CountErrorAfterLastChild | job.py:138-142 | A start after the last child changes only `passed` and fails with JobCountError. |
| Jobs.SingleChildJob | job.py:80-88 | `Job(1)` starts with plan [1], total 1 and maximum 1. |
| Jobs.OverReport | job.py:102-105 | The state reached after a caught JobCountError reports 200 once its progress is full. |
| Jobs.RunToCompletion | job.py:132-166 | Running every child in turn (start, then full progress) yields two reports per child. All reports lie in [0, 100] and never decrease. The report after child i is floor(100 times the prefix sum of weights over total), and the last one is 100. |
| Jobs.RunRound | job.py:132-166 | One start plus full progress: the start reports the finished weight, and completion adds the child's weight. The two reports are ordered within [0, 100], and the invariant carries over. |
| Jobs.Round | job.py:132-166 | The same round as a lemma: the reports before the start, at the start and after completion are non-decreasing within [0, 100]. |
| Jobs.FinishRun | job.py:132-166 | Non-decreasing reports matching the prefix sums end at 100 when the plan is non-empty. |
| Jobs.SumNonNegative | job.py:83 | The total of non-negative weights is non-negative. |
| Jobs.SumOnes | job.py:80-83 | A plan of n ones weighs n. |
| JobTree.NewRoot | job.py:72-88 | A fresh root job is a well-formed family of one, and satisfies the invariant when its weights are non-negative and its total is positive. |
| JobTree.Forward | job.py:91-95 | A report is forwarded from a subjob through each ancestor's `set_progress`, up to the root's callback. Only jobs on the ancestor chain change. The root's own report is what is delivered. JobCancelled is raised exactly when the root callback returns false. |
| JobTree.Emit | job.py:97-109 | `_do_update`: a division error stops before any callback. Otherwise the percentage is forwarded. JobCancelled comes exactly from a false root callback, after the state has changed. |
| JobTree.SetProgressAt | job.py:157-166 | `set_progress` on any job of the family stores the clamped progress, leaves later jobs and jobs off the ancestor chain unchanged, and keeps every job within the invariant. |
| JobTree.AddProgressAt | job.py:112-113 | `add_progress` on a job of the family is its `set_progress(progress + d)`, with the same forwarding. |
| JobTree.StartJobAt | job.py:132-145 | `start_job` on a job of the family. An exhausted plan fails with JobCountError and no callback. Otherwise the start is reported through the chain. |
| JobTree.StartSubjobAt | job.py:147-155 | `start_subjob` starts a 100-unit child on the parent and appends a fresh job whose parent is that job. It returns the new job's index only when the start raised nothing. |
| JobTree.SubjobFeedsParent | job.py:91-95 | A subjob's percentage becomes its parent's `set_progress` argument. |
| JobTree.TwoLevelReport | job.py:91-109 | In a two-level family, the root callback receives the root's report after it absorbs the child's percentage. |
| JobTree.CompletionPropagates | job.py:91-95 | A subjob reporting 100 fills its parent's active child, when the parent gave it the usual 100 units. |
| JobTree.RootReportsInRange | job.py:97-105 | Under the invariant every forwarded report that reaches the root lies in [0, 100]. |
| JobTree.StartReportsInRange | job.py:132-145 | The same for `start_job` anywhere in the family. |
| JobTree.CancellationKeepsState | job.py:107-109 | The callback's answer changes only whether JobCancelled is raised. The job states and the delivered report are those of an always-true callback. |
| JobTree.NestedExample | job.py:91-105 | A child at 100 of 4 units, inside a parent halfway through two children, makes the root report 62. |
| JobTree.NestedChild | job.py:102-105 | The child in that example reports 25. |
| JobTree.NestedRoot | job.py:102-105 | The parent in that example then reports 62. |
| JobTree.SetProgressWithin | job.py:161-165 | An in-range progress is stored as given. |
| JobTree.PositiveReport | job.py:105 | With a positive denominator the report is the floored ratio. |
| JobTree.NullCallback | job.py:169 | The null callback accepts every report. |
| JobTree.NullJob | job.py:169 | `nulljob` is a well-formed single job of 0xfffff unit children that satisfies the invariant. |
| JobTree.UnitRoot | job.py:80-88 | A root of n unit children has total n and plan length n. |
| JobTree.NullJobNeverCancels | job.py:169 | Work driven through the null callback never raises JobCancelled. |
| JobTree.OnChainPreserved | job.py:91-95 | Forwarding never changes which jobs are ancestors of which. |
| JobTree.SetProgressKeepsInv | job.py:157-165 | `set_progress` preserves the job invariant. |
| JobTree.LastRefresh | job.py:124-126 | The description in force after `count` items is the one from the last count that is a multiple of `every`. |
| JobTree.IterSteps | job.py:118-127 | `start_job(n)` followed by one `add_progress` per element leaves the job with progress n and maximum max(1, n) when nothing raised. Any `every` is accepted. |
| JobTree.IterLoop | job.py:122-127 | The per-element loop, run for the elements whose `add_progress` is reached, advances the progress by one per element. With a format and `every == 0`, the first such element raises ZeroDivisionError and changes nothing. |
| JobTree.LoopNext | job.py:124-127 | With a format and `every == 0`, `count % every` raises ZeroDivisionError before `add_progress`, leaving the state as it was. Otherwise one element adds progress 1 and appends one report, whose description is the refreshed one. |
| JobTree.IterWithProgress | job.py:115-130 | `iter_with_progress` as written, consumed to the end: the final progress is min(100, max(1, n)) out of max(1, n). For more than 100 elements it stays short of the maximum. |
| JobTree.IterAbandoned | job.py:115-127 | A consumer that stops after m of the n elements: with m = 0 the generator never starts and nothing changes. Otherwise only m - 1 `add_progress` calls ran, so the job is left at progress m - 1 of max(1, n), short of its maximum, and the closing `set_progress(100)` never runs. |
| JobTree.LoneJobAbandoned | job.py:115-127 | On a lone job, an iteration abandoned after m of n elements made exactly m reports, floor(100c/n) for c < m, all below 100. |
| JobTree.IterWithProgressToMax | job.py:115-130 | The corrected iteration, ending at the child's maximum: the final progress equals the maximum for every length. |
| JobTree.IterZeroEvery | job.py:119-127 | With a format and `every == 0`, a non-empty iteration makes the start report and then raises ZeroDivisionError with the job just started. An empty one never evaluates `count % every` and ends as with `every == 1`. |
| JobTree.RefreshIterDesc | job.py:124-126 | Refreshing after count items, starting from the description after count - 1, gives the description for count. |
| JobTree.IterLoopDescs | job.py:122-127 | Each per-element report carries the description refreshed at the last multiple of `every`. |
| JobTree.LoopStep | job.py:122-127 | One loop step unfolds into the next step with the refreshed description. |
| JobTree.ExtendDescs | job.py:124-127 | The description property extends by one element. |
| JobTree.IterStepsDescs | job.py:118-127 | After start and n steps there are n + 1 reports, and report c carries the description refreshed for count c. |
| JobTree.IterDescriptions | job.py:115-130 | `iter_with_progress` yields n + 2 reports: the start and one per element with the refreshed descriptions, then the final one with the (n, n) description. |
| JobTree.FlatReport | job.py:102-105 | A lone job with its only child active reports floor(100p/m). |
| JobTree.FlatStep | job.py:112-113 | One `add_progress` on that job reports floor(100(i+1)/n). |
| JobTree.IterLoopFlat | job.py:122-127 | On a lone job the loop reports floor(100c/n) after element c. |
| JobTree.ExtendPercents | job.py:122-127 | The percentage property extends by one element. |
| JobTree.LoneStart | job.py:121 | `start_job(n)` on a fresh lone job reports 0. |
| JobTree.LoneSteps | job.py:121-127 | On a lone job, start and n steps report floor(100c/n) for c = 0 to n. |
| JobTree.LoneFinal | job.py:130 | The final `set_progress(p)` reports floor(100 min(p, n)/n). |
| JobTree.LoneJobIteration | job.py:115-130 | On a lone job, `iter_with_progress` over n elements reports floor(100c/n) for each c, then floor(100 min(100, n)/n). |
| JobTree.LoneJobIterationToMax | job.py:115-130 | The corrected iteration ends with 100 for every length. |
| JobTree.LoneRoot | job.py:80-88 | `Job(1)` is the lone job used in these lemmas. |
| JobTree.FiveElements | job.py:115-130 | Five elements report 0, 20, 40, 60, 80, 100 and a final 100. |
| JobTree.LoneJobDropsAtEnd | job.py:130 | For more than 100 elements the last element reports 100, and the final `set_progress(100)` then reports 10000/n, which is below 100. |
| JobTree.OnChainBelow | job.py:147-155 | A job's ancestors were created before it. |
| JobTree.OnChainSameShape | job.py:91-95 | Ancestry depends only on parent links, not on job states. |
| Paths.DropTrailingOnce | path.py:62-63 | At most one component is removed, and what remains is a prefix. |
| Paths.SplitSep | path.py:46-51 | The separator used is `sep` whenever the string holds `sep`, and '/' when it holds '/' but not `sep`; it is always `sep` or '/'. |
| Paths.ParseString | path.py:46-63 | The empty string parses to no components. Otherwise the components hold no separator; a string ending in the separator is their join plus that separator, and any other string is exactly their join. |
| Paths.JoinDropLast | path.py:62-63 | Dropping a trailing empty component removes exactly one trailing separator from the joined text. |
| Paths.ParseSeq | path.py:55-63 | A sequence without separators inside components is kept, except for the trailing rule. A sequence with one is rejoined and reparsed. |
| Paths.Make | path.py:44-45 | A `Path` value is returned as it is. |
| Paths.ParseSeqNormal | path.py:55-63 | Rebuilding a normal (no separator inside a component and no trailing empty component) path from its own components gives it back. |
| Paths.Add | path.py:66-70 | `p + other` concatenates `p` with the right operand under the trailing rule, when no component holds the separator. The right operand is `Path(other)`, and after a leading root marker is dropped it is rebuilt by `__getslice__`. |
| Paths.RAddRelative | path.py:103-104 | `other + p` for a value whose parse is a normal path (no separator inside a component and no trailing empty component) and a normal relative `p` is the components of `Path(other)` followed by those of `p`. |
| Paths.AddAbsolute | path.py:66-70 | Adding a normal (no separator inside a component and no trailing empty component) absolute path appends its components without the root marker. |
| Paths.AddRelative | path.py:66-70 | Adding a relative path appends all its components. |
| Paths.AddReparsesTail | path.py:66-70 | A component `a` after a root marker and followed by three separators parses to ('', a, '', ''), yet `Path(x) + that text` is (x, a): `other[1:]` rebuilds the operand through `__getslice__`, which drops one more trailing empty component. So `Path('x') + '/a///'` is ('x', 'a'). |
| Paths.TrailingPairNotNormal | path.py:46-63 | `Path(a + sep + sep)` is (a, ''), which is not normal: it differs from its own rendering, and `Path(a + sep + sep + b)` is not `in` it although (a, '') is a prefix of (a, '', b). |
| Paths.ClampIndex | path.py:90 | Python's slice-index clamping into [0, n]: an index in range is kept, a negative one counts from the end, one above n gives n and one below -n gives 0. |
| Paths.CommonPrefix | path.py:84-85 | The length of the longest common prefix: the prefixes agree, and the next components differ. |
| Paths.CommonSuffix | path.py:87-88 | The length of the common suffix is at most each length. |
| Paths.CommonSuffixSpec | path.py:87-88 | The suffixes of that length agree, and the components before them differ. |
| Paths.CommonSuffixShared | path.py:87-88 | The suffixes of the common-suffix length agree. |
| Paths.CommonSuffixStops | path.py:87-88 | The components just before the common suffix differ. |
| Paths.StartIndex | path.py:83-85 | A slice start is within the path. |
| Paths.StopIndex | path.py:86-89 | A slice stop is within the path. |
| Paths.Slice | path.py:81-90 | On a normal (no separator inside a component and no trailing empty component) path, slicing keeps the components between the start and the stop, under the trailing rule. |
| Paths.SliceFromPath | path.py:83-85 | A Path-valued start removes exactly the longest common prefix. |
| Paths.SliceToPath | path.py:86-89 | A Path-valued stop removes exactly the longest common suffix, and nothing when there is none. |
| Paths.Index | path.py:91-92 | Indexing by an integer gives the component, counting from the end for a negative index, and IndexError outside the range. |
| Paths.ContainsPath | path.py:72-74 | For normal (no separator inside a component and no trailing empty component) paths, `item in p` holds exactly when `p` is a prefix of `item`. |
| Paths.ContainsComponent | path.py:75-76 | For a string, `x in p` holds exactly when `x` is one of the components. |
| Paths.Equals | path.py:78-79 | `p == other` compares components with `Path(other)`: a Path by its components, the empty string only with the empty path, a separator-free sequence up to one trailing empty component. |
| Paths.NotEqualsParsed | path.py:100-101 | `!=` compares against `Path(other)`: a normal (no separator inside a component and no trailing empty component) path without '/' in a component and not a lone drive is never unequal to its own rendering, and it differs from a separator-free sequence exactly when the components differ after one trailing empty component is dropped. |
| Paths.Render | path.py:109-116 | A lone drive component gets a trailing backslash, a lone empty component renders as '/', and anything else is joined with the separator. |
| Paths.RenderParse | path.py:48-63 | Rendering a normal (no separator inside a component and no trailing empty component), non-drive path and parsing the text gives the path back, so the path equals its own rendering. |
| Paths.RenderParseDrive | path.py:109-113 | With a backslash separator, a drive path renders and parses back to itself. |
| Conflict.DigitRun | conflict.py:14 | The length of the leading run of digits. |
| Conflict.PrefixLength | conflict.py:14 | A match is '[', then at least three digits, then '] '. |
| Conflict.PrefixUnique | conflict.py:14 | The digit run of a prefix is maximal, so the match is unique. |
| Conflict.IsConflicted | conflict.py:35-36 | `is_conflicted(n)` holds exactly when `n` starts with '[', at least three digits and '] '. |
| Conflict.Unconflict | conflict.py:32-33 | One leading prefix is removed when present, and the name is unchanged otherwise. The result is a suffix of the name. |
| Conflict.ConflictedName | conflict.py:27 | The candidate `'[%03d] ' + name` is at least six characters longer than the name. |
| Conflict.ConflictedNameParts | conflict.py:27 | The candidate consists of a matching prefix, with i padded to at least 3 digits, followed by the name. |
| Conflict.ConflictedRoundTrip | conflict.py:27-33 | Every candidate is conflicted, and unconflicting it gives back the name. |
| Conflict.ConflictedNameInjective | conflict.py:27 | Different indices give different candidates. |
| Conflict.DoublePrefixSurvives | conflict.py:32-33 | Only one prefix is removed, so a doubly prefixed name stays conflicted after one removal. |
| Conflict.CandidatesSize | conflict.py:25-30 | The first i candidates are i distinct names. |
| Conflict.CandidatesMembers | conflict.py:25-30 | Every one of the first i candidates has an index below i. |
| Conflict.CandidatesBound | conflict.py:25-30 | If the first i candidates are all taken, other_names has at least i entries. |
| Conflict.SeqSetSize | conflict.py:23 | A list has at least as many entries as distinct values. |
| Conflict.SubsetSize | conflict.py:25-30 | A subset is no larger than its superset. |
| Conflict.FirstFree | conflict.py:25-30 | The search returns the smallest index whose candidate is free. That index is at most the number of other names. |
| Conflict.FirstFreeBound | conflict.py:25-30 | The loop makes at most one more try than there are other names. |
| Conflict.FreeNameFor | conflict.py:23-30 | The name itself is returned when free. Otherwise the result is the first free candidate. The result is never taken, and unconflicting it gives the name back. |
| Conflict.GetConflictedName | conflict.py:16-30 | The result is never in other_names. When the unconflicted name is free it is returned. Otherwise the result is the first free `[NNN] ` candidate, found within one more try than there are other names. Unconflicting it gives the unconflicted input. |
| Strs.Escape | str.py:15-16 | Escaping never shortens, and text without special characters is unchanged. |
| Strs.EscapeAppend | str.py:15-16 | Escaping distributes over concatenation, character by character. |
| Strs.EscapeStep | str.py:15-16 | The first character is escaped on its own, then the rest. |
| Strs.EscapeChar | str.py:16 | A special character gets the escape prefix, and any other is kept. |
| Strs.Unescape | str.py:15-16 | The inverse of escaping never lengthens. |
| Strs.EscapeRoundTrip | str.py:15-16 | With a one-character escape that is itself special, unescaping the escaped text gives the input back. |
| Strs.EscapeRe | str.py:18-19 | `escape_re` is undone by removing backslash escapes. |
| Strs.SqliteEscape | str.py:121-122 | `sqlite_escape` doubles quotes, which unescaping undoes. Text without quotes is unchanged. |
| Strs.RFind | str.py:90 | `rfind` gives the last position of the character, or none when it is absent. |
| Strs.RemFileExt | str.py:113-119 | Without a dot the name is returned. With one, the result is the stem before the last dot: stem + '.' + the rest is the name, and the rest holds no dot. |
| Strs.GetFileExt | str.py:88-94 | Without a dot the extension is empty. With one, it is the text after the last dot, lowercased. |
| Strs.Pad2 | str.py:70-73 | `%02d` gives at least two digits with the value n. |
| Strs.ClockFields | str.py:68-73 | The fields are two for FT_MINUTES and three for FT_HOURS, each of at least two digits. |
| Strs.ClockFieldsValue | str.py:68-73 | The fields' value, in minutes-and-seconds or hours-minutes-seconds, is the number of seconds. |
| Strs.FormatTime | str.py:65-86 | The text starts with '-' exactly for negative input. |
| Strs.FormatTimeRoundTrip | str.py:65-86 | Parsing the formatted text as signed colon-separated fields gives back the seconds, for both formats and every integer. |
| Strs.FormatTimeHoursFields | str.py:71-73 | FT_HOURS renders h:mm:ss with minutes and seconds below 60, two-digit padding and unbounded hours. |
| Strs.FormatTimeNegativeExample | str.py:65-86 | -1 second in FT_MINUTES renders as "-00:01". |
| Strs.PadExamples | str.py:70 | 0 and 1 pad to "00" and "01". |
| Strs.ParseNegative | str.py:83-84 | A leading '-' negates the value of the fields. |
| Strs.ParseUnsigned | str.py:85-86 | Text without a leading '-' is the value of its fields. |
| Strs.DigitsHaveNoColon | str.py:70-73 | Digit fields contain no ':'. |
| Strs.ClockArithmetic | str.py:68-72 | Decomposing with `divmod` by 60 (and again by 60) recomposes to the input. |
| Strs.JoinTwo | str.py:70 | Two fields joined with ':' form the `%s:%s` layout. |
| Strs.JoinThree | str.py:73 | Three fields joined with ':' form the `%s:%s:%s` layout. |
| Strs.Replace | str.py:145 | `str.replace` with a non-empty pattern absent from the text leaves the text unchanged. |
| Strs.ReplaceSelf | str.py:145 | Replacing a non-empty pattern with itself changes nothing. |
| Strs.ReplaceCharRemoves | str.py:145 | Replacing a character with text that lacks it removes every occurrence. |
| Strs.ReplaceCharIsSplitJoin | str.py:145 | Replacing one character is splitting on it and joining the pieces with the replacement. |
| Strs.ReplaceKeepsAbsent | str.py:145 | A character absent from both the text and the replacement is absent from the result. |
| Strs.SubstringOfTail | str.py:144 | A substring of the tail is a substring of the whole. |
| Strs.ItemsOf | str.py:135-137 | A string of patterns stands for the list of its characters. |
| Strs.MultiReplace | str.py:139-146 | A string replacement of a different length is broadcast to every pattern. Otherwise a length mismatch raises ValueError. Otherwise the pairs are applied in order, each only when its pattern occurs in the original string. |
| Strs.ApplyPairsAbsent | str.py:144 | When no pattern occurs in the original string, nothing is replaced. |
| Strs.ApplyPairsKeepsAbsent | str.py:143-145 | A character absent from the text and from every replacement is absent after all pairs are applied. |
| Strs.ApplyPairsRemovesChars | str.py:143-145 | With one-character patterns and replacements free of every pattern character, no pattern character is left after the pairs are applied. |
| Strs.MultiReplaceRemovesChars | str.py:125-146 | `multi_replace(s, chars, to)` with a replacement string holding none of the pattern characters succeeds and removes every pattern character, whether `to` is broadcast or paired. |
| Strs.MultiReplaceSingle | str.py:139-146 | A single present pattern behaves like `str.replace`. |
| Strs.MultiReplaceSkipsProducedPattern | str.py:144 | A pattern that only an earlier replacement produced is not applied: "a" with a to b and b to c gives "b", not "c". |
| Strs.MultiReplaceBroadcastExample | str.py:139-140 | Replacing '.' with the empty string turns "a.b" into "ab". |
| Strs.MultiReplaceMismatchExample | str.py:141-142 | Two patterns with three replacements raise ValueError. |
| Util.BeforeLastDot | util.py:13-15 | The text before the last dot is a strict prefix, followed by a dot and then a dot-free rest. |
| Util.RemFileExt | util.py:11-17 | The result is a prefix of the name, and is strictly shorter exactly when the name has a dot. A dotless name is unchanged. Otherwise the cut is at the last dot. |
| Util.RemFileExtAgrees | util.py:11-17 | It agrees with str.py's `rem_file_ext` on every name. |
| Util.RemFileExtExamples | util.py:11-17 | "foobar" stays, "foo.bar" gives "foo", "foobar." gives "foobar", and ".foobar" gives "". |
| Misc.IntToFlags | misc.py:38-43 | The result lists, in ascending order, exactly the positions below `flagcount` whose bit is set. |
| Misc.FlagsToInt | misc.py:45-50 | The empty flag list gives 0. |
| Misc.FlagsToIntAppend | misc.py:45-50 | The value of concatenated flags is the sum of their values. |
| Misc.FlagsRoundTrip | misc.py:38-50 | Converting the flags of n back gives n modulo 2 to the power `flagcount`. |
| Misc.FlagsRoundTripInRange | misc.py:38-50 | For 0 <= n < 2 to the power `flagcount`, the round trip gives n. |
| Misc.IntToFlagsStep | misc.py:43 | One more position adds that flag exactly when its bit is set. |
| Misc.BitFlagValue | misc.py:49 | A set bit's flag contributes 2 to the power of its position. |
| Misc.ModPow2Step | misc.py:43 | The residue modulo 2^(c+1) adds bit c to the residue modulo 2^c. |
| Misc.Pow2Add | misc.py:49 | `1 << (a+b)` is the product of `1 << a` and `1 << b`. |
| Misc.Bit | misc.py:43 | `(n >> i) & 1` is 0 or 1. |
| Misc.BigEndian | misc.py:29-33 | The bytes read big-endian give a value below 2 to the power of 8 times their number. |
| Misc.BigEndianStep | misc.py:31-33 | Each loop step adds the next byte shifted by its big-endian position. |
| Misc.StrToFlags | misc.py:23-36 | The flags of the big-endian value of the bytes, with flagcount 0 meaning 8 per byte. Then the flags convert back to that value. |
| Misc.FlagExamples | misc.py:38-50 | Flags (0, 6) have value 0x41, and 5 over 3 positions gives (0, 2). |
| Misc.FirstItem | misc.py:110-116 | `first` on a sequence whose elements may be None: a value exactly when the sequence is non-empty and its first element is not None, and then that element. An empty sequence and a leading None both give None. |
| Misc.NononeFirst | misc.py:62-68 | `nonone(first(s), d)` is the first element of `s` when `s` is non-empty and that element is not None. Otherwise, for an empty `s` or a leading None, it is `d`. |
| Misc.NononeFirstOfNone | misc.py:62-68 | `nonone(first([None, x]), d)` is `d`: a leading None is not returned as the first element. |
| Misc.StripNone | misc.py:70-73 | Exactly the present values are kept. |
| Misc.StripNoneAppend | misc.py:70-73 | Stripping distributes over concatenation, so order is kept. |
| Misc.FirstStripNone | misc.py:110-116 | `first(stripnone(s))` is None exactly when every element is None, and otherwise the value of the earliest element that is not None. |
| Misc.AllSame | misc.py:100-108 | ValueError exactly for an empty input. Otherwise true exactly when every element equals the first. |
| Misc.AllEqual | misc.py:108 | Every element equals the given one. |
| Misc.AllSamePairwise | misc.py:100-108 | When `allsame` holds, any two elements are equal. |
| Misc.ConcatLength | misc.py:96-97 | The concatenation is as long as all the lists together. |
| Misc.ConcatAppend | misc.py:96-97 | Concatenation distributes over appending lists of lists. |
| Misc.Flatten | misc.py:87-98 | `flatten` is `start_with` followed by the concatenation of the lists. |
| Misc.FlattenLength | misc.py:87-98 | Its length is that of `start_with` plus all the lists. |
| Misc.FirstIndex | misc.py:80-84 | The position of an element's first occurrence. |
| Misc.FirstIndexOfPrefix | misc.py:80-84 | A first occurrence inside a prefix is the first occurrence in the whole. |
| Misc.Deduped | misc.py:75-85 | The reference result of `dedupe`: no duplicates, the same element set, ordered by first occurrence. |
| Misc.Dedupe | misc.py:75-85 | The loop computes the reference result: first occurrences in order, no duplicates, the same set of elements. |
| Misc.FilterBy | misc.py:123-127 | Kept elements all agree with the requested predicate value. |
| Misc.FilterPartition | misc.py:118-128 | Wheat and shaft together are a permutation of the input. |
| Misc.Extract | misc.py:118-128 | `extract` splits into the order-preserving filter of predicate-true elements and that of predicate-false elements, whose lengths and multisets add up to the input's. |
| GuiTree.PyIndex | gui/tree.py:48 | Python list indexing: a negative index counts from the end, and anything outside the range raises IndexError. |
| GuiTree.Resolve | gui/tree.py:44-49 | A successful resolution is a valid path q of the same length where each index of the input, read with Python's negative indexing against the children of the node reached by the indices before it, is the matching index of q. An out-of-range first index fails with IndexError. |
| GuiTree.GetNode | gui/tree.py:44-49 | The empty path gives the node itself. `get_node` fails exactly when resolving fails, and for any path q that the indices lead to it returns the node at q. |
| GuiTree.ResolveIff | gui/tree.py:44-49 | Resolving gives q exactly when the indices lead to q, so it fails exactly when no path is led to. |
| GuiTree.ResolveOwnPath | gui/tree.py:44-75 | A node's own path resolves to itself, so `get_node(n.path)` is `n`. |
| GuiTree.PathOfChild | gui/tree.py:68-75 | A child's path is its parent's path followed by its index. |
| GuiTree.ParentPath | gui/tree.py:68-75 | Dropping the last index of a path gives the parent, and that index is the node's index among the parent's children. |
| GuiTree.PrefixValid | gui/tree.py:68-75 | Every prefix of a node's path is an ancestor's path. |
| GuiTree.LastIndexValid | gui/tree.py:68-75 | A path ending in i names child i of a valid node. |
| GuiTree.Append | gui/tree.py:23-26 | `append` puts the node last and keeps the other children. |
| GuiTree.AppendPath | gui/tree.py:23-26 | The appended node sits at the next index, and every existing node keeps its path. |
| GuiTree.Clear | gui/tree.py:28-29 | After `clear` only the node itself has a path. |
| GuiTree.UnderKeepsOrder | gui/tree.py:40-42 | Prefixing by one index keeps preorder. |
| GuiTree.ConcatInPreorder | gui/tree.py:40-42 | The results of successive children concatenate in preorder. |
| GuiTree.FindInChildren | gui/tree.py:40-42 | Matches from children i onward are valid matching paths in preorder. |
| GuiTree.FindAll | gui/tree.py:37-42 | `findall` yields only matching nodes, in preorder, and yields the node itself only when `include_self` holds. |
| GuiTree.FindAllComplete | gui/tree.py:37-42 | Every matching node, excluding self unless `include_self` holds, is yielded. |
| GuiTree.FindInChildrenComplete | gui/tree.py:40-42 | Every match under children i onward is found. |
| GuiTree.Find | gui/tree.py:31-35 | `find` returns a match, and returns None only when no node matches. |
| GuiTree.FindIsFirst | gui/tree.py:31-42 | Whenever some node matches, `find` returns the first match in preorder. |
| GuiTree.NewTree | gui/tree.py:86-88 | A new tree has no children and no selection. |
| GuiTree.ClearTree | gui/tree.py:98-100 | `Tree.clear` empties both the children and the selection. |
| GuiTree.SetSelectedNode | gui/tree.py:102-111 | Setting a node selects just it, and None clears the selection. Reading `selected_node` back gives what was set. |
| GuiTree.SetSelectedNodesReadBack | gui/tree.py:102-119 | After setting valid nodes, `selected_node` is the first of them (None for none), and `selected_paths` reads back the paths of exactly those nodes, in order. |
| GuiTree.ResolveAll | gui/tree.py:137-143 | Resolving a list of paths keeps only valid ones. |
| GuiTree.ResolveAllOwnPaths | gui/tree.py:137-143 | Valid paths are all kept, in order. |
| GuiTree.ResolveAllSkipsInvalid | gui/tree.py:140-143 | Invalid paths are silently skipped. |
| GuiTree.SetSelectedPaths | gui/tree.py:136-144 | The selection becomes the nodes of the valid paths, in order. When all are valid, one node is selected per path. |
| GuiTree.SelectedPaths | gui/tree.py:132-134 | One path per selected node, each leading back to that node. |
| GuiTree.SelectedPath | gui/tree.py:121-123 | The first selected node's path, or None. |
| GuiTree.SetSelectedPath | gui/tree.py:125-130 | None clears the selection. A valid path selects just its node, and an invalid one selects nothing. |
| GuiTree.SelectionRoundTrip | gui/tree.py:132-144 | Setting the selected paths to the ones read back reproduces the selection. |
| Notify.NewBroadcaster | notify.py:5-6 | A new broadcaster has no listeners. |
| Notify.Connect | notify.py:8-9 | `connect` adds the listener and leaves the others as they are. |
| Notify.Disconnect | notify.py:16-17 | `disconnect` removes the listener and leaves the others as they are. |
| Notify.ConnectDisconnectLaws | notify.py:8-28 | Connecting twice is connecting once. Disconnecting an unconnected listener is a no-op. Reconnecting after a disconnect restores the connection. |
| Notify.Run | notify.py:12-14 | Deliveries come from the snapshot and are no more numerous than it. |
| Notify.RunWithoutReactions | notify.py:11-14 | When listeners leave the set alone, the whole snapshot is delivered and the set is unchanged. |
| Notify.RunDeliversOnce | notify.py:12-14 | Each listener hears a notification at most once. |
| Notify.RunSkipsDisconnected | notify.py:13 | A listener that is not connected at its turn, and that nobody reconnects, hears nothing. |
| Notify.Notify | notify.py:11-14 | `notify` delivers to listeners of the snapshot that are still connected at their turn, at most once each. Without reactions it delivers to all of them and the set is unchanged. |
| Notify.MutualDisconnectDeliversOnce | notify.py:11-14 | Of two listeners that disconnect each other, only the first hears the message. |
| Geometry.FromCorners | geometry.py:38-42 | The top-left corner is the componentwise minimum of the two points, and the sizes are non-negative. |
| Geometry.FromCornersSymmetric | geometry.py:38-42 | The order of the corners does not matter. |
| Geometry.Corners | geometry.py:47-48 | The corners are (x, y) and (x + w, y + h). |
| Geometry.CornersOfFromCorners | geometry.py:38-48 | The corners of `from_corners` are the componentwise minimum and maximum of the points. |
| Geometry.FromOwnCorners | geometry.py:38-48 | A rectangle with non-negative sizes is rebuilt from its own corners. |
| Geometry.Intersects | geometry.py:50-63 | For non-negative sizes, `intersects` holds exactly when the closed x-extents overlap and the closed y-extents overlap. Touching edges count. |
| Geometry.IntersectsSymmetricReflexive | geometry.py:50-63 | For non-negative sizes, `intersects` is symmetric and reflexive. |
| Geometry.IntersectsAsymmetricForNegativeWidth | geometry.py:50-63 | With a negative width, `intersects` can hold one way and fail the other. |
| Patcher.NewPatcher | patcher.py:15-18 | A new patcher has an empty log and keeps its target module. |
| Patcher.PatchEntries | patcher.py:32-35 | The module scan replaces, and logs with their old value, exactly the module entries identical to the old value. Other attributes are untouched. |
| Patcher.Patch | patcher.py:20-35 | A missing attribute raises AttributeError. Otherwise the attribute gets the replacement, and (attribute, old value) is logged first. |
| Patcher.PatchReachesModule | patcher.py:32-35 | With a separate target module, every entry of it identical to the old value is also patched and logged. Nothing else changes. |
| Patcher.PatchWithoutModule | patcher.py:29-32 | Without a separate target module, exactly one entry is logged and one attribute changes. |
| Patcher.Unpatch | patcher.py:71-74 | `unpatch` keeps every attribute. |
| Patcher.Restore | patcher.py:73-74 | Replaying the log leaves exactly the attributes there were plus those the log names. |
| Patcher.RestoreFirstWins | patcher.py:71-74 | Replaying in reverse gives each logged attribute its earliest old value, and an unlogged attribute keeps its value. |
| Patcher.RestoreUnlogged | patcher.py:73-74 | An attribute the log does not mention keeps its value. |
| Patcher.RestoreEarliest | patcher.py:72-74 | A logged attribute gets the old value of its earliest entry. |
| Patcher.NewPatcherTracks | patcher.py:15-18 | A new patcher tracks the store it starts from. |
| Patcher.SetOneTracks | patcher.py:29-31 | Logging one change before making it keeps the log able to restore the original. |
| Patcher.PatchEntriesTracks | patcher.py:32-35 | The module scan keeps that property. |
| Patcher.PatchTracks | patcher.py:20-35 | Every `patch` keeps that property. |
| Patcher.UnpatchRestores | patcher.py:71-74 | After any series of patches, `unpatch` restores the original value of every attribute. Attributes never patched were never changed. |
| Patcher.RestoreOffLog | patcher.py:73-74 | Values of unlogged attributes do not affect a replay. |
| Patcher.UnpatchTwice | patcher.py:71-74 | The log is not cleared, so a second `unpatch` changes nothing. |
| Patcher.PatchTwiceThenUnpatch | patcher.py:71-74 | An attribute patched twice gets its original value back. |
| Reg.NewApp | reg.py:12-16 | A new application is unregistered, with an empty register code and e-mail and no registration code or e-mail. |
| Reg.Normalize | reg.py:23-24 | Stripping and lowercasing leaves no whitespace at either end and never lengthens. |
| Reg.NormalizeIdempotent | reg.py:23-24 | Normalising twice is normalising once. |
| Reg.LowerEnds | reg.py:23-24 | Lowercasing keeps whitespace-free ends. |
| Reg.LowerCharSpace | reg.py:23-24 | Lowercasing a character neither creates nor removes whitespace. |
| Reg.StripEnds | reg.py:23-24 | `strip` leaves no whitespace at either end. |
| Reg.StripFixed | reg.py:23-24 | Text with whitespace-free ends is its own strip. |
| Reg.LowerTwice | reg.py:23-24 | Lowercasing is idempotent. |
| Reg.IsCodeValid | reg.py:21-31 | A code is valid exactly when its normalised form is 32 characters long and is the digest of appid + e-mail + serial + salt for some serial below 100. A wrong length computes no digest. The search stops at the first matching serial and otherwise tries all 100. |
| Reg.SearchSerials | reg.py:27-31 | The serial loop finds the first serial whose digest equals the code, or tries all 100. |
| Reg.ValidCodeNormalized | reg.py:23-24 | Validity depends only on the normalised code and e-mail. |
| Reg.ValidCodeExamples | reg.py:25-31 | A normalised 32-character digest for some serial is valid, and a 3-character code is not. |
| Reg.SetRegistration | reg.py:33-38 | An invalid code changes nothing. A valid one marks the application registered and stores the raw code and e-mail as the registration code and e-mail, separate from the register fields set at creation. |
| Text.Decimal | reg.py:28 | `str(n)`: the decimal digits of n, at least one, whose value is n. |
| Text.PadDecimal | conflict.py:27 | Padding to a width keeps the value and reaches the width. |
| Text.PadDecimalInjective | conflict.py:27 | Different numbers pad to different texts. |
| Text.Split | path.py:52 | The pieces of a split contain no separator. |
| Text.JoinSplit | path.py:52 | Joining the pieces of a split gives the string back. |
| Text.SplitJoin | path.py:57-59 | Splitting the join of separator-free pieces gives the pieces back. |
| Text.JoinContainsSep | path.py:57 | The join of separator-free pieces contains the separator exactly when there are two or more pieces. |
| Text.Lower | str.py:92 | `lower` maps each character with ASCII case folding and keeps the length. |
| Text.StripLeft | reg.py:23 | The result is a suffix that starts with a non-space, and every removed character is whitespace. |
| Text.StripRight | reg.py:23 | The result is a prefix that ends with a non-space, and every removed character is whitespace. |
| Text.Strip | reg.py:23 | `strip` gives the run of the text between the leading and the trailing whitespace: it occurs there, every removed character is whitespace, the result starts and ends with a non-space, and an all-whitespace text gives "". |
| Text.SplitLast | path.py:52 | The last piece of a split is empty exactly when the string ends with the separator, and then there are at least two pieces. |

## Left out

- `ThreadedJobPerformer` and the Cocoa job performers: their point is thread
  spawning and cross-thread error relay.
- `Job.__init__`'s TypeError for a non-callable callback: a callback in the
  model is always a function.
- The callback arity switch at job.py:107: the callback always receives the
  description, and an empty description is passed as "".
- JobTree.StartSubjobAt: the returned `Job` object is its index in the
  family rather than a Python object reference. Misuse such as driving an old
  subjob after a newer one has started is expressible but not constrained.
- str.py `format_size`, `pluralize`, the FT_DECIMAL branch of `format_time`
  and `process_tokens`: floating-point rounding, regular expressions and
  dynamic dispatch.
- Strs.FormatTime: only FT_HOURS and FT_MINUTES on integer seconds, for the same
  reason. Non-integer seconds are left out: `%02d` at str.py:68-73 truncates
  a float such as 59.7 to '00:59', and the model takes an `int`.
- path.py's unicode and file-system encoding handling (`unicode_if_needed`,
  `__str__`): platform codec behaviour. Strings are sequences of characters.
- Paths.Slice: slices with a step other than 1 are not modelled. The contract
  speaks about normal paths (no separator inside a component, no trailing
  empty component).
- Paths.Normal: not every path the constructor builds is normal. A run of two
  or more trailing separators leaves one trailing empty component
  (`Path('a//')` is ('a', '')), because path.py:62-63 drops only one. Such
  paths fall outside the contracts of RenderParse, ContainsPath, Slice,
  RAddRelative, AddAbsolute and NotEqualsParsed.
- Paths.Add: the contract speaks about the case where no component holds the
  separator. The other case reparses the joined text, as the body shows.
- Paths.Make: the separator falls back to `os.sep`, which is the `sep`
  parameter of the model.
- Paths.ParseString: the separator is one character. path.py:46-52 accepts
  any string as the separator. Multi-character separators are not modelled.
- Strs.Replace: the contract states the absent-pattern case. The general
  leftmost, non-overlapping scan is given only by its definition. For a
  one-character pattern, Strs.ReplaceCharIsSplitJoin relates it to
  splitting and joining.
- `cond` (misc.py:54-60) is modelled as Misc.Cond, a plain two-way choice.
  It has no row, because it has no property beyond its definition.
- misc.py `trydef` and `tryint`: they depend on exceptions from Python's
  `int()` parsing.
- Misc.StrToFlags: a string is a sequence of bytes. Characters above 255 are
  not modelled.
- Misc.FlagsToInt: flags are natural numbers. The TypeError for non-integer
  flags and negative shift counts cannot occur.
- util.py `modified_after` and `find_in_path`: file system and environment.
- geometry.py `Rect.center` and `Line`: `/2` is integer or float division
  depending on the argument type, and `Line` has no behaviour.
- GuiTree: Python node identity (`is`) is modelled by position. A node is
  named by its index path, and the selection holds index paths.
- GuiTree.ResolveOwnPath: a node's path is always its current position. The
  source caches `_path`, and `append` resets only the appended node's cache
  (gui/tree.py:23-26, 68-75). A descendant whose ancestor is attached
  elsewhere later keeps a stale path: after `a.append(b)` and a read of
  `b.path` ([0]), `root.append(a)` leaves `b.path` at [0], so
  `root.get_node(b.path)` is `a`. The model does not reproduce stale caches.
- GuiTree.PathOfChild: the same divergence. A child's path is its parent's
  current path plus its index, never a cached earlier value.
- `Node.root` (gui/tree.py:77-82): nodes are addressed by their paths from the
  tree, so every node's root is the tree itself (path []). Parent links are
  not modelled, and there is nothing further to state.
- `Node.get_path`, `children_count`, `name` and `parent`
  (gui/tree.py:51-66): plain accessors. In the model a node is its path.
- GuiTree.GetNode: a `None` index path is modelled by the empty path.
- Notify.Run: a `dispatch` that raises ends the loop in the source. An
  example is the AttributeError from `getattr` for a listener without a
  method named after the message (notify.py:30-32). In the model a reaction
  always returns, so the remaining listeners are always visited.
- Notify.Notify: the same. An exception from a listener is not modelled.
- Notify: listeners are numbered. What a listener does on `dispatch` is a
  `Reaction` parameter that may change the listener set. The order in which
  the set's copy is iterated is a parameter (`order`, any enumeration of the
  snapshot).
- `Patcher.patch_osstat` and `patch_today`: they patch `os.stat` and
  `time.time` with closures over the real clock and file system.
- Patcher: objects and values are numbered. Python's `is` on values is value
  equality. The iteration order of the target module's `__dict__` is the
  `moduleNames` parameter, which never repeats a name, as a dictionary's
  keys do not.
- Reg: MD5 (RFC 1321) is the `md5hex` parameter. `appid` is a natural number
  rendered by `str()`. `_setup_as_registered` is a hook with no behaviour.
- Text.Lower, Text.StripLeft and Text.StripRight: ASCII case folding and
  ASCII whitespace only. Python's Unicode tables are not modelled.

## Findings

| source | as written | input that shows it | evidently intended | confidence | as-written member | corrected member |
|---|---|---|---|---|---|---|
| job.py:130 | `iter_with_progress` ends with `set_progress(100)`, but `start_job(len(sequence))` set the maximum to max(1, len) at job.py:144. | A fresh `Job(1)` iterated over 200 elements: the last element reports 100, then the final `set_progress(100)` reports 50. | The final call sets the progress to the child's maximum, so the last report is 100 for every length. | not executed | JobTree.LoneJobDropsAtEnd | JobTree.LoneJobIterationToMax |
