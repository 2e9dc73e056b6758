# git-the-timesheet in Dafny

A model of the core of git-the-timesheet, a tool that turns git commit logs
into weekly timesheets. Three parts are modelled.

- **Dates** (`dates.dfy`, from `utils.py`):
  - `start_of_week` snaps a date back to the Sunday that starts its week.
  - `date_range` lists the days of a half-open range.
  - Dates are proleptic Gregorian ordinals, as Python's `date.toordinal` gives them. The weekday is `(d + 6) % 7`, with Monday 0 and Sunday 6.
- **Timesheet** (`timesheet.dfy`, from `timesheet.py`): `create_timesheet` and its three inner functions.
  - `find_week` numbers weeks 1 to 5 from the anchor Sunday and gives no week (`None`) after that.
  - `init_timesheet` builds the empty grid, week → day → list of task bodies.
  - `load_tasks_into_timesheet` appends each task's body to its day. It skips tasks whose week has no bucket. It raises `KeyError` for a task whose week has a bucket that does not contain the task's day.
  - The exception is modelled as a `Result` whose failure carries the offending date.
- **Git command** (`git_command.dfy`, from `git.py`): the `GitLog` builder and `build_command`.
  - The builder is an immutable record, and each setter returns the updated record.
  - `build_command` is modelled character for character: the author fold, the `x and f'...' or ''` segments and the final f-string.
  - `shell_words.dfy` models how the shell reads the command string, following section 2.3 (Token Recognition) of the POSIX Shell Command Language. A newline ends the command. The first line splits into arguments at blanks (space and tab), with runs of blanks counting as one. This gives "what git receives" a precise meaning (`Command`).
  - That meaning is used to state when the command string means what was intended, and when it does not.

`wrappers.dfy` holds the `Option` and `Result` types. `seqs.dfy` holds identities of sequence concatenation used by the proofs.

### What the timesheet covers

- The grid runs from the Sunday on or before the start date (`timesheet.py:27`), not from the start date itself.
- The grid runs through the end date inclusive: the loop's range stops at `end_date + 1` (`timesheet.py:41`).
- Tasks outside the reported range are not always dropped.
  - A task whose week number has a bucket, but whose day is not in that bucket, makes the whole call raise `KeyError` (`timesheet.py:60`). Examples are a task before the anchor, which falls in week 1, or a task after the end date in the last week.
  - Only tasks whose week has no bucket are skipped.
  - `Timesheet.Rejected` characterises the failing days exactly.

## Model

| member | source | states |
|---|---|---|
| `Dates.Weekday` | utils.py:13-15 | Python's `weekday()`: a number in 0..6, Monday 0 and Sunday 6. `WeekdayNext` states how it cycles. |
| `Dates.WeekdayNext` | utils.py:13-15 | 0001-01-01 is a Monday, and each next day has the next weekday number, Sunday wrapping round to Monday. |
| `Dates.StartOfWeek` | utils.py:13-15 | The result is a Sunday, on or at most six days before the given date. |
| `Dates.StartOfWeekUnique` | utils.py:4-15 | Any Sunday at most six days before (or on) `d` is `StartOfWeek(d)`, so the contract determines the function. |
| `Dates.StartOfWeekOfSunday` | utils.py:13 | A Sunday is returned unchanged. |
| `Dates.StartOfWeekOfWeekday` | utils.py:15 | Any other day moves back by its weekday number plus one, to an earlier date. |
| `Dates.StartOfWeekIdempotent` | utils.py:13-15 | Snapping twice is the same as snapping once. |
| `Dates.StartOfWeekConstantOnWeek` | utils.py:13-15 | All seven days from a Sunday to the next Saturday snap to that Sunday. |
| `Dates.StartOfWeekExamples` | utils.py:8-11 | 2019-09-13 snaps to 2019-09-08, and 2019-09-08 snaps to itself. |
| `Dates.DateRange` | utils.py:17-26 | The range has `end - start` elements (none when `end <= start`). Element `i` is `start + i`. A date is in it exactly when `start <= x < end`. |
| `Dates.DateRangeConsecutive` | utils.py:26 | Neighbouring elements are consecutive days. |
| `Dates.DateRangeExamples` | utils.py:21-24 | 2019-09-08 to 2019-09-10 gives the 8th and the 9th. An empty range gives nothing. |
| `Timesheet.FindWeekFrom` | timesheet.py:31-35 | Trying weeks from `week` upward gives the first week whose end lies after the day, or `None` exactly when the day is at least 35 days past the anchor. |
| `Timesheet.FindWeek` | timesheet.py:29-35 | Week `w` satisfies `day < anchor + 7w`, and `anchor + 7(w-1) <= day` unless `w` is 1. The result is `None` exactly when `day >= anchor + 35`. |
| `Timesheet.FindWeekClosedForm` | timesheet.py:29-35 | Days before the anchor are in week 1. Days of the first 35 are in week `(day - anchor) / 7 + 1`. Later days are in no week. |
| `Timesheet.FindWeekOfWeekStart` | timesheet.py:31-35 | The first day of week `k` is in week `k`, for `k` in 1..5. |
| `Timesheet.InitDays` | timesheet.py:41-48 | The loop that gives each day an empty list under its week. `InitDaysGrid` states what it builds. |
| `Timesheet.InitTimesheet` | timesheet.py:37-48 | `init_timesheet` over the days from the anchor through `end`. `InitTimesheetEntries`, `InitTimesheetWeeks` and `InitTimesheetEmpty` state what it builds. |
| `Timesheet.AddEmptyDay` | timesheet.py:42-46 | Adding a day adds its week to the grid's weeks and nothing else. |
| `Timesheet.AddEmptyDayGrid` | timesheet.py:42-46 | One loop step keeps the grid an exact empty grid of the days seen so far. |
| `Timesheet.InitDaysGrid` | timesheet.py:39-48 | The loop's result holds exactly the given days, each under its own week with an empty list, and no bucket is empty. |
| `Timesheet.InitTimesheetEntries` | timesheet.py:37-48 | The empty grid holds each day from the anchor through `end` inclusive, under its week, with an empty list. It holds no other day, and every bucket holds a day. |
| `Timesheet.InitTimesheetWeeks` | timesheet.py:41-46 | A week is a key of the empty grid exactly when one of the grid's days falls in it (`BucketExists`). |
| `Timesheet.InitTimesheetEmpty` | timesheet.py:41 | An end date before the anchor gives an empty grid. |
| `Timesheet.LoadTask` | timesheet.py:52-60 | Loading one task fails exactly when its week is present but its day is not, and then with that day's `KeyError`. Success keeps every week and day. |
| `Timesheet.LoadTaskEntry` | timesheet.py:60 | Loading one task appends its body to its own day's list and leaves every other list unchanged. |
| `Timesheet.LoadTasks` | timesheet.py:50-60 | `load_tasks_into_timesheet`, one task after another, stopping at the first `KeyError`. `LoadTasksFailure`, `LoadTasksShape` and `LoadTasksEntry` state its result. |
| `Timesheet.LoadTasksFailure` | timesheet.py:50-60 | Loading all tasks succeeds exactly when no task's day is missing. On failure the error is the `KeyError` of the first such task. |
| `Timesheet.LoadTasksShape` | timesheet.py:50-60 | Successful loading keeps every week and every day of the grid. |
| `Timesheet.LoadTasksEntry` | timesheet.py:50-60 | Successful loading extends each day's list by the bodies of the tasks on that day, in task order, and only under that day's own week. |
| `Timesheet.CreateTimesheet` | timesheet.py:10-65 | `create_timesheet`: snap the start to its Sunday, build the empty grid, load the tasks. `CreateTimesheetFailure`, `CreateTimesheetDays` and `CreateTimesheetBodies` state its result. |
| `Timesheet.CreateTimesheetFailure` | timesheet.py:27-65 | `create_timesheet` raises exactly when some task is `Rejected`: its week has a bucket but its day lies outside anchor..end. The error names the first such task. |
| `Timesheet.CreateTimesheetDays` | timesheet.py:27-65 | A timesheet holds each day from the Sunday anchor through `end` under its own week and no other day. Its weeks are exactly those `BucketExists` admits. |
| `Timesheet.CreateTimesheetBodies` | timesheet.py:62-65 | Each day's list in the timesheet is the bodies of that day's tasks, in task order. |
| `Timesheet.CreateTimesheetExample` | timesheet.py:22-25 | The task ('2019-09-08', 'foobar'), reported over 2019-09-08..10, lands in week 1 on its day as `["foobar"]`. |
| `Timesheet.InitTimesheetExample` | timesheet.py:41-46 | The grid for 2019-09-08..10 has only week 1, holding the 8th, 9th and 10th. |
| `GitCommand.NewGitLog` | git.py:18-22 | A fresh builder: no repository, no authors, no dates. `NewGitLogCommand` states what it renders. |
| `GitCommand.AddAuthor` | git.py:24-27 | `add_author`. `SettersFrame` states that it appends and changes nothing else. |
| `GitCommand.SetStartDate` | git.py:29-32 | `set_start_date`. `SettersFrame` states that it sets only the start date, the last call winning. |
| `GitCommand.SetEndDate` | git.py:34-37 | `set_end_date`. `SettersFrame` states that it sets only the end date, the last call winning. |
| `GitCommand.SetRepository` | git.py:39-42 | `set_repository`. `SettersFrame` states that it sets only the repository, the last call winning. |
| `GitCommand.BuildCommand` | git.py:50-56 | `build_command`. `BuildCommandSingleLine`, `BuildCommandWords`, `NewGitLogCommand` and `EmptyValueIsUnset` state what the string means. |
| `GitCommand.SettersFrame` | git.py:18-42 | `add_author` appends and changes nothing else. Each setter changes only its own field, and the last call wins. |
| `GitCommand.NewGitLogCommand` | git.py:50-56 | A fresh builder renders `git  log    --date iso --date-order --branches`, with the empty segments leaving their spaces. |
| `GitCommand.FlagSegment` | git.py:52-54 | A segment is empty exactly when its value is unset or empty. |
| `GitCommand.AuthorSegment` | git.py:51 | The author segment is empty exactly when there are no authors. |
| `GitCommand.AuthorSegmentAppend` | git.py:51 | The segment of a concatenation of author lists is the concatenation of their segments. |
| `GitCommand.AuthorSegmentSingle` | git.py:51 | One author gives ` --author <author>`, with the author inserted verbatim. |
| `GitCommand.AuthorSegmentSingleLine` | git.py:51 | The author segment holds no newline exactly when no author does. |
| `GitCommand.EmptyValueIsUnset` | git.py:52-54 | Setting a date or repository to the empty string renders the same command as leaving it unset. |
| `GitCommand.LogOptionsText` | git.py:56 | The fixed options are the text `--date iso --date-order --branches`. |
| `GitCommand.LogOptionsWords` | git.py:56 | The fixed options reach git as the four arguments `--date`, `iso`, `--date-order`, `--branches`. |
| `GitCommand.LogOptionsSingleLine` | git.py:56 | The fixed options hold no newline. |
| `GitCommand.ShellFlagWords` | git.py:52-54 | Split at blanks, a flag segment gives the flag followed by the words of its value. |
| `GitCommand.ShellAuthorWords` | git.py:51 | Split at blanks, the author segment gives `--author` followed by the words of each author, in order. |
| `GitCommand.SplitCommand` | git.py:50-56 | For every builder state, the command split at blanks gives `ShellArguments`: `git`, `-C` and repository words, `log`, the author arguments, the date arguments and the four options. |
| `GitCommand.BuildCommandSingleLine` | git.py:50-56 | The command is a single line exactly when no repository, date or author holds a newline. |
| `GitCommand.BuildCommandWords` | git.py:50-56 | When no value holds a newline, git receives exactly `ShellArguments`. |
| `GitCommand.AuthorArgs` | git.py:51 | As separate arguments, author `i` sits at position `2i+1`, right after its `--author`. |
| `GitCommand.Arguments` | git.py:50-56 | In the intended invocation `git` comes first, then `-C <repository>` when a repository is set, then `log`. Each author follows as one argument after its `--author`. Then come `--since <start>` and `--until <end>` for the dates that are set, and the four options last. |
| `GitCommand.CommandWords` | git.py:50-56 | When every value is a single word on one line, or empty, or unset, git receives exactly the intended arguments. |
| `GitCommand.AuthorWithSpaceSplits` | git.py:51-56 | An author such as "Jane Doe" reaches git as `--author Jane` plus a stray `Doe`, where the intended invocation has the author as one argument. |
| `GitCommand.AuthorWithNewlineEndsCommand` | git.py:51-56 | An author such as "Jane", newline, "rm x" ends the git command: git receives only `git log --author Jane`, and the text after the newline is a command of its own. The intended invocation has the whole author as one argument. |

## Left out

- `GitLog.open` (git.py:44-48) runs the command through `os.popen`, which is process I/O. The model stops at the command string and at how the shell splits it.
- `config.py` and `config_builder.py` are not part of this model. They load and save the JSON configuration, prompt on standard input, walk directories for git repositories, and read user names from git configuration files.
- Task dictionaries and `date.fromisoformat` (timesheet.py:53): a task is a `Task(date, body)` record with the date already parsed. A malformed date or a missing `date` or `body` key, which raise in Python, are outside the model.
- `str(day)` keys (timesheet.py:46, 60): days are keyed by their ordinal. This is the same map, because `str` is injective on dates.
- Python's date bounds (years 1 to 9999, `OverflowError` beyond them): dates are unbounded integers.
- `GitLog` values are arbitrary objects formatted with `str` in the source. In the model they are strings or `None`.
- The builder mutates and returns `self`. In the model each setter returns a new record, which gives the same results for chained calls.
- The shell is modelled as: the first line of the command, split at spaces and tabs. Quoting, escapes, variable expansion, globbing and the operators `;`, `&`, `|` and `&&` are not modelled. What the lines after the first do when run is not modelled either.
- `GitCommand.CommandWords`: proved for that model of the shell only. A value that holds quotes or shell metacharacters is single-word in the model but is still interpreted by a real shell.
- `GitCommand.BuildCommandWords`: holds only for values without a newline. With a newline, git receives the words before it, as `AuthorWithNewlineEndsCommand` shows, and the rest runs as further commands.
- `GitCommand.ShellFlagWords`: states blank splitting of the segment. What git receives is stated only for values without a newline, by `BuildCommandWords`.
- `GitCommand.ShellAuthorWords`: states blank splitting of the segment. What git receives is stated only for authors without a newline, by `BuildCommandWords`.
- The `doctest` runners (`__main__` blocks) are left out.

## Findings

| source | as written | input that shows it | evidently intended | confidence | as-written member | corrected member |
|---|---|---|---|---|---|---|
| git.py:51-56 | Every value is spliced unquoted into one shell command string. | `add_author("Jane Doe")`: git receives `--author Jane` and a separate argument `Doe`. | Each author, date and repository reaches git as a single argument. | medium, not executed | `GitCommand.AuthorWithSpaceSplits` | `GitCommand.Arguments` |
| git.py:51-56 | A newline in a spliced value ends the git command. | `add_author("Jane\nrm x")`: git receives `git log --author Jane`, without the log options, and `rm x` runs as a second command. | The value reaches git as one argument and nothing else runs. | medium, not executed | `GitCommand.AuthorWithNewlineEndsCommand` | `GitCommand.Arguments` |

The corrected form, `GitCommand.Arguments`, builds the invocation as an argument list. Its contract places each author as one argument after its `--author`. `GitCommand.CommandWords` proves that the spliced string agrees with it whenever every value is a single word on one line.
