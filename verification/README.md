# A verified model of fslog's path, configuration, registry and cache logic

fslog is a C++ logging library. A configuration file lists logger instances; each names a
file; instances whose files are the same share one appender; the registry hands loggers out
by name and takes everything down at exit. This project models the parts of that with the
most state and the most branching, and proves what they are for.

* `Options.dfy`: a value that may be missing.
* `Text.dfy`: `split` and `trim` as loops, against `Split`/`Join` and `Trim`.
* `Paths.dfy`: lexical pathname resolution (the part of XBD section 4.13 of POSIX.1-2017
  that does not follow symbolic links): a stack of entries, folded over the components.
* `PathBuffer.dfy`: `_realpath` over an array that is really reallocated, with its write
  cursor, scan cursor and backward walk, proved against that fold.
* `PathLaws.dfy`: normal form, fixed points, composition, neutral detours, meaning in a
  directory tree.
* `LogPath.dfy`: `toRealPath`, and which texts it leaves alone.
* `Numerals.dfy`: `atoi`, `strtoul` and `%d`.
* `Conf.dfy`: `TextConfig`, its line loop and a matching printer.
* `Instances.dfy`: `splitCheck` and a matching printer.
* `Plan.dfy`: the loop of `CLogger::init` as a fold, and what it amounts to, declared.
* `Registry.dfy`: the registry as objects with lifetimes; `init`, `GetInstance`, `destroy`.
* `Runs.dfy`: whole runs of the registry, against a fold over the calls, and what they leave
  when the process ends. `Abort.dfy`: a run whose handler is registered and never runs.
* `Sharing.dfy`: who shares an appender. `EndToEnd.dfy`: from printed text to the registry.
* `Clock.dfy`: the cached time text and the bracket in `writeLog`.
* `Ids.dfy`: the cached process and thread ids across `fork`.

Results of the process (`getcwd`, `HOME`, PATH_MAX, the allocator, the clock, the time zone,
whether a file opens) are parameters. A path resolution that fails is None; the two `exit(1)`
of `init` and the assertion in `toRealPath` are outcomes. Assertions are taken to be compiled
in, as no Makefile of the repository turns them off; so an unresolved path aborts the process,
and an abort runs no `atexit` handler.

That limits a promise: `destroy` is registered so that everything filed is deleted at exit, and
after an abort it is not. `Runs.Process` says exactly when it is, for every run, and
`Abort.AbortedRun` gives two calls of `init` for which it is not.

Where the code and its comments differ the code is followed. `include/StrUtil.h:20` says a
blank path is the default file under the prefix; the code does that only for a prefix ending
in `.` or `/` (`LogPath.BlankPath`). `example/example.conf:26` says relative paths are taken
from `log.prefix`; a relative path that starts with `.` is taken from the working directory.

Preconditions that go beyond types, and why the source needs them:

* HOME, when a name starts with `~`, is set and absolute: otherwise lines 87, 113 and 119 of
  `src/StrUtil.cc` read an uninitialised buffer or before it. The working directory needs no
  such condition beyond being absolute, as the kernel reports it; it may be missing or too long.
* PATH_MAX is positive, and if it is 1 an absolute name has an ordinary component:
  `PathBuffer.Scan` and `PathLaws.RootNeedsTwoBytes` show the byte that is missing otherwise.
  The callers above `_realpath` simply ask for more than 1.
* The prefix is not blank, unless the path is there and starts with `/`, `.` or `~`: otherwise
  lines 189 and 199 look into an empty string. `init` never passes such a prefix
  (`Runs.AnyTextIsReady`), so its own demand is on the environment alone.
* No `GetInstance` before the first `init`: there is no dummy logger to answer yet.
* For normal-form answers the starting directory is itself in normal form (`Settled`);
  `PathLaws.BareTilde` shows that it is answered as it is.

## Model
| member | source | states |
|---|---|---|
| Text.SplitBy | src/StrUtil.cc:216-241 | the loop returns the first `count` pieces of the full split |
| Text.JoinOfSplit | src/StrUtil.cc:216-241 | joining all pieces gives the source back |
| Text.SplitOfJoin | src/StrUtil.cc:216-241 | splitting a join of delimiter-free pieces gives the pieces back |
| Text.SplitFree | src/StrUtil.cc:222-227 | no piece contains the delimiter |
| Text.SplitConcat | src/StrUtil.cc:222-227 | splitting distributes over concatenation at a delimiter |
| Text.SplitLength | src/StrUtil.cc:222-234 | there is one piece more than there are delimiters |
| Text.SplitCount | src/StrUtil.cc:236-238 | a bounded split is a prefix of the full one, of length min(count, delimiters + 1) |
| Text.TrimRef | src/StrUtil.cc:209-214 | the two erasures compute the trimmed text |
| Text.TrimIsTheKernel | src/StrUtil.cc:209-214 | a text is the result exactly when it is clean at both ends and only droppable characters were peeled off; so the result is unique |
| Text.TrimIdempotent | src/StrUtil.cc:209-214 | trimming twice is trimming once |
| Paths.WalkConcat | src/StrUtil.cc:95-153 | resolving a joined name is resolving its halves one after the other |
| Paths.WalkComponent | src/StrUtil.cc:101-152 | one round of the scan: one component, then the rest |
| Paths.WalkNormal | src/StrUtil.cc:105-152 | from a normal stack every name leads to a normal stack |
| Paths.DirsShape | src/StrUtil.cc:69-93 | any absolute starting text is one of the two shapes of the stack it stands for |
| Paths.PrintReads | src/StrUtil.cc:154-159 | a printed normal stack is in normal form and reads back as the stack |
| Paths.CanonicalReads | src/StrUtil.cc:154-159 | a text in normal form is the print of the normal stack it reads as |
| Paths.WalkPrint | src/StrUtil.cc:95-153 | scanning a printed stack pushes exactly its entries |
| Paths.PrintInjective | src/StrUtil.cc:154-159 | normal stacks print alike exactly when they are equal |
| PathBuffer.Start | src/StrUtil.cc:59-93 | allocation and starting directory: refused, missing and too long answer NULL, otherwise the text is in the buffer below `dest` |
| PathBuffer.NextComponent | src/StrUtil.cc:97-106 | skips exactly the separators and stops at the component's end |
| PathBuffer.WalkBack | src/StrUtil.cc:112-113 | the place where the backward walk stops is just after the popped entry's separator |
| PathBuffer.BackUp | src/StrUtil.cc:111-113 | the walk stays at or after index 1 and leaves the text of the popped stack; the root stays |
| PathBuffer.MakeRoom | src/StrUtil.cc:122-147 | afterwards the component and its terminator fit, the text below the cursor is kept, and a reallocation counts exactly if the block is another |
| PathBuffer.Push | src/StrUtil.cc:119-150 | separator, reallocation, copy and terminator are in bounds and leave the text of the pushed stack; the block is the one it had, or a larger one that counts as a reallocation; NULL only when the allocator refused |
| PathBuffer.Apply | src/StrUtil.cc:107-152 | one component takes the buffer's stack to its step |
| PathBuffer.Round | src/StrUtil.cc:95-153 | one round advances the scan and keeps buffer, stack and accounting in step |
| PathBuffer.Scan | src/StrUtil.cc:95-153 | the whole loop leaves the text of the walked stack, strictly inside the block unless that had one byte and nothing was pushed; a name that pushes nothing is never reallocated |
| PathBuffer.Finish | src/StrUtil.cc:154-156 | the terminated buffer is the printed stack |
| PathBuffer.RealPath | src/StrUtil.cc:27-166 | the buffer program answers the printed fold for every name and absolute starting directory, fails only as specified, holds K + 1 blocks of growing size with K * path_max <= base + name + 1, and ends within the capacity bound |
| PathLaws.AnswerIsCanonical | src/StrUtil.cc:69-156 | from a normal starting directory every answer is in normal form |
| PathLaws.AnswerIsCString | src/StrUtil.cc:203 | the answer holds no terminator |
| PathLaws.FixedPoints | src/StrUtil.cc:89-156 | an absolute name is answered by itself exactly when it is in normal form |
| PathLaws.Idempotent | src/StrUtil.cc:69-156 | resolving an answer again, in any environment, returns it |
| PathLaws.BareTilde | src/StrUtil.cc:71-81 | HOME itself is answered unchanged but for one trailing separator |
| PathLaws.NoAnswerExactly | src/StrUtil.cc:69-88 | there is no answer exactly for the empty name, and for a relative or `~` name whose directory is missing or not shorter than PATH_MAX |
| PathLaws.FromCwd | src/StrUtil.cc:82-87 | a relative name is walked from the working directory; if that is in normal form the answer is that of the two joined |
| PathLaws.FromHome | src/StrUtil.cc:71-81 | the same of HOME and what follows `~` |
| PathLaws.ResolveJoin | src/StrUtil.cc:95-153 | a longer name resolves by walking on from the shorter one's entry |
| PathLaws.Composition | src/StrUtil.cc:69-156 | resolving a prefix first never changes the answer, for absolute, relative and `~` names |
| PathLaws.NeutralDetour | src/StrUtil.cc:107-113 | entering an entry, going in neutral circles and leaving by `..` is neutral |
| PathLaws.NeutralJoin | src/StrUtil.cc:95-153 | neutral texts joined are neutral |
| PathLaws.InsertNeutral | src/StrUtil.cc:95-153 | a neutral text inserted after any separator, a leading one included, never changes the answer |
| PathLaws.Insertions | src/StrUtil.cc:97-113 | doubled separators, `.` components and `x/..` never change the answer, at the root as well |
| PathLaws.LeadingNeutral | src/StrUtil.cc:82-113 | nor does a neutral text put in front of a relative name |
| PathLaws.SameText | src/StrUtil.cc:69-156 | two names get the same text exactly when they walk to the same entry |
| PathLaws.RootNeedsTwoBytes | src/StrUtil.cc:89-93 | an absolute name that pushes nothing is answered by the root, which does not fit one byte with its terminator |
| PathLaws.MeaningPreserved | src/StrUtil.cc:69-156 | in any tree where `..` undoes a lookup, the answer leads from the root to the node the name led to from its starting directory |
| LogPath.ToRealPath | src/StrUtil.cc:168-206 | the method computes the key of the path field; None is the failed assertion |
| LogPath.KeyOfPath | src/StrUtil.cc:189-204 | the key is the answer for the path, put below the prefix unless it starts with `/`, `.` or `~`, and for the default file in it if it ends in `.` or `/` |
| LogPath.KeyTrims | src/StrUtil.cc:174-183 | spaces around path, prefix and default file do not matter |
| LogPath.KeyDefaults | src/StrUtil.cc:170-187 | a blank path is the prefix, an empty prefix is `./`, a blank default file is `default.log` |
| LogPath.FileIn | src/StrUtil.cc:194-196 | a directory in normal form and a final `/` get the default file in that very directory |
| LogPath.SpelledEnds | src/StrUtil.cc:182-200 | the scanned part of the spelled name ends in the path's own last component or the default file's |
| LogPath.KeyEnds | src/StrUtil.cc:168-206 | so does the resolved entry, and the key ends in none of `.`, `/` and space |
| LogPath.KeyFixedPoints | src/StrUtil.cc:168-206 | among normal-form texts the fixed points are exactly those ending in none of `.`, `/` and space |
| LogPath.KeyIsFixedPoint | src/StrUtil.cc:168-206 | registry keys are left alone under any later environment, prefix and default file |
| LogPath.BlankPath | src/StrUtil.cc:185-200 | a blank path is given the default file only if the prefix ends in `.` or `/`; a plain prefix is repeated below itself |
| LogPath.PrefixSpelledOut | src/StrUtil.cc:168-206 | a relative path under any anchored prefix, the default `./` included, has the same key as the path that spells the prefix out, read under any prefix |
| Numerals.NumeralReads | src/Log.cc:40-40 | a numeral is read after white space and an optional sign, up to the first other character |
| Numerals.NumberReads | src/Log.cc:40-40 | `atoi` and `strtoul` of a numeral with white space, sign and trailing text: exact in range, saturated or counted down from the top beyond |
| Numerals.NoNumber | src/Log.cc:40-40 | where no digit stands they read 0 |
| Numerals.DecimalReads | src/Log.cc:101-120 | printed numbers in range are read back by `atoi` and `strtoul` |
| Numerals.DecimalInjective | src/StrUtil.cc:335-338 | different ids print differently |
| Conf.ReadLine | src/Conf.cc:20-24 | `getline` without its newline takes exactly the next line's entries |
| Conf.ParseLine | src/Conf.cc:26-35 | a line gives its entry, or an empty key when it has none |
| Conf.TextConfig.constructor | src/Conf.cc:9-42 | the loop files, for every key and no other, its values in file order; a missing file gives none |
| Conf.TextConfig.PushBack | src/Conf.cc:37-38 | one more entry is filed at the end of its key |
| Conf.TextConfig.GetStrings | src/Log.cc:82-82 | returns the values of a key in file order; asking for a missing one enters it with none |
| Conf.TextConfig.GetString | src/Log.cc:65-77 | returns the value of the first entry with the key, or the empty text if no entry has it |
| Conf.FirstDecides | src/Log.cc:65-77 | of several values of a key the first in the file is the one answered, and none exactly if no entry has the key |
| Conf.FindExactly | src/Conf.cc:26-28 | `find` gives the first place of the pattern, or that there is none |
| Conf.CommentCut | src/Conf.cc:26-27 | a comment and what follows it do not count; a line that starts with the comment gives no entry |
| Conf.KeyAlone | src/Conf.cc:28-38 | a line without a separator is a key with an empty value, unless it is blank |
| Conf.NoKey | src/Conf.cc:28-38 | a line with nothing but spaces before the separator gives no entry |
| Conf.EntriesConcat | src/Conf.cc:20-39 | parsing distributes over concatenation at a newline |
| Conf.ValuesAppend | src/Conf.cc:37-38 | the values of a key in joined lists are the values in each, in order |
| Conf.LineReads | src/Conf.cc:26-35 | spaces around key and value and a trailing comment do not matter; values may hold separators |
| Conf.PrintParses | src/Conf.cc:20-39 | every printable list of entries parses back to itself |
| Instances.SplitCheck | src/Log.cc:26-46 | returns the checked fields, or nothing |
| Instances.CheckedExactly | src/Log.cc:28-39 | accepted exactly with four commas or more and the first three fields not blank |
| Instances.SpacedChecks | src/Log.cc:28-45 | spaces around the fields do not matter, nor do fields beyond the fifth |
| Instances.LevelKept | src/Log.cc:40-44 | a level from 0 to 100 is kept; a larger, negative or missing one becomes 100 |
| Instances.LevelInRange | src/Log.cc:40-44 | whatever the level field says, the logger's level is between 0 and 100 |
| Instances.PrintChecks | src/Log.cc:26-46 | a printed tuple is split and checked back to itself, its level defaulted |
| Plan.LoadExactly | src/Log.cc:82-128 | the loop succeeds exactly when every non-empty entry is fine and the names are distinct, and then plans exactly one logger per entry and one appender per file, sized by the first entry naming it |
| Plan.ReadExactly | src/Log.cc:84-94 | an empty value asks for nothing, an acceptable one for a logger, any other is malformed |
| Plan.FailsAs | src/Log.cc:94-126 | the first bad entry says how the loop fails: malformed, a repeated name, or else a path without an answer; what was reached is the plan of the entries before it |
| Plan.HasFirstBad | src/Log.cc:83-128 | every failing loop has a first bad entry |
| Plan.LoadStuck | src/Log.cc:95-98 | a failing entry decides the outcome |
| Plan.ReachedAt | src/Log.cc:83-127 | what a failing loop leaves behind is the plan of the entries before the failing one |
| Plan.SharePlanned | src/Log.cc:102-106 | two loggers are planned on one file exactly when their paths resolve alike |
| Registry.Appender.constructor | src/Log.cc:107-113 | a live appender that is not running, with the path, split size and format given |
| Registry.Appender.Start | src/Log.cc:115-117 | running afterwards exactly when it could be started; a failure is only reported |
| Registry.Appender.Stop | src/Log.cc:15-19 | allowed only while alive; not running afterwards, one stop more |
| Registry.Logger.Delete | src/Log.cc:15-24 | deletes the logger once and stops its live appender once |
| Registry.ReadSettings | src/Log.cc:64-82 | prefix, async flag, split format and instances come from their keys, with the defaults |
| Registry.SettingsExactly | src/Log.cc:65-80 | prefix and split format are the first values of their keys, or the defaults where empty or missing; async holds exactly if the first value is `true` |
| Registry.CLogger.AppenderFor | src/Log.cc:102-119 | an appender already filed for the path is used, otherwise one is made and filed |
| Registry.WiredWith | src/Log.cc:102-120 | filing a logger and its appender keeps the maps fitting together |
| Registry.FitWith | src/Log.cc:102-120 | and keeps them alive and showing the plan with that logger and its file |
| Registry.CLogger.NewLogger | src/Log.cc:101-120 | a new logger with the name, format and level given that fits the registry, its appender found or made and filed |
| Registry.CLogger.Enlist | src/Log.cc:101-120 | one logger more, the plan and the invariant kept |
| Registry.CLogger.Configure | src/Log.cc:83-128 | one value does to the objects what the plan's step says, or fails as it does |
| Registry.CLogger.Populate | src/Log.cc:82-128 | the whole loop builds out of objects what the plan reaches, and succeeds or fails as it does |
| Registry.CLogger.Init | src/Log.cc:48-140 | already initialised and missing file leave the maps alone; otherwise the registry shows what the configuration's plan reached, every appender started, and the result says whether that was all of it |
| Registry.CLogger.GetInstance | src/Log.cc:156-164 | a live logger, the dummy for unknown names; by the invariant the dummy has no name and level NONE |
| Registry.CLogger.DeleteLogger | src/Log.cc:145-147 | deleting one logger stops its appender once more and touches nothing else |
| Registry.CLogger.Destroy | src/Log.cc:142-154 | every filed object is deleted, each appender after one stop per user and with no thread running; the warning logger is left dangling exactly when it was a configured one |
| Runs.Do | src/Log.cc:48-164 | one call of init, GetInstance or destroy takes the objects where the fold over plain values goes; the logger handed out is alive, with the name asked for and the planned level, format and file if that is known, and otherwise the nameless dummy |
| Runs.Run | src/Log.cc:48-164 | after any calls in any order names, files, handlers and dummy are the fold's, every reply was the prescribed one, and what was ever filed is still filed or deleted, in the numbers the plans say |
| Runs.RunHandlers | src/Log.cc:138-154 | the registered handlers, however many, take the registry to the fold's state at exit; after an abort nothing changes |
| Runs.Process | src/Log.cc:48-164 | in every process all that the plans filed is deleted in the end, each once and with no appender running, exactly if a handler is registered and no init aborted, or nothing is filed any more; otherwise what the last plan reached is left alive; without a successful init nothing is ever deleted |
| Abort.InitPrinted | src/Log.cc:48-140 | on an empty registry, a printed configuration aborts, exits or registers a handler as its intended requests say, and files what they reach |
| Abort.AbortedRun | src/StrUtil.cc:201-202 | an init that finds no instance and one that then meets an unresolved path: a handler is registered, the process aborts, and one logger stays filed |
| Runs.NothingDeleted | src/Log.cc:129-140 | without a successful init whatever was filed is still planned |
| Runs.UnknownAfterDestroy | src/Log.cc:142-164 | after a destroy every name is unknown until the next init |
| Runs.DeletedCount | src/Log.cc:142-154 | destroying adds as many deleted objects as were filed |
| Runs.AnyTextIsReady | src/Log.cc:64-68 | every configuration text can be read: the prefix passed on is never blank |
| Runs.FitRunsAllowed | src/Log.cc:48-164 | in fit environments every run is covered that asks for no logger before an init |
| Sharing.SharedExactly | src/Log.cc:99-120 | two loggers hold the same appender object exactly when their canonical paths are equal |
| Sharing.OneAppenderPerFile | src/Log.cc:101-119 | the appenders are exactly the distinct files, each with the size of the first entry naming it |
| Sharing.SharedFile | src/StrUtil.cc:168-206 | canonical paths are equal exactly when the paths walk to the same directory entry |
| Sharing.SharedIffSameEntry | src/Log.cc:82-128 | in the registry built from a list of values, two loggers hold the same appender exactly when their path fields walk to the same directory entry |
| EndToEnd.TextReads | src/Conf.cc:20-39 | printed settings and instances come back under their keys |
| EndToEnd.ReadsIntended | src/Log.cc:89-120 | a printed tuple asks for exactly the intended logger, the level kept when in 0..100 and otherwise 100 |
| EndToEnd.ReadsPlainly | src/Log.cc:89-120 | the same field by field, with the file spelled out: below the prefix or anchored, `name.log` where the path names a directory |
| EndToEnd.RoundTrip | src/Log.cc:64-128 | init on a printed configuration reads exactly the intended requests, so that its outcome and, in failure too, what it carries out are theirs, under the settings of the first entries of their keys |
| EndToEnd.RoundTripSucceeds | src/Log.cc:64-128 | and succeeds exactly when names are distinct and paths resolve |
| Clock.ThreadTime.constructor | src/StrUtil.cc:242-249 | thread-local storage starts empty |
| Clock.ThreadTime.UpdateCurrentTm | src/StrUtil.cc:251-254 | takes the clock's time |
| Clock.ThreadTime.ClearCurrentTm | src/StrUtil.cc:255-258 | forgets the time and keeps the cached text |
| Clock.ThreadTime.TestSetCurrentTm | src/StrUtil.cc:259-265 | reads the clock only when no time is set |
| Clock.ThreadTime.RefreshStamp | src/StrUtil.cc:292-303 | the stamp is made anew exactly if the second changed |
| Clock.ThreadTime.GetTimeString | src/StrUtil.cc:288-307 | the buffer holds the step's text, truncated and terminated as `snprintf` does, and the full length is returned |
| Clock.ThreadTime.WriteLog | src/Log.cc:166-182 | the times seen while formatting and writing are those of `TimesSeen`, the newline is in bounds, and the time is cleared |
| Clock.SeenExactly | src/StrUtil.cc:259-265 | from the first reading with a non-zero second on, the one at entry included, every time seen is that reading; before it each is a reading of its own |
| Clock.OneTimeExactly | src/Log.cc:171-181 | one message shows one time exactly if the entry or the next reading has a non-zero second, or the later readings are all alike |
| Clock.AnswerExactly | src/StrUtil.cc:292-303 | one answer is right exactly when the second is not 0 or a stamp was made before |
| Clock.InvisibleOncePrimed | src/StrUtil.cc:288-307 | once a stamp was made, every later answer of every run is right, at second 0 too |
| Clock.CacheExactly | src/StrUtil.cc:251-307 | the answers of a run all equal formatting from scratch exactly when a stamp was there at the start, no text is asked for, or the first one is asked for at a non-zero second |
| Clock.ThreadExactly | src/StrUtil.cc:242-307 | the same for a new thread |
| Clock.FirstAtZero | src/StrUtil.cc:292-306 | the shortest run that fails: a new thread asking at second 0 is answered without a date |
| Clock.StampReads | src/StrUtil.cc:297-301 | year, month, day, hour, minute and second read back from their places in the stamp, whatever the year's width, and the separators stand between them |
| Clock.FullReads | src/StrUtil.cc:304-306 | six digits that read back as the microseconds follow the stamp |
| Clock.FitsExactly | src/StrUtil.cc:243-304 | text and terminator fit 32 bytes exactly for years of at most nine characters |
| Ids.IdStrings.GetPidStr | src/StrUtil.cc:342-353 | the first call prints the process id and registers the handler, later ones answer the stored text |
| Ids.IdStrings.GetTidStr | src/StrUtil.cc:355-363 | the first call prints and stores the thread id, later ones answer the stored text |
| Ids.IdStrings.ForkChild | src/StrUtil.cc:330-341 | in the child both texts are renewed exactly when the handler was registered |
| Ids.PidIsCurrent | src/StrUtil.cc:323-353 | in every run `GetPidStr` answers the current process |
| Ids.TidExactly | src/StrUtil.cc:323-363 | `GetTidStr` answers the current thread exactly when, at the last fork, the handler was registered or no id was cached |
| Ids.TidAfterHook | src/StrUtil.cc:342-363 | it does whenever `GetPidStr` ran before any fork that follows a `GetTidStr`, even if ids are reused |
| Ids.StaleTid | src/StrUtil.cc:355-363 | the shortest run with a stale answer |

## Left out
- What is inside `Formatter`, `FileAppender` and `AsyncFileAppender` is not part of this model: appenders are objects that are made, start, stop and are deleted, and keep the split size that `init` requested.
- `_realpath` with a caller's buffer and with a null name: never used by this code.
- Clock.ThreadTime.WriteLog: does not model the bytes the formatter writes nor who frees the message, because both are decided by the formatter and the appenders.
- Registry.CLogger.Init: does not model allocation failure, and reads the file once where the source opens it twice.
- Registry.Appender.constructor: keeps the requested split size, which `FileAppender` raises or lowers to its own limits (src/FileAppender.cc:42-50).
- Registry.Appender.Start: a flag stands for the open file or the worker thread.
- Registry.Appender.Stop: a flag and a count stand for the virtual `stop`; joining the worker thread is not modelled.
- Text.TrimRef: works on a value; the source also updates its argument, and every caller uses the argument and the result alike.
- Numerals.NumeralReads: outside the range of `int`, `atoi` is undefined in C; the model follows a 64-bit `long` cut to 32 bits.
- Locks of the registry: calls are run one after another; `init` takes no lock.
- HOME longer than an `int` can count: `strlen` is not truncated in the model.
- Changing a logger's level or name after `init`, the C wrapper, the atomic counters, `GetTimeStringForFileName`, messages on stderr: they would only add easy members.
- Two threads in one process calling `fork`: the source excludes it; runs are single-threaded.
