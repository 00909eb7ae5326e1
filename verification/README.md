# Chunk-and-process pipeline of the novel editor, in Dafny

This project models the core of `NovelEditorSystem` in `main.py`. The core is a
pipeline that validates a Markdown document, cuts it into windows of at most
`chunk_size` characters, and sends each window to a remote completer together with
a fixed system prompt. Each reply is appended to a result file. The model also
covers the menu loop and the guards of the processing task that sit in front of the
pipeline.

Modules:

- `Wrappers` (`wrappers.dfy`): `Option`, `Result`, and the Python exceptions the
  code raises (`RuntimeError`, `ValueError`, `OSError`, `AttributeError`), each with
  its message.
- `Chunker` (`chunker.dfy`): Python's `range(0, total, size)` and `content[i:i+size]`.
  It also holds the windows the chunk loop cuts. They are proved to be the unique
  partition of the content into pieces of `size` characters, of which only the last
  may be shorter.
- `Validation` (`validation.dfy`): Python's `str.strip()`, using the exact
  `str.isspace` character set, and `_load_user_content`.
- `Processor` (`processor.dfy`): the chunk loop of `_process_content`. It is written
  twice:
  - `ProcessContent`, a loop method that mirrors the source;
  - `ProcessSpec`, a declarative definition.
  The method is proved equal to `ProcessSpec` on every input.
- `ProcessorProperties` (`properties.dfy`): the guarantees of a run. These cover
  request order, the contents of the result file, fail-fast and progress.
- `Console` (`console.dfy`): `_execute_processing_task` and the `run` menu loop.

The completer (`ClassDeepSeekHand.process_request`) is a parameter
`complete: (nat, Request) -> Reply`. The `nat` is the number of calls made before
this one in the run, so the same request may get different answers at different
times. A reply is either processed text or one of three failure classes:

- `ConnectionError`;
- `ValueError`, which the client raises when the response has no usable choice;
- any other exception.

A run is observed as a `Run` value with four parts:

- the requests sent, in order;
- the text written to the result file;
- the progress values computed;
- the exception the run ended with, if any.

Progress is an exact `real`.

Behaviour of the code worth knowing:

- The code writes no header and no separator. Each section is the reply text
  followed by `"\n\n"`.
- Chunking is by characters: a window is a slice of the string, not of its encoded
  bytes.
- A zero chunk size is not checked in advance. Python's `range` raises
  `ValueError` after the result file has already been opened and truncated. A
  negative chunk size gives an empty range, so no call is made and no error is
  raised.
- An empty document never reaches the chunk loop, because `_load_user_content`
  rejects it.
- The re-raised `RuntimeError` carries the class prefix and the failure's text only;
  which window failed is not part of the message.
- As written, the guard on `main.py` line 108 returns whenever the profile table has
  at most one entry. The table `main.py` lines 19-21 describe has exactly one entry, so the
  task never reaches the prompt file or the chunk loop. The model keeps this
  behaviour and proves it (`Console.ShippedTaskNeverProcesses`,
  `Console.ShippedSessionNeverProcesses`).
- As written, `__init__` fails before that table exists: line 15 calls
  `_init_logger`, which reads `self.base_dir` on line 28, one statement before line 17
  assigns it. The model starts from a constructed object (see "## Left out").
- An unknown menu choice calls `self.logger.warnning`, which does not exist. The
  resulting `AttributeError` leaves the `run` loop, so the session ends instead of
  showing the menu again. The model keeps this too (`Console.SessionEnding`).

## Model

| member | source | states |
|---|---|---|
| Chunker.Range | main.py:184 | `range(0, stop, step)` raises `ValueError` exactly for a zero step. A negative step gives nothing. A positive step gives ceil(stop/step) offsets, the k-th being `k*step` and all below `stop`. |
| Chunker.RangeFromShape | main.py:184 | Stepping from `start` by `step` while below `stop` visits ceil((stop-start)/step) offsets, the k-th being `start + k*step`. |
| Chunker.Slice | main.py:185 | Python slicing `s[i:j]`: in-range bounds give `s[i..j]`, an upper bound past the end is clipped, and a start at or past the end gives the empty string. |
| Chunker.Windows | main.py:184-185 | The windows the loop cuts: one slice `content[i:i+size]` for each offset `i` of the stepped range, in offset order. What this means is proved by `Chunker.WindowsShape`, `Chunker.WindowsReassemble` and `Chunker.PartitionUnique`. |
| Chunker.WindowsFollowRange | main.py:184-185 | The windows are cut at exactly the offsets `range(0, len(content), size)` yields: one window per offset, in the same order. |
| Chunker.WindowsAreSlices | main.py:184-185 | Every window, at every index k, is the slice `content[k*size : k*size+size]` at an offset inside the content. |
| Chunker.WindowsShape | main.py:184-185 | There are ceil(len/size) windows. Window k is `content[k*size .. min(k*size+size, len)]`. Every window is non-empty and at most `size` long. Every window but the last is exactly `size` long. |
| Chunker.WindowVisited | main.py:184 | Offset `k*size` is visited exactly when it lies inside the content. |
| Chunker.WindowsReassemble | main.py:181-185 | Concatenating the windows in order gives back the content exactly. |
| Chunker.PartitionUnique | main.py:184-185 | A sequence of pieces concatenates to the content, with every piece non-empty and at most `size` long and only the last shorter, if and only if it is the sequence of windows. |
| Validation.HasHeadingIff | main.py:165 | `content.strip().startswith("#")` holds exactly when the first non-whitespace character of the content is `#`. |
| Validation.IsSpace | main.py:89 | The characters `str.isspace()` accepts, and so `str.strip()` removes. These are the ASCII whitespace and separators `\t`..`\r` and `\x1c`..`\x1f`, the space, U+0085, U+00A0, U+1680, U+2000..U+200A, U+2028, U+2029, U+202F, U+205F and U+3000. |
| Validation.Strip | main.py:89 | `str.strip()`. Its parts `TrimLeft` and `TrimRight` ensure that what is removed is whitespace, that the result is a contiguous slice of the input, and that the result neither starts nor ends with whitespace. |
| Validation.HasHeading | main.py:165 | The format check `content.strip().startswith("#")`. `Validation.HasHeadingIff` proves it holds exactly when the first non-whitespace character is `#`. |
| Validation.StripIgnoresPadding | main.py:89 | Whitespace before and after a text does not change what `strip()` returns. |
| Validation.LoadUserContent | main.py:156-169 | A missing data file gives `RuntimeError("未找到输入文件: data/data_MAIN_Info.md")`. Other read errors propagate. Empty content gives `ValueError("输入文件为空")`. Content without a heading gives `ValueError("文件格式不正确，可能缺少标题")`. Anything else is returned unmodified. |
| Validation.LoadAcceptsIff | main.py:162-167 | Content is accepted exactly when its first non-whitespace character is `#`. Accepted content is returned unchanged and is never empty. Whitespace-only content is rejected as lacking a heading. |
| Processor.FailureMessageRoundTrip | main.py:186-193 | The `RuntimeError` message determines the failure: its prefix gives the class (`网络连接失败: `, `API 返回无效数据: `, `未知错误: `) and the rest is the original text. |
| Processor.FailureMessage | main.py:188-193 | The message of the `RuntimeError` a failed call is re-raised as: `网络连接失败: `, `API 返回无效数据: ` or `未知错误: ` by the failure's class, then its text. `Processor.FailureMessageRoundTrip` proves the message determines the failure, and `ProcessorProperties.FailFast` proves a failed run ends with it. |
| Processor.SectionsPrefix | main.py:183-195 | The result file only grows: what was written after the first j sections is a prefix of what is written after all of them. |
| Processor.SectionsConcat | main.py:195 | The text written to the result file is exactly the in-order concatenation of `text + "\n\n"` over the processed texts. |
| Processor.Sections | main.py:195 | The text the loop writes for a list of processed replies: each reply's text followed by `"\n\n"`, appended in order. `Processor.SectionsConcat` and `Processor.SectionsPrefix` prove its meaning. |
| Processor.FirstFailure | main.py:184-193 | Returns the index of the first failed reply, or the number of replies when none failed. Every reply before it succeeded. |
| Processor.Progress | main.py:196 | `min((i + chunk_size) / total_chars * 100, 100)` as an exact ratio. `Processor.ProgressBounds` and `Processor.ProgressMonotone` prove its range and order. |
| Processor.ProgressBounds | main.py:196 | After an offset inside the content, `min((i+size)/total*100, 100)` lies in (0, 100]. It equals 100 exactly when `i + size >= total`. |
| Processor.ProgressMonotone | main.py:196 | Progress never decreases as the offset grows. |
| Processor.ProcessSpec | main.py:178-197 | The run `_process_content` produces, stated as a definition and not as a loop. A zero chunk size gives `range`'s `ValueError`, a negative one an empty run. Otherwise every window is requested up to and including the first failed call, with the sections and progress of the windows before it. The `ProcessorProperties` lemmas prove what it guarantees, and `Processor.ProcessContent` is proved equal to it. |
| Processor.ProcessContent | main.py:178-197 | The loop as written produces, on every input and completer, the run `ProcessSpec` describes. |
| ProcessorProperties.RequestsInOrder | main.py:184-187 | Requests go out in increasing offset order, at most ceil(len/size) of them. Request k carries the same system prompt and the slice `content[k*size : k*size+size]`. No offset is skipped or repeated. |
| ProcessorProperties.CompletedRun | main.py:183-195 | A run ends without an exception if and only if every window's call succeeds. Then every window was requested and one progress value was computed per window. The text written to the result file is exactly the replies in window order, each followed by `"\n\n"`. |
| ProcessorProperties.FailFast | main.py:186-195 | When the call on window k is the first to fail, exactly k+1 windows were requested and k progress values were computed. The text written to the result file is exactly the sections of windows 0..k-1. The run ends with a `RuntimeError` whose message is the prefix for the failure's class followed by its text. |
| ProcessorProperties.ProgressOfRun | main.py:184-196 | Every progress value of a run lies in (0, 100]. The values never decrease. A value is 100 exactly when it belongs to the last window. |
| ProcessorProperties.NonPositiveChunkSize | main.py:180-184 | With a chunk size of at most 0, no request is made and nothing is written. A size of 0 ends the run with `ValueError("range() arg 3 must not be zero")`, the error `range` raises. A negative size gives an empty range and ends the run without an exception. |
| Console.ExecuteTask | main.py:103-153 | A table of at most one profile returns at the first guard. The chunk loop runs if and only if all of these hold: the table has more than one profile, profile 1 exists with a prompt path, that path names a readable regular file, and the data file loads. The run is then the declarative run for that content, prompt and chunk size, and its exception is caught. |
| Console.InitialProfiles | main.py:19-21 | The profile table `main.py` lines 19-21 describe: one entry, under key 1, with a prompt path in the `text` directory and a chunk size of 60. `Console.ShippedTaskNeverProcesses` and `Console.ShippedSessionNeverProcesses` prove what it implies. |
| Console.ShippedTaskNeverProcesses | main.py:108-110 | With the single profile the table `main.py` lines 19-21 describes, the processing task always stops at the first guard. |
| Console.Dispatch | main.py:89-97 | After `strip()`, the line `"0"` quits, `"1"` runs the processing task, and anything else is an unknown choice. `Console.DispatchIgnoresPadding` proves that padding does not change the choice, and `Console.SessionTasks` and `Console.SessionEnding` prove what each choice does to the session. |
| Console.DispatchIgnoresPadding | main.py:89 | Whitespace typed around a menu choice does not change the choice. |
| Console.TaskRun | main.py:86-97 | Counts the leading menu choices that run the processing task. The choice after them is not "1". |
| Console.RunSession | main.py:84-101 | The `run` loop over the lines typed at the menu. The j-th run of the processing task sees its own files and completer (`envs(j)`). `Console.SessionTasks` and `Console.SessionEnding` prove its shape. |
| Console.SessionTasks | main.py:86-97 | The loop runs the processing task exactly once for each leading `"1"`. The j-th run is the processing task on the unchanged profile table and on the files and completer present at that moment (`envs(j)`). |
| Console.SessionEnding | main.py:89-101 | After the leading `"1"`s the session ends on `"0"`, crashes with the `AttributeError` of the misspelt logger call on any other choice, or ends with the input. |
| Console.ShippedSessionNeverProcesses | main.py:96-110 | With the shipped profile table, every task a session runs stops at the first guard, so no window is ever sent. |

## Left out

- Construction of `NovelEditorSystem`: the model starts from a constructed object
  whose profile table is the one `main.py` lines 19-21 describe. As written,
  `__init__` cannot get that far: line 15 calls `_init_logger`, which reads
  `self.base_dir` on line 28, but `base_dir` is only assigned on line 17. So
  `NovelEditorSystem()` on line 230 raises `AttributeError`, which line 236 catches
  and prints, and `run` is never reached from `__main__`.
- Logger and directory setup (`main.py` lines 23-63), console printing, and the
  `:.1f` formatting of progress. These are I/O; progress is kept as an exact ratio.
- Floating point: progress is modelled with exact rationals, so rounding of the
  Python float is not modelled.
- The timestamped result path (`main.py` lines 171-176). It depends on the wall
  clock and is never empty, so the `if not result_path` branch cannot fire.
- The first-run key prompt in `__main__`, and `safe_load_file` and `safe_call`
  (`main.py` lines 200-237). These are console and file I/O wrappers that the core
  does not use.
- `mode/mode_DPSK_Apic.py`: API key loading, the connection test and the HTTP call.
  They are replaced by the completer parameter. Which exception class the real SDK
  raises for a network fault decides which prefix is used. The model takes the
  class as given by the completer.
- A reply whose message content is `None`: Python would write `"None\n\n"`. The model
  gives processed replies as strings.
- `Console.ExecuteTask`: the environment (files, data file, completer) is fixed for
  the duration of one run of the processing task. A result directory that cannot be
  opened for writing is not modelled.
- `Console.RunSession`: the end of input is modelled as a plain ending, without the
  `EOFError` text.
- The completer is assumed to return. A request that blocks forever (the client sets
  no timeout) and exceptions outside `Exception`, such as `KeyboardInterrupt` during
  the call, are not modelled. Such an exception would pass the `except` clauses on
  `main.py` lines 188-193 without being wrapped in a `RuntimeError`.
- `Run.written` is the text handed to `write` on `main.py` line 195, not the bytes on
  disk. The file is opened in text mode, so on Windows every `"\n"` is written as
  `"\r\n"`; that translation is not modelled. A `write` that fails is not modelled
  either: it would end the run with an unwrapped `OSError`, since line 195 lies outside
  the `try` on lines 186-193.
- `Validation.LoadUserContent`: the data path is the POSIX form
  `data/data_MAIN_Info.md`. On Windows, `os.path.join` gives `data\data_MAIN_Info.md`,
  and the missing-file message changes with it.
- `Console.ExecuteTask`: a prompt file that is not valid UTF-8 raises
  `UnicodeDecodeError`. That is not an `IOError`, so line 152 catches it, not line 120.
  The model reports both cases as `PromptUnreadable`, since each ends with a console
  message and a return to the menu.
- The `if not content` check after loading (`main.py` line 127) is not a separate
  branch, because `Validation.LoadAcceptsIff` shows that loaded content is never
  empty.
