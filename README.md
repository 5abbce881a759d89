# nrvna's filesystem job queue, modelled in Dafny

nrvna runs language-model jobs through a workspace of directories. A job is a
file `<id>.txt`, sometimes with a sidecar `<id>.meta` holding `email=<address>`.
It moves `input/writing/` → `input/ready/` → `processing/` → `output/` or
`failed/`. Every step except writing the answer into `output/` is a rename, so
a reader never sees a half-written job before it reaches `output/`.

- The submitter (`Work`) writes to `writing/` and publishes with renames. It
  builds ids `job<pid>_<micros>_<counter>` from a per-process counter.
- The scheduler (`Monitor`) has a scanning thread that claims ready jobs into
  `processing/` and queues their ids. Worker threads take ids first in, first
  out and run `processJob`, which writes `output/<id>.txt` or moves the job to
  `failed/`. A single-shot `process()` claims and runs jobs in one pass.
- The retriever (`Flow`) reads `output/<id>.txt`. It finds the "latest" job by
  the clock reading inside the id.
- The HTTP receiver reads a request, form-decodes and trims a `POST /wrk`
  body, submits it, and picks the reply.
- The runner wraps content in a prompt. It computes the context budget and
  generates text through an opaque model library.

The workspace is a `Disk` value (`fs.dfy`): a map from (directory, name) to a
regular file's text or a non-regular entry, plus the set of directories that
exist. A `FileSystem` object holds it. Its `Rename`, `Write` and
`CreateDirectory` may fail at any call: the environment picks the outcome.
Each state-changing method returns the environment's choices as ghost outcome
records. Its `ensures` gives the new state as a function of the old state and
those outcomes (`Submission`, `ClaimEntry`, `ProcessJob`, `ProcessOnce`, …).
Lemmas then prove what the program promises about those functions, for every
outcome. A directory listing is a sequence of names passed in as a parameter,
in any order. A missing directory is listed as nothing.

Files:

| file | contents |
|---|---|
| `text.dfy` | decimal printing, `std::string::find`, `std::getline` spans, and `std::stoi` in base 10 and base 16 and `std::stoull` with their exceptions as `None` |
| `fs.dfy` | the disk, the file-system object, file-name helpers |
| `jobids.dfy` | the id format and the generator with its static 64-bit counter |
| `work.dfy` | `Work::submit` |
| `runner.dfy` | `Runner::run` and `formatPrompt`, with the model library as oracles |
| `monitor_spec.dfy` | the scheduler's rules as functions of the disk |
| `monitor.dfy` | the `Monitor` object, whose threads are sequential steps |
| `flow.dfy` | `Flow::retrieve` and `findLatestJobId` |
| `messages.dfy` | request completeness and the wire form of the replies |
| `http.dfy` | `urlDecode`, the receive loop, routing and `handleRequest` |
| `pipeline.dfy` | end-to-end properties across components |

## Model

| member | source | states |
|---|---|---|
| Text.Decimal | src/work.cpp:94 | a number printed by a string stream is a non-empty run of decimal digits |
| Text.DecimalValue | src/work.cpp:94 | the digits printed for `n` have the value `n` |
| Text.DecimalInjective | src/work.cpp:94 | distinct numbers print as distinct strings |
| Text.Find | src/http_receiver.cpp:126 | `find` returns the first occurrence at or after the start, and None only when there is none |
| Text.FindChar | src/flow.cpp:36-37 | `find(c, from)` returns the first position of `c` at or after `from`, or none |
| Text.FindAtStart | src/http_receiver.cpp:157 | `find(p) == 0` holds exactly when the string starts with `p` |
| Text.ConcatAppend | src/runner.cpp:87 | appending pieces one after another gives the concatenation of both runs |
| Text.Span | src/monitor.cpp:231 | the line `getline` reads is the longest newline-free prefix, stopping just before the first newline |
| Text.Stoi | src/http_receiver.cpp:133 | a value `std::stoi` returns lies in the 32-bit range |
| Text.HexPair | src/http_receiver.cpp:28 | `std::stoi(two chars, 16)` yields a value in -15..255, and throws exactly when no hexadecimal digit can be read after optional space or sign |
| Text.Stoull | src/flow.cpp:43 | a value `std::stoull` returns is below 2^64 |
| Text.StoullDecimal | src/flow.cpp:43 | a printed 64-bit number reads back through `std::stoull` as itself |
| Text.StoiDecimal | src/http_receiver.cpp:133 | a printed non-negative 32-bit number reads back through `std::stoi` as itself |
| Text.HexPairValue | src/http_receiver.cpp:28 | two hexadecimal digits of a byte read back as that byte |
| Fs.Disk.Content | src/monitor.cpp:166-172 | a path can be read exactly when it is a regular file |
| Fs.Disk.Renamed | src/monitor.cpp:97 | after a rename the destination holds the source's entry, the source is gone, and every other path and the directories are unchanged |
| Fs.Disk.Written | src/monitor.cpp:182-187 | after a write the path holds exactly the text, and nothing else changes |
| Fs.Disk.Removed | src/monitor.cpp:196 | after a remove the path is absent, and nothing else changes |
| Fs.TryRename | src/monitor.cpp:97 | a rename goes through exactly when the environment allows it, the source exists and the target's directory exists; otherwise the disk is unchanged |
| Fs.TryWrite | src/work.cpp:35-41 | a write goes through exactly when allowed, the directory exists and the path is not a non-regular entry; otherwise nothing changes |
| Fs.RenamedOutside | src/monitor.cpp:97 | a rename between two directories leaves every other directory's files as they were |
| Fs.WrittenOutside | src/monitor.cpp:182-187 | a write leaves every other directory's files as they were |
| Fs.RemovedOutside | src/monitor.cpp:196 | a remove leaves every other directory's files as they were |
| Fs.TxtNameStem | src/monitor.cpp:83-88 | `<id>.txt` passes the `.txt` filter and its stem is `id` |
| Fs.MetaNameNotTxt | src/monitor.cpp:83 | a sidecar `<id>.meta` never passes the `.txt` filter, so it is never claimed as a job |
| Fs.FileSystem.Read | src/monitor.cpp:166-173 | reading returns the file's text, or nothing when it is not a regular file |
| Fs.FileSystem.Write | src/work.cpp:35-41 | the new disk and result are those of `TryWrite` for the outcome the environment chose |
| Fs.FileSystem.Rename | src/monitor.cpp:97 | the new disk and result are those of `TryRename` for the outcome the environment chose |
| Fs.FileSystem.Remove | src/monitor.cpp:196-199 | the path is removed and nothing else changes |
| Fs.FileSystem.CreateDirectory | src/monitor.cpp:310-314 | files are untouched, directories only grow, and success means the directory now exists |
| JobIds.DecimalNoUnderscore | src/work.cpp:94 | printed numbers contain no underscore, so the id's two underscores are its separators |
| JobIds.JobIdInjective | src/work.cpp:93-94 | distinct (pid, clock reading, counter) triples give distinct ids |
| JobIds.CounterStep | src/work.cpp:92 | one more call moves the counter by one modulo 2^64 |
| JobIds.FreshId | src/work.cpp:89-92 | while fewer than 2^64 ids have been issued, the next counter value gives an id not issued before |
| JobIds.IdGenerator.constructor | src/work.cpp:89 | the counter starts at 0 with nothing issued |
| JobIds.IdGenerator.Next | src/work.cpp:88-96 | the id is `job<pid>_<now>_<counter>`, the counter wraps at 2^64, and the first 2^64 ids of a process are pairwise distinct |
| Submitter.SubmissionEmpty | src/work.cpp:29 | empty content returns "" and changes nothing |
| Submitter.SubmissionWriteFails | src/work.cpp:35-39 | when the staging file cannot be created, submit returns "" and changes nothing |
| Submitter.SubmissionPublishes | src/work.cpp:28-77 | success returns the id, `ready/<id>.txt` holds the content, nothing stays in `writing/`; with an email `ready/<id>.meta` holds `email=<email>\n`, without one no sidecar appears |
| Submitter.SubmissionRollsBack | src/work.cpp:55-74 | failure leaves neither staged file, and `ready/<id>.txt` is as before or published with the content |
| Submitter.SubmissionPublishedDespiteFailure | src/work.cpp:44-74 | when the sidecar cannot be created, submit reports failure although `ready/<id>.txt` is published |
| Submitter.SubmissionFrame | src/work.cpp:28-77 | a submission touches only the four paths of its own job and no directory |
| Submitter.Work.constructor | src/work.cpp:79-86 | `setupDirectories` adds only `writing/` and `ready/`, in that order, changes no file, and is a no-op when both exist |
| Submitter.Work.Submit | src/work.cpp:24-26 | `submit(content)` is `submit(content, "")`, with a fresh id from the generator |
| Submitter.Work.SubmitWithEmail | src/work.cpp:28-77 | the new disk and result are `Submission` for the generated id; the counter moves only for non-empty content |
| Submitter.Work.Discard | src/work.cpp:68-72 | the rollback removes the staged text and, with an email, the staged sidecar |
| Runner.FormatPromptFraming | src/runner.cpp:97-99 | the prompt is the user tag, the content and the assistant tag, in that order |
| Runner.FormatPromptInjective | src/runner.cpp:97-99 | distinct contents give distinct prompts |
| Runner.ContextBudget | src/runner.cpp:52-59 | `n_predict` is 1500 when the prompt fits with the margin, else 1948 − `n_prompt`; the run gives up exactly when `n_prompt` exceeds 1748; the context never exceeds 2048 |
| Runner.PiecesFromSteps | src/runner.cpp:80-89 | the loop appends at most `n_predict` pieces, each from a decode that succeeded and a token that was not end-of-generation, and stops only on a failed decode, an end token or the bound |
| Runner.Generate | src/runner.cpp:77-94 | the loop's output is the concatenation of the pieces the generation rule yields |
| Runner.Run | src/runner.cpp:40-95 | `run` returns the `Inference` of the content |
| Runner.InferenceGivesUp | src/runner.cpp:44-58 | a prompt counted as at most 0 tokens, or more than 1748, yields "" |
| Runner.InferenceWithinBudget | src/runner.cpp:52-89 | whenever a run yields text, its context fits in 2048 tokens with `n_predict` ≥ 200, and the answer has at most `n_predict` pieces |
| MonitorSpec.FirstEmail | src/monitor.cpp:231-236 | the text after `email=` on the first line that starts with it, or "" when no line does |
| MonitorSpec.LinesAt | src/monitor.cpp:231 | `getline` at a position yields the text up to the next newline, then continues after it |
| MonitorSpec.EmailFromStep | src/monitor.cpp:231-235 | a matching line ends the search with its text after `email=`; any other line passes the search to the next |
| MonitorSpec.ClaimEntrySkips | src/monitor.cpp:83-85 | an entry that is not a regular `.txt` file is skipped with no change |
| MonitorSpec.ClaimEntryReports | src/monitor.cpp:96-107 | an id is queued exactly when the text rename went through and the sidecar, if present, moved too; the id is the entry's stem |
| MonitorSpec.ClaimEntryMoves | src/monitor.cpp:97-102 | a claim moves the text to `processing/` and, when present, the sidecar; a failed text rename changes nothing |
| MonitorSpec.ClaimEntryStrandsText | src/monitor.cpp:97-114 | a failed sidecar rename leaves the text in `processing/` with no id queued |
| MonitorSpec.ClaimAllInListingOrder | src/monitor.cpp:82-115 | the ids queued by a scan appear in listing order, each the stem of a listed `.txt` |
| MonitorSpec.ClaimAllKeepsProcessing | src/monitor.cpp:82-115 | a scan never changes `writing/`, `output/` or `failed/` or the directories, and removes nothing from `processing/` |
| MonitorSpec.ClaimAllClaimed | src/monitor.cpp:82-115 | every id a scan queues has its text in `processing/` when the scan ends |
| MonitorSpec.ClaimAllSnoc | src/monitor.cpp:82-115 | scanning one more entry claims it on the disk the earlier entries left |
| MonitorSpec.ReadyStemsAgree | src/monitor.cpp:296-306 | `findJobs` depends only on which listed names are ready jobs |
| MonitorSpec.ScanEnqueuesFoundJobs | src/monitor.cpp:82-107 | when every rename goes through and names are distinct, a scan queues exactly the ids `findJobs` lists, in the same order |
| MonitorSpec.ProcessJobResult | src/monitor.cpp:158-201 | `processJob` returns true exactly when its text was readable, the answer non-empty and the output writable; then `output/<id>.txt` holds the answer; either way both processing files are gone |
| MonitorSpec.ProcessJobFailure | src/monitor.cpp:203-216 | on failure the output path is as it was, and the text is in `failed/` whenever that move can go through |
| MonitorSpec.ProcessJobFrame | src/monitor.cpp:158-218 | `processJob` touches only the job's processing, output and failed paths, and no directory |
| MonitorSpec.ProcessJobKeepsInputs | src/monitor.cpp:158-218 | `processJob` never changes `writing/` or `ready/` |
| MonitorSpec.ProcessJobsSnoc | src/monitor.cpp:145-152 | running one more job acts on the disk the earlier jobs left |
| MonitorSpec.ProcessJobsKeepInputs | src/monitor.cpp:145-152 | any run of `processJob` calls leaves `writing/` and `ready/` unchanged |
| MonitorSpec.ProcessEntriesStep | src/monitor.cpp:278-286 | one more entry of `process()` claims and runs it on the disk the earlier entries left, and counts it exactly when `processJob` returned true |
| MonitorSpec.ProcessEntryReadyJobs | src/monitor.cpp:278-286 | an entry never adds a ready job, and a counted entry used up its own ready job |
| MonitorSpec.ProcessEntriesBound | src/monitor.cpp:264-290 | the count plus the ready jobs remaining never exceeds the ready jobs at the start |
| MonitorSpec.ProcessOnceBound | src/monitor.cpp:256-294 | `process()` changes nothing and returns 0 without runners; its count never exceeds the ready `.txt` files |
| MonitorSpec.WakeupRule | src/monitor.cpp:133-142 | a worker leaves the wait only when stopped or when work is queued, and exits only when stopped with an empty queue |
| MonitorSpec.ServedInOrder | src/monitor.cpp:139-142 | successive wake-ups receive the queued ids first in, first out, none skipped and none twice |
| Monitor.LineEnd | src/monitor.cpp:231 | the next newline at or after the position, or the end of the text |
| Monitor.GetLine | src/monitor.cpp:231 | each `getline` call yields the next line of the text and the position after it |
| Monitor.ScanEmail | src/monitor.cpp:230-236 | the line loop returns the email of the first `email=` line, as `EmailIn` defines it |
| Monitor.Monitor.constructor | src/monitor.cpp:13-15 | a new monitor is not running and has no runners, workers or queued jobs |
| Monitor.Monitor.Setup | src/monitor.cpp:308-320 | creates only the five workspace directories; reports success exactly when all exist; a no-op when they already exist |
| Monitor.Monitor.Start | src/monitor.cpp:21-36 | refuses with no change when runners exist or it runs; otherwise succeeds exactly when the directories exist and the model loads, with one runner per worker; files are untouched and the only directories it may create are the five of the workspace |
| Monitor.Monitor.Run | src/monitor.cpp:58-72 | a no-op when running, when workers exist or with no runners; otherwise raises the flag and starts one worker per runner |
| Monitor.Monitor.Claim | src/monitor.cpp:87-107 | the claim block's disk and queued id are `ClaimEntry` for the outcomes the environment chose |
| Monitor.Monitor.MonitorPass | src/monitor.cpp:74-123 | while running, a pass claims the listing and appends the claimed ids to the queue; stopped, it changes nothing |
| Monitor.Monitor.ReadEmailFromMeta | src/monitor.cpp:220-237 | the email of the sidecar's first `email=` line, or "" when the sidecar is missing or unreadable |
| Monitor.Monitor.ProcessJob | src/monitor.cpp:158-218 | the disk and result are `ProcessJob` of the old disk for the outcomes the environment chose |
| Monitor.Monitor.MoveToFailed | src/monitor.cpp:204-215 | the text moves to `failed/` or is deleted, and the sidecar is removed |
| Monitor.Monitor.WorkerStep | src/monitor.cpp:125-156 | one worker transition: at the loop test it waits or exits by the flag; in the wait it follows the wake-up rule, popping the front id and running it |
| Monitor.Monitor.JoinWorker | src/monitor.cpp:47-51 | joining a stopped worker runs it to exit, taking at most the front queued id and running it to completion |
| Monitor.Monitor.Stop | src/monitor.cpp:38-56 | ends not running with no workers and no runners; the jobs run meanwhile are a prefix of the queue, at most one per worker, and the rest stays queued |
| Monitor.Monitor.Process | src/monitor.cpp:256-294 | the disk and count are `ProcessOnce` of the old disk and the listing |
| Monitor.Monitor.ProcessEntry | src/monitor.cpp:269-289 | one entry of `process()` is `ProcessEntry` of the old disk |
| Monitor.Monitor.FindJobs | src/monitor.cpp:296-306 | the stems of the listed regular `.txt` files of `ready/`, in listing order |
| Flow.Retrieved | src/flow.cpp:14-20 | the result carries the requested id and the full text of `output/<id>.txt`, or "" when that is not a readable file |
| Flow.LatestFromBound | src/flow.cpp:44-47 | the scan ends with a reading no entry exceeds, and keeps its start when nothing is strictly greater |
| Flow.LatestFromWitness | src/flow.cpp:44-47 | a raised reading belongs to the first entry that carries it |
| Flow.LatestJobIdIsLatest | src/flow.cpp:27-55 | "" exactly when no candidate has a positive reading; otherwise the first entry with the greatest reading wins |
| Flow.TimestampedStem | src/flow.cpp:35 | a stem with a reading is non-empty, so a found latest id is never "" |
| Flow.TimestampOfJobId | src/flow.cpp:35-43 | the reading parsed from a generated id is the clock reading it was made with |
| Flow.TimestampBetween | src/flow.cpp:36-43 | text of the id shape with digits between its first two underscores reads as those digits |
| Flow.LatestOfTwo | src/flow.cpp:44-47 | of two published jobs from one process, the later clock reading is the latest |
| Flow.LatestIsNumericNotLexicographic | src/flow.cpp:43-47 | `job1_10_1` beats `job1_9_0`, because readings compare as numbers |
| Flow.SampleIdsSortReversed | src/flow.cpp:43 | as strings the same two ids sort the other way |
| Flow.Flow.constructor | src/flow.cpp:12 | the retriever reads the given workspace |
| Flow.Flow.Retrieve | src/flow.cpp:14-20 | `retrieve(id)` is `Retrieved` on the current disk |
| Flow.Flow.FindLatestJobId | src/flow.cpp:27-55 | the loop keeps the first strictly greatest reading, giving `LatestJobId` |
| Flow.Flow.RetrieveLatest | src/flow.cpp:22-25 | `retrieve()` is `retrieve(findLatestJobId())` |
| HttpMessages.DeclaredLength | src/http_receiver.cpp:129-133 | a declared length read by `std::stoi` lies in the 32-bit range |
| HttpMessages.MessageBody | src/http_receiver.cpp:158-161 | the body is a suffix of the request: everything after the first empty line |
| HttpMessages.ResponseFor | src/http_receiver.cpp:184-205 | the corrected replies keep each status, type and body and declare the body's true length |
| HttpMessages.SerializedHeaderEnd | src/http_receiver.cpp:184-188 | a reply's first empty line ends its header block, so its body reads back unchanged |
| HttpMessages.SerializedLength | src/http_receiver.cpp:129-133 | the receiving rule reads a reply's `Content-Length` back as the number written |
| HttpMessages.SerializedProgress | src/http_receiver.cpp:136-144 | a reply is complete by the receiving rule exactly when its body is as long as it declares |
| HttpMessages.RepliesWellFormed | src/http_receiver.cpp:184-205 | the three fixed replies have plain header lines |
| HttpMessages.AsWrittenLengthsWrong | src/http_receiver.cpp:184-205 | each fixed reply as written declares a length other than its body's; the 200 and 400 replies never complete |
| HttpMessages.RepliesFramed | src/http_receiver.cpp:184-205 | each corrected reply declares its body's length, is complete, and its body reads back unchanged |
| Http.ByteChar | src/http_receiver.cpp:29 | `static_cast<char>` keeps the low byte |
| Http.UrlDecode | src/http_receiver.cpp:22-36 | the loop's result is `UrlDecoded` of its input, None for an escape `std::stoi` throws on |
| Http.UrlDecodedShorter | src/http_receiver.cpp:22-36 | decoding never lengthens the text |
| Http.UrlDecodedPlain | src/http_receiver.cpp:22-36 | text without `+` and `%` decodes to itself |
| Http.UrlDecodedKept | src/http_receiver.cpp:31-33 | any other character is copied |
| Http.UrlDecodedPlus | src/http_receiver.cpp:25-26 | `+` becomes a space |
| Http.PercentDecodes | src/http_receiver.cpp:27-30 | an escape `%XY` becomes the byte `std::stoi` reads from `XY`, and both are consumed |
| Http.UrlDecodedTrailingPercent | src/http_receiver.cpp:27 | a `%` in one of the last two positions is copied |
| Http.UrlDecodeThrows | src/http_receiver.cpp:28 | an escape without a hexadecimal digit throws |
| Http.UrlDecodeFormEncoded | src/http_receiver.cpp:22-36 | decoding undoes a browser's form encoding of byte text |
| Http.Trimmed | src/http_receiver.cpp:170-172 | trimming drops exactly the trailing run of `\n`, `\r` and `\0`: the result never ends in one |
| Http.TrimmedAppend | src/http_receiver.cpp:170-172 | trimming text that does not end in a line end, after line ends are appended, gives back that text |
| Http.TrimmedIdempotent | src/http_receiver.cpp:170-172 | trimming twice is trimming once |
| Http.TrimTrailing | src/http_receiver.cpp:170-172 | the `pop_back` loop computes `Trimmed` |
| Http.InspectRequest | src/http_receiver.cpp:126-144 | the checks after each `recv` compute the completeness rule `ReadProgress` |
| Http.ReceiveRequest | src/http_receiver.cpp:118-149 | the receive loop computes `Gather` of the received data |
| Http.GatherStops | src/http_receiver.cpp:118-149 | the request read is the data of the first calls, read while incomplete and within 16384 bytes, up to a closed connection, a complete request or the limit; it fails exactly when the last call made the declared length unreadable |
| Http.GatherBound | src/http_receiver.cpp:119-148 | a request read is at most 16384 + 4095 bytes |
| Http.RouteRequest | src/http_receiver.cpp:157-172 | the handler's routing, body extraction, decoding and trimming compute `RouteOf` |
| Http.FormPostCarries | src/http_receiver.cpp:157-172 | a `content=` form post of byte text without trailing line ends carries that text exactly |
| Http.RawPostCarries | src/http_receiver.cpp:157-172 | a body without `content=` at its start is taken as it is, trimmed |
| Http.RouteByRequestLine | src/http_receiver.cpp:157-224 | the form is served exactly for `GET /wrk`, and requests starting with neither line get nothing |
| Http.OutcomeReplies | src/http_receiver.cpp:174-206 | 200 exactly when content was submitted and `submit` returned an id, 500 when it returned "", 400 for empty content; nothing is sent otherwise |
| Http.HttpReceiver.constructor | src/http_receiver.cpp:38-40 | the receiver submits into the given workspace |
| Http.HttpReceiver.HandleRequest | src/http_receiver.cpp:111-225 | the reply follows `Outcome` and the bytes sent are that reply's response as the code writes it, with the declared lengths 15, 12 and 15; a non-empty post is `Submission` of its content on the prepared disk, and any other request changes nothing |
| Pipeline.SidecarFirstLine | src/work.cpp:48 | the sidecar's first line is `email=` and the email up to its first newline |
| Pipeline.SidecarEmailRead | src/monitor.cpp:231-233 | reading a written sidecar yields the email up to its first newline |
| Pipeline.SidecarRoundTrip | src/monitor.cpp:220-237 | an email without a newline, written by `submit`, is read back unchanged |
| Pipeline.ClaimedJob | src/monitor.cpp:96-107 | a claimed job's text is in `processing/`, and paths outside `ready/` and `processing/` are untouched |
| Pipeline.ClaimCarriesEmail | src/monitor.cpp:100-102 | the claimed sidecar carries the same email |
| Pipeline.ProcessedJobRetrieved | src/flow.cpp:14-20 | after a completed job, `retrieve(id)` returns the model's answer for the claimed text |
| Pipeline.FailedJobRetrievedEmpty | src/flow.cpp:14-20 | after a failed job with no earlier output, `retrieve(id)` returns "" |
| Pipeline.SubmittedIsReady | src/work.cpp:53-76 | a successful submission is a ready job whose text is the content |
| Pipeline.SubmittedJobIsAnswered | src/monitor.cpp:158-201 | submitted, claimed and run with every step going through, a job's retrieved answer is the model's answer for the submitted content |
| Pipeline.SubmittedEmailReachesWorker | src/monitor.cpp:190 | the email given to `submit` is the one the worker reads for the claimed job |
| Pipeline.QueuedIsPublished | src/http_receiver.cpp:174-198 | a post answered "Job queued!" is published as a ready job; one answered "Write failed" left nothing staged |

## Left out

- Threads, the mutex, the condition variable, the 100 ms sleep and the thread joins. The scanning thread is `MonitorPass`, one pass per call. A worker is a state machine moved by `WorkerStep`. `Stop` joins the workers one after another. Interleavings between the threads are not modelled.
- `sendEmailNotification`, a `std::system` shell call, has no effect on the workspace and is not modelled.
- `Monitor::~Monitor` and `HttpReceiver::~HttpReceiver` only call `stop()`; they are not modelled.
- The language-model library is oracles in `Runner.Llm`: token counts, tokenizer and context creation, decode results, sampled tokens, end-of-generation and token text. Loading the shared static model is one boolean given to `Monitor.Start`, as every runner loads the same path.
- Monitor.Monitor.Start: a `std::bad_alloc` from `reserve` or a partial load is not modelled: a model either loads in every runner or in none.
- Sockets: `HttpReceiver::start`, `stop`, `serverLoop`, `send` and `startHttpServer` are left out. A connection is the sequence of strings successive `recv` calls return, with an empty string for a closed connection or an error.
- The HTML of the form page is copied, but its framing is not checked: it declares no length.
- The logger, `std::cout` and `std::cerr` output are left out.
- `getpid()` and the steady clock are parameters: the generator's `pid`, and `now` for each submission.
- Directory listings are parameters: any sequence of names. A directory that cannot be listed yields nothing, as the code's `catch` blocks make it. A listing that throws part-way through is not modelled.
- Fs.FileSystem.Remove: removing never fails in the model. The code removes only paths it has just created or moved, or wraps the call in `catch`.
- Reading a file is reading a regular file's whole text. Short reads and I/O errors after a successful open are not modelled.
- The answer is written into `output/<id>.txt` in place (src/monitor.cpp:182-187), not staged and renamed, so a `Flow::retrieve` or `findLatestJobId` running at the same time can see a partly written answer. The model's steps are atomic and do not capture this.
- Fs.FileSystem.Write: a write either fails at the open or writes the whole text. The code checks only the open; errors of `file << content` and `meta << …` (src/work.cpp:40-49) and of `outFile << result` (src/monitor.cpp:186-187) are never checked, so a short or failed write after a successful open leaves a truncated file while `submit` and `processJob` report success. `Submitter.SubmissionPublishes` and `MonitorSpec.ProcessJobResult` hold only under this all-or-nothing write.
- Http.HttpReceiver.HandleRequest: `Crashed` stands for an uncaught exception from `std::stoi` on an unreadable `Content-Length` (src/http_receiver.cpp:133) or on a bad `%` escape (line 28). `serverLoop` runs on its own thread without a `try`, so the exception terminates the whole process, scheduler included. The model returns `Crashed` with the disk unchanged; nothing after it is modelled, and a further request after a `Crashed` reply does not happen in the program.
- `numWorkers` is a mathematical integer. A negative count makes `start()` fail, as `reserve` throws on it.
- Flow.Flow: the retriever reads the `output/` directory of the shared workspace. A retriever pointed at another directory is not modelled.
- Text.HexPair models `std::stoi(…, 16)` only on the two-character strings `urlDecode` passes to it.
- The headers under `include/`, the command-line tools and `src/server.cpp` are not part of this model.

Behaviours the model follows where the code differs from the intended design:

- The latest job is the one with the numerically greatest clock reading, not the greatest id as a string. Among equal readings the first listed wins, and a reading of 0 never wins.
- When a sidecar cannot be created, `submit` publishes the text, then fails on the sidecar's rename and returns "". The job stays in `ready/` and is processed (`Submitter.SubmissionPublishedDespiteFailure`).
- When the sidecar's rename fails during a claim, the text stays in `processing/` and is never queued (`MonitorSpec.ClaimEntryStrandsText`).
- `stop()` does not run the jobs still queued: each worker runs at most one more job (`Monitor.Monitor.Stop`). The rest stay in the in-memory queue with their text in `processing/`. They run only if the same `Monitor` is started and run again, and never once it is destroyed.

## Findings

| source | as written | input that shows it | evidently intended | confidence | as-written member | corrected member |
|---|---|---|---|---|---|---|
| src/http_receiver.cpp:184-205 | the three fixed replies declare `Content-Length` 15, 12 and 15 | the bodies `Job queued!\n`, `Write failed\n` and `No content\n` are 12, 13 and 11 bytes long, so by the receiver's own `Content-Length` rule the 200 and 400 replies never become complete (a client reading until the socket closes sees the whole body only because the connection is closed after the reply), and the 500 body is cut one byte short | each reply declares its body's length | not executed | HttpMessages.AsWrittenLengthsWrong | HttpMessages.RepliesFramed |
