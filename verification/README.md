# Models of the Corstone-3xx reference applications

This project models the hard parts of the reference integration and proves properties of
the models: the audio front end of the keyword-detection application (a ring of blocks
filled by an interrupt-driven interface and read in overlapping windows, and the feature
cache behind it), the commands that start and stop inference, the reporting of results to
the LEDs, the logging service, the provisioning of credentials, the raw-frame converter,
the comment filter of the source checks, and the grayscale conversions.

| file | what it models |
|---|---|
| `SlidingWindow.dfy` | geometry of the ring and the window object: waiting condition, wrapped copy, block signal |
| `AudioProtocol.dfy` | hardware, callback task and reader as interleaved steps |
| `ReadSafety.dfy` | exactly when a read in progress is safe from the hardware; how many signals a read waits for |
| `CallbackCount.dfy` | exactly when an interrupt without a block makes a block count twice, and when the callback can lack its window |
| `FeatureCache.dfy` | number of passes, cached feature calculation, inference loop with STOP and START |
| `InferenceControl.dfy` | START and STOP bits between the update hooks and the inference task |
| `Leds.dfy`, `MlReporting.dfy` | LED port with shadow register; change reporting, queue and LED handler |
| `LedTasks.dfy` | the LED calls of the two tasks as interleaved steps, and exactly when they lose an update |
| `LogMessage.dfy`, `LogQueue.dfy` | bounded composition of a message; ownership of message buffers |
| `Provisioning.dfy`, `ProvisionSpec.dfy` | clean-up of the token, and what each part of provisioning makes of the token, as values |
| `ProvisionDevice.dfy`, `HexDump.dfy` | the provisioning calls with their heap, refining the values; the key dump |
| `FrmCodec.dfy` | FRM writer and reader, bit depths, mosaic |
| `CommentFilter.dfy` | removal of comments, line by line |
| `Pixels.dfy` | gray to RGB and back |
| `Arithmetic.dfy`, `Decimal.dfy`, `Bytes.dfy`, `Sequences.dfy` | shared facts on division, decimal text, bytes and sequences |

## How the models are set up

- Tasks and interrupts are small steps over one state value, and a run is any sequence of
  enabled steps. Objects whose fields the code updates are classes; loops are loops.
- Calls that may fail take their outcome from a list that is part of the state (`replies` of
  a token, `refusals` of a heap) or from an argument (`Outcome` of a formatter). The lists are
  arbitrary, so a result holds for every pattern of failures.
- The results on whole audio runs assume at least two blocks, which the constructor does not
  check. The hardware may write the cells of the block under write in any order and with any values
  until the block is complete.
- A vector that has been moved from keeps an arbitrary `residue`.

## Where the code and its own description differ

- `vsnprintf_safe` compares an `int` with a `size_t` first, so a negative result is reported
  as `n - 1` characters, not as 0: `LogMessage.WhenDocumented` says when the two agree.
- `xDestroyProvidedObjects` returns the status of the last kind only; its header promises
  success only if everything was destroyed: `Provisioning.WhenAsDescribed`.
- With frames of 640 samples and a stride of 320 the inference loop makes 50 passes for a
  tensor of 49 rows: `FeatureCache.RowsWritten`. The model takes a tensor buffer that goes on
  after the last row.
- An interrupt that reports an overflow and no block overwrites the last event. Between a
  completed block and its test it loses that block: `CallbackCount.OverflowLosesBlock`. It can
  make a later block count twice exactly when it finds the callback task caught up:
  `CallbackCount.OverflowCountsTwice`. The driver in `bsp/patches` never raises that event.
- The driver receives before the window is installed, and the callback is installed before the
  window it is given. A callback in between has no window:
  `CallbackCount.CallbackSafeExactlyWhen`.
- The handler of reported keywords and the blinking task have the same priority and share the
  LED port and its shadow without a lock. A call that begins during a call of the other task,
  with another target, can lose an update, and only such a call can:
  `LedTasks.HarmlessExactlyWhenClear`. `LedTasks.YesIsLost` is such a run.
- After a pause the ring has gone on without the reader, so that the reads are not the
  windows that the count of strides names. `FeatureCache` therefore speaks of the reads as
  they come, and `FeatureCache.RowsAreTheStream` says when they are the stream.
- When the export of a new key pair fails after a size is known, the key dump is called with
  a null buffer and a length that is not zero. `ProvisionSpec.NullDump` says exactly when, from
  the token, its replies and the refused allocations; `ProvisionSpec.NullDumpHappens` gives a
  case with one refused allocation.
- The converter's filter modes are listed as RG, GR, GB, BG. The mosaic written is the one
  named for the modes RG and BG only, if the image is blue-green-red, as the writer's
  parameter says, and for GR and GB only, if it is red-green-blue, as the images that are
  passed to it are: `FrmCodec.WrittenAsNamed`.

## Model

| member | source | states |
|---|---|---|
| SlidingWindow.Geometry.StrideInRing | applications/keyword_detection/ml_interface.cc:417-418 | first and last block computed from the wrapped stride are those of the absolute k-th window modulo the block count, and a window touches at most two neighbouring blocks |
| SlidingWindow.Geometry.WrapDetected | applications/keyword_detection/ml_interface.cc:439-447 | with at least two blocks, `last_block < first_block` exactly when the window runs past the end of the buffer |
| SlidingWindow.Geometry.CopyIndexInRing | applications/keyword_detection/ml_interface.cc:436-451 | cell j of the copy is stream position k*stride + j taken around the buffer, and is in bounds |
| SlidingWindow.GuardCanPass | applications/keyword_detection/ml_interface.cc:422 | some value of the block under write lets the k-th read through exactly when there are three blocks or more, or two and the window lies in one of them |
| SlidingWindow.CircularSlidingWindow.constructor | applications/keyword_detection/ml_interface.cc:389-404 | for any sizes that pass the assertions, a single block included, a window starts at block 0 and stride 0 with the semaphore given |
| SlidingWindow.CircularSlidingWindow.SignalBlockWritten | applications/keyword_detection/ml_interface.cc:459-478 | the block under write moves on around the ring, the semaphore is given, nothing else changes |
| SlidingWindow.CircularSlidingWindow.CopyAndAdvance | applications/keyword_detection/ml_interface.cc:436-455 | the destination gets the window around the ring and nothing beyond it is touched; the stride moves on around the ring; every access is in bounds |
| AudioProtocol.RunInv | applications/keyword_detection/ml_interface.cc:414-464 | in every state of every interleaving: counters ordered, semaphore discipline, every completed block not yet due for overwriting holds its part of the stream |
| AudioProtocol.CountersOrdered | applications/keyword_detection/main.c:356-366 | reader's block <= blocks signalled <= interrupts raised, whatever the speeds and however notifications collapse; while copying, the whole window has been signalled |
| AudioProtocol.ReadsAreTheStream | applications/keyword_detection/ml_interface.cc:414-456 | in every interleaving in which interrupts complete blocks and the hardware has not come round to the block of a sample about to be copied, the k-th read returns exactly the stream from k*stride on, one window long, although the guard samples the block under write twice |
| ReadSafety.SafeExactlyWhenSettled | applications/keyword_detection/ml_interface.cc:422-456 | at every point of a copy in every interleaving: whatever the hardware writes before it completes another block, the read returns its window, exactly when what is copied is right and each sample to come is out of the block under write and was left right by the hardware's last lap |
| ReadSafety.SafeExactlyWhenUnlapped | applications/keyword_detection/ml_interface.cc:422-456 | while the hardware has at most reached the block of the next sample, that condition is that it has not reached it; otherwise there is a continuation that returns a wrong window |
| ReadSafety.WaitsForTwoSignalsAtMost | applications/keyword_detection/ml_interface.cc:422-464 | in every run with three blocks or more, a read that waits and runs between signals gets at most two signals while it waits, and after the second its own next three steps start the copy |
| ReadSafety.BlockedReaderSleeps | applications/keyword_detection/ml_interface.cc:422-433 | a reader whose window is blocked goes to sleep: a sample that finds the block under write is followed by a take |
| ReadSafety.SemaphoreIsBinary | applications/keyword_detection/ml_interface.cc:428-477 | in every run the semaphore is what the last give or take has made of it, whoever waits; at first it is given |
| ReadSafety.NothingElseWaits | applications/keyword_detection/ml_interface.cc:414-478 | in every state of every run the reader can go on unless it sleeps on the empty semaphore, and the callback task unless nothing is notified |
| AudioProtocol.NoLostWakeUp | applications/keyword_detection/ml_interface.cc:422-433 | a reader asleep on an empty semaphore with no give on its way would fail the guard again: the block under write is the one its failing check saw |
| AudioProtocol.WaitIsBounded | applications/keyword_detection/ml_interface.cc:422-433 | takes in one read never exceed the tokens at its start plus the signals since |
| AudioProtocol.TwoBlocksStraddle | applications/keyword_detection/ml_interface.cc:422-433 | with two blocks a window over both is copied only in states where the hardware has come round to the window's first block |
| CallbackCount.OverflowCountsTwice | applications/keyword_detection/main.c:362-372 | after any run without overflows, an overflow can lead, with no further one, to more blocks counted than completed exactly when no notification is pending, no event is about to be tested, and every completed block is counted but the one whose call may be under way |
| CallbackCount.OverflowLosesBlock | applications/keyword_detection/main.c:362-372 | after any run without overflows in which a block's event is about to be tested, an overflow before the test leaves the task asleep with nothing pending and the block not counted |
| CallbackCount.CallbackSafeExactlyWhen | applications/keyword_detection/ml_interface.cc:375-376 | at every point of every run at which the callback is installed, it can be called without its window, before another block completes, exactly when the window is not installed and an event of a completed block is still to be acted on |
| CallbackCount.NoCallBeforeCallback | applications/keyword_detection/main.c:362-367 | in every run, before the callback is installed the task makes no call and counts no block |
| FeatureCache.PassesPerStride | applications/keyword_detection/ml_interface.cc:612-638 | passes per inference are twice the vectors per stride, or one more |
| FeatureCache.StrideIsWhole | applications/keyword_detection/ml_interface.cc:612-638 | the audio stride is the greatest multiple of the frame stride within half the window |
| FeatureCache.CacheIndicesInBounds | applications/keyword_detection/ml_interface.cc:886-888 | every pass past the overlap stores into an existing slot exactly when the number of passes is even |
| FeatureCache.RowsWritten | applications/keyword_detection/ml_interface.cc:683-692 | the loop writes rows + (frameLength - frameStride) / frameStride rows, and stays within the tensor exactly when a frame is shorter than two strides |
| FeatureCache.FeatureCalculator.Calculate | applications/keyword_detection/ml_interface.cc:866-890 | the tensor changes in one row only, which gets the cached or computed vector; the used slot keeps an arbitrary value and the slot one overlap earlier gets the vector |
| FeatureCache.AudioProcessor.FillTensor | applications/keyword_detection/ml_interface.cc:680-692 | for any results of the reads, inference n leaves in every row i the features of read n*S + i computed afresh, and leaves cache and reader ready for inference n + 1 |
| FeatureCache.AudioProcessor.Process | applications/keyword_detection/ml_interface.cc:663-727 | each poll without STOP makes one inference and a poll with STOP none; for every pattern of polls and any results of the reads, before and after pauses, each inference sees the tensor that full recomputation from its reads would give |
| FeatureCache.RowsAreTheStream | applications/keyword_detection/ml_interface.cc:680-692 | with the reads of a run in which the hardware never comes round to a sample about to be copied, row i of inference n is the features of stream window n*S + i |
| InferenceControl.RunInv | applications/keyword_detection/ml_interface.cc:218-246 | in every interleaving of clear, set, wait and poll: bits never both set, and a set bit belongs to the last command |
| InferenceControl.BetweenCommands | applications/keyword_detection/ml_interface.cc:670-677 | between commands, after STOP the START bit is clear and inference is off or STOP is pending, and the other way round |
| InferenceControl.NoStaleCommand | applications/keyword_detection/ml_interface.cc:809-814 | a command acted on is the last one issued, and no opposite one is half way through |
| InferenceControl.TaskSettles | applications/keyword_detection/ml_interface.cc:1078-1091 | with no further command, two or more own steps bring a task that does not fail to the state last commanded, and it stays there |
| InferenceControl.HandledAlternate | applications/keyword_detection/ml_interface.cc:809-814 | the commands acted on alternate, beginning with START |
| InferenceControl.StartedTaskInfers | applications/keyword_detection/ml_interface.cc:1078-1091 | after START a task that does not fail is in an inference within three own steps |
| InferenceControl.InferenceIsPrepared | applications/keyword_detection/ml_interface.cc:663-677 | in every run an inference begins only from a poll that finds no STOP and behind a preparation that succeeded; the model is prepared once; the task pauses only from a poll that finds STOP |
| InferenceControl.FailureIsFinal | applications/keyword_detection/ml_interface.cc:694-720 | a failed preparation or inference ends the task for good |
| InferenceControl.OnlyFailureEnds | applications/keyword_detection/ml_interface.cc:663-727 | nothing else ends the task |
| InferenceControl.CommandInTwoSteps | applications/keyword_detection/ml_interface.cc:218-246 | a command takes the opposite bit away, leaves its own as it was, and then sets it |
| Leds.LedBank.SetState | bsp/common/mps3_leds.c:31-57 | a state beyond the last LED is refused without effect; otherwise only pins that differ from the shadow are written, and with shadow and port in agreement the port shows the state |
| Leds.LedBank.TurnOn | bsp/common/mps3_leds.c:69-74 | asks the port, not the shadow, for the state, and writes the pins that differ from the shadow; where the two agree it adds the LEDs to what the port shows, or refuses, and they still agree |
| Leds.LedBank.TurnOff | bsp/common/mps3_leds.c:76-81 | the same with the LEDs removed; where port and shadow agree it never refuses |
| Leds.LedBank.Toggle | bsp/common/mps3_leds.c:83-88 | the same with the LEDs inverted, or refused |
| Leds.ReachesTarget | bsp/common/mps3_leds.c:39-54 | a write reaches the requested state exactly when port and shadow agree on the LEDs that are not to change |
| MlReporting.ProcessStateChange | applications/keyword_detection/blink_task.c:64-184 | bit by bit: yes, go, up, left and on switch the LEDs 0 to 4 on, no, stop, down, right and off switch them off, and every other LED is as before |
| MlReporting.Reporter.SetState | applications/keyword_detection/ml_interface.cc:275-307 | only a change is sent, remembered and handled; a full queue loses the message only; without a queue nothing happens |
| MlReporting.Reporter.Run | applications/keyword_detection/ml_interface.cc:275-307 | over any sequence of results, dequeues and blinks whose LED calls follow one another: handler calls are the results without consecutive duplicates, from silence on; messages are a subsequence of them; each of the LEDs 0 to 4 is as the last result that names it says, LED 5 as the number of blinks says, the others as before |
| MlReporting.ChangesDiffer | applications/keyword_detection/ml_interface.cc:275-307 | the changes have no two equal neighbours, do not begin with the state before, and end in the last result |
| MlReporting.ChangesAreResults | applications/keyword_detection/ml_interface.cc:275-307 | the changes are some of the results, in order |
| LedTasks.RunInv | bsp/common/mps3_leds.c:31-88 | in every interleaving of the steps of both tasks' LED calls in which each call begins clear of the other task's: a call in progress heads for the expected LEDs, and port and shadow agree with them as far as the call has come |
| LedTasks.ClearCallsShowEverything | applications/keyword_detection/blink_task.c:64-184 | in such a run, whenever no call is in progress, port and shadow are the LEDs of every result handled and every blink done |
| LedTasks.HarmlessExactlyWhenClear | bsp/common/mps3_leds.c:31-88 | after such a run, every continuation of the next step shows the right LEDs exactly when that step begins no LED call during a call of the other task with another target; otherwise a continuation without further overlap ends with an LED wrong |
| LedTasks.RepeatBeginsNothing | applications/keyword_detection/ml_interface.cc:282 | a keyword that is the one last reported begins no LED call |
| LedTasks.YesIsLost | bsp/common/mps3_leds.c:69-88 | a run in which a keyword's LED is turned on during a blink and is off at the end |
| LogMessage.WhenDocumented | applications/helpers/logging/src/iot_logging_task_dynamic_buffers.c:57-82 | the wrapper returns what its comment says exactly when the formatter did not fail or the room is one character |
| LogMessage.FileName | applications/helpers/logging/src/iot_logging_task_dynamic_buffers.c:303-319 | the part of the path after the last backslash, or after the last slash if there is no backslash, or all of it |
| LogMessage.HoldsAppend | applications/helpers/logging/src/iot_logging_task_dynamic_buffers.c:118-147 | appending what fits to a truncated text is truncating the longer text |
| LogMessage.Compose | applications/helpers/logging/src/iot_logging_task_dynamic_buffers.c:241-344 | the length stays below the buffer's at every append even after encoding errors; when no formatter fails the buffer holds one truncation of metadata, level, file, body and newline, with the source's texts and conditions |
| LogMessage.MessageEndsInNewline | applications/helpers/logging/src/iot_logging_task_dynamic_buffers.c:330-337 | a message whose format is not empty ends in a newline; one is added behind the body exactly when the format does not end in one |
| LogMessage.SampleMessage | applications/helpers/logging/src/iot_logging_task_dynamic_buffers.c:261-337 | a whole message, character by character |
| LogMessage.LevelTexts | applications/helpers/logging/src/iot_logging_task_dynamic_buffers.c:275-299 | the text of each level |
| LogMessage.ComposeParts | applications/helpers/logging/src/iot_logging_task_dynamic_buffers.c:265-344 | for any texts of the parts, the buffer holds what is known of them up to the first encoding error, as much as fits, and is terminated |
| LogMessage.WhenEmpty | applications/helpers/logging/src/iot_logging_task_dynamic_buffers.c:348-362 | a message is dropped as empty exactly when there is no room for a character, or no text and no error |
| LogMessage.FileAssertion | applications/helpers/logging/src/iot_logging_task_dynamic_buffers.c:321-322 | the assertion after the file name holds exactly when the buffer has room for a character |
| LogQueue.OneOwner | applications/helpers/logging/src/iot_logging_task_dynamic_buffers.c:346-362 | in every interleaving of any number of tasks each allocated buffer is with one task, once in the queue, with the logging task, or freed once |
| LogQueue.NoUseAfterFree | applications/helpers/logging/src/iot_logging_task_dynamic_buffers.c:198-215 | every buffer held, queued or being printed is still allocated |
| LogQueue.PrintedInOrder | applications/helpers/logging/src/iot_logging_task_dynamic_buffers.c:459-482 | what is printed is a prefix of the accepted messages, in order and unaltered, and at most capacity + 1 behind |
| LogQueue.SendResult | applications/helpers/logging/src/iot_logging_task_dynamic_buffers.c:350-356 | a send is accepted exactly when the queue has room; otherwise the task keeps the buffer and has to free it |
| LogQueue.AcceptedIsFilled | applications/helpers/logging/src/iot_logging_task_dynamic_buffers.c:256-356 | in every interleaving the message accepted is the one that the task filled in last |
| LogQueue.OnlyLoggerWaits | applications/helpers/logging/src/iot_logging_task_dynamic_buffers.c:198-215 | the logging task waits for nothing but a message, and no other task waits at all |
| Provisioning.KindDestroyed | applications/helpers/provisioning/dev_mode_key_provisioning.c:783-809 | destroying a kind leaves all other objects in place, and with status Ok leaves none of the kind, however many there were |
| Provisioning.KindsDestroyed | applications/helpers/provisioning/dev_mode_key_provisioning.c:767-818 | over a list, kinds not listed keep their objects, no kind gains any, and a kind tried with status Ok is gone |
| Provisioning.FlawlessKinds | applications/helpers/provisioning/dev_mode_key_provisioning.c:783-817 | where no call fails every kind is tried with status Ok |
| Provisioning.OneFailureOnly | applications/helpers/provisioning/dev_mode_key_provisioning.c:783-817 | after a failed search the next kind is destroyed all the same, unless the function is unsupported |
| Provisioning.KindsNamed | applications/helpers/provisioning/dev_mode_key_provisioning.c:822-838 | the labels and classes of the default clean-up |
| Provisioning.WhenAsDescribed | applications/helpers/provisioning/dev_mode_key_provisioning.h:210-234 | "Ok if all credentials were destroyed" holds on every token exactly when the list names one kind only |
| ProvisionDevice.Token.DestroyObjects | applications/helpers/provisioning/dev_mode_key_provisioning.c:767-818 | the loops end and leave the token, the replies used and the returned status as specified, for every pattern of failures |
| ProvisionSpec.CertificateReplaces | applications/helpers/provisioning/dev_mode_key_provisioning.c:660-762 | objects of other kinds keep their number; success leaves at least the new certificate and at most one more than before; failure adds none |
| ProvisionDevice.ProvisionCertificate | applications/helpers/provisioning/dev_mode_key_provisioning.c:660-762 | the same of the call, with status, token and lists of the specification; no buffer is left allocated; a handle names a certificate |
| ProvisionDevice.ProvisionPrivateKey | applications/helpers/provisioning/dev_mode_key_provisioning.c:141-390 | success adds one private key, failure changes no object; the status is Ok and a handle is given out exactly when the key is usable in every respect, no call or allocation fails and the token gives the handle; no buffer is left allocated |
| ProvisionDevice.ExportPublicKey | applications/helpers/provisioning/dev_mode_key_provisioning.c:851-942 | a buffer is handed out exactly when key type, size, allocation and value all succeed for an elliptic-curve key, and otherwise none is left allocated; the length is set exactly when the size is answered |
| ProvisionDevice.GetProvisionedState | applications/helpers/provisioning/dev_mode_key_provisioning.c:946-1042 | what is found, and what is left of replies and refusals, is what the search on values finds; valid handles, the certificate's included, name objects of their kind; exactly the two buffers of the state are left allocated on every path |
| ProvisionDevice.EnsureKeyPair | applications/helpers/provisioning/dev_mode_key_provisioning.c:1196-1286 | success means both handles name keys on the token; the heap is as before; without a generated pair the objects are as before; the dump is given a null buffer with a length exactly when `NullDump` holds of the token, its replies and the refusals before the call; a buffer it is given has the key's length |
| ProvisionSpec.NullDumpNeedsFailure | applications/helpers/provisioning/dev_mode_key_provisioning.c:1216-1262 | where no call fails and no allocation is refused the dump never reads through null, whatever is on the token |
| ProvisionSpec.NullDumpHappens | applications/helpers/provisioning/dev_mode_key_provisioning.c:1216-1262 | on an empty token that answers every call, with nothing to import, one refused allocation leads to a dump of a null buffer |
| ProvisionSpec.CredentialsAreThere | applications/helpers/provisioning/dev_mode_key_provisioning.c:1104-1190 | after the imports an accepted key is there, a certificate that was given is there, and after a clean clean-up each is the only one |
| ProvisionSpec.NothingElseIsDestroyed | applications/helpers/provisioning/dev_mode_key_provisioning.c:1118-1131 | unless import is supported and both a certificate and a private key are given, nothing is cleaned: every kind that is not imported keeps its number |
| ProvisionSpec.FlawlessImport | applications/helpers/provisioning/dev_mode_key_provisioning.c:1104-1190 | where no call fails and no allocation is refused, usable arguments are imported, and the key counts as imported |
| ProvisionSpec.OnlyMemoryIsForgiven | applications/helpers/provisioning/dev_mode_key_provisioning.c:1174-1188 | of the failures of the just-in-time certificate only a full token is forgiven |
| ProvisionSpec.CertificateErrors | applications/helpers/provisioning/dev_mode_key_provisioning.c:660-762 | which failure of a certificate's import is returned, in the order in which they are found, and that the token is then as before |
| ProvisionSpec.KeyErrors | applications/helpers/provisioning/dev_mode_key_provisioning.c:141-390 | the same for a private key |
| ProvisionSpec.FlawlessPair | applications/helpers/provisioning/dev_mode_key_provisioning.c:1196-1211 | where no call fails a pair is generated exactly if a key is missing or the public one is not an elliptic-curve key |
| ProvisionDevice.Provision | applications/helpers/provisioning/dev_mode_key_provisioning.c:1104-1289 | every buffer is freed exactly once on every path; a key counts as imported exactly when import is supported, the certificate's part succeeded and the key is accepted; after a clean clean-up such an import leaves exactly one device certificate and one device private key and generates nothing; without an import success means two valid key handles; with no key given and no pair generated no key is destroyed; says from the state before the call exactly when the dump reads through null |
| HexDump.WriteHexBytes | applications/helpers/provisioning/dev_mode_key_provisioning.c:1049-1096 | the cursor never leaves the row buffer, and the console gets the specified dump |
| HexDump.CursorStep | applications/helpers/provisioning/dev_mode_key_provisioning.c:1061-1087 | the cursor is 2*(i mod 16) + (i mod 16)/2 and a full row ends on the last cell |
| HexDump.DumpLayout | applications/helpers/provisioning/dev_mode_key_provisioning.c:1061-1095 | each byte stands at its place in rows of 42 characters, high digit first, in digits 0 to 9 and a to f, with a space after every second byte and a row's end after every sixteenth |
| HexDump.DumpDecodes | applications/helpers/provisioning/dev_mode_key_provisioning.c:1061-1095 | removing the layout from a dump and decoding the hex gives the bytes back, for every length |
| FrmCodec.SamplesRecovered | tools/scripts/frm_converter.py:99-108 | every 8-bit sample survives shifting up, storing and shifting down exactly when the depth fits the container |
| FrmCodec.DefaultContainer | tools/scripts/frm_converter.py:175-181 | the default container is the smallest that fits the depth |
| FrmCodec.PayloadRead | tools/scripts/frm_converter.py:55-56 | samples written in little-endian order at the container's size read back as themselves |
| FrmCodec.FrameIsRead | tools/scripts/frm_converter.py:44-57 | reading a file that starts with a written frame gives that frame and the rest of the file |
| FrmCodec.FileIsRead | tools/scripts/frm_converter.py:257-261 | a file of any list of written frames reads back as the same list in order, then the end of the file |
| FrmCodec.FileGrows | tools/scripts/frm_converter.py:204-213 | writing one frame after another makes the file of the list |
| FrmCodec.ImageIsRecovered | tools/scripts/frm_converter.py:74-108 | the frame of an image decodes to the image's mosaic when the depth fits the container |
| FrmCodec.MosaicAt | tools/scripts/frm_converter.py:74-97 | sample row * width + column is the channel that the parities of row and column pick |
| FrmCodec.WrittenSampleAt | tools/scripts/frm_converter.py:74-102 | the sample written for a pixel is that channel, shifted up and cut to the container |
| FrmCodec.SampleFile | tools/scripts/frm_converter.py:60-102 | a whole file, byte by byte |
| FrmCodec.PayloadRaises | tools/scripts/frm_converter.py:49-56 | after a header an exception is raised exactly when the sample size is unknown or the file ends too early |
| FrmCodec.CutPayloadRaises | tools/scripts/frm_converter.py:44-57 | a file cut off within the samples of a frame raises an exception |
| FrmCodec.BadNumberRaises | tools/scripts/frm_converter.py:44-57 | so does a header line that is not a number |
| FrmCodec.ImagesAreRecovered | tools/scripts/frm_converter.py:204-263 | any list of images written to one file reads back as that many frames, each decoding to the mosaic of its image |
| FrmCodec.MosaicIsBayer | tools/scripts/frm_converter.py:74-97 | every square of the mosaic has the middle channel twice on a diagonal and each other once, and no two modes agree |
| FrmCodec.WrittenAsNamed | tools/scripts/frm_converter.py:12 | the mosaic written is the one the command line names exactly for modes 0 and 3 of a blue-green-red image, and for modes 1 and 2, with the default, of a red-green-blue one |
| FrmCodec.OutputFile.WriteFrame | tools/scripts/frm_converter.py:60-102 | the file grows by the title, five numbers and the samples of the image's frame |
| FrmCodec.InputFile.ReadFrame | tools/scripts/frm_converter.py:44-57 | one frame, the end of the file or an exception, and the position behind the frame |
| FrmCodec.InputFile.ReadFrames | tools/scripts/frm_converter.py:257-261 | the loop returns all frames up to the end of the file or an exception |
| CommentFilter.FilterLine | tools/ci/hooks/banned_api.py:33-53 | the slices between the matches are exactly the characters that the token automaton calls code, and the open comment carries on |
| CommentFilter.FilterComments | tools/ci/hooks/banned_api.py:22-55 | the output is the automaton's, with line numbers, without empty lines |
| CommentFilter.OutputIsNumbered | tools/ci/hooks/banned_api.py:54-55 | line numbers increase strictly and are those of lines, and no text is empty |
| CommentFilter.FilterInParts | tools/ci/hooks/banned_api.py:29-30 | filtering two parts in turn, carrying the open comment, is filtering the whole |
| CommentFilter.NoTokens | tools/ci/hooks/banned_api.py:34-53 | a line without tokens is given out whole outside a comment and not at all inside |
| CommentFilter.LineCommentIsCut | tools/ci/hooks/banned_api.py:47-50 | a line comment leaves exactly what is before it |
| CommentFilter.BlockCommentIsCut | tools/ci/hooks/banned_api.py:38-46 | a comment within a line is cut out |
| CommentFilter.OpenedGoesOn | tools/ci/hooks/banned_api.py:43-46 | a comment that is opened leaves what is before it and stays open |
| CommentFilter.CommentEnds | tools/ci/hooks/banned_api.py:38-41 | a closing mark inside a comment leaves exactly what is behind it |
| CommentFilter.MarksInComment | tools/ci/hooks/banned_api.py:38-41 | inside a comment other marks mean nothing |
| CommentFilter.LoneCloseIsCode | tools/ci/hooks/banned_api.py:42-50 | outside a comment a closing mark is code |
| CommentFilter.OpeningDoesNotClose | tools/ci/hooks/banned_api.py:34-36 | matches do not overlap |
| CommentFilter.LineIsGivenOut | tools/ci/hooks/banned_api.py:29-55 | each line's code is given out under the line's number exactly if there is any |
| CommentFilter.StrippedLine | tools/ci/hooks/banned_api.py:31 | only newlines are stripped, and all of them at the end |
| Pixels.FieldsApart | applications/helpers/hdlcd/hdlcd_helper.c:15-52 | for any values of the three fields of any format, or-ing them in their places is adding them, and the word is within the pixel |
| Pixels.ColourIsWeighed | applications/object_detection/isp/isp_config.c:168-181 | any colour packed into a pixel is extracted again field by field, and its gray value is the weighted sum of the three colours scaled to eight bits, rounded down |
| Pixels.FullColours | applications/helpers/hdlcd/hdlcd_helper.c:15-52 | the gray values of full red, green and blue in each format |
| Pixels.GrayBytes | applications/object_detection/isp/isp_config.c:201-223 | the bytes of a gray pixel in each format, lowest byte first |
| Pixels.ClampNeverFires | applications/object_detection/isp/isp_config.c:180-182 | no pixel of any format is brighter than 255 before the clamp |
| Pixels.OwnBytesOnly | applications/object_detection/isp/isp_config.c:178-183 | the gray value depends on the pixel's own bytes although 32 bits are read |
| Pixels.ImageIsRecovered | applications/object_detection/isp/isp_config.c:162-224 | gray to RGB to gray is the identity over an image of any length for the formats with eight-bit fields, and at most five lower for RGB565 |
| Pixels.RgbToGrayscale | applications/object_detection/isp/isp_config.c:162-184 | the destination starts with the gray image and is untouched behind it |
| Pixels.RangeOfImage | applications/object_detection/isp/isp_config.c:199-216 | the logged minimum and maximum bound every pixel, and pixels have them |
| Pixels.GrayscaleToRgb | applications/object_detection/isp/isp_config.c:186-227 | the destination starts with the packed image and is untouched behind it; the logged minimum and maximum are those of the image |

## Left out

- SlidingWindow.CircularSlidingWindow.CopyAndAdvance: is the part of `next` behind the wait; the waiting loop, which depends on other tasks, is in `AudioProtocol` only, and a block count of one, with which every read would wait for ever, is excluded.
- AudioProtocol.ReadsAreTheStream: takes as given that the hardware does not come round to a sample about to be copied, because the code has no guard against it; `ReadSafety` says what happens otherwise.
- ReadSafety.WaitsForTwoSignalsAtMost: scheduling and time are not modelled, so that nothing is said about how soon a signal comes.
- FeatureCache.FeatureCalculator.Calculate: asks for a cache slot and a tensor row in bounds, where the code would write outside.
- FeatureCache.AudioProcessor.FillTensor: asks for room for every row that the loop writes, which may be more than the model's tensor has.
- MlReporting.Reporter.Run: each LED call is one step; `LedTasks` has the steps of a call.
- CallbackCount.CallbackSafeExactlyWhen: the callback without a window is an end state of the callback task; what the call then does to memory is not modelled.
- LedTasks.RunInv: begins after the blinking task has turned all LEDs off; the write of one pin is one step.
- Pixels.RgbToGrayscale: asks for the bytes that the last pixel's 32-bit read takes, which for the two-byte format lie behind the image.
- LogMessage.Compose: the text of a failed formatter is unknown, so that after an encoding error only the length and the text before it are stated.
- ProvisionDevice.ProvisionPrivateKey: parsing, key type and curve are arguments, and the mbedTLS contexts are left out.
- ProvisionDevice.EnsureKeyPair: of the dump of the key only the buffer and the length are kept here, and the text is modelled in `HexDump`; the build option that forces a new key pair is left out.
- FrmCodec.InputFile.ReadFrame: a number is a non-empty string of digits; the signs, spaces and underscores that the script's parser also takes are exceptions here.
- FrmCodec.ImageIsRecovered: demosaicing and image files are left out.
- Pixels.ClampNeverFires: weights are exact fractions; single-precision rounding is left out.
- Sizes wider than the target's words: buffer positions, counters and message numbers are unbounded, except in `LogMessage.SafeLength`, where the conversion between `int` and `size_t` matters.
- FreeRTOS, TF-M, mbedTLS, TensorFlow and PKCS #11 internals: event group, semaphore, queue, heap and token are small abstract objects; the library's slot-list and search helpers are not part of this model beyond their results.
- MFCC features and inference: `compute` is any function with vectors of one length.
- The build without the streaming interface, which reads clips from memory.
- Creation failures of semaphores, queues and tasks.
- Publishing over MQTT, the update agent, network start-up, UART and display drivers.
- The frame ring and the memory arena of the image-signal-processor callbacks, which would only add easy members.
- The speech-recognition and object-detection interfaces, whose queues repeat the ownership result.
- Cloud and repository maintenance scripts.
