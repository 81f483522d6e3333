# rusty-puppet core, modelled in Dafny

rusty-puppet is a Rust crate that drives a Chromium browser over the
DevTools protocol. The model covers three sequential pieces of it.

- **Command serialisation** (`src/message.rs`), modelled in the `Messages`,
  `JsonText` and `KeyOrder` modules.
  - A `Method` is written on the wire as its variant name with every `_`
    turned into `.`.
  - `Message::serialize(id)` writes the JSON object `{"id":…,"method":…}`.
    It adds a `"params"` object only when the message has parameters.
  - serde_json writes object members in ascending key order, escapes
    strings the way it always does, and writes the id in `itoa` decimal.
  - A decoder for exactly this text is the partner of the serialiser. The
    model proves that decoding a serialised message gives back the id and
    the message.
  - Serialisation is a pure function, so the message is left unchanged and
    equal inputs always give the same text.
- **Launch** (`src/launcher.rs`), modelled in the `Launcher` module.
  - The launch starts from the 22 default flags.
  - It adds a remote-debugging flag, then a `--user-data-dir=` flag, each
    only when no argument already starts with that prefix.
  - It chooses the executable: the configured path, else the bundled one.
  - It scans the browser's diagnostic lines for the first
    `DevTools listening on ws://…` line.
  - The host is a record of inputs: the temporary directory, the random
    profile suffix, `OUT_DIR`, whether the bundle exists, whether spawning
    works, and the diagnostic lines. Each failure the code panics on
    becomes an error value, except the `to_str()` conversions listed
    under "Left out".
- **Transport** (`src/ws.rs`), modelled in the `Ws` module.
  - `generate_id` is a counter that starts at 0 and hands out 1, 2, 3, ….
  - `send` registers the callback before it enqueues the frame serialised
    with the same id.
  - The reader thread's loop is a step function over an explicit sequence
    of events: registrations, frames read, read errors, and the writer
    exiting. It keeps a table from id to callback.
  - The writer thread's loop is a method over the messages it takes off its
    queue, each paired with whether its write succeeds.
  - JSON parsing of a response is a parameter (`parse`). Dispatch only needs
    three outcomes: unparsable, no `id`, or an `id`.

`Common` holds the `Option` and `Result` types, the `u64` bound, the `u8`
range and the string prefix test.

## Model

| member | source | states |
|---|---|---|
| Messages.MethodNameSpelling | src/message.rs:10-15 | The wire name of a method is its variant name with each `_` replaced by `.` at the same position. It contains no `_` and names the method back. |
| Messages.WireNames | src/message.rs:10-15 | The two commands go on the wire as `Browser.getVersion` and `Page.navigate`. |
| Messages.ConstructorsOnTheWire | src/message.rs:24-36 | A message from `new` decodes with no params, so the text has no `params` member. A message from `new_with_params` decodes with exactly the given map. |
| Messages.SerializeRoundTrip | src/message.rs:39-54 | Decoding the serialised text gives back the id and the whole message. So the `id` member is the argument in decimal, `method` is the wire name, and `params` is present exactly for `Some` and maps each key to its value. |
| Messages.SerializeDistinguishesIds | src/message.rs:39-42 | Two different ids never give the same text, whatever the messages. |
| Messages.SerializeGetVersionVector | src/message.rs:67-75 | `Browser_getVersion` without params and id 123 serialise to `{"id":123,"method":"Browser.getVersion"}`. |
| Messages.SerializeNavigateVector | src/message.rs:77-90 | `Page_navigate` with `url` → `https://example.com` and id 456 serialise to `{"id":456,"method":"Page.navigate","params":{"url":"https://example.com"}}`. |
| JsonText.DecimalRoundTrip | src/message.rs:41-42 | The id is written as a decimal number that reads back as the same value when no digit follows it. |
| JsonText.Decimal | src/message.rs:41-42 | The decimal text is a non-empty run of digits whose value is the number. It starts with `0` only for zero, and it is a single digit exactly when the number is below ten. |
| JsonText.ReadEscaped | src/message.rs:43-44 | A string written with serde_json's escaping reads back as the same string, and the read stops right after the closing quote. |
| JsonText.EscapeChar | src/message.rs:43-44 | One character is written as itself exactly when it is not a quote, not a backslash and not a control character. The written form never starts with a quote. |
| KeyOrder.SortedKeys | src/message.rs:44 | The params keys are written in strictly ascending order, each key of the map exactly once. |
| Launcher.Has | src/launcher.rs:92-99 | `has` holds exactly when some argument starts with the needle: a prefix test, not equality. |
| Launcher.InitialArguments | src/launcher.rs:215-223 | The initial arguments are the 22 default flags in their listed order. |
| Launcher.DefaultArgsCarryNeitherFlag | src/launcher.rs:15-39 | No default flag starts with `--remote-debugging` or `--user-data-dir`. |
| Launcher.AddLaunchFlagsSpec | src/launcher.rs:116-139 | The arguments are kept as a prefix. `--remote-debugging-pipe`/`--remote-debugging-port=0` is appended exactly when no argument starts with `--remote-debugging`. Then `--user-data-dir=<dir>` is appended exactly when none starts with `--user-data-dir`. Afterwards both prefixes are present. |
| Launcher.FlagsAddedToCleanArguments | src/launcher.rs:116-139 | Arguments with neither prefix get exactly the debugging flag and then the user-data-dir flag, and the profile directory is then created. |
| Launcher.LaunchArgumentsSpec | src/launcher.rs:113-139 | A launch's argument list is the defaults, then the debugging flag chosen by `pipe`, then `--user-data-dir=<profile>`. `options.args` is never merged in. |
| Launcher.JoinPath | src/launcher.rs:134-135 | Pushing a component onto a path keeps the base as a prefix and ends in the component. |
| Launcher.ResolveExecutablePath | src/launcher.rs:185-213 | Resolution succeeds exactly when `OUT_DIR` is set and its `chrome` directory exists. Otherwise it fails with the error for the first missing piece. On success the path is under `OUT_DIR` and ends in `chrome/chrome`. |
| Launcher.Executable | src/launcher.rs:142-146 | A configured executable path is used as is, and the host is never consulted. Without one, the executable is `chrome/chrome` under `OUT_DIR`. The choice fails only when no path is configured and `OUT_DIR` is unset or the bundle is missing. |
| Launcher.WaitForWsEndpoint | src/launcher.rs:225-242 | The result is found exactly when some line matches `^DevTools listening on (ws://.*)$`. It is the text after `DevTools listening on ` on the first such line, and starts with `ws://`. Earlier lines and unreadable lines are skipped. With no such line the result is the `NoEndpoint` error. |
| Launcher.EndpointExample | src/launcher.rs:230-241 | A concrete stream (noise, an unreadable line, an announcement) yields the announced URL. The same stream without the announcement is an error. |
| Launcher.LaunchOutcome | src/launcher.rs:112-165 | A launch succeeds exactly when the profile directory is created, an executable is found, the process spawns and announces an endpoint. Failures come in that order. A success runs the default flags plus the two added flags, with the caller's environment. |
| Launcher.LaunchIgnoresUnusedOptions | src/launcher.rs:112-165 | `args`, `user_data_dir`, `headless`, `devtools`, `ignore_default_args` and `timeout` do not affect the launch. |
| Launcher.DefaultOptionsLaunch | src/launcher.rs:69-85 | With `LaunchOptions::new()` the browser gets `--remote-debugging-port=0` (pipe is off), no extra environment, and the bundled executable (no executable path is set). |
| Ws.GenerateId | src/ws.rs:81-84 | The new id is the old counter plus one and becomes the counter; nothing else changes. It fails only when the `u64` counter is already at its maximum. |
| Ws.SendAfterExhaustion | src/ws.rs:81-84 | With the counter at its maximum, `send` fails. |
| Ws.SendAllSpec | src/ws.rs:70-84 | A run of sends succeeds while ids remain. It uses the ids after the counter in order and appends exactly the planned pushes. |
| Ws.SendsFromConnection | src/ws.rs:63-84 | From a fresh connection the ids are 1, 2, 3, …: strictly increasing, never reused. The pushes are exactly those of the requests in order. |
| Ws.PlannedAt | src/ws.rs:70-76 | The i-th send registers its callback under id i+1 first, and enqueues its message with the same id right after. |
| Ws.SentRegistrationsAreFresh | src/ws.rs:70-84 | From a fresh connection, the ids `send` registers are pairwise distinct, and the registration pushed for the i-th request carries the i-th id and that request's callback. Read in order, those registrations are fresh for a newly spawned reader, so the correlation and any-order results apply to them. |
| Ws.QueuedFrame | src/ws.rs:72-76 | The enqueued frame is a text frame that decodes back to the same id and message. |
| Ws.ResponseFulfilsItsCallback | src/ws.rs:176-178 | A response whose id is pending removes exactly that entry and answers the callback stored under it with the response. Every other entry, the queue and the log are unchanged. |
| Ws.UnmatchedResponseIsLogged | src/ws.rs:177-181 | A response whose id is not pending is logged. The table is unchanged and the reader keeps going. |
| Ws.FrameWithoutIdStops | src/ws.rs:176 | Parsed JSON without an unsigned `id` ends the reader. |
| Ws.PingIsAnswered | src/ws.rs:153-163 | A ping is answered with a pong with the same payload, and the table is unchanged. If the writer has gone, the reader returns instead. |
| Ws.CloseAndReadErrorStop | src/ws.rs:138-152 | A close frame or a read error queues `Close(None)` (when the writer still listens) and ends the reader. Pending callbacks stay as they are. |
| Ws.IgnoredFrames | src/ws.rs:164-174 | Unparsable text is logged and skipped. Binary and pong frames are ignored. Neither touches the table or the queue. |
| Ws.RunAppend | src/ws.rs:133-186 | The reader consumes events one after another. |
| Ws.StoppedStaysStopped | src/ws.rs:133-186 | Once the reader has returned, no event changes it. |
| Ws.StepOutbox | src/ws.rs:138-163 | One turn queues at most one frame: a pong while listening, or the final close. |
| Ws.OutboxGrowsByPongsThenClose | src/ws.rs:133-186 | The reader only appends to the writer's queue. It appends only pongs and a close, and the close is the last frame it queues. |
| Ws.StepConsistent | src/ws.rs:133-181 | One turn keeps the bookkeeping consistent with the registrations. Pending and answered callbacks are the registered ones, no id is answered twice or both answered and pending, and while listening no registration is lost. |
| Ws.ReaderCorrelatesResponses | src/ws.rs:131-186 | From a freshly spawned reader, any event sequence with fresh ids keeps that consistency. |
| Ws.ResponsesFulfil | src/ws.rs:164-181 | Responses for distinct pending ids each remove their entry and answer its callback, in arrival order. |
| Ws.AnsweredInAnyOrder | src/ws.rs:131-186 | After n registrations and their responses in any order, nothing is pending and nothing is queued or logged. Each response answered the callback registered under its id, and every registration was answered. |
| Ws.RunWriter | src/ws.rs:93-118 | The writer writes in queue order. It stops right after the first close frame or failed write, adding a best-effort `Close(None)` after a failure. It drains the whole queue only when no message stops it. |

## Left out

- `build.rs`, `src/websocket.rs`, `src/browser.rs`, `src/handle.rs` and `src/connection.rs` are not part of this model. They do the browser download, an older transport prototype, unimplemented browser calls and thin wrappers that only delegate.
- Threads, channels and the socket are not modelled. The reader sees an explicit event sequence, the writer an explicit list of messages with their write outcomes, and `send` records its two channel pushes.
- The `try_next()` polling is not modelled. As written, the writer thread returns the first time it finds its queue empty while the channel is still open, and its `unwrap` panics once every sender has gone. The reader's `unwrap` panics when no registration is waiting. The model instead lets the reader see registrations at any point and the writer end at the end of its list.
- Ws.Step: a registration may arrive between any two reads. The source takes at most one registration before each read, so the model accepts more interleavings than the code produces.
- Ws.GenerateId: treats a counter overflow as an error, as a debug build's panic does. A release build would wrap the `u64` around to 0.
- Ws.Dispatch: the answered response is kept as the text it was parsed from. The serde_json parser is the `parse` parameter, not a JSON model.
- Ws.Shutdown: the reader queues `Close(None)` only while the writer is alive, and it stops either way, as the code ignores the result of that push. Whether answering a callback succeeds is not modelled, and neither is the caller's `await!(receiver).unwrap()`. The code ignores the first, and the reader cannot observe the second.
- Launcher.WaitForWsEndpoint: the regular expression is modelled as a prefix test plus "no line feed in the line". No regex engine is modelled.
- Launcher.WaitForWsEndpoint: the launch timeout is not modelled; the code does not implement it either.
- Launcher.Launch: `env::temp_dir`, the random six-character suffix, `fs::create_dir_all`, `OUT_DIR`, the bundle's existence and process spawning are inputs in the `Host` record.
- Launcher.ResolveExecutablePath: the failure of `to_str()` on a path that is not valid Unicode is not modelled, because strings here are always character sequences (src/launcher.rs:210-211). The same holds for the `to_str().unwrap()` on the temporary profile directory in `launch` (src/launcher.rs:136).
- Launcher.Launch: `options.args`, `options.user_data_dir`, `headless` and `devtools` are never added to the arguments.
- Launcher.Launch: nothing after the endpoint is found is modelled: connecting the transport, `Connection::new` and `Browser::new`.
- JsonText.ReadEscapeChar: the reader refuses `\u` surrogate escapes, which the writer never produces.
