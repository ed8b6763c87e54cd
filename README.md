# tcpproxy-gui core, modelled and verified in Dafny

tcpproxy-gui is a desktop TCP port forwarder. Each saved *task* has a name, a
target host and a list of forwarding rules (local port `from` to remote port
`to`). This project models three parts of it.

- **The task registry.** `App.tasks` maps each running task's name to its
  `ProxyTask`. `StartTask` refuses a name that is already running. A task
  whose start fails unregisters itself through its `onClose` callback, so the
  registry ends as it was before the call. `StopTask` stops a task, and the
  callback removes it from the registry.
- **The configuration list.** `g_Tasks` is the ordered list of saved task
  configurations. `SaveTask` replaces the first entry with the same name, or
  appends. `DelTask` stops the task and cuts out the first entry with that
  name. `GetTask` returns the first entry with that name.
- **WSL address discovery.** `GetWSLIP` picks a WSL distribution's address out
  of the text of `/proc/net/route` and `/proc/net/fib_trie`. It finds the eth0
  network and mask with `getRouteInfo`, then scans fib_trie backwards for the
  last local host address inside that network. `UTF16toUTF8` decodes the
  UTF-16LE output of `wsl.exe -l`.

Files:

- `proxy.dfy` (module `Proxy`): `Port`, `TaskConf`, the `ProxyTask` class with
  `Start` and `Stop`, and the listen outcome as an oracle.
- `app.dfy` (module `App`): the `App` class (registry plus configuration list)
  and the list operations as functions with their lemmas.
- `wsl.dfy` (module `Wsl`): the parsing parts of `wsl.go`.
- `ints.dfy`, `strings.dfy`, `strconv.dfy`, `utf16.dfy`: the parts of Go's
  integer conversions and of its `strings`, `strconv` and `unicode/utf16`
  packages that `wsl.go` relies on.
- `wrappers.dfy`: `Option` and `Result`.

Modelling choices:

- Go panics become preconditions: slicing a field shorter than 8 characters,
  `fs[0]` of an empty route line, `lines[i-1]` or `fs[1]` in the fib_trie
  scan, and closing the stop channel twice. For the two scans the
  precondition (`RoutesReadable`, `FibReadable`) follows the scan exactly. It
  constrains only the lines the scan actually reaches.
- Go's `uint32(x)`, its 64-bit `int` overflow and `<<` are written out as
  arithmetic modulo 2^32 and 2^64. Go's `&` is `BitAnd` on naturals.
- The `map[string]*ProxyTask` is a heap object, `TaskMap`, because Go maps
  are references: the callback deletes from the same map the `App` holds.
  The `onClose` closure `func() { delete(a.tasks, name) }` is the value
  `Unregister(tasks, name)`, which `Stop` runs.
- The package-level `g_Tasks` is the field `App.configs`.
- `net.Listen` is an oracle. `busy` is the set of ports that are occupied
  when `Start` begins. A listen fails if its port is in `busy`, or if it is
  a nonzero port already bound by an earlier rule of the same `Start`.
  Port 0 asks for an ephemeral port and never clashes.
- A launched forwarder goroutine is recorded by appending its rule to
  `ProxyTask.forwarders`.

Behaviour of the code worth noting:

- Stopping is not idempotent. `Stop` (proxy.go:53-58) closes a channel, and
  closing a channel a second time panics. So `ProxyTask.Stop` requires a task
  that has not been stopped.
- A failed start does not close the listeners it already opened before
  `StartTask` returns. `Start` only gives the stop signal (proxy.go:41-43).
  Each forwarder goroutine closes its listener when it sees the signal, at
  some later time. The model records the stop (`stopped`) and the forwarders
  launched before the failing rule. It says nothing about when the ports
  become free.
- `App.tasks` is a plain Go map with no lock (app.go:32, 52-70), so
  concurrent `StartTask`/`StopTask` calls race. The model is sequential.

## Model

| member | source | states |
|---|---|---|
| Wsl.HexToUint32LE | tcpproxy-gui/wsl.go:19-25 | the byte-reversed first 8 characters parsed as base-16 and truncated to 32 bits; its properties are the lemmas below |
| Wsl.HexToUint32LEReadsEightChars | tcpproxy-gui/wsl.go:19-20 | hexToUint32LE needs at least 8 characters and reads only the first 8 |
| Wsl.HexToUint32LEExample | tcpproxy-gui/wsl.go:20-24 | the byte pairs are reversed: "0100A8C0" decodes to 0xC0A80001 |
| Wsl.HexToUint32LERoundTrip | tcpproxy-gui/wsl.go:19-25 | every 32-bit value, rendered least-significant byte first as the kernel prints it, decodes back to itself |
| Wsl.HexToUint32LERejectsNonHex | tcpproxy-gui/wsl.go:20-23 | a non-hex character among the first 8 is an error, except a sign at index 6 |
| Wsl.HexToUint32LESignQuirk | tcpproxy-gui/wsl.go:20-24 | ParseInt accepts a sign, and hex[6] becomes the first character, so "000000-1" decodes to 0xFF000000 |
| Wsl.IsIPInRange | tcpproxy-gui/wsl.go:65-67 | the masked address equals the masked network; characterised bit by bit in the next row |
| Wsl.IsIPInRangeIffMaskedBitsAgree | tcpproxy-gui/wsl.go:65-67 | an address is in range iff it agrees with the network on every bit the mask sets; mask 0 admits every address; the network is in its own range |
| Wsl.IPv4Value | tcpproxy-gui/wsl.go:69-80 | a failure is InvalidIP when there are not exactly 4 dot-separated parts, and BadOctet otherwise |
| Wsl.IPv4ValueOkIff | tcpproxy-gui/wsl.go:69-99 | the parse succeeds iff there are exactly 4 dot-separated parts and all of them are integers |
| Wsl.IpToUint32 | tcpproxy-gui/wsl.go:69-99 | the step-by-step 32-bit accumulation of the shifted parts equals IPv4Value |
| Wsl.AccumulateOctets | tcpproxy-gui/wsl.go:81-96 | adding each shifted part with 32-bit wrap-around after every step, and 64-bit overflow on the shift, equals (a·2^24 + b·2^16 + c·2^8 + d) mod 2^32 |
| Wsl.SplitQuad | tcpproxy-gui/wsl.go:70 | a dotted quad of decimal numbers splits into exactly its four numerals |
| Wsl.IPv4ValueOfQuad | tcpproxy-gui/wsl.go:69-98 | any four decimal parts are accepted, with no 0..255 check, and give their weighted sum mod 2^32 |
| Wsl.IPv4ValueNoOctetRangeCheck | tcpproxy-gui/wsl.go:77-81 | "256.0.0.1" is accepted and wraps to 1 |
| Wsl.IPv4ValueRoundTrip | tcpproxy-gui/wsl.go:69-98 | ipToUint32 inverts the usual dotted-quad rendering of every 32-bit address |
| Wsl.RouteRows | tcpproxy-gui/wsl.go:34-37 | the route output trimmed, split into lines, header line dropped |
| Wsl.RouteRow | tcpproxy-gui/wsl.go:46-59 | "failed to convert network" iff field 1 is not 00000000 and does not decode; "failed to convert netmask" iff the network step passed and field 7 is not 00000000 and does not decode; on success each part is the decoding of its field, or unchanged when the field is 00000000 |
| Wsl.ScanRoutes | tcpproxy-gui/wsl.go:38-60 | the row-by-row scan; it fails only with the network or the netmask conversion error (when it fails: ScanRoutesFailure and ScanRoutesFailsAt) |
| Wsl.GetRouteInfo | tcpproxy-gui/wsl.go:33-62 | the loop (header dropped, break once net and mask are nonzero, non-eth0 rows skipped) returns the result of the scan ScanRoutes |
| Wsl.ScanRoutesIgnoresOtherInterfaces | tcpproxy-gui/wsl.go:43-45 | the scan gives the same result over the eth0 rows alone |
| Wsl.RouteStep | tcpproxy-gui/wsl.go:38-59 | past a row that is not eth0 or whose fields convert, the network (mask) is exactly the decoded field 1 (field 7) when that row is eth0 and the field is not 00000000, and unchanged otherwise; the rest of the scan gives the same result |
| Wsl.LastDecodedNone | tcpproxy-gui/wsl.go:43-59 | when no row reached stores the field, the starting value is kept |
| Wsl.LastDecodedIsLast | tcpproxy-gui/wsl.go:43-59 | the value held after a run of rows is the decoded field of the LAST eth0 row in it whose field is not 00000000 |
| Wsl.ScanRoutesResult | tcpproxy-gui/wsl.go:38-60 | a successful scan returns, for some m, the last stored network and mask over the first m rows; it stops at m because both are nonzero there or the rows ran out, and not earlier |
| Wsl.FailsAtCons | tcpproxy-gui/wsl.go:38-59 | the scan fails at row m + 1 iff it passes row 0 without completing and then fails at row m of the remaining rows |
| Wsl.ScanRoutesFailsAt | tcpproxy-gui/wsl.go:38-59 | if the scan reaches row m (no earlier prefix made net and mask both nonzero), every earlier row passes, and row m is an eth0 row whose conversion fails, the scan returns exactly that row's "failed to convert network" or "failed to convert netmask" error |
| Wsl.ScanRoutesFailure | tcpproxy-gui/wsl.go:38-59 | conversely, a failed scan failed at such a row m, with that row's error; with ScanRoutesResult this covers every outcome |
| Wsl.ScanRoutesStopsWhenComplete | tcpproxy-gui/wsl.go:40-42 | once the network and the mask are both nonzero, later rows are neither read nor required to be readable |
| Wsl.ScanFib | tcpproxy-gui/wsl.go:118-132 | the backward fib_trie scan fails only with "unable to find IP" or "failed to convert ip" |
| Wsl.FibLines | tcpproxy-gui/wsl.go:113-117 | the fib_trie output trimmed and split into lines |
| Wsl.LocalIP | tcpproxy-gui/wsl.go:112-117 | blank fib_trie output, and only blank output, is the "invalid output" error |
| Wsl.ScanFibFindsLastInRange | tcpproxy-gui/wsl.go:118-129 | a found address comes from the last marker line whose address parses and is in range; every later marker line was parsed and rejected |
| Wsl.ScanFibStopsAt | tcpproxy-gui/wsl.go:118-132 | when marker line i has an address that is not rejected and every later marker line is rejected, the scan returns "failed to convert ip" for that address if it does not parse, and that address (which is in range) otherwise |
| Wsl.ScanFibFinds | tcpproxy-gui/wsl.go:118-129 | converse of ScanFibFindsLastInRange: if marker line i holds an in-range address and every later marker line is rejected, the scan returns that address |
| Wsl.ScanFibBadAddress | tcpproxy-gui/wsl.go:121-126 | "failed to convert ip" names the unparsable address of the marker line where the scan stops; every later marker line was parsed and rejected |
| Wsl.ScanFibNotFound | tcpproxy-gui/wsl.go:118-132 | "unable to find IP" iff every marker line names a parsable address outside the range |
| Wsl.FibStep | tcpproxy-gui/wsl.go:119-130 | one backward step: a non-marker line is skipped; at a marker line, an unparsable address is an error, an in-range address is returned, an out-of-range one is skipped |
| Wsl.GetWSLIP | tcpproxy-gui/wsl.go:101-133 | a route error is passed on; otherwise the result is LocalIP of the route found and the fib_trie output |
| Wsl.LittleEndianUnits | tcpproxy-gui/wsl.go:179-183 | the bytes are read as len/2 little-endian 16-bit units |
| Wsl.UTF16toUTF8 | tcpproxy-gui/wsl.go:178-187 | fewer than 2 bytes give ""; the text has at most len/2 characters |
| Wsl.UnitsOfBytes | tcpproxy-gui/wsl.go:183 | reading units from the little-endian bytes of units gives those units back |
| Wsl.UTF16toUTF8RoundTrip | tcpproxy-gui/wsl.go:178-187 | text written as UTF-16LE decodes back to itself |
| Wsl.UnitsIgnoreOddByte | tcpproxy-gui/wsl.go:179 | a trailing odd byte adds no unit |
| Wsl.UTF16toUTF8DropsOddByte | tcpproxy-gui/wsl.go:179-186 | a trailing odd byte is dropped |
| Ints.Uint32OfWraps | tcpproxy-gui/wsl.go:24 | Go's uint32(x) differs from x by a multiple of 2^32 |
| Ints.Int64Of | tcpproxy-gui/wsl.go:81 | a value of Go's signed 64-bit int lies in [-2^63, 2^63) |
| Ints.Int64OfWraps | tcpproxy-gui/wsl.go:81 | a 64-bit overflow changes the exact value by a multiple of 2^64 |
| Ints.Uint32OfInt64 | tcpproxy-gui/wsl.go:81-91 | truncating to 32 bits after a 64-bit overflow equals truncating at once |
| Ints.Uint32OfAdd | tcpproxy-gui/wsl.go:81-96 | a 32-bit sum that wraps at each step equals the wrapped exact sum |
| Ints.BitOfBitAnd | tcpproxy-gui/wsl.go:66 | bit i of a & b is set iff bit i is set in both |
| Ints.EqualByBits | tcpproxy-gui/wsl.go:66 | two numbers below 2^n are equal if their low n bits agree |
| Strings.TrimSpaceTrims | tcpproxy-gui/wsl.go:35 | TrimSpace keeps a contiguous middle of the text and drops only white space before and after it |
| Strings.TrimSpaceEnds | tcpproxy-gui/wsl.go:35 | the result starts and ends with a non-space character, or is empty |
| Strings.Split | tcpproxy-gui/wsl.go:36 | there is always at least one piece, and no piece contains the separator |
| Strings.JoinSplit | tcpproxy-gui/wsl.go:36 | joining the pieces with the separator gives the text back |
| Strings.SplitAtFirst | tcpproxy-gui/wsl.go:70 | the text before the first separator is the first piece |
| Strings.FieldsAreWords | tcpproxy-gui/wsl.go:39 | every field is a non-empty run of non-space characters |
| Strconv.ParseInt | tcpproxy-gui/wsl.go:20 | an accepted value fits a signed 64-bit integer |
| Strconv.ParseIntAccepts | tcpproxy-gui/wsl.go:20 | an accepted string is an optional sign followed by one or more digits of the base |
| Strconv.DigitsValue | tcpproxy-gui/wsl.go:20 | the digit scan gives the numeral's value exactly when every character is a digit of the base |
| Strconv.ParseIntOfDigits | tcpproxy-gui/wsl.go:20 | unsigned digits whose value fits 64 bits parse to that value |
| Strconv.Atoi | tcpproxy-gui/wsl.go:77 | ParseInt in base 10 |
| Strconv.AtoiFormatDecimal | tcpproxy-gui/wsl.go:77 | Atoi reads back every decimal numeral that fits 64 bits |
| Utf16.Decode | tcpproxy-gui/wsl.go:185 | each rune takes one or two units |
| Utf16.DecodeEncode | tcpproxy-gui/wsl.go:185 | decoding undoes the UTF-16 encoding of any text |
| Utf16.UnpairedLowSurrogate | tcpproxy-gui/wsl.go:185 | a low surrogate not preceded by a high one becomes U+FFFD |
| Utf16.UnpairedHighSurrogate | tcpproxy-gui/wsl.go:185 | a high surrogate not followed by a low one becomes U+FFFD |
| Proxy.Held | tcpproxy-gui/proxy.go:38-40 | the ports bound by listening for the given rules in order |
| Proxy.HeldMembers | tcpproxy-gui/proxy.go:38-40 | the ports held after listening for some rules are exactly their nonzero `from` ports |
| Proxy.Binds | tcpproxy-gui/proxy.go:38-40 | the listen for rule i succeeds iff its port is not occupied from outside and not already bound by an earlier rule |
| Proxy.FirstBindFailure | tcpproxy-gui/proxy.go:38-44 | the first rule whose listen fails, if any |
| Proxy.FirstBindFailureFrom | tcpproxy-gui/proxy.go:38-44 | the result is the first rule whose listen fails, with every rule before it succeeding; None means every listen succeeds |
| Proxy.StartSucceedsIff | tcpproxy-gui/proxy.go:38-51 | every listen succeeds iff no rule's port is occupied from outside and no nonzero port appears in two rules |
| Proxy.TaskMap.constructor | tcpproxy-gui/app.go:32-41 | the registry map starts empty |
| Proxy.OnClose.Run | tcpproxy-gui/app.go:58-60 | the callback removes exactly its task's name from the registry |
| Proxy.ProxyTask.constructor | tcpproxy-gui/proxy.go:25-34 | NewProxyTask copies name, host and rules; the stop signal is not given; no callback is set |
| Proxy.ProxyTask.Start | tcpproxy-gui/proxy.go:36-52 | the callback is recorded first. If every listen succeeds, it returns no error and has launched one forwarder per rule, in order. Otherwise, at the first failing rule k, it returns that port's error, has launched forwarders for rules before k only, is stopped, and the callback has run |
| Proxy.ProxyTask.Stop | tcpproxy-gui/proxy.go:53-58 | needs a task not yet stopped (a second close panics); afterwards it is stopped and the callback, if set, has run |
| App.IndexOf | tcpproxy-gui/app.go:80-81 | the position of the first configuration with that name, or none when no entry has it |
| App.Saved | tcpproxy-gui/app.go:78-87 | the list after saving a configuration; its shape is SavedShape |
| App.Removed | tcpproxy-gui/app.go:88-96 | the list after deleting a name; its shape is RemovedShape |
| App.Lookup | tcpproxy-gui/app.go:98-105 | a found entry is in the list and has the name; none iff no entry has the name |
| App.LookupIsFirst | tcpproxy-gui/app.go:98-105 | lookup gives c iff c is the first entry with that name |
| App.SavedShape | tcpproxy-gui/app.go:78-87 | when some entry has t's name, the length is kept and the entry at an index i is replaced by t, where i holds t's name and no entry before i does (the first namesake), and every other entry stays; when none has it, t is appended at the end |
| App.LookupAfterSave | tcpproxy-gui/app.go:78-105 | right after saving t, looking up t's name gives t |
| App.LookupOtherAfterSave | tcpproxy-gui/app.go:78-105 | saving leaves the lookup of every other name unchanged |
| App.SaveIdempotent | tcpproxy-gui/app.go:78-87 | saving the same configuration twice is the same as saving it once |
| App.RemovedShape | tcpproxy-gui/app.go:88-96 | deleting cuts out exactly the first namesake, keeps the rest in order and as a multiset, and changes nothing when there is none |
| App.LookupOtherAfterRemove | tcpproxy-gui/app.go:88-105 | deleting leaves the lookup of every other name unchanged |
| App.App.constructor | tcpproxy-gui/app.go:16-42 | the registry starts empty, and the configuration list starts as the two built-in tasks |
| App.App.IsTaskRun | tcpproxy-gui/app.go:71-74 | true iff the name is registered |
| App.App.StartTask | tcpproxy-gui/app.go:52-65 | a running name gives "already running" and leaves the registry unchanged. A failed listen gives that error and restores the registry. Success registers a fresh task with the given name, host and rules, one forwarder per rule, and leaves every other name as it was. The registry invariant is kept |
| App.App.StopTask | tcpproxy-gui/app.go:66-70 | the name is no longer registered and every other entry stays; its task, if any, is stopped; only the registry and that one task may change, so no other running task is touched; an absent name changes nothing |
| App.App.GetAllTask | tcpproxy-gui/app.go:75-77 | the saved configurations, in order |
| App.App.SaveTask | tcpproxy-gui/app.go:78-87 | the loop leaves the list as Saved of the old list |
| App.App.DelTask | tcpproxy-gui/app.go:88-96 | the running task of that name, if any, is stopped and unregistered, and no other running task changes; the list becomes Removed of the old list; the registry invariant is kept |
| App.App.DeleteConfig | tcpproxy-gui/app.go:90-95 | the loop leaves the list as Removed of the old list |
| App.App.GetTask | tcpproxy-gui/app.go:98-105 | the loop returns the first entry with that name, or none |

## Left out

- Running `wsl.exe` (`exec.Command` in `getRouteInfo`, `GetWSLIP` and
  `initwsl`). The scans take the command output as a string parameter, and a
  command failure is not modelled.
- `initwsl`, which builds the configuration list from the distributions that
  `wsl.exe -l` lists. It is command I/O around `GetWSLIP` and `SaveTask`-like
  appends.
- Go strings are UTF-8 byte strings. Here they are sequences of Unicode
  characters, so byte-level slicing of non-ASCII text is not captured.
  `unicode.IsSpace` is modelled on characters.
- Strconv.ParseInt: the syntax and range errors are one `None`, because
  callers only test `err != nil`. The wrapped error text of each
  `fmt.Errorf` is a `WslError` constructor.
- `UTF16toUTF8` reinterprets the byte slice as `[]uint16` through `unsafe`.
  This is modelled as little-endian byte-pair decoding, which is what the
  reinterpretation does on the little-endian machines the program runs on.
- Proxy.ProxyTask.Start: the `sync.WaitGroup`, the forwarder goroutines
  (`proxyStart`, `handle`, the accept loop, dialing, `io.Copy`) and the
  watcher that closes a listener once the stop signal is given are not
  modelled. A launched forwarder is recorded only as its rule in
  `forwarders`.
- `net.Listen` can fail for reasons other than an occupied port. The oracle
  `busy` stands for every port on which listening fails.
- App.App.GetAllTask: the returned slice aliases `g_Tasks`, and
  `append(g_Tasks[:i], g_Tasks[i+1:]...)` in `DelTask` shifts that shared
  array in place. Here the list is a value, so a caller's earlier copy never
  changes.
- `saveConfig`, the deferred call in `SaveTask`, and `init`: JSON
  persistence to `config.json`, which is file I/O.
- The systray and Wails runtime (`startup`, `systemTray`, `beforeClose`,
  `Quit`, `onShutdown`) and the `ctx` and `canQuit` fields.
- All logging (`fmt.Printf`, `slog`).
- A `ProxyTask` is not stopped a second time only because the registry forgets
  it once stopped. A second `StopTask` finds no entry and changes nothing: its
  frame is the registry plus the task registered under that name. `ProxyTask.Stop` itself is not idempotent: it
  requires a task that has not been stopped.
