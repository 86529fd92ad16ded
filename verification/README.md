# Robot fleet coordinator: registry, clock offsets, movement queue and relay

This project models the core of the coordinator in `server/server.go`. Robots register with it over HTTP (`/reg`). The coordinator gives each robot a logical ID and records how far the robot's clock is from its own. Movement commands posted to `/mov` go into a small bounded channel. `doMovPost` is the function that would forward a command to a robot's own HTTP server.

The modules are:

- `Clock` (clock.dfy): Go's `int64` and its two's-complement wrap-around. It defines the clock offset `t - reqBody.Clock`, with the arrival time `t` passed in as a parameter.
- `Decimal` (decimal.dfy): the decimal rendering used by `%d` and `strconv.Itoa`, plus a parser that reads it back.
- `Registration` (registration.dfy): the registry state `bot` (ID to self-reported address) and `clocks` (ID to offset).
  - As a value, the state is `Devices`, and `Registered` is one registration step.
  - As the object the handler mutates, the state is the class `Registry`. `Registry.Find` is the scan loop and `Registry.Register` is the append.
  - `Resolve` is the lookup `bot[botID]`.
- `RegistrationHistory` (history.dfy): a whole run of registrations starting from an empty registry. It covers which ID each robot receives and which offset is kept.
- `Movement` (movement.dfy): the buffered channel `mov` of capacity `n = 2`, modelled as a bounded FIFO class `MovQueue`. Ghost logs record what was sent and what was received.
- `Relay` (relay.dfy): the `movCMD` codes, the body `"<code>,<magnitude>"`, the URL `http://<address>/mov`, and the request `doMovPost` builds.

Notes on how the model reads the code:

- `bot` is declared as `map[int]string` (line 35), but the handler appends to it like a slice and uses `len(bot)` as the next ID (lines 168, 171). It is modelled as a sequence indexed by ID.
- The scan `for id, ip := range bot` (lines 160-165) sets `newID` on every match, with no early exit, so the last match in iteration order wins. Go visits map entries in an unspecified order. The model visits IDs in increasing order, so among equal addresses the highest ID wins. Registration keeps addresses unique (`RegisterPreservesWellFormed`), so at most one entry ever matches and the order makes no difference.
- `t - reqBody.Clock` (line 173) is an `int64` subtraction and wraps on overflow. `ClockOffset` writes out the wrap. When the difference fits in `int64`, the offset is exact.
- Resolving an ID (line 99) is `bot[botID]`. On the declared map, an unknown ID would give the empty address. On the slice that the appends assume, it would panic. The model returns `None` for an unknown ID, the "not found" outcome, and does not require a valid ID.
- The source never receives from `mov`: no consumer exists. `MovQueue.Pop` models the receive that a consumer would perform on the channel.

## Model

| member | source | states |
|---|---|---|
| `Clock.ClockOffset` | server/server.go:173 | The offset equals arrival minus device clock when that difference fits in int64. Otherwise it is that difference shifted by exactly one 2^64 step (two's-complement wrap). |
| `Clock.OffsetAlignsClock` | server/server.go:173 | Adding the stored offset to the device's reported clock, in int64, gives back the coordinator's arrival time, even when the subtraction wrapped. |
| `Decimal.Itoa` | server/server.go:176 | The rendering is non-empty. It starts with '-' exactly when the number is negative, and everything else is decimal digits. It is in canonical form: a non-negative number has no leading zero unless it is 0 itself, and a negative number has at least one digit after '-' and the first of them is not '0'. |
| `Decimal.ItoaRoundTrip` | server/server.go:98 | Parsing the `%d` rendering of any integer gives back that integer. |
| `Decimal.ItoaInjective` | server/server.go:176 | Different IDs are answered with different reply strings. |
| `Registration.Lookup` | server/server.go:159-165 | The result is "not found" exactly when the address is not in `bot`. Otherwise it is an ID holding the address, and no higher ID holds it (the last match is kept). |
| `Registration.LookupUnique` | server/server.go:160-165 | When addresses are unique, the scan finds exactly the one ID holding the address. |
| `Registration.Registered` | server/server.go:159-174 | The ID answered is one under which the request's address is stored afterwards. `bot` and `clocks` grow together, by at most one entry. |
| `Registration.RegisterKnown` | server/server.go:159-166 | Registering an address already present answers that device's existing ID and leaves `bot` and `clocks` unchanged. |
| `Registration.RegisterNew` | server/server.go:166-173 | Registering a new address answers `len(bot)` and only appends. Every earlier entry of `bot` and `clocks` is unchanged. The new offset is `ClockOffset(arrival, clock)`. |
| `Registration.RegisterPreservesWellFormed` | server/server.go:160-174 | Registration keeps `bot` and `clocks` the same length and keeps any address from being held by two IDs. |
| `Registration.RegisterIdempotent` | server/server.go:159-174 | Registering the same address a second time, with any clock and arrival time, answers the same ID and changes nothing. |
| `Registration.RegisteredResolves` | server/server.go:168-171 | After a registration, the ID answered resolves to the registered address. Every earlier ID resolves as before, and IDs outside the registry resolve to "not found". |
| `Registration.Resolve` | server/server.go:99 | Resolution gives an address exactly when the ID indexes the registry. That address is `bot[id]`. Any other ID gives "not found". |
| `Registration.Registry.constructor` | server/server.go:115-117 | The registry starts empty and well formed. |
| `Registration.Registry.Find` | server/server.go:159-165 | The scan loop answers -1 exactly when no ID holds the address. Otherwise it answers an ID holding it, with no higher ID holding it. |
| `Registration.Registry.Register` | server/server.go:159-174 | The handler's in-place update keeps the registry well formed. Its new state and answer are exactly those of `Registered` on the old state. |
| `Registration.Registry.HandleRegistration` | server/server.go:143-176 | The `/reg` exchange updates the registry as `Registered` does and replies with the ID in decimal. |
| `Registration.ReRegistrationKeepsFirstOffset` | server/server.go:159-173 | Address 10.0.0.5 registers with clock 1000 at arrival 1050, then again with clock 2000. Both registrations get ID 0, and the only offset kept is 50. |
| `RegistrationHistory.RegisterAll` | server/server.go:159-176 | A run of registrations answers one ID per request. |
| `RegistrationHistory.RunRegistry` | server/server.go:159-174 | After any run, the registry is well formed and holds exactly the distinct addresses in order of first registration. Each request was answered the ID its address is stored under. |
| `Registration.RegisterNewOrKnown` | server/server.go:171-173 | Any registration leaves every earlier entry of `bot` and `clocks` in place. |
| `RegistrationHistory.RunFirstRegistrations` | server/server.go:166-173 | An address's first registration gets as ID the number of distinct addresses registered before it, so the k-th distinct address gets ID k-1. The offset stored under that ID is the one computed from that first registration. |
| `RegistrationHistory.SameAddressSameId` | server/server.go:160-165 | Any two registrations of the same address are answered the same ID. |
| `RegistrationHistory.DifferentAddressDifferentId` | server/server.go:166-171 | Registrations of different addresses are answered different IDs, so no ID is reused. |
| `RegistrationHistory.NoIdSkipped` | server/server.go:168 | Every ID below the registry's size was answered to some registration, so no ID is skipped. |
| `Movement.MovQueue.constructor` | server/server.go:118 | The channel starts empty, with the given capacity, and has sent and received nothing. |
| `Movement.MovQueue.Push` | server/server.go:208 | A send is possible only when the channel is not full. It appends the command at the back and logs it as sent. |
| `Movement.MovQueue.Pop` | server/server.go:118 | A receive is possible only when the channel is not empty. It yields the oldest command and removes it. |
| `Movement.DeliveredInOrder` | server/server.go:118 | Commands are received in exactly the order they were sent, each once. No more than the capacity are ever waiting. |
| `Movement.HandleMov` | server/server.go:195-209 | The `/mov` handler enqueues the decoded command at the back and answers "thanks!". |
| `Movement.TwoCommandsInOrder` | server/server.go:38 | A channel of capacity n = 2 takes two commands, is then full, and gives them back in the order they were sent. |
| `Relay.Payload` | server/server.go:98 | The body is the movement code character ('f', 'b' or 'r' for the command), then a comma, then exactly the `%d` rendering of the magnitude. |
| `Relay.PayloadRoundTrip` | server/server.go:91-98 | A device reading the body gets back exactly the movement code and magnitude it was built from. |
| `Relay.MovUrl` | server/server.go:99 | The URL is "http://", then the device address, then "/mov". |
| `Relay.MovRequest` | server/server.go:97-99 | The relay builds a request exactly when the ID is registered. The request goes to the URL of `bot[botID]`, and its body decodes to the command and magnitude. |
| `Relay.RelayReachesRegisteredDevice` | server/server.go:99 | A relay to an ID that registration answered goes to the address that registration reported. |

## Left out

- The HTTP server, router, `/end`, `/debug`, the logging middleware, port parsing from the command line and graceful shutdown (lines 70-86, 120-142, 215-249). These are I/O and process lifecycle.
- Reading and JSON-decoding request bodies (lines 148-156, 198-207), including `log.Fatal` on a decode error in `/reg`. For `/mov`, a decode error is only printed, and the zero-valued or partly decoded record is still enqueued. The model takes decoded fields as parameters. For `/mov`, it takes whatever record decoding produced.
- Non-POST requests answered with "not implemented" (lines 177-179, 210-212). This is routing.
- `makeTimestamp` and `time.Now` (lines 65-67). The arrival time is a parameter.
- The `http.Post` call and reading the response body in `doMovPost` (lines 99-108). This is network I/O. Only the body, the URL and the address lookup are modelled. When the post fails, `resp` is nil and the deferred `resp.Body.Close()` would dereference it. That path is not modelled.
- Goroutines, concurrent handlers and blocking. Registration is modelled as one atomic step, so the data race between concurrent registrations of the same new address is not captured. A send on a full channel and a receive on an empty one are preconditions, not waits.
- The `remote` map (lines 36, 172). It is keyed by the transport address, is never read, and is marked for deletion.
- The unused `pose` and `cell` types and the `tone` constant (lines 16-25, 42).
- The registration field `Dev` and the float fields `Start`, `End` and `Rot` of `movPostData` (lines 50, 55-57). They carry no logic. A queued command carries only `ID` and `Mov`.
- `Relay.Payload`: `movCMD` is a string type, so `doMovPost` would format any string. The model takes only the three declared codes.
