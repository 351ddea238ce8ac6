# multiuser-fluid presence relay, in Dafny

This project models the WebSocket presence relay of multiuser-fluid
(`server.js`) and proves properties of that model. The relay keeps two
structures:

- the live connections (`clients`), in arrival order;
- a 255-slot table (`room`), which hands each connection a one-byte identity.

Around them sit these operations, and the model covers each of them:

- admission (`add`): lowest free slot, and the peer address made unique with a ` (n)` suffix;
- removal (`remove`);
- the broadcast filter (`broadcast`);
- the binary roster (`getUsers`, tag 0, 17 bytes per client);
- `ip2long`, the IPv4 packer the roster uses;
- the inbound message handler: byte 1 stamped with the sender's identity, then tag 1 latency, tag 2 nickname, tag 3 relay;
- the 10-byte heartbeat frame;
- the 30-minute idle sweep.

Node runs every handler to completion on one event loop. So each handler is
one method of the `Relay.Server` class, and the per-connection fields
(`_id`, `_idle`, `_nickname`, `_remoteAddress`, `_latency`) are fields of
`Relay.Socket`. Sends and terminations are returned as a list of effects
instead of reaching a network. Time is a parameter `now`.

Modules:

- `Js`: the JavaScript built-ins the relay leans on. `undefined` is `None`, a thrown exception is `Throw`, and the module defines `indexOf`, `split` on one character, `join`, `trim`, `parseInt(s, 10)` and the decimal text of a number.
- `Wire`: bytes, big-endian integers, the identity byte, the heartbeat frame and the latency sample.
- `Address`: `getRemoteAddress`, the ` (n)` de-duplication loop of `add`, and `ip2long` with ECMAScript ToInt32/ToUint32 wrap-around.
- `Roster`: the roster message as a function of the clients' fields (`Roster.Users`), with its layout and its exceptions.
- `Relay`: `Socket`, `Server` and the per-client views (`Entries`, `Addresses`, `Recipients`, `Sends`, `Terminations`). `Server` holds the handlers. The in-place `getUsers` writer (`WriteRecords`, `WriteNext`, `WriteRecord`, `WritePadded`, `WriteUIntBE`) is a set of module-level methods over the buffer.

`Server.Valid()` is the bookkeeping every handler keeps:

- `clients` has no repeats;
- every occupied slot `k` holds a live connection with identity `k`;
- every live connection with an identity sits in that identity's slot;
- no two live connections share an address.

Behaviours of the code worth knowing:

- **A connection that arrives with all 255 slots taken is not rejected.** `add` pushes it onto `clients` first (server.js:66), so it stays listed with no identity, address or nickname. The roster reads `Buffer.from(undefined)` for it and throws TypeError. In the model, every roster push from then on throws until that connection closes. Before a tag-2 message it has no nickname (`Relay.UnplacedStallsRoster`). A tag-2 message gives it one, but it still has no address: only admission to a slot sets `_remoteAddress`, so `ip2long(undefined)` throws TypeError at `split` (server.js:54, 196; `Relay.UnaddressedStallsRoster`). The first such push is the newcomer's own `users()` at connect time (server.js:167). It runs inside the route callback given to `app.ws`, so the exception leaves that callback; what the web framework then does with it is outside this model. Later pushes throw from the `close` and `message` listeners and the sweep timer (server.js:128, 144, 184), where the exception is uncaught and by default ends the Node process. Its messages are stamped with identity 0, the same as slot 0's, so its tag-3 relays go out under slot 0's identity (`Relay.UnplacedSpeaksAsSlotZero`).
- **Malformed messages are not ignored.** A message shorter than 2 bytes throws RangeError at the write of byte 1 (server.js:136). A tag-1 message shorter than 10 bytes throws at `readBigUInt64BE` (server.js:140). Unknown tags are ignored.
- **Latency is clamped from above only** (server.js:140). An echoed timestamp later than `now` stores a negative latency. The next roster then throws RangeError at `writeUInt16BE` (`Roster.Writable`, `Roster.UsersThrows`).
- **The identity byte is the slot**, and an unset `_id` is written as 0.
- **An idle mark is set at admission** (server.js:81), so a connection that never speaks expires 30 minutes after it connected. Only a mark reset to 0 by a message is restamped by the next sweep (server.js:176-177).

## Model

| member | source | states |
|---|---|---|
| Js.IndexOf | server.js:94 | `indexOf` is -1 exactly when the element is absent; otherwise the index holds it and no earlier index does |
| Js.Split | server.js:24 | `split` on one character returns at least one piece, and no piece contains the separator |
| Js.JoinSplit | server.js:196 | joining the pieces of a split with the separator gives back the original string |
| Js.SplitJoin | server.js:196 | splitting a join of separator-free pieces gives back the pieces |
| Js.SplitCons | server.js:24 | a separator-free prefix followed by the separator is the first piece of the split |
| Js.TrimIsInfix | server.js:24 | `trim` keeps a contiguous slice of its input, which starts and ends on non-white characters, and drops only white space before and after it |
| Js.TrimTrimmed | server.js:24 | `trim` leaves a string without surrounding white space unchanged |
| Js.DigitPrefix | server.js:198 | the digit run `parseInt` reads is a prefix, all digits, and ends at a non-digit or at the end |
| Js.DecimalString | server.js:77 | the rendered number is a non-empty string of decimal digits, with no leading zero |
| Js.DecimalRoundTrip | server.js:77 | reading back the decimal text of `n` gives `n` |
| Js.DecimalInjective | server.js:77 | different counts render as different texts |
| Js.ParseInt | server.js:198 | `parseInt(s, 10)`: leading white space, an optional sign, then the longest digit run, and NaN without digits; its reading of rendered numbers is stated by `Js.ParseDecimal` |
| Js.ParseDecimal | server.js:198 | `parseInt` of a rendered number followed by a non-digit returns that number |
| Wire.ToBigEndian | server.js:54-55 | `writeUIntBE` of an in-range value writes exactly `width` bytes |
| Wire.FromBigEndian | server.js:140 | a big-endian read is always below 256^width |
| Wire.DecodeEncode | server.js:54-55 | reading back what was written big-endian gives the value |
| Wire.EncodeDecode | server.js:140 | writing back what was read big-endian gives the bytes |
| Wire.IdByte | server.js:136 | the identity byte is the slot, and 0 for an unset `_id` |
| Wire.HeartbeatFrame | server.js:155-158 | the heartbeat is 10 bytes: tag 1, the identity, then bytes that read back as `now` |
| Wire.MeasuredLatency | server.js:140 | the sample is `now` minus the echoed timestamp when that is at most 65535, and 65535 otherwise; it never exceeds 65535 |
| Wire.EchoLatency | server.js:140 | a heartbeat echoed unchanged yields `min(65535, received - sent)`, whatever byte 1 became |
| Address.RemoteAddress | server.js:23-25 | the resolved address holds no comma and has no surrounding white space; which element it is, for every input, is stated by `Address.FirstHop` |
| Address.FirstHop | server.js:23-25 | when the non-empty header, or else the peer address, is a comma-free `first` followed by nothing or a comma, the result is `first` trimmed: a single hop, a chain and a peer that needs trimming alike |
| Address.FirstHopExists | server.js:24 | every source string splits that way, at its first comma or at its end, so `Address.FirstHop` covers every input |
| Address.RemoteAddressOfChain | server.js:24 | a forwarded-for chain `first, rest` resolves to `first`, trimmed, which holds no comma |
| Address.RemoteAddressOfPeer | server.js:24 | without the header, or with an empty header, a clean peer address is used as it is |
| Address.CandidateInjective | server.js:75-77 | different counts give different candidate addresses |
| Address.CandidatesCount | server.js:75-77 | the first `n` candidates are `n` different strings |
| Address.Dedup | server.js:72-78 | the loop stops at the first candidate that is free, after at most one more try than there are live addresses |
| Address.DeduplicatedShape | server.js:70-78 | the stored address is free; it is the base when the base is free, and otherwise `base (k)` for the least free `k >= 2` |
| Address.DeduplicatedUnique | server.js:70-78 | the de-duplicated address is determined by the base and the live addresses |
| Address.ToInt32 | server.js:197 | `<<=` wraps to a signed 32-bit value, and NaN becomes 0 |
| Address.ToUint32 | server.js:200 | `>>> 0` wraps to an unsigned 32-bit value, and NaN becomes 0 |
| Address.WrapCongruent | server.js:197-200 | both wraps keep the value modulo 2^32 and agree once read as unsigned |
| Address.Ip2Long | server.js:194-201 | `ip2long` always returns a value below 2^32 |
| Address.Step | server.js:197-198 | one `forEach` step: shift left by 8 as int32, then add the parsed octet, NaN when it does not parse; its effect on octets below 256 is stated by `Address.FoldOctets` |
| Address.Fold | server.js:196-199 | the `forEach` over the pieces, left to right; stated by `Address.Pack` and `Address.FoldOctets` |
| Address.Pack | server.js:194-201 | the `forEach` loop computes `ip2long` |
| Address.FoldOctets | server.js:196-200 | four octets below 256 fold to `a*2^24 + b*2^16 + c*2^8 + d`, including when the last shift wraps negative |
| Address.Ip2LongQuad | server.js:194-201 | `ip2long("a.b.c.d")` packs the octets most significant first |
| Address.Ip2LongQuadTail | server.js:194-201 | text after the last octet that holds no dot and starts with no digit does not change the packed value |
| Address.Ip2LongIgnoresSuffix | server.js:77 | a de-duplicated `a.b.c.d (k)` packs to the same value as `a.b.c.d` |
| Roster.Pad10 | server.js:50-52 | the nickname field is the first 10 encoded bytes, zero-padded |
| Roster.EncodeRecord | server.js:46-55 | a record is 17 bytes |
| Roster.RecordsLayout | server.js:43-58 | when every client is writable, record `i` sits at bytes `17i..17i+17` of the records |
| Roster.RecordsOkWritable | server.js:43-58 | the records build only when every client is writable |
| Roster.RecordsThrow | server.js:43-58 | the first client that is not writable decides the exception |
| Roster.RecordFields | server.js:46-55 | each field of a record reads back as the identity, nickname, packed address and latency |
| Roster.Users | server.js:31-63 | `getUsers` gives nothing exactly when there are no clients; a built roster is `1 + 17N` bytes with tag 0 first |
| Roster.UsersLayout | server.js:31-63 | no clients give nothing; otherwise `1 + 17N` bytes, tag 0, and client `i`'s record at `1 + 17i` |
| Roster.UsersThrows | server.js:31-63 | `getUsers` throws exactly when some client is not writable, with the first such client's exception |
| Relay.Socket.Accepted | server.js:121 | a new connection is open and carries none of the relay's fields |
| Relay.EntriesAt | server.js:44 | entry `i` of the roster input is what `getUsers` reads off `clients[i]` |
| Relay.Addresses | server.js:27-29 | `getRemoteAddresses` lists at most one address per connection; which ones is stated by `Relay.AddressesExactly` |
| Relay.AddressesExactly | server.js:27-29 | `getRemoteAddresses` lists exactly the addresses the connections carry |
| Relay.Recipients | server.js:108-113 | the broadcast filter keeps at most every connection; which ones is stated by `Relay.RecipientsExactly` |
| Relay.RecipientsExactly | server.js:107-115 | a connection receives a broadcast exactly when it is live, open and not the origin |
| Relay.SendsAt | server.js:107-115 | send `i` carries the data unchanged to recipient `i` |
| Relay.RecipientsInOrder | server.js:107-115 | the recipients are `clients` read at strictly increasing positions, so the sends go out in `clients` order |
| Relay.SendsExactly | server.js:107-115 | a connection receives the data exactly when it is live, open and not the origin |
| Relay.RecipientsDistinct | server.js:107-115 | over a list without repeats, no recipient and no send repeats, so each connection receives the data once |
| Relay.WithoutMembers | server.js:93-98 | after removal, the list holds everything but the removed connection |
| Relay.WithoutSplice | server.js:94-97 | `splice(indexOf(ws), 1)` on a list that holds `ws` once drops exactly `ws` |
| Relay.WithoutTwice | server.js:93-105 | removing twice is removing once |
| Relay.DistinctPairs | server.js:66 | a list without repeats is one where no two positions hold the same connection |
| Relay.UsersCall | server.js:117-119 | `users(origin)` sends nothing when it throws and nothing when there are no clients |
| Relay.UnplacedStallsRoster | server.js:48 | a listed connection without a nickname makes every roster push throw and send nothing |
| Relay.UnaddressedStallsRoster | server.js:54 | a listed connection without an address, which an unplaced connection stays even after a rename, makes every roster push throw and send nothing |
| Relay.UnplacedSpeaksAsSlotZero | server.js:136 | a connection without an identity stamps its messages with slot 0's identity byte |
| Relay.SweepClearsReset | server.js:176-177 | after a sweep no client still has the reset mark 0, and a second sweep at the same instant restamps nothing |
| Relay.TerminateStops | server.js:179 | a terminated connection is no longer open, so no broadcast reaches it, and terminating it again changes nothing |
| Relay.Expired | server.js:178 | a set, non-zero mark strictly before `now - 1800000` expires; the strict threshold is stated by `Relay.ExpiryThreshold` |
| Relay.TerminationsExactly | server.js:173-182 | the sweep terminates exactly the live clients whose mark has expired |
| Relay.MarkIdle | server.js:173-182 | the sweep loop restamps reset marks, terminates expired clients and lists those terminations |
| Relay.ExpiryThreshold | server.js:171-178 | the threshold is strict: exactly 30 minutes survives, one millisecond more expires, and a mark of 0 never expires |
| Relay.SilenceAfterMessage | server.js:134 | after a message, the next sweep restamps and keeps the client, and a later sweep drops it exactly when more than 30 minutes have passed since the restamp |
| Relay.Server.constructor | server.js:20-21 | a relay starts with no connections and all 255 slots free |
| Relay.Server.SlotsUnique | server.js:80-86 | two live connections with the same identity are the same connection |
| Relay.Server.Add | server.js:65-91 | `ws` is appended; it takes the lowest free slot, an idle mark of `now`, an empty nickname and the de-duplicated address; no other slot changes; with no free slot it stays listed with nothing attached; the bookkeeping holds |
| Relay.Server.FreeSlot | server.js:68-69 | the scan returns the lowest free slot, or -1 when every slot is taken |
| Relay.Server.Enlist | server.js:66 | the push appends `ws` and leaves the slot table and the address list alone |
| Relay.Server.Admit | server.js:70-86 | the free-slot branch fills only slot `i` and attaches identity, idle mark, nickname and de-duplicated address |
| Relay.Server.Remove | server.js:93-105 | `ws` leaves `clients` and its slot; the others keep their order; a connection that is not there changes nothing; the bookkeeping holds |
| Relay.Server.Broadcast | server.js:107-115 | the sends are those to the recipients, in `clients` order |
| Relay.Server.GetUsers | server.js:31-63 | the in-place buffer build returns the roster, or the first client's exception |
| Relay.Server.Users | server.js:117-119 | `users(origin)` sends the roster to each recipient, or throws and sends nothing |
| Relay.Server.Heartbeat | server.js:153-164 | an open connection gets its heartbeat frame and the tick reschedules; otherwise nothing happens |
| Relay.Server.OnConnect | server.js:121-168 | admission with its slot, idle mark, nickname and de-duplicated address as in `Relay.Server.Add`, then the first heartbeat, then the roster to every open connection |
| Relay.Server.OnClose | server.js:126-131 | removal, then the roster to every open connection except the one that closed |
| Relay.Server.OnMessage | server.js:133-151 | the idle mark goes to 0 and byte 1 gets the sender's identity; then tag 1 stores the latency sample, tag 2 the decoded nickname and pushes the roster to the others, tag 3 relays the stamped message to the others; other tags do nothing; short messages throw RangeError |
| Relay.Server.Dispatch | server.js:138-148 | the tag switch on the stamped message, each case as in the row above |
| Relay.Server.Rename | server.js:142-145 | the nickname becomes the UTF-8 decode of bytes 2.., then the roster goes to the others |
| Relay.Server.Sweep | server.js:170-185 | each client is restamped or terminated as the sweep rule says; the sends are those terminations then the roster to every open connection; the bookkeeping holds |
| Relay.WriteRecords | server.js:41-58 | the loop writes the records back to back from byte 1, or stops with the first client's exception |
| Relay.WriteRecord | server.js:44-55 | one client's writes give its 17-byte record and keep the earlier bytes, or throw TypeError or RangeError as the fields demand |
| Relay.WritePadded | server.js:50-52 | the nickname loop writes the padded 10-byte field |
| Relay.WriteUIntBE | server.js:54-55 | a big-endian write puts `ToBigEndian` at the offset and keeps the earlier bytes |

## Left out

- The transport is not modelled: express, static serving, `express-ws`, `app.listen` and the socket I/O (server.js:7-16, 189-191). A send or a termination is an `Effect` in the returned list. `readyState` is a field that only `terminate()` changes.
- `console.log` calls are left out because they have no effect on state.
- Timers are not modelled. `setTimeout` and `setInterval` (server.js:162, 170) become methods called with `now`, and `Date.now()` becomes the parameter `now`. `Relay.Server.Heartbeat` reports whether the tick reschedules itself; it does not schedule it.
- Relay.Server.Sweep: the source reads `Date.now()` twice, for the threshold and for each restamp. The two reads differ by the running time of the loop. The model uses one `now` for both and ignores that difference.
- UTF-8 is not modelled. Encoding and decoding are a pair of functions fixed when the server is built, with nothing assumed about them.
- Relay.Server.OnMessage, Relay.Server.OnClose, Relay.Server.Sweep, Relay.Server.OnConnect: the model says nothing about what a thrown exception does after it leaves the handler. A throw inside the listeners and the sweep timer is uncaught, and by default it ends the Node process; a throw from `OnConnect` leaves the route callback given to `app.ws`, and what the web framework does with it is not part of this model. The model returns it as `Threw`, stops the handler where the source stops, and lets the relay go on.
- Relay.Server.GetUsers: the model reads the clients' fields before the loop (`Entries`). This is the same as the source, because nothing changes them while the loop runs.
- Relay.Server.OnMessage: the model takes the 64-bit timestamp as an unbounded natural. `Number(BigInt)` loses precision above 2^53, which `now` (below 2^53) never reaches, but an echoed timestamp can.
- Address.Ip2Long: `parseInt` is modelled on decimal integers. A `+`/`-` sign, leading white space and a trailing non-digit are handled. Inputs that make `parseInt` return a value beyond 2^53 are not treated specially.
- The browser client code is not part of this model: the render, audio and UI controllers.
