# GopherChat core in Dafny

GopherChat (gchat) is a small chat system in C++. A server and scripted clients talk over TCP in
length-delimited frames. This project models its core as pure Dafny functions and proves
properties of it:

- **`surreal`** (`Surreal`, surreal.dfy): the byte serialiser. Fixed-width values are written in
  network byte order. Sized ranges and strings are written as a 64-bit count followed by the
  elements. Field-by-field structs are modelled through their packets.
- **`libchat`** (`Protocol`, libchat.dfy): the protocol. This covers the message kinds, their names
  and error meanings, `Frame`, the four packets, `get_message`, `get_frame`, `make_frame` and
  `string_okay`.
- **Delimited framing** (`Framing`, framing.dfy): the `0xFE` magic byte plus length header, and the
  incremental `recv_state` loop that the server and the client both run to cut a byte stream
  into frames.
- **`Socket`** (`Transport`, transport.dfy): `send`, `send_delimited`, `recv`, `recv_delimited` and
  `recv_all`. The kernel's answers are parameters.
- **`ServerData`** (`DataStore`, datastore.dfy): the user database and the offline-message store,
  with `find_user`, `get_user_msgs`, `clear_user_msgs` and the persisted encoding.
- **`Epoll`** (`Reactor`, reactor.dfy): the table from descriptors to registered wrappers:
  `add_item`, `add_items`, `delete_item`, `close` and `wait`. Each `epoll_ctl` or `epoll_wait`
  reply is a parameter.
- **The server** (`Server`, server.dfy): `clientHandler` for every request kind. It also covers
  connection accept and disconnect, and the read and write event handler over the session map
  and the username map. The central invariant `Valid` is proved to be preserved by every event.
  `Valid` means every bound username points at an authenticated session of that name, and every
  receive state is aligned.
- **The client** (`Client`, client.dfy): the command script parser, the timer tick, the
  acknowledgement queue handled by `serverHandler`, and the socket handler.

Modelling choices:

- **Bytes and text.** `std::string` is a byte string (`seq<bv8>`), because the serialiser copies
  one byte per character.
- **Byte order.** The host is little-endian, so `htons`, `htonl` and their inverses swap bytes.
  The wire format that results is big-endian, and the contracts state it that way.
- **Range counts.** A range count is a `std::size_t`. `PutSize` writes the count modulo 2^64, and
  every round-trip lemma requires fewer than 2^64 elements.
- **Running out of bytes.** Reading past the end of the buffer is undefined in the source (it
  calls `front()` on an empty deque). The model reports it as the error `Truncated` instead.
- **Sender of a file transfer.** `server.cpp` reads `contents.username` from a `FilePacket`, but
  the struct at lib/libchat.hpp:104-112 has no such field. The model gives `FilePacket` a
  `username` field, serialised last.
- **Code defects shown by no input.** Three defects are modelled by what the code evidently means,
  because no input exhibits them:
  - the 1-byte decoder's `memcpy(&value, data.begin(), …)` at lib/surreal/surreal.hpp:76, which
    passes a `std::deque` iterator where `memcpy` needs a pointer. `Surreal.Take8` reads the
    front byte;
  - the 64-bit decoder's `memcpy(value, …)` at lib/surreal/surreal.hpp:149, which is missing its
    `&`;
  - the struct decoder's by-value lambda at lib/surreal/surreal.hpp:168.
- **Write interest.** `Epoll::set_events`, which the server and the client call to switch output
  interest on and off, is not in lib/polly/polly.hpp. It is modelled as each connection's
  `wantsWrite` flag.
- **Send and receive lengths.** Lengths passed to `send` and `recv` go through an `int`.
  `Transport.Int32Of` models that truncation. `send_delimited` adds the two `int` counts it
  gets back, and that sum is narrowed the same way. For a payload of 2^31 - 9 bytes up to
  2^31 - 1 bytes, both sends succeed but the reported total is negative.
- **Quirks kept as written:**
  - Logging in pushes every offline message from the first one addressed to the user through
    the end of the store. It then clears only the user's own messages. The model keeps this
    leak, and `Server.LoginLeaksOthersMessages` exhibits it.
  - `LOGOUT` erases the binding of the session's username even when the session is not
    logged in.
  - `XFER` falls through with no reply.
  - A `GETLIST` acknowledgement is never resolved by the `LIST` reply.
  - On the client, `DELAY -1` keeps the parser going and `DELAY -2` disarms the timer.
    `DELAY 0` also disarms it, because a zero `it_value` disarms a `timerfd`, so the script
    never resumes. `DELAY` below -2 gives `timerfd_settime` a negative `tv_sec`. That call
    fails with `EINVAL`, and `settime` throws `system_error` (lib/polly/timer.cpp:36-40).
- **Client acknowledgement queue.** `serverHandler` reads `ack_queue.front()` even when the
  queue is empty, which is undefined. The model treats a reply to an empty queue as touching
  nothing.

## Model

| member | source | states |
|---|---|---|
| Surreal.Put8 | lib/surreal/surreal.hpp:65-71 | a one-byte value is written as that single byte |
| Surreal.Take8 | lib/surreal/surreal.hpp:73-78 | reading one byte succeeds iff a byte is there; it returns that byte and the rest |
| Surreal.PutBool | lib/surreal/surreal.hpp:65-71 | a bool is one byte that is zero exactly for false |
| Surreal.TakeBool | lib/surreal/surreal.hpp:73-78 | a bool read is true iff its byte is non-zero |
| Surreal.RoundTrip8 | lib/surreal/surreal.hpp:65-78 | reading back a written byte gives the byte and leaves what follows |
| Surreal.RoundTripBool | lib/surreal/surreal.hpp:65-78 | a written bool reads back as itself |
| Surreal.Put16 | lib/surreal/surreal.hpp:82-90 | after `htons`, the low-order emit puts the high byte first: big-endian on the wire |
| Surreal.Take16 | lib/surreal/surreal.hpp:92-101 | two bytes are needed; the value is the big-endian reading of them |
| Surreal.Swap16Gathered | lib/surreal/surreal.hpp:95-99 | gathering two bytes little-end-first and then `ntohs` yields the big-endian value |
| Surreal.RoundTrip16 | lib/surreal/surreal.hpp:82-101 | a written 16-bit value reads back exactly, with the rest intact |
| Surreal.Take16Exact | lib/surreal/surreal.hpp:92-101 | every two-byte input is the encoding of what it decodes to |
| Surreal.Put32 | lib/surreal/surreal.hpp:104-112 | four bytes, most significant first |
| Surreal.Take32Uninit | lib/surreal/surreal.hpp:114-124 | the decoder as written, OR-ing into an uninitialised `tmp`: four bytes are consumed whatever the garbage |
| Surreal.Take32 | lib/surreal/surreal.hpp:114-124 | the decoder with `tmp` starting at zero: four bytes are needed and read big-endian |
| Surreal.Take32UninitMisreadsZero | lib/surreal/surreal.hpp:117-119 | with garbage 1 the as-written decoder reads an encoded 0 as 0x01000000; the corrected one reads 0 |
| Surreal.Take32UninitWrongUnlessZero | lib/surreal/surreal.hpp:117-119 | any non-zero garbage makes some value fail to round-trip |
| Surreal.RoundTrip32 | lib/surreal/surreal.hpp:104-124 | with `tmp` initialised, a written 32-bit value reads back exactly |
| Surreal.Take32Exact | lib/surreal/surreal.hpp:114-124 | every four-byte input is the encoding of what it decodes to |
| Surreal.Put64 | lib/surreal/surreal.hpp:129-138 | the high half, then the low half, each as 32 bits: eight bytes, big-endian |
| Surreal.Take64 | lib/surreal/surreal.hpp:141-150 | eight bytes are needed and read as high and low halves, big-endian |
| Surreal.Join64 | lib/surreal/surreal.hpp:134-135 | splitting a 64-bit value into halves and shifting them back together gives the value |
| Surreal.Split64 | lib/surreal/surreal.hpp:148 | the halves recovered from the joined value are the halves that were joined |
| Surreal.RoundTrip64 | lib/surreal/surreal.hpp:129-150 | a written 64-bit value reads back exactly |
| Surreal.Take64Exact | lib/surreal/surreal.hpp:141-150 | every eight-byte input is the encoding of what it decodes to |
| Surreal.PutSize | lib/surreal/surreal.hpp:183 | a size is eight bytes whose big-endian value is the count modulo 2^64 |
| Surreal.TakeSize | lib/surreal/surreal.hpp:194-195 | a size needs eight bytes and is below 2^64 |
| Surreal.DigitsValue | lib/surreal/surreal.hpp:129-150 | writing any value below 256^k as k big-endian digits and reading it back gives the value |
| Surreal.ValueDigits | lib/surreal/surreal.hpp:129-150 | reading any byte string as a number and writing it back gives the same bytes |
| Surreal.RoundTripSize | lib/surreal/surreal.hpp:180-195 | a count below 2^64 written as a size reads back exactly, with the rest intact |
| Surreal.TakeSizeExact | lib/surreal/surreal.hpp:194-195 | every eight-byte input is the encoding of the size it decodes to |
| Surreal.SizeIsPut64 | lib/surreal/surreal.hpp:129-150 | the size encoding is the 64-bit encoding, in both directions |
| Surreal.PutRange | lib/surreal/surreal.hpp:180-188 | a range is its element count followed by each element's encoding in order |
| Surreal.TakeN | lib/surreal/surreal.hpp:200-204 | decoding n elements yields exactly n |
| Surreal.TakeNPutAll | lib/surreal/surreal.hpp:180-204 | n encoded elements decode back to the same n elements, given an element codec that round-trips |
| Surreal.TakeNExact | lib/surreal/surreal.hpp:200-204 | for an element decoder that reads back exactly, so does decoding n elements |
| Surreal.TakeRangeInto | lib/surreal/surreal.hpp:190-204 | the range decoder as written: a count larger than the destination's existing size is a `range_error`; otherwise exactly that many slots are filled |
| Surreal.TakeRange | lib/surreal/surreal.hpp:190-204 | the corrected range decoder: it yields as many elements as the count says |
| Surreal.RoundTripRange | lib/surreal/surreal.hpp:180-204 | any range of fewer than 2^64 elements round-trips through the corrected decoder |
| Surreal.TakeRangeExact | lib/surreal/surreal.hpp:190-204 | for an element decoder that reads back exactly, whatever the range decoder accepts is the encoding of the range it returns, followed by the rest |
| Surreal.PresizedRoundTrip | lib/surreal/surreal.hpp:190-204 | the as-written decoder round-trips when the destination already has exactly the right size |
| Surreal.EmptyDestinationRejects | lib/surreal/surreal.hpp:196-199 | the as-written decoder throws `range_error` for every non-empty range read into an empty destination |
| Surreal.Put8Inverts | lib/surreal/surreal.hpp:65-78 | the byte codec is an inverse pair for every byte and every continuation |
| Surreal.Put8Exact | lib/surreal/surreal.hpp:65-78 | every byte the byte decoder accepts, followed by the rest, is the input |
| Surreal.PutText | lib/surreal/surreal.hpp:180-188 | a string is its length as a size followed by its bytes |
| Surreal.TakeText | lib/surreal/surreal.hpp:190-204 | through the corrected range decoder of the first finding, a decoded string has the length the size announced, and whatever is accepted is that string's encoding followed by the rest |
| Surreal.AllBytes | lib/surreal/surreal.hpp:185-187 | writing a string byte by byte gives the string itself |
| Surreal.RoundTripText | lib/surreal/surreal.hpp:180-204 | any string shorter than 2^64 round-trips, with the rest intact |
| Protocol.Code | lib/libchat.hpp:23-42 | every named kind has a declared code; the error kinds are exactly the codes from 400 up |
| Protocol.KindOf | lib/libchat.hpp:23-42 | every 32-bit code reads as a kind whose code it is; it is `Unknown` exactly for the undeclared codes |
| Protocol.KindCodeRoundTrip | lib/libchat.hpp:23-42 | a kind's code reads back as that kind |
| Protocol.MessageName | lib/libchat.hpp:43-53 | a name exists exactly for OK, REGISTER, LOGIN, LOGOUT, SEND, XFER, GETLIST, ERR_NOLOGIN and ERR_NOTREGISTERED |
| Protocol.ErrorMeaning | lib/libchat.hpp:55-63 | a meaning exists exactly for the error kinds other than ERR_NOSUCHFILE |
| Protocol.EncodeFrame | lib/libchat.hpp:71-86 | a frame is the version byte, the 32-bit kind code, then the payload as a sized byte string |
| Protocol.DecodeFrame | lib/libchat.hpp:71-86 | fewer than 13 bytes cannot be a frame |
| Protocol.DecodeFrameExact | lib/libchat.hpp:71-86 | whatever the corrected frame decoder accepts is the encoding of the frame it returns, followed by the rest |
| Protocol.DecodeFrameAsWritten | lib/libchat.hpp:142-146 | decoding into `Frame frame = {}` succeeds only where the corrected decoder does, and then only with an empty payload |
| Protocol.RoundTripTextValue | lib/libchat.hpp:88-118 | a string field round-trips with the rest intact |
| Protocol.RoundTripFrame | lib/libchat.hpp:71-86 | any frame with a declared kind and a payload shorter than 2^64 round-trips through the corrected decoder |
| Protocol.AsWrittenRejectsPayload | lib/libchat.hpp:140-146 | decoding into the default-constructed `Frame frame = {}` throws `range_error` for every frame with a non-empty payload |
| Protocol.EncodeMessage | lib/libchat.hpp:88-95 | a message packet is username, destination, message, each as a sized string |
| Protocol.PutTextLayout | lib/surreal/surreal.hpp:180-188 | a sized string followed by anything reads its length back, then the string and what follows |
| Protocol.RoundTripMessage | lib/libchat.hpp:88-95 | every message packet round-trips |
| Protocol.DecodeMessage | lib/libchat.hpp:163-167 | through the corrected range decoder, whatever it accepts is an encoded message packet followed by the rest |
| Protocol.EncodeLogin | lib/libchat.hpp:97-102 | a login packet is username, then password |
| Protocol.RoundTripLogin | lib/libchat.hpp:97-102 | every login packet round-trips |
| Protocol.DecodeLogin | lib/libchat.hpp:152-157 | through the corrected range decoder, whatever it accepts is an encoded login packet followed by the rest |
| Protocol.EncodeFile | lib/libchat.hpp:104-112 | a file packet is the eof flag, then filename, data, destination and sender |
| Protocol.RoundTripFile | lib/libchat.hpp:104-112 | every file packet round-trips |
| Protocol.DecodeFile | lib/libchat.hpp:168-172 | through the corrected range decoder, whatever it accepts is an encoded file packet followed by the rest, except that any non-zero flag byte reads as true |
| Protocol.TextValueInverts | lib/libchat.hpp:115-118 | the string codec is an inverse pair, usable as the list's element codec |
| Protocol.EncodeList | lib/libchat.hpp:115-118 | a list packet is the count of names, then each name as a sized string |
| Protocol.RoundTripList | lib/libchat.hpp:115-118 | every list of fewer than 2^64 names round-trips |
| Protocol.DecodeList | lib/libchat.hpp:158-162 | through the corrected range decoder, whatever it accepts is an encoded list packet followed by the rest |
| Protocol.TextValueExact | lib/libchat.hpp:88-118 | whatever the string field decoder accepts is that string's encoding followed by the rest |
| Protocol.GetMessage | lib/libchat.hpp:128-137 | through the corrected frame decoder, an undecodable frame is an error; a frame of another version is rejected; otherwise the result is the frame's kind |
| Protocol.GetMessageAgrees | lib/libchat.hpp:128-178 | `get_message` and `get_frame` agree on the kind, and on the error when the envelope is at fault |
| Protocol.GetMessageOfEncoded | lib/libchat.hpp:128-137 | an encoded current-version frame reads back as its kind |
| Protocol.GetFrame | lib/libchat.hpp:142-178 | an envelope error or version mismatch is reported; a success carries the frame's own kind and a packet of the type that kind carries |
| Protocol.DecodePayload | lib/libchat.hpp:152-177 | the packet decoded has the type its kind demands; other kinds carry no packet |
| Protocol.MakeFrame | lib/libchat.hpp:191-195 | a bare frame has the current version, the kind and an empty payload |
| Protocol.MakeFrameWith | lib/libchat.hpp:183-188 | a packet-carrying frame has the current version, the kind and the packet's encoding |
| Protocol.DecodePayloadOfEncoded | lib/libchat.hpp:152-177 | a packet of the type its kind demands decodes back to itself |
| Protocol.GetFrameOfMade | lib/libchat.hpp:142-188 | `get_frame` of an encoded `make_frame` gives back the kind and the packet |
| Protocol.GetFrameOfDecoded | lib/libchat.hpp:142-178 | for a decodable current-version frame, `get_frame` returns its kind and decoded payload |
| Protocol.GetFrameRejectsVersion | lib/libchat.hpp:148-150 | a frame of any other protocol version is refused |
| Protocol.IsAlnum | lib/libchat.hpp:203-205 | only ASCII letters and digits count: no control character, space, punctuation or byte from 0x80 up |
| Protocol.StringOkay | lib/libchat.hpp:199-208 | true iff the length is 4 to 8 and every character is alphanumeric |
| Framing.FreshRecvState | lib/libchat.hpp:210-215 | a new receive state awaits a nine-byte header with nothing buffered |
| Framing.Delimit | lib/netty/socket.cpp:120-132 | a delimited frame is the magic byte, the payload size, then the payload |
| Framing.Drain | src/server/server.cpp:227-270 | draining keeps the state aligned and, unless the stream is out of step, leaves too few bytes for the next step |
| Framing.DrainAppend | src/server/server.cpp:218-270 | draining a longer buffer is draining the shorter one, then the rest from where it left off |
| Framing.Feed | src/server/server.cpp:219-270 | after a read event the state stays aligned; unless the stream is out of step, too few bytes are left for the next step; the buffer never holds more than it held plus what arrived |
| Framing.FeedAllIsDrain | src/server/server.cpp:218-270 | feeding the stream in any chunks equals draining it in one piece |
| Framing.SplitInvariance | src/server/server.cpp:218-270 | two chunkings of the same byte stream yield the same frames and the same verdict |
| Framing.DrainOneFrame | src/server/server.cpp:227-270 | a delimited frame at the head of the buffer is taken whole |
| Framing.DrainDelimited | src/server/server.cpp:227-270 | a run of delimited frames drains to exactly those payloads, in order |
| Framing.FramesSurviveAnySplit | src/server/server.cpp:218-270 | frames sent back to back and received in any chunks come out exactly, with nothing left over |
| Framing.CorruptMagicDesyncs | src/server/server.cpp:236-241 | a header without the magic byte stops the drain as out of step, after delivering the frames before it |
| Transport.Int32Of | lib/netty/socket.cpp:105 | a length narrowed to `int` is a 32-bit value, equal to the length when it fits |
| Transport.Wanted | lib/netty/socket.cpp:105 | `send` tries to send no more than the buffer, and all of it below 2^31 bytes |
| Transport.Send | lib/netty/socket.cpp:101-118 | on success the wire holds the whole buffer (below 2^31 bytes) and the count equals it; a -1 from the kernel is an error after a strict prefix |
| Transport.SendDelimited | lib/netty/socket.cpp:120-132 | on success the wire holds exactly the delimited frame, and the reported count is the int-narrowed sum of both sends: the frame length below 2^31 - 9 bytes, negative from there to 2^31; failure leaves a strict prefix |
| Transport.Recv | lib/netty/socket.cpp:68-77 | a failed receive is an error carrying errno; otherwise at most `size` bytes, a prefix of what was waiting |
| Transport.RecvDelimited | lib/netty/socket.cpp:134-146 | a wrong magic byte is a misalignment error; a success read a magic-led header and at most the announced payload |
| Transport.RecvDelimitedOfDelimit | lib/netty/socket.cpp:120-146 | a delimited frame is received back whole when the kernel delivers enough |
| Transport.RecvAll | lib/netty/socket.cpp:79-99 | reading stops at the first close or error; EAGAIN and EWOULDBLOCK end it normally and any other error throws; the result is every block before the stop, in order |
| DataStore.FindUser | src/server/datastore.hpp:69-74 | the index of the first user of that name, or the end |
| DataStore.FindUserFound | src/server/datastore.hpp:69-74 | the search finds a user iff someone of that name is registered |
| DataStore.GetUserMsgs | src/server/datastore.hpp:78-83 | the index of the first offline message to that user, or the end |
| DataStore.KeepOthers | src/server/datastore.hpp:84-90 | the kept messages are exactly those not addressed to the user |
| DataStore.ClearUserMsgs | src/server/datastore.hpp:84-90 | users are unchanged, and an offline message survives iff it is addressed to someone else |
| DataStore.KeepOthersAppend | src/server/datastore.hpp:84-90 | removal distributes over concatenation, so order is kept |
| DataStore.KeepOthersNoop | src/server/datastore.hpp:84-90 | with nothing addressed to the user, nothing changes |
| DataStore.ClearIdempotent | src/server/datastore.hpp:84-90 | clearing twice is clearing once |
| DataStore.ClearCommutes | src/server/datastore.hpp:84-90 | clearing two users' messages in either order gives the same store |
| DataStore.LoginInverts | lib/libchat.hpp:97-102 | the login codec is an inverse pair, usable as the user database's element codec |
| DataStore.MessageInverts | lib/libchat.hpp:88-95 | the message codec is an inverse pair, usable as the offline store's element codec |
| DataStore.EncodeServerData | src/server/datastore.hpp:91 | the store is the user range followed by the offline-message range |
| DataStore.DecodeServerData | src/server/datastore.hpp:57 | the load with each range sized to its stored count: whatever it accepts is an encoded store followed by the rest |
| DataStore.LoginExact | lib/libchat.hpp:97-102 | whatever the login decoder accepts is a login packet's encoding followed by the rest |
| DataStore.MessageExact | lib/libchat.hpp:88-95 | whatever the message decoder accepts is a message packet's encoding followed by the rest |
| DataStore.RoundTripServerData | src/server/datastore.hpp:91 | a store with fewer than 2^64 entries in each range round-trips through the corrected decoder, which sizes each range to its stored count |
| DataStore.LoadAsWritten | src/server/datastore.hpp:57 | the load as written, into the store's empty vectors: it can only yield an empty store, and any stored user count above zero is a `range_error` |
| DataStore.LoadAsWrittenRejects | src/server/datastore.hpp:57 | as written, a saved store reads back only when it is empty; every other store throws `range_error` |
| Reactor.EventsOf | src/server/server.cpp:209-272 | each handler test is true iff its bit is in the mask |
| Reactor.MaskOf | src/server/server.cpp:263 | a mask built from events carries no other bits |
| Reactor.EventsOfMask | src/server/server.cpp:209-272 | reading a mask back recovers the events it was built from |
| Reactor.Interest | src/server/server.cpp:260-276 | a connection's interest always has input and hang-up, and output exactly while it wants to write |
| Reactor.AddItem | lib/polly/polly.hpp:74-85 | a failed `epoll_ctl` throws with the table untouched; otherwise the descriptor is added and existing entries are kept |
| Reactor.FirstFailure | lib/polly/polly.hpp:89-93 | the first failed reply, with every earlier one a success |
| Reactor.AddItems | lib/polly/polly.hpp:89-93 | it throws iff some registration fails, with that errno; exactly the items before it are added |
| Reactor.AddItemsIsSequential | lib/polly/polly.hpp:89-93 | registering a concatenation is registering the first part, then the rest on its state unless it threw |
| Reactor.AddItemNeverOverwrites | lib/polly/polly.hpp:84 | `emplace` never overwrites an entry already there |
| Reactor.DeleteItem | lib/polly/polly.hpp:121-130 | the entry is erased whatever the kernel says; it throws iff the kernel failed with other than ENOENT |
| Reactor.AddThenDelete | lib/polly/polly.hpp:74-130 | adding a new descriptor and deleting it leaves the table as it was |
| Reactor.Close | lib/polly/polly.hpp:69-72 | closing empties the table |
| Reactor.Wait | lib/polly/polly.hpp:98-115 | a failed wait throws; otherwise one result per event, in order, with the table's handle; it succeeds iff every reported descriptor is registered |
| Server.NewSession | src/server/server.cpp:22-27 | a new session is logged out with an empty queue and a fresh receive state |
| Server.SameLoginsKeepConsistent | src/server/server.cpp:31-34 | a change that keeps each session's login and the name bindings keeps the maps consistent |
| Server.Reply | src/server/server.cpp:42-170 | a bare reply changes nothing |
| Server.Broadcast | src/server/server.cpp:99-105 | a broadcast changes only send queues, touching neither logins nor connections |
| Server.BroadcastOnce | src/server/server.cpp:101-105 | each bound session other than the sender's name gets the frame exactly once; others get nothing |
| Server.PushTo | src/server/server.cpp:107-109 | a direct push appends to the target's queue only |
| Server.Register | src/server/server.cpp:44-54 | a taken name gets ERR_USEREXISTS and nothing changes; otherwise the user is appended and OK replied |
| Server.Announcements | src/server/server.cpp:77-80 | one SEND frame per flushed message, in order |
| Server.Flushed | src/server/server.cpp:77-80 | every held message for the user is flushed, and only stored messages are |
| Server.Login | src/server/server.cpp:55-83 | an unknown user gets ERR_NOTREGISTERED, a wrong password ERR_PASSWRONG, and a name already bound or a session already logged in ERR_ALREADYLOGGEDIN, each with nothing changed; otherwise the binding is made, the held messages are queued and the user's messages are cleared |
| Server.Send | src/server/server.cpp:84-119 | no login or a forged sender is refused; otherwise broadcast, a push to the bound session, an offline hold for a registered user, or ERR_NOSUCHUSER |
| Server.SenderCheck | src/server/server.cpp:85-97 | a request passes iff the session is logged in and the claimed sender is its own name or empty; otherwise ERR_NOLOGIN exactly when logged out, else ERR_NOPERMS |
| Server.Xfer | src/server/server.cpp:120-146 | like SEND but never held offline, and with no reply on success |
| Server.Logout | src/server/server.cpp:147-152 | the session is marked logged out, its username unbound, and OK replied |
| Server.Usernames | src/server/server.cpp:158-161 | the names of all registered users, in registration order |
| Server.GetList | src/server/server.cpp:154-167 | a logged-out session gets ERR_NOLOGIN; otherwise a LIST whose payload decodes to every registered name |
| Server.Handle | src/server/server.cpp:42-170 | connections are never added or removed; kinds the server does not handle get no reply and change nothing |
| Server.LoginKeepsConsistent | src/server/server.cpp:55-83 | a login keeps every binding pointing at an authenticated session of that name |
| Server.LogoutKeepsConsistent | src/server/server.cpp:147-152 | a logout keeps the maps consistent |
| Server.HandleKeepsConsistent | src/server/server.cpp:42-170 | every request keeps the maps consistent |
| Server.Accept | src/server/server.cpp:283-290 | a new connection gets a fresh session and nothing else changes |
| Server.AcceptKeepsValid | src/server/server.cpp:283-290 | accepting a connection keeps the state valid |
| Server.Disconnect | src/server/server.cpp:209-217 | the session is dropped and, if it was logged in, its name is unbound |
| Server.DisconnectKeepsValid | src/server/server.cpp:209-217 | a hang-up keeps the state valid |
| Server.Respond | src/server/server.cpp:261-264 | a reply is queued on the requester, whose output interest is switched on |
| Server.Serve | src/server/server.cpp:257-264 | one request is `clientHandler`'s state change, plus the reply, if any, queued on the requester with output interest on; other sessions are as the handler left them |
| Server.Dispatch | src/server/server.cpp:250-268 | handling succeeds iff every frame decodes; a failure is the first bad frame's error; handling keeps the connection set and receive states, and never clears output interest |
| Server.Readable | src/server/server.cpp:218-271 | a read event succeeds iff the stream stays in step and every drained frame decodes; the first bad frame's error is the event's; on success the state is the drained receive state followed by serving every drained request in order; other sessions' receive states and interest are left alone |
| Server.DispatchServes | src/server/server.cpp:227-270 | a run of frames that all decode is served one request after another, in order |
| Server.ReadsDelimitedRequests | src/server/server.cpp:218-271 | requests sent back to back and read at once on a settled connection are all served, in order |
| Server.HandleRecv | src/server/server.cpp:42-170 | `clientHandler`'s result does not depend on the requester's receive state |
| Server.ServeAllAppend | src/server/server.cpp:227-270 | serving two runs of requests one after the other is serving their concatenation |
| Server.ReadEventsServe | src/server/server.cpp:218-271 | a run of read events succeeds iff the frames drained across them stay in step and all decode, and then serves exactly those requests, in order |
| Server.RequestsSurviveAnySplit | src/server/server.cpp:218-271 | requests sent back to back are all served, in order, however the reads split their bytes |
| Server.Writable | src/server/server.cpp:272-280 | an empty queue switches output interest off; otherwise the head frame is sent delimited and popped |
| Server.OnEvents | src/server/server.cpp:207-281 | a hang-up disconnects; otherwise the event succeeds iff its read does, and its result is the read event's state (or the old one without `EPOLLIN`), then the write event's result with `EPOLLOUT`; a failing read or an out-of-step stream fails the event; nothing is sent without a write event; no other connection's interest is changed |
| Server.DispatchKeepsConsistent | src/server/server.cpp:250-268 | any run of frames keeps the maps consistent |
| Server.ReadableKeepsValid | src/server/server.cpp:218-271 | a read event keeps the state valid |
| Server.WritableKeepsValid | src/server/server.cpp:272-280 | a write event keeps the state valid |
| Server.OnEventsKeepsValid | src/server/server.cpp:207-281 | every connection event keeps the state valid |
| Server.LoginDeliversHeld | src/server/server.cpp:77-80 | every message held for the user is queued on login at its position |
| Server.LoginLeaksOthersMessages | src/server/server.cpp:77-81 | a message for someone else stored after the user's is queued to the user on login, yet stays in the store |
| Server.StaleLogoutUnbindsOther | src/server/server.cpp:147-152 | a logged-out session's LOGOUT unbinds another, logged-in session of the same name |
| Server.BroadcastLeavesInterest | src/server/server.cpp:101-105 | a broadcast queues a frame on another session without switching its output interest on |
| Client.Start | src/client/client.cpp:17-31 | the client starts logged out with empty queues and output interest on |
| Client.RequestOf | src/client/client.cpp:49-109 | exactly the request commands queue something; the packet carries the login, the sender and destination that command names |
| Client.FrameOf | src/client/client.cpp:49-109 | the queued frame has the current version and the acknowledged kind |
| Client.RequestFrameDecodes | src/client/client.cpp:49-109 | a queued request frame decodes back to its kind and packet |
| Client.ParseFile | src/client/client.cpp:36-115 | end of input returns -2; DELAY returns its seconds; otherwise -1; a request appends to both queues |
| Client.TimerAfter | lib/polly/timer.cpp:26-40 | a positive delay rearms the timer for that many seconds; zero and -2 disarm it; below -2 `settime` throws |
| Client.FirstEnd | src/client/client.cpp:209-218 | the first command that ends a tick |
| Client.Tick | src/client/client.cpp:206-221 | a tick never changes the login state or the receive state |
| Client.UsedCons | src/client/client.cpp:209-218 | a command that does not end a tick is consumed and the tick goes on |
| Client.TickUnfolds | src/client/client.cpp:209-218 | a tick that starts with a non-ending command is that command, then the tick on the rest |
| Client.TickRuns | src/client/client.cpp:206-221 | a tick consumes commands up to and including the first real delay, queues their requests in order, sets output interest iff something is queued, and leaves the timer as that delay makes `settime` leave it: rearmed, disarmed by zero, or throwing for a negative time |
| Client.ServerHandler | src/client/client.cpp:120-166 | OK pops the acknowledgement and a LOGIN acknowledgement logs in; an error pops it iff both names are known; any other reply changes nothing |
| Client.RepliesResolveInOrder | src/client/client.cpp:120-166 | replies that resolve acknowledgements pop them one by one, in order |
| Client.RequestsNamed | lib/libchat.hpp:43-53 | every request the client sends has a printable name |
| Client.ListStrandsLogin | src/client/client.cpp:120-166 | a LIST reply never resolves its GETLIST, so the following LOGIN's OK resolves GETLIST and the client stays logged out |
| Client.Dispatch | src/client/client.cpp:246-288 | handling succeeds iff every frame decodes; a failure is the first bad frame's error |
| Client.DispatchHandlesKinds | src/client/client.cpp:246-288 | decodable frames are handled as the replies of their kinds, in order |
| Client.Readable | src/client/client.cpp:235-289 | a read event succeeds iff the stream stays in step and every drained frame decodes; the first bad frame's error is the event's; on success the state is the drained receive state followed by handling every drained reply in order; the send queue and interest are kept |
| Client.ReadsDelimitedReplies | src/client/client.cpp:235-289 | delimited decodable replies arriving at once are handled in order |
| Client.HandleRepliesAppend | src/client/client.cpp:120-166 | handling two runs of replies one after the other is handling their concatenation |
| Client.ReadEventsHandle | src/client/client.cpp:235-289 | a run of read events succeeds iff the frames drained across them stay in step and all decode, and then handles exactly those replies, in order |
| Client.RepliesSurviveAnySplit | src/client/client.cpp:235-289 | replies sent back to back are handled, in order, however the reads split their bytes |
| Client.Writable | src/client/client.cpp:290-300 | an empty queue switches output interest off; otherwise the head frame is sent delimited and popped |
| Client.Encodings | src/client/client.cpp:290-300 | the encoding of each queued frame, in order |
| Client.WritesInOrder | src/client/client.cpp:290-300 | k write events send the first k queued frames, in order, and leave the rest queued |
| Client.SentFramesArrive | src/client/client.cpp:290-300 | what k write events send is received back as exactly those k frames, however it is chunked |
| Client.OnEvents | src/client/client.cpp:226-301 | a hang-up ends the client; otherwise the event succeeds iff its read does, a failed read stops the client as a crash carrying its error, and the result is the read event's state (or the old one without `EPOLLIN`), then the write event's result with `EPOLLOUT`; nothing is sent without a write event; the send queue never grows |
| Client.MapCrash | src/client/client.cpp:226-301 | a handler error is reported as a crash carrying that error |

## Left out

- System-call plumbing that has no part in the protocol is not modelled: socket creation,
  `bind`, `listen`, `connect`, `setnonblocking`, file descriptor wrappers and signal handling.
- Timers are modelled only as the value `parseFile` returns and what `settime` leaves the
  timer as: rearmed, disarmed, or throwing. The `timerfd` itself is not modelled.
- Printing is not modelled.
- The file I/O of the data store's `save` and `load` is not modelled. Only the byte encoding
  they use is.
- The command script reader is not modelled. Commands reach the model already split into words,
  so the leading space `getline` leaves and the end-of-file flag on the last word are not
  modelled.
- The `weak_ptr` lifetime behind each table entry is not modelled. A handle names its wrapper,
  and whether the wrapper is alive is not modelled.
- The client's `exit(-1)` on hang-up is modelled as the result `ServerClosed`. Process exit
  itself is not.
- `SENDF` and `SENDF2` are unimplemented in the client. They queue nothing and are modelled as
  such.
- Concurrency is left out: the event loop is single-threaded and each event is one function
  call.
- Protocol.DecodeFrame: its own contract states only the short-input error. Its meaning is
  carried by the round trip `RoundTripFrame` and by `DecodeFrameExact`.
- What happens after a handler throws is not modelled. The model stops at the error value
  (`Crash`) that an event returns. In the source, every exception a handler throws escapes
  `epoll.wait`:
  - the server's "frame bad" (src/server/server.cpp:238);
  - `get_frame`'s version `runtime_error` (lib/libchat.hpp:148-150);
  - the range decoder's `range_error` (lib/surreal/surreal.hpp:198).
  The server's main loop catches only `system_error` and rethrows it unless it is shutting
  down (src/server/server.cpp:299-305), so one bad frame from any client terminates the
  server. Because of the first finding below, so does any LOGIN, REGISTER, SEND or XFER
  request with a payload. The client's loop is the same (src/client/client.cpp:308-314).
- Kernel failures inside the server's and the client's event handlers are not modelled. The
  read events' `s.recv(1024)` (src/server/server.cpp:219, src/client/client.cpp:236) and the
  write events' `send_delimited` (src/server/server.cpp:278, src/client/client.cpp:297) can
  throw `system_error`, which both main loops rethrow (src/server/server.cpp:299-305,
  src/client/client.cpp:308-314). The model's read events take the bytes that arrived as a
  parameter, and its write events only produce the delimited frame. `Transport.Recv` and
  `Transport.SendDelimited` model those calls' error paths on their own.
- Protocol.IsAlnum: treats every byte from 0x80 up as not alphanumeric. The source passes a
  plain `char` to `std::isalnum`, and for those bytes that `char` is negative on the usual
  targets, which is undefined behaviour.
- Server.Requests and Server.ServeAll are helpers. Their contracts state only lengths, shapes
  and that the connection set is kept. `DispatchServes`, `Server.Readable` and
  `ReadEventsServe` tie them to the handler.
- Server.ReadEvents, Server.WithRecv, Client.ReadEvents, Client.WriteEvents,
  Client.HandleReplies, Client.Kinds, Client.Requests, Client.Frames and Client.TickSpec have
  no row. Each is a composition of members that have one: repeated `Readable`, `Writable` or
  `ServerHandler` events, the decoded kinds of a frame run, the requests `RequestOf` queues, or
  the tick's specification. Their own contracts state only lengths and what is left untouched.
  The lemmas that have rows state what they mean: `ReadEventsServe`, `ReadEventsHandle`,
  `WritesInOrder`, `RepliesResolveInOrder`, `DispatchHandlesKinds` and `TickRuns`.
- Transport.RecvDelimited: the contract does not state the payload bytes for every kernel
  reply. `RecvDelimitedOfDelimit` states them for deliveries that cover the frame.

## Findings

| source | as written | input that shows it | evidently intended | confidence | as-written member | corrected member |
|---|---|---|---|---|---|---|
| lib/surreal/surreal.hpp:192-203 with lib/libchat.hpp:128-131, lib/libchat.hpp:143-146, lib/libchat.hpp:152-171 and src/server/datastore.hpp:57 | `deserialize` of a range throws `range_error` when the count exceeds the destination's current size. `get_message` decodes into `Frame frame;` and `get_frame` into `Frame frame = {}`, whose payload vectors are empty. `get_frame` then decodes each packet into a fresh `LoginPacket`, `ListPacket`, `MessagePacket` or `FilePacket`, whose strings and vectors are empty. `DataStore::load` decodes into a `ServerData` whose two vectors are empty | any frame with a non-empty payload, e.g. a LOGIN frame; any packet with a non-empty string or list; any saved store with a registered user | decode exactly the announced number of elements into the destination | not executed | Surreal.TakeRangeInto, Surreal.EmptyDestinationRejects, Protocol.DecodeFrameAsWritten, Protocol.AsWrittenRejectsPayload, DataStore.LoadAsWritten, DataStore.LoadAsWrittenRejects | Surreal.TakeRange, Surreal.RoundTripRange, Surreal.TakeText, Protocol.DecodeFrame, Protocol.RoundTripFrame, Protocol.GetMessage, Protocol.DecodeLogin, Protocol.DecodeMessage, Protocol.DecodeFile, Protocol.DecodeList, DataStore.DecodeServerData, DataStore.RoundTripServerData |
| lib/surreal/surreal.hpp:117-119 | the 32-bit decoder ORs the incoming bytes into `uint32_t tmp` without initialising it. The 64-bit decoder reads its two halves with it (lib/surreal/surreal.hpp:146-147), so every size prefix is affected too: range and string counts, and the delimiter length at src/server/server.cpp:242 and src/client/client.cpp:262 | an encoded 0 decoded with a stack garbage value of 1 in `tmp` reads as 0x01000000 | start `tmp` at zero | not executed | Surreal.Take32Uninit, Surreal.Take32UninitMisreadsZero, Surreal.Take32UninitWrongUnlessZero | Surreal.Take32, Surreal.RoundTrip32, with Surreal.Take64 and Surreal.TakeSize built on the corrected Take32 |
