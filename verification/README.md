# Linberry: protocol, records and file formats

Linberry is a C++ library that talks to BlackBerry handhelds over USB. This project models its core in Dafny and
proves what the library is for: that what is cut, built, encoded, queued or saved comes back as it was, and that
talking to a device is safe over whole runs.

How the project is laid out, one module per component:

- `DataBuffer` (data.dfy): the copy-on-write `Data` buffer. Every other component that writes bytes in place does so
  through this class.
- `Fragment`, `Protocol`, `Exchange`, `SocketIo` (fragment, protocol, exchange, socket): the logical-socket protocol.
  `Exchange` is a specification over packet streams; the classes of `SocketIo` run the loops of socket.cc on buffers
  and are proved to do exactly what it says. `Password` (password.dfy) holds the half-open password state machine and
  a model of the device on the other side; `Numbering` (numbering.dfy) a device that numbers its handshakes.
- `Sha1Spec`, `Sha1` (sha1.dfy): SHA-1 as FIPS 180-1 defines it, and the streaming implementation. `Sha1Example`
  (sha1example.dfy) follows the standard's first example through all rounds.
- `Router`, `Readers`, `RouterIo` (router, readers, routerio): the socket router as a state machine over its critical
  sections, what its readers get, and these sections as methods. A USB read with the lock released lies between two
  steps.
- `Categories`, `Dates`, `Fields`, `Contacts`, `ContactIo` (record, contact, contactio): the record wire format.
- `Base64`, `Ldif`, `LdifDefault`, `LdifText`, `LdifLaws`, `LdifIo` (base64, ldif, ldifmap, ldiftext, ldiflaws,
  ldifio): LDIF printing and reading (RFC 2849), the default map, what the printed text says line by line, and what a
  printed contact is read back as.
- `Cod` (cod.dfy): .cod archives, written by the builder and read by the loader.
- `Ppp` (pppfilter.dfy): the PPP flag filter. `Bitmap` (bmp.dfy): screenshots. `RecordStates` (recordstate.dfy): the
  record state table.

The USB endpoints are an arbitrary stream of incoming packets and a trace of written ones; file streams are byte
sequences with a position. The build is little endian and `char` is signed. Sizes are unbounded numbers in the
lemmas; methods whose C++ source keeps a size in an `int` require it to fit. Exceptions are values of result types.

Where a law does not hold on all inputs, a lemma says exactly when it does:

- A category list survives its text form if and only if every name is non-empty, has no comma and no outer spaces
  (`Categories.CategoryRoundTrip`).
- A contact survives the wire, but for one more unknown field that holds its record id, if and only if it is well
  formed (`Contacts.ContactRoundTrip`). Each further round trip adds another such field.
- Encoding in base64 and decoding give the same bytes if and only if there are at most 72 and none is 0xFF
  (`Base64.Base64RoundTrip`). The decoder folds its output like the encoder, and the encoder stops at 0xFF.
- A reply to a long request arrives if and only if the device's own handshake counter stands where the library's does
  once the answers to the early fragments are dropped, or no wrong number can be noticed; otherwise the exchange fails
  with the sequence error (`Numbering.NumberedExchange`). The library does not count the handshakes it drops there.
- An LDIF record is read back as the restored contact, up to its end, if and only if its dn needs no encoding
  (`LdifLaws.LdifNeedsPlainDn`). It is skipped as a whole if and only if the dn needs encoding and the name holds no dn
  line (`LdifLaws.EncodedDnIsNotFound`); a name with a line break and a dn line in it starts a record of its own, which
  may be read with success (`LdifLaws.LineBreakStartsRecord`).
- Names, addresses and mapped fields come back with success if and only if there are two names, the dn needs no
  encoding, each value survives its own and no address is empty (`LdifLaws.LdifIsExact`). With one name the reader
  makes up the other from cn and mostly reports success: a last name Smith comes back as Smith Smith
  (`LdifLaws.NamesAreExact`, `LdifLaws.SmithTwice`).
- A socket is opened if and only if the answer carries the OPENED command, the socket asked for and the number of the
  request (`Password.OpensUnlocked`); after a challenge it also takes a password and three tries left
  (`Password.OpensAfterHash`).
- A .cod archive is read back if and only if no module is empty and a lone module carries the .cod signature
  (`Cod.ArchiveRoundTrip`).
- Data passes the PPP filter unchanged if and only if it is framed already (`Ppp.FilterFrames`).

Where the code and its documentation disagree, the model follows the code:

- The comment on `MakeNewRecordId` says that ids start at 1; the table starts with 1 as the last id, so the first one
  handed out is 2, and after 0xFFFFFFFF comes 0.
- The comment in `SocketZero::SendOpen` says that `Send()` overwrites the sequence number; the request goes through
  `RawSend`, which leaves it alone, so every request of the handshake carries the same number.
- The comment in `Data::ReleaseBuffer` speaks of the last non-zero value; with -1 the size becomes the position of that
  value, so that the value itself is no longer visible.
- The inner check of the fragment sending loop that is guarded by a non-zero offset is never reached: answers to all
  fragments but the last are read and dropped unchecked.

## Model

| member | source | states |
|---|---|---|
| DataBuffer.Data.MakeSpace | linberrylibs/linberry/data.cc:116-127 | growing keeps every owned byte in place, clears the new ones, and leaves the visible bytes as they were |
| DataBuffer.Data.CopyOnWrite | linberrylibs/linberry/data.cc:130-142 | borrowed bytes become owned ones of the same content; an owned buffer is left alone |
| DataBuffer.Data.GetBuffer | linberrylibs/linberry/data.cc:214-220 | the required size becomes addressable and writable without a change to what readers see |
| DataBuffer.Data.ReleaseBuffer | linberrylibs/linberry/data.cc:222-245 | the visible bytes are the first datasize ones of the owned buffer; with -1 those before the last byte that is not zero, or none |
| DataBuffer.Data.Zap | linberrylibs/linberry/data.cc:263-268 | nothing is visible any more, and an owned buffer is all zeros |
| DataBuffer.Data.Assign | linberrylibs/linberry/data.cc:270-285 | the target shows what the other object shows, which stays as it is; assigning an object to itself changes nothing |
| DataBuffer.Data.MemCpy | linberrylibs/linberry/data.cc:287-292 | exactly the bytes from offset on are replaced, and the next offset is returned |
| DataBuffer.Apply | linberrylibs/linberry/data.cc:98-142 | any operation on one object leaves another object, and the bytes either has borrowed, unchanged |
| DataBuffer.ApplyAll | linberrylibs/linberry/data.cc:214-292 | the same over every sequence of operations from every state |
| Fragment.Stamp | linberrylibs/linberry/socket.cc:89-112 | only the size field and the command of a packet change, and the size field then holds the length modulo 2^16 |
| Fragment.StampIsIdentity | linberrylibs/linberry/socket.cc:89-112 | stamping with DB_DATA changes nothing exactly on packets that carry that command and their own size modulo 2^16 |
| Fragment.FragmentShape | linberrylibs/linberry/socket.cc:117-153 | every fragment carries its own size; all but the last have 1024 bytes and the command 0x60, the last has at most 1024 and the command 0x40 |
| Fragment.JoinUndoesFragments | linberrylibs/linberry/socket.cc:89-153 | folding AppendFragment over the fragments of any packet of six bytes or more gives the packet with DB_DATA and its size |
| Fragment.AppendFragment | linberrylibs/linberry/socket.cc:89-112 | on buffers, appends exactly the payload of the fragment and leaves the fragment alone |
| Fragment.MakeNextFragment | linberrylibs/linberry/socket.cc:117-153 | cuts the piece at the offset, returns the next offset or 0 after the last piece, and refuses short packets untouched |
| Protocol.FirstShownPacket | linberrylibs/linberry/socket.cc:315-363 | what is read is the first packet of the stream that is not a hidden handshake; all before it were hidden ones, and all behind it is left |
| Exchange.NoiseIsSkipped | linberrylibs/linberry/socket.cc:964-1024 | in-sequence handshakes and fewer than ten blank packets in a row are read over without touching the reply |
| Exchange.BlanksAreCounted | linberrylibs/linberry/socket.cc:1010-1024 | k more blank packets are survived exactly when the count stays below ten; otherwise the tenth one fails |
| Exchange.EachKindOfPacket | linberrylibs/linberry/socket.cc:964-1024 | what any packet does to the reading loop, by its bytes: size and unknown-command errors, handshakes counted or out of sequence, ends and fragments of a reply |
| Exchange.JoinsWhatArrives | linberrylibs/linberry/socket.cc:964-1024 | any well-cut fragments with any settled noise in between give their join, and the rest of the stream is unread |
| Exchange.ReplyComesBack | linberrylibs/linberry/socket.cc:964-1024 | a reply that the device cuts by the fragment rule, with settled noise anywhere, is returned |
| Exchange.ExactReplyComesBack | linberrylibs/linberry/socket.cc:964-1024 | it is returned byte for byte if and only if it carried DB_DATA and its own size modulo 2^16 |
| Exchange.SinglePacketIsVerbatim | linberrylibs/linberry/socket.cc:981-999 | an unfragmented DB_DATA packet, or a DB_DONE at any time, is returned as it came |
| Exchange.DeviceSeesFragments | linberrylibs/linberry/socket.cc:292-313 | what a device gets when it drops the size packets is the fragments of the request with its socket field set |
| Exchange.WithSocket | linberrylibs/linberry/socket.cc:664-672 | a packet of five bytes or more goes out with this socket's number in its first two bytes and the rest unchanged, a shorter one as it is |
| Exchange.PiecesGoToSocket | linberrylibs/linberry/socket.cc:664-672 | of everything written for any packets, all but the size packets are these packets, in order, with this socket's number |
| Exchange.DeviceJoinsRequest | linberrylibs/linberry/socket.cc:903-958 | and joining them gives the request: this socket's number, its own size, DB_DATA, and every byte from the fifth on |
| Exchange.AnswersAreDropped | linberrylibs/linberry/socket.cc:919-958 | each fragment but the last takes one answer, whatever it is |
| Exchange.RefusedRequests | linberrylibs/linberry/socket.cc:888-900 | a request is refused, before anything is sent, if and only if it is shorter than five bytes or its command is neither 0x40 nor 0x41 |
| Exchange.ExchangeReturnsReply | linberrylibs/linberry/socket.cc:888-1025 | end to end: any accepted request, long or short, returns exactly the reply the device meant, when the handshakes around the reply are in sequence for the library's own counter |
| Numbering.NoiseOutcome | linberrylibs/linberry/socket.cc:164-201 | quiet noise that a device numbers itself settles if and only if the counters agree or the difference is forgiven; they agree afterwards if and only if they did or the device restarted with 0 |
| Numbering.NoisesOutcome | linberrylibs/linberry/socket.cc:964-1024 | the same for the noise around all fragments of a reply; in the other case reading fails with the sequence error |
| Numbering.NumberedExchange | linberrylibs/linberry/socket.cc:888-1025 | a device that numbers all its handshakes gets its reply through if and only if its counter stands where it stood after the dropped answers, or no wrong number can be noticed; otherwise the exchange fails as out of sequence |
| Numbering.ShortRequestStaysInStep | linberrylibs/linberry/socket.cc:959-1025 | a request that is sent in one piece is always answered by such a device |
| Numbering.DroppedHandshakeFails | linberrylibs/linberry/socket.cc:919-1025 | on a routed socket other than 0, a handshake with a number the library has not counted fails the exchange right after the dropped answers |
| SocketIo.SocketZero.CheckSequence | linberrylibs/linberry/socket.cc:164-201 | by length, id and socket: too short, restart on id 0, an unexpected id is an error except on socket 0, and otherwise the count advances modulo 2^32 |
| SocketIo.SocketZero.RawSend | linberrylibs/linberry/socket.cc:292-313 | a packet whose length is a multiple of 0x40 is written behind a three-byte packet that holds its length; any other one alone |
| SocketIo.SocketZero.SequencePacket | linberrylibs/linberry/socket.cc:345-363 | swallows exactly the hidden handshakes, and counts them |
| SocketIo.SocketZero.RawReceive | linberrylibs/linberry/socket.cc:315-329 | the loop returns what the specification of reading past hidden handshakes returns |
| SocketIo.SocketZero.TryPassword | linberrylibs/linberry/socket.cc:468-514 | no password or fewer than three tries means that nothing is sent; otherwise the hash of the current seed is, and result and state are those of the state machine |
| SocketIo.SocketZero.Open | linberrylibs/linberry/socket.cc:439-514 | result, state, packets read and packets written are those of the password state machine, whose results are exact by the lemmas below |
| SocketIo.Socket.Packet | linberrylibs/linberry/socket.cc:888-1025 | on buffers, the outcome is the one of the exchange specification; a success has written the request's pieces for this socket's number and nothing else but size packets; by length and command, exactly the other requests are refused unsent |
| SocketIo.Socket.ReadReply | linberrylibs/linberry/socket.cc:964-1024 | the do-while loop with its done, frag and blank count variables follows the specification of the reading loop |
| SocketIo.Socket.SendFragmented | linberrylibs/linberry/socket.cc:907-962 | the sending loop writes all fragments in order, with this socket's number, and ends |
| Password.PasswordStep | linberrylibs/linberry/socket.cc:468-502 | one password attempt keeps library and device in step, and costs at most one try |
| Password.CallIsSafe | linberrylibs/linberry/socket.cc:439-514 | one Open call keeps them in step; a hash is sent only with three tries left and is made from the device's latest seed |
| Password.PasswordRunIsSafe | linberrylibs/linberry/socket.cc:439-514 | over all runs of Open calls no attempt is made below three tries, so a counter of three or more never falls below two |
| Password.FreshRunIsSafe | linberrylibs/linberry/socket.cc:43-76 | the same from a new SocketZero on, with a device in any state |
| Password.OpenRequest | linberrylibs/linberry/socket.cc:203-232 | the open request, byte by byte: socket 0, its size, the command, the socket asked for and the sequence number |
| Password.HashRequest | linberrylibs/linberry/socket.cc:235-289 | the password request likewise, with the hash behind its length |
| Password.OpensUnlocked | linberrylibs/linberry/socket.cc:439-514 | behind any hidden handshakes, the socket is opened if and only if the answer has eight bytes, its own size, command 0x10, the socket asked for and the number of the request; one request is sent |
| Password.OpensAfterHash | linberrylibs/linberry/socket.cc:468-514 | half open, it takes a password, three tries and such an answer, and the device is unlocked then; without them nothing is sent and the error names the tries left |
| Password.RefusedHash | linberrylibs/linberry/socket.cc:484-502 | a refused hash leaves the socket half open with the tries and the seed of the refusal |
| Password.ChallengeLeadsOn | linberrylibs/linberry/socket.cc:450-470 | a challenge goes on as the half-open call with the tries and the seed it names |
| Password.AnswerBehindShown | linberrylibs/linberry/socket.cc:203-232 | a sequence packet that is shown is counted and the packet behind it is the answer |
| Sha1.LogicalForms | linberrylibs/linberry/sha1.cc:169-184 | the bit tricks of the rounds are the functions of section 5 of FIPS 180-1 |
| Sha1.ShaCtx.HashBlock | linberrylibs/linberry/sha1.cc:155-191 | one block is compressed as section 7 says, whatever W held beyond the sixteen new words |
| Sha1.ShaCtx.Update | linberrylibs/linberry/sha1.cc:99-115 | bytes fed in are appended to the message; size words, partial words and block hashes stay consistent with it |
| Sha1.ShaCtx.AddToSize | linberrylibs/linberry/sha1.cc:112-113 | sizeHi:sizeLo stays eight times the byte count modulo 2^64 |
| Sha1.ShaCtx.AddPadding | linberrylibs/linberry/sha1.cc:118-137 | the message fed in becomes the padded message of section 4, and the padding loop ends |
| Sha1.ShaCtx.Final | linberrylibs/linberry/sha1.cc:118-150 | the digest of everything fed in is written and the context starts over |
| Sha1.SHA1 | linberrylibs/linberry/sha1.cc:72-78 | equals the FIPS 180-1 digest for every input |
| Sha1.DigestOfParts | linberrylibs/linberry/sha1.cc:99-150 | any split of a message over updates gives the same digest |
| Sha1.PushKeepsWords | linberrylibs/linberry/sha1.cc:105-111 | shifting a byte into its word keeps the block, so that old contents of W never matter |
| Sha1Spec.HashBlocksOfPrefix | linberrylibs/linberry/sha1.cc:99-115 | blocks hashed so far do not depend on what follows |
| Sha1Spec.PaddingFillsBlocks | linberrylibs/linberry/sha1.cc:118-137 | a padded message is a whole number of blocks, and is the message followed by the byte 0x80 and more |
| Sha1Example.DigestOfAbc | linberrylibs/linberry/sha1.cc:72-191 | the digest of abc is the one FIPS 180-1 prints in appendix A, reached through its 80 words and 80 rounds |
| Router.StepKeepsOwned | linberrylibs/linberry/router.cc:69-444 | every step of every thread keeps each buffer at exactly one place |
| Router.AllocationOnlyGrows | linberrylibs/linberry/router.cc:136-144 | only the two allocating steps add a buffer, and no step loses one |
| Router.BuffersAreConserved | linberrylibs/linberry/router.cc:136-444 | in every reachable state each allocated buffer is in one queue, one handle or one thread, once |
| Router.QueuedPacketsStay | linberrylibs/linberry/router.cc:336-444 | no step changes a packet that is queued, for a socket or in the default queue |
| Router.StepKeepsInvariant | linberrylibs/linberry/router.cc:69-444 | every step keeps ownership, links and per-socket order together |
| Router.RunKeepsInvariant | linberrylibs/linberry/router.cc:69-444 | and so does every interleaving |
| Router.SocketsAreFifo | linberrylibs/linberry/router.cc:271-309 | packets delivered to a socket and those still queued are, in order, those routed to it since its registration, all addressed to it |
| Readers.ReaderWaitsOnItsSocket | linberrylibs/linberry/router.cc:271-295 | in every reachable state, SocketRead waits on the entry the socket is registered under, an entry of that socket |
| Readers.WaitsForWhatItAsked | linberrylibs/linberry/router.cc:271-309 | a thread waits only for the socket of its own SocketRead |
| Readers.ReaderGetsItsSocket | linberrylibs/linberry/router.cc:271-309 | in every run, the packet a waiting thread pops is addressed to the socket it asked for, was routed there, and is what its buffer holds |
| Readers.RoutedByRegistration | linberrylibs/linberry/router.cc:400-430 | in every run, a packet goes to the handler of its socket or to the end of its queue, and without a registration to the default queue |
| Readers.DefaultIsFifo | linberrylibs/linberry/router.cc:170-176 | in every run, readers of the default queue have taken, in order, a prefix of what was sent there |
| Readers.OnlyPacketsAreRouted | linberrylibs/linberry/router.cc:381-395 | exactly a successful read of two bytes or more is routed |
| Router.InterestFlagIsExact | linberrylibs/linberry/router.cc:400-430 | testing the interest flag before the map never misroutes a packet |
| RouterIo.SocketRoutingQueue.AllocateBuffers | linberrylibs/linberry/router.cc:136-144 | the free queue is topped up to the wanted count and never shrinks |
| RouterIo.SocketRoutingQueue.RegisterInterest | linberrylibs/linberry/router.cc:196-209 | a second registration fails; the first one gets an empty queue and raises the flag |
| RouterIo.SocketRoutingQueue.AppendFrom | linberrylibs/linberry/dataqueue.cc:176-188 | all buffers move to the free queue in order |
| RouterIo.SocketRoutingQueue.UnregisterInterest | linberrylibs/linberry/router.cc:218-235 | queued buffers go back to the free queue, and the flag falls with the last registration |
| RouterIo.SocketRoutingQueue.RoutePacket | linberrylibs/linberry/router.cc:400-430 | the packet goes to the handler, to the end of its socket's queue, or to nobody |
| RouterIo.SocketRoutingQueue.PopQueue | linberrylibs/linberry/dataqueue.cc:86-96 | takes the oldest buffer of exactly that queue |
| RouterIo.SocketRoutingQueue.PopFree | linberrylibs/linberry/dataqueue.cc:86-96 | takes the oldest free buffer, or none |
| RouterIo.SocketRoutingQueue.PushDefault | linberrylibs/linberry/router.cc:426-430 | the packet goes behind all others of the default queue |
| RouterIo.SocketRoutingQueue.PopDefault | linberrylibs/linberry/router.cc:171-176 | takes the oldest packet of the default queue, or none |
| RouterIo.SocketRoutingQueue.FindQueue | linberrylibs/linberry/router.cc:271-290 | the entry of the socket's current registration, which is an entry of that socket, or the error of a socket without one |
| RouterIo.DataHandle.Assign | linberrylibs/linberry/router.h:243-258 | the old buffer is returned, the other handle's one moves over, self-assignment empties the handle, foreign queues are refused |
| RouterIo.DataHandle.Clear | linberrylibs/linberry/router.h:193-199 | an owned buffer goes back to the free queue, once |
| Categories.CategoryStr2List | linberrylibs/linberry/record.cc:362-396 | the index loops, with their wrapping end position, give the trimmed pieces between the commas |
| Categories.CategoryList2Str | linberrylibs/linberry/record.cc:400-410 | names are joined by a comma and a space, which an empty start leaves out |
| Categories.JoinedOneMore | linberrylibs/linberry/record.cc:400-410 | each further name stands behind a comma and a space, unless nothing has been written yet |
| Categories.CategoryRoundTrip | linberrylibs/linberry/record.cc:362-410 | a list comes back exactly when all names are non-empty, comma-free and without outer spaces |
| Categories.SplitIsPlain | linberrylibs/linberry/record.cc:372-395 | whatever is read, only such names come out between commas |
| Dates.DateRoundTrip | linberrylibs/linberry/record.cc:305-333 | every date comes back from DD/MM/YYYY |
| Dates.DateLayout | linberrylibs/linberry/record.cc:305-313 | two digits of the day, two of the month counted from 1, four of the year, with slashes between them |
| Dates.BlanksBeforeNumber | linberrylibs/linberry/record.cc:324-333 | blanks and a plus sign in front of a number change nothing |
| Fields.BuildField | linberrylibs/linberry/record.cc:64-154 | size, type and payload are appended at the offset, after everything written before |
| Fields.ParseFieldString | linberrylibs/linberry/record.cc:156-174 | the stored bytes without the NULs they end in |
| Contacts.ParseField | linberrylibs/linberry/record-internal.h:43-55 | parsing a built field and any rest is handling that field, then parsing the rest |
| Contacts.TakesNames | linberrylibs/linberry/r_contact.cc:203-220 | first and last name come back in order; a missing first name stays missing |
| Contacts.TakesMembers | linberrylibs/linberry/r_contact.cc:337-357 | the rows of the type table are written in order and each fills its own member |
| Contacts.ParseUnknowns | linberrylibs/linberry/r_contact.cc:255-263 | of arbitrary extra fields exactly the non-empty ones without a case of their own stay |
| Contacts.CategoriesStay | linberrylibs/linberry/r_contact.cc:234-240 | through a field, a category list also must not end in a NUL |
| Contacts.TakesKnown | linberrylibs/linberry/r_contact.cc:288-380 | what all known fields of any contact become in a blank one, whatever follows them |
| Contacts.ContactRoundTrip | linberrylibs/linberry/r_contact.cc:152-390 | parsing what was built gives the contact with one extra leading unknown of type 0x55, if and only if it is well formed |
| Contacts.TooLongIsLost | linberrylibs/linberry/r_contact.cc:288-390 | a contact with a text or payload of more than 65535 bytes is built and never comes back |
| Contacts.CompanyOnly | linberrylibs/linberry/r_contact.cc:288-295 | a contact with nothing but a company is built and read back |
| Contacts.FieldCodes | linberrylibs/linberry/r_contact.cc:297-380 | the type codes of names, addresses, links, categories and dates |
| Contacts.GroupFlagIsFirst | linberrylibs/linberry/r_contact.cc:297-300 | the first field is the group flag exactly for a contact with links |
| Contacts.UnreadableField | linberrylibs/linberry/r_contact.cc:243-252 | a date that cannot be read leaves the contact as it was |
| Contacts.OverrunningField | linberrylibs/linberry/r_contact.cc:152-163 | a field that runs over the end changes nothing |
| ContactIo.Contact.ParseField | linberrylibs/linberry/r_contact.cc:152-263 | one field is stored in place as the specification says; a field that is empty or too long changes nothing |
| ContactIo.Contact.ParseFields | linberrylibs/linberry/r_contact.cc:271-276 | the parsing loop over the buffer, from any offset |
| ContactIo.Contact.BuildFields | linberrylibs/linberry/r_contact.cc:288-390 | refuses exactly a contact without first name, last name and company; otherwise the buffer holds exactly the built bytes from the offset on |
| Base64.EncodeInto | linberrylibs/linberry/base64.cc:77-128 | groups of three bytes up to the end or the first 0xFF, padded and folded |
| Base64.DecodeInto | linberrylibs/linberry/base64.cc:148-201 | the legal groups up to padding, the end or the first illegal character, folded, and whether padding was met |
| Base64.Output.Put | linberrylibs/linberry/base64.cc:52-73 | a line break goes in front of every 73rd character |
| Base64.NextSignificant | linberrylibs/linberry/base64.cc:132-144 | skips blanks, control characters and negative chars |
| Base64.GroupsUndone | linberrylibs/linberry/base64.cc:77-201 | decoding the groups of any bytes gives the bytes, and success exactly when there was padding |
| Base64.GroupIsNumber | linberrylibs/linberry/base64.cc:84-122 | four symbols are the 24 bits of three bytes, six by six, with padding for what is missing |
| Base64.Alphabet | linberrylibs/linberry/base64.cc:84-98 | the symbols are A to Z, a to z, 0 to 9, plus and slash |
| Base64.DecodeOfEncode | linberrylibs/linberry/base64.cc:204-218 | decoding an encoding gives the bytes before the first 0xFF, with a newline and a space after each 72 that more follow |
| Base64.Base64RoundTrip | linberrylibs/linberry/base64.cc:204-218 | exactly the same bytes if and only if there are at most 72 and none is 0xFF |
| Ldif.RecoveredExactly | linberrylibs/linberry/ldif.cc:786-837 | a value survives printing and reading exactly when it needs no encoding or base64 gives it back |
| Ldif.ReadContinuation | linberrylibs/linberry/ldif.cc:702-719 | continuation lines put a folded value together again |
| Ldif.ReadEntries | linberrylibs/linberry/ldif.cc:700-750 | reading printed fields, in any state, writes each recovered value under its own name, in order, and stops behind the empty line |
| Ldif.RunAttribute | linberrylibs/linberry/ldif.cc:159-178 | one attribute's lines change what its setter changes, and the hook of its name |
| Ldif.RunDump | linberrylibs/linberry/ldif.cc:632-664 | for any map whose names are distinct: a member for each attribute, all addresses in order, and the name hooks |
| LdifDefault.DefaultMapOk | linberrylibs/linberry/ldif.cc:117-153 | every attribute of the default map is found by its own name, and the object class lines by none |
| LdifText.PhonesByName | linberrylibs/linberry/ldif.cc:117-153 | which member each phone attribute of the default map stands for |
| LdifText.WorkByName | linberrylibs/linberry/ldif.cc:117-153 | likewise company, title, note and the parts of the work address, with the object class of the country |
| LdifText.NamesByName | linberrylibs/linberry/ldif.cc:117-153 | likewise names, whole addresses, mail and dn |
| LdifText.WorkLabelByParts | linberrylibs/linberry/record.cc:221-248 | the work address is the street lines 35 to 37 with newlines, city and province with spaces and the country on one line, and the postal code; an empty part is dropped with what ends it |
| LdifText.FullLabel | linberrylibs/linberry/record.cc:221-248 | the layout with all parts, written out |
| LdifText.HomeLabelAsWork | linberrylibs/linberry/ldif.cc:395-403 | the home address is the label of the members 61 to 63 and 69 to 72, and of nothing else |
| LdifText.HomeAddressIsPrinted | linberrylibs/linberry/ldif.cc:648-661 | a contact with a home address has a line for it, made of that address |
| LdifText.FieldIsPrinted | linberrylibs/linberry/ldif.cc:648-661 | every attribute with data has its line, followed by the line of its object class if it has one |
| LdifText.OnlyFieldsArePrinted | linberrylibs/linberry/ldif.cc:648-661 | no other line is printed |
| LdifText.LineLayout | linberrylibs/linberry/ldif.cc:786-804 | a plain value stands behind a colon and a space, an encoded one behind two colons and a space |
| LdifText.RecordText | linberrylibs/linberry/ldif.cc:642-667 | a record starts with the comment and the dn line and ends with the object class of a person and an empty line |
| LdifText.HexIsExact | linberrylibs/linberry/ldif.cc:645-646 | the id in the comment is its lower-case hexadecimal number without leading zeros |
| LdifText.LineMeaning | linberrylibs/linberry/ldif.cc:724-741 | a line of any origin is an attribute up to its first colon and a value behind all colons and spaces; two colons mark base64; without a colon it is ignored |
| LdifLaws.LdifRoundTrip | linberrylibs/linberry/ldif.cc:632-753 | reading any printed contact with a plain dn gives its names, or what cn offers for a missing one, the addresses and every field with a working setter, with the status that follows from the names, and leaves the stream behind the record |
| LdifLaws.EncodedDnIsNotFound | linberrylibs/linberry/ldif.cc:684-693 | a printed record is not found at all if and only if its dn is in base64 and its name holds no dn line; then it is skipped as a whole and reading goes on behind it |
| LdifLaws.LdifNeedsPlainDn | linberrylibs/linberry/ldif.cc:684-693 | for every contact that is printed: reading gives the restored contact and stops where the record ends if and only if the dn needs no encoding |
| LdifLaws.EncodedDnNeverReturns | linberrylibs/linberry/ldif.cc:684-745 | with a dn in base64 reading finds nothing, or throws at the dn, or ends at another place than the record does |
| LdifLaws.FindDnIff | linberrylibs/linberry/ldif.cc:684-690 | a record is found exactly when some line starts with dn, colon and space |
| LdifLaws.NamesAreExact | linberrylibs/linberry/ldif.cc:587-624 | with a plain dn, exactly when both names come back as they were, and exactly when success is reported, whether there are two names or one |
| LdifLaws.LdifIsExact | linberrylibs/linberry/ldif.cc:587-753 | for every contact: reading reports success and gives back names, addresses and mapped fields, behind the record, if and only if there are two names, the dn is plain, each value is plain or at most 72 bytes without 0xFF, and no address is empty |
| LdifLaws.LastNameTwice | linberrylibs/linberry/ldif.cc:602-624 | a last name alone, without a space, comes back as both names, with success |
| LdifLaws.SmithTwice | linberrylibs/linberry/ldif.cc:602-624 | the input that shows it: Smith |
| LdifLaws.FirstNameSplits | linberrylibs/linberry/ldif.cc:602-624 | a first name alone that has a space gains its last word as a last name, with success |
| LdifLaws.SplitAtLastSpace | linberrylibs/linberry/r_contact.cc:550-566 | a full name without NUL is split at its last space |
| LdifLaws.MaryAnnAnn | linberrylibs/linberry/ldif.cc:602-624 | the input that shows it: Mary Ann |
| LdifLaws.LineBreakStartsRecord | linberrylibs/linberry/ldif.cc:645-690 | a first name with a line break, a dn line and two fields in it makes the reader return the record inside the name, with success |
| LdifLaws.LineBreakExample | linberrylibs/linberry/ldif.cc:645-690 | such a contact, written out |
| LdifIo.ContactLdif.NeedsEncoding | linberrylibs/linberry/ldif.cc:814-837 | true exactly for unsafe bytes anywhere or an unsafe first byte |
| LdifIo.ContactLdif.DumpLdif | linberrylibs/linberry/ldif.cc:632-674 | the loops over the map and the addresses print exactly the text that the lemmas above describe line by line |
| LdifIo.ContactLdif.ReadLdif | linberrylibs/linberry/ldif.cc:676-753 | contact, status and unread rest are those of the specification, for every stream |
| LdifIo.ContactLdif.DoWrite | linberrylibs/linberry/ldif.cc:159-178 | empty names or data change nothing; otherwise hook and setter run; the setter of dn throws |
| LdifIo.ContactLdif.RunHeuristics | linberrylibs/linberry/ldif.cc:587-624 | each name is sn or givenName if there is one, else what cn offers, else what displayName offers |
| Cod.CodFileBuilder.WriteNextHeader | linberrylibs/linberry/cod.cc:118-193 | after k modules the local header and the directory entry of the next one are in place, at the stream's position |
| Cod.CodFileBuilder.WriteFooter | linberrylibs/linberry/cod.cc:195-217 | directory and end record are appended, except for a single module |
| Cod.SaveModule | linberrylibs/linberry/m_javaloader.cc:842-845 | one module is appended behind its header, and the builder is ready for the next |
| Cod.Save | linberrylibs/linberry/m_javaloader.cc:897-904 | the builder loop writes the archive of the plan behind whatever the stream held |
| Cod.JavaLoader.SendStream | linberrylibs/linberry/m_javaloader.cc:416-450 | announces the size and sends exactly the next bytes as chunks, up to the first message the device refuses, or fails when bytes are missing |
| Cod.JavaLoader.LoadApp | linberrylibs/linberry/m_javaloader.cc:452-459 | sends exactly the modules that the reader finds, for every stream and every device, up to the first message that is refused, and ends |
| Cod.Deliver | linberrylibs/linberry/m_javaloader.cc:416-450 | what is sent is a prefix of what there is to send, and all of it when nothing is refused |
| Cod.ChunksMakeTheModule | linberrylibs/linberry/m_javaloader.cc:433-449 | the chunks have at most 2040 bytes, all but the last are full, and together they are the module |
| Cod.SeekFindsModule | linberrylibs/linberry/cod.cc:44-104 | a local header leads the reader exactly to its module |
| Cod.SeekByBytes | linberrylibs/linberry/cod.cc:44-104 | what the reader makes of any bytes at its position: sizes, ends and each error |
| Cod.LoadReadsArchive | linberrylibs/linberry/m_javaloader.cc:452-459 | an archive gives its modules in order, up to the first empty one |
| Cod.BareModule | linberrylibs/linberry/cod.cc:44-104 | a bare module is loaded as itself exactly when it has four bytes and the DE C0 signature |
| Cod.ArchiveRoundTrip | linberrylibs/linberry/m_javaloader.cc:452-905 | loading what was saved visits exactly the saved modules, if and only if none is empty and a lone one carries the signature |
| Cod.EntryMatchesHeader | linberrylibs/linberry/cod.cc:118-193 | each directory entry holds the position of its module's local header, with the same CRC, sizes and name, and the module follows |
| Cod.EndRecordIsTrue | linberrylibs/linberry/cod.cc:195-217 | the end record holds the count, offset and length of the directory that was written |
| Cod.FileNamesDiffer | linberrylibs/linberry/cod.cc:134-140 | the modules of an archive are name.cod, name-1.cod and so on, and no two share a name |
| Ppp.FilterOfConcat | linberrylibs/linberry/pppfilter.cc:46-76 | filtering piece by piece is filtering the whole |
| Ppp.FilterFrames | linberrylibs/linberry/pppfilter.cc:46-76 | output is always framed, framed input and only framed input is unchanged, and filtering twice is filtering once |
| Ppp.FilterKeepsFrames | linberrylibs/linberry/pppfilter.cc:46-76 | the non-empty runs between flags are unchanged (RFC 1662 section 3.1) |
| Ppp.OutputFits | linberrylibs/linberry/pppfilter.cc:49-50 | the output never exceeds n/2*3+4 bytes |
| Ppp.CutsDoNotMatter | linberrylibs/linberry/pppfilter.cc:86-107 | in PPP mode the output does not depend on how the input is cut into writes |
| Ppp.PassesUntilFlag | linberrylibs/linberry/pppfilter.cc:86-107 | from a fresh filter everything passes as it is until a chunk starts with a flag |
| Ppp.PppFilter.Filter | linberrylibs/linberry/pppfilter.cc:46-76 | the pointer loops put the transducer's output at the offset and remember its state |
| Ppp.PppFilter.Write | linberrylibs/linberry/pppfilter.cc:86-107 | returns the input itself before PPP mode and the filtered bytes in it |
| Ppp.PppFilter.WritePrepend | linberrylibs/linberry/pppfilter.cc:116-137 | the same behind the room asked for |
| RecordStates.RecordStateTable.Parse | linberrylibs/linberry/r_recordstate.cc:66-78 | all complete 12-byte fields after the header are stored in order |
| RecordStates.FieldReadsBack | linberrylibs/linberry/r_recordstate.cc:55-60 | a field built from type, index, record id, flags and four bytes is read back as these |
| RecordStates.FieldsBehindHeader | linberrylibs/linberry/r_recordstate.cc:66-78 | the fields start behind a header of 12 bytes and are 12 bytes long |
| RecordStates.LastFieldStays | linberrylibs/linberry/r_recordstate.cc:45-64 | of several fields with one index the last stays, over whatever the table held |
| RecordStates.RecordStateTable.GetIndex | linberrylibs/linberry/r_recordstate.cc:89-100 | the smallest index with that record id, found exactly when there is one |
| RecordStates.RecordStateTable.MakeNewRecordId | linberrylibs/linberry/r_recordstate.cc:104-121 | despite starting over and wrapping it ends with the cyclically next id that no entry uses |
| RecordStates.FreeIdExists | linberrylibs/linberry/r_recordstate.cc:104-121 | with fewer than 2^32 ids in use a free one is at most one step further than their number |
| RecordStates.FirstFreeIsUnique | linberrylibs/linberry/r_recordstate.cc:104-121 | the cyclically next free id is only one |
| Bitmap.ScreenshotToRGB | linberrylibs/linberry/bmp.cc:69-170 | succeeds exactly on 2 or 4 bytes per pixel at depth 24 or 32; then the buffer holds the converted rows from the offset on, and otherwise it is untouched |
| Bitmap.ConversionPlacesPixels | linberrylibs/linberry/bmp.cc:109-167 | output row j, column i comes from the same column of row j, or of row height-1-j when inverted |
| Bitmap.ConvertByBits | linberrylibs/linberry/bmp.cc:125-143 | bits 11-15, 5-10 and 0-4 of a 16-bit pixel become red, green and blue, in the order blue, green, red, from 0 to 255 |
| Bitmap.ConvertFourBytes | linberrylibs/linberry/bmp.cc:144-161 | a four-byte pixel keeps its colours, and its alpha unless it is overwritten |
| Bitmap.EverySourceRowOnce | linberrylibs/linberry/bmp.cc:115-121 | source rows and output rows correspond one to one |
| Bitmap.MirroringTwice | linberrylibs/linberry/bmp.cc:86-167 | the inverting 4-byte, 32-bit conversion that keeps alpha is its own inverse |
| Bitmap.FindDataSize | linberrylibs/linberry/bmp.cc:93-101 | the least number of bytes per pixel, from two on, that covers the data |

## Left out

- USB transfer, device discovery, endpoint probing and thread creation: input and output are streams and traces.
- Liveness of `wait_pop` and time-outs: a waiting reader may give up at any step; safety and order are proved.
- `Socket::Close`, `PacketData`, `PacketJVM` and the half-open Close inside `Open`'s callers: thin users of the modelled calls.
- The flag that hides sequence packets stays off when a time-out ends the sending of fragments; the model keeps that, and no lemma speaks about the exchange after it.
- A registered socket's own queue is an incoming stream in `Exchange` and `SocketIo`; its order is proved in `Router`.
- Fragment.AppendFragment: a continuation fragment of exactly five bytes makes the original copy a negative length; the exchange treats it as a failure and the method requires the full header.
- Hex dumps, hex parsing and `Diff` of `Data`: debugging helpers.
- Character set conversion: the converter is absent everywhere.
- Other record types, calendar times and recurrences: the same field loop, with no builder that undoes it or with time functions that are not part of this model.
- Categories.CategoryStr2List: on a text that starts with a comma the original reads one byte in front of the string; the model takes it as no space.
- Contacts.ParseField: the bytes that a group link field of fewer than six bytes reads beyond the end of the buffer are taken as 0.
- Contacts.ContactRoundTrip: is stated for fields that fit the 16-bit sizes they are stored with; longer ones are lost (`Contacts.TooLongIsLost`), which leaves open texts of exactly 65535 bytes and category lists whose names are longer only together.
- The 37 string members of a contact that the type table names are one map by type code.
- Base64.DecodeInto: the translation table is a static array that both directions refill; each call has its own here.
- SetObjectOrder, SetDNAttr, Map and Unmap: the map is fixed by the constructor, every getter is paired with its own setter, and its order is the one of `operator<` with all orders 0.
- Cod.Save: CRC values come from a function that is not part of this model; the sizes in headers are compared modulo 2^32.
- Cod.JavaLoader.LoadApp: covers streams below 4 GiB, whose length fits the 32-bit module size; on a longer one that starts over, the loop of the original may not end. When the stream breaks off inside a module, only the error is stated, not the chunks sent before it.
- Cod.Seek: reading past the end of a stream is an error at once; the standard library may notice it one read later.
- Bitmap.ScreenshotToRGB: without any pixels the search for the pixel size would not end on data, and pixel positions are C ints; both are required of the caller.
- Writing BMP headers (`ScreenshotToBitmap`): constants and sizes only.
- RecordStates.RecordStateTable.MakeNewRecordId: with all 2^32 ids in use the original would not end, so fewer are required.
- The JDWP server, JVM debug mode, IP modem and the Python programs beside the library.
