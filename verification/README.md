# WiFiNINA host driver: a verified model

The driver talks to a WiFi co-processor over SPI. This project models four linked
parts of it in Dafny and proves what they promise to each other:

- the frame codec of `src/spi_drv.c`: command frames built into a 255-byte buffer,
  and the receiver that resynchronises in a FIFO which yields 0 once drained
  (`Wire`, `Frame`, `Receiver`, `SpiDrv`);
- the ten socket buffers of `src/WiFiSocketBuffer.c` over the replies to
  GET_DATABUF (`ServerDrv`, `SocketStream`, `WiFiSocketBuffer`);
- the client calls of `src/WiFiClient.c` that poll, time out and close buffers
  (`WiFiClient`, `Ticks`), and the scan table of `src/wifi_drv.c` (`WiFiDrv`);
- the bus handshake between the driver, the ESPBUSY pin and the interrupts (`Handshake`).

## How it is built

The imperative parts are classes and methods with the source's fields, arrays and
loops. Each is proved against a function on values: `Frame.Encode` for the senders,
`Receiver.Parse` for the receivers, `SocketStream.Step` for the socket and client
calls. The laws are lemmas about those functions, over every input or every run.

`Width` is the one difference between the two senders and the two receivers: `Len8`
is `SpiDrv_sendCmd` / `SpiDrv_receiveResponseCmd`, `Len16` is `SpiDrv_sendBuffer` /
`SpiDrv_receiveResponseBuffer`. Positions in the FIFO are positions in an endless
stream, `At(f, i)` being 0 past the end. `Holds(f, p, e)` says that the bytes `e`
stand in `f` at `p`; `Holds(f, 0, idle) && Holds(f, |idle|, frame)` thus reads "`f` is
`idle`, then `frame`, then anything".

The slave is a script, `line`: one burst of bytes for every transfer, arbitrary
unless a lemma says otherwise. A send uses up one burst and a receive one. `sent` logs
every transfer in the other direction.
Time enters `ConnectCommon` as a function that gives each reading of the counter.
`Handshake` treats a transfer step by step; `SpiDrv.Transfer` is its summary, which
`StartsClean` and `BusDiscipline` justify.

## Where the code differs from its evident purpose

- `ServerDrv_getDataBuf` never stores the received length through `_dataLen`
  (src/server_drv.c:188-200). `LengthPolicy` models both: `AsWritten` is the code,
  `WriteBack` stores the length received, 0 for a reply not accepted. The methods
  follow the code under either policy. `Step` and the stream properties up to
  `EndToEnd` are for `WriteBack`. For the code as it stands, `AsWrittenConservesIff`
  says in which runs a socket's stream is kept (only in those that receive nothing),
  `AsWrittenExposesFetchedIff` after which refills; `SilenceExposed` is a failing input.
- The receiver keeps room for a NUL, so a parameter as long as its buffer is cut and
  the rest misread (src/spi_drv.c:319-327): `DeliveredIff`. Every one-byte status is
  lost this way: `OneByteNeverArrives`, `StateMisread`, `ConnectedAnswer`,
  `ConnectedIffUnanswered`. So `connectCommon` takes a slave that answers its status
  queries well for connected after two polls, and `stop` uses up its 50 polls
  (`ConnectCommon`, `Stop`). The model follows the code.
- ERR makes `SpiDrv_waitSpiChar` return -1, which its callers take for success
  (src/spi_drv.c:108-110, 195, 295). The model follows the code. `AcceptedLanguage`
  says exactly which bytes are accepted, `FramedLanguage` which of them are frames,
  and `ErrorTakenForReply` gives an accepted reply with no START in it.
- Senders pad before END and receivers accept no padding: `Duality`. Replies are
  specified unpadded, as in the diagram at src/spi_drv.c:234-239.
- `ServerDrv_checkDataSent` reuses a descriptor whose length the receiver has set to
  0 (src/server_drv.c:257-265), and the next length wraps. `PollsSafeIff` says for
  which replies the loop as written stays inside its one-byte object, and
  `TwoAnswersOverflow` gives replies for which it does not. `CheckDataSent` follows
  the code for the former, and for all replies with the length restored.
- A token left in `slaveReadyDetected`, or an edge about to leave one, ends a wait
  while ESPBUSY is still high: `WaitsForFallIff` is the exact condition,
  `TransferWhileBusy` a run that gets there, and `OneFallOneWait` bounds how often.

## Model

| member | source | states |
|---|---|---|
| Frame.FrameLength | src/spi_drv.c:158-162 | the frame is the next multiple of 4 above the unpadded length, and fits the 255-byte buffer if and only if that length is at most 251 |
| Frame.FrameEnding | src/spi_drv.c:258-262 | END is last, with only zeros, at most three, between it and the parameters |
| Frame.LengthBytes | src/spi_drv.c:152-153 | a length is one byte, or two with the high byte first |
| Frame.ReadOfWritten | src/spi_drv.c:214-229 | the receiver's loop reads back any parameter list the sender's loop wrote, wherever it stands, for both length widths |
| Frame.WrittenOfRead | src/spi_drv.c:314-328 | the converse: untruncated fields inside the FIFO are what the sender writes for the data read |
| Frame.ReadUntilCut | src/spi_drv.c:319-327 | of a parameter as long as its buffer or longer exactly the first `cap - 1` bytes are stored, those before it arrive whole, and the byte cut off first is met next |
| Frame.ReadBelowCapacity | src/spi_drv.c:319-321 | every stored length stays strictly below its capacity, or below the wrapped one where it is 0, for any bytes |
| Frame.ReadAgrees | src/spi_drv.c:314-328 | what is read depends on the bytes read only |
| Frame.DecodeOfFramed | src/spi_drv.c:250-262 | a checking decoder undoes the sender, whatever follows the frame |
| Frame.FramedOfDecode | src/spi_drv.c:250-262 | that decoder accepts nothing but the sender's frames |
| Frame.EncodeDecodes | src/spi_drv.c:241-262 | what a sender sends decodes to its command without the reply bit and to exactly its parameters |
| Frame.PrefixFree | src/spi_drv.c:144-162 | one frame is a prefix of another if and only if command (up to the reply bit) and parameters agree |
| Frame.UniqueSplit | src/spi_drv.c:140-162 | any concatenation of command frames of both widths splits in exactly one way |
| Receiver.WaitForExact | src/spi_drv.c:103-113 | the wait reads at most 1001 bytes, stops at the first hit or ERR, and says which |
| Receiver.WaitForUnique | src/spi_drv.c:103-113 | those conditions determine the result |
| Receiver.Resynchronise | src/spi_drv.c:103-125 | in a FIFO that fits, a timeout means neither START nor ERR arrived; otherwise exactly the bytes after the first of them are left |
| Receiver.AcceptedIsReal | src/spi_drv.c:120-125 | an accepted reply lies wholly in the FIFO, so no filler 0 was read, and later bytes cannot change it |
| Receiver.ReplyFits | src/spi_drv.c:319-327 | every stored parameter leaves room for its NUL |
| Receiver.RoundTrip | src/spi_drv.c:274-331 | a reply with all lengths below capacity is accepted and delivered exactly, after any silence and before any bytes |
| Receiver.HeaderShowsReplyBit | src/spi_drv.c:299 | a header is valid if and only if the byte after START or ERR is the command with bit 7 set |
| Receiver.AcceptedShowsReplyBit | src/spi_drv.c:195-201 | so every accepted reply shows it |
| Receiver.RequestIsNoReply | src/spi_drv.c:195-201 | after any silence no sender's frame, of any command and width, is taken for a reply: nothing is accepted or stored |
| Receiver.NoLeadNoReply | src/spi_drv.c:103-113 | with neither START nor ERR the wait uses up its 1001 reads and nothing is stored |
| Receiver.EmptyReply | src/spi_drv.c:303-312 | a reply of no parameters is rejected, and its count is reported |
| Receiver.OverfullReply | src/spi_drv.c:303-312 | of more parameters than descriptors exactly the first ones are delivered, and accepted only if the next length begins with END |
| Receiver.CutReply | src/spi_drv.c:319-330 | the first parameter too long for its buffer leaves exactly `cap - 1` bytes; if it is the last one read, the reply is accepted if and only if the byte cut off first is END |
| Receiver.DeliveredIff | src/spi_drv.c:319-327 | the parameters arrive as sent if and only if every length is below its capacity |
| Receiver.AcceptedIffWithin | src/spi_drv.c:277-291 | a reply is accepted if and only if the transfer covers all of it; every strict prefix is rejected |
| Receiver.AcceptedBytes | src/spi_drv.c:295-330 | an accepted reply without loss is silence, START or ERR, and the rest of the frame of exactly the delivered parameters |
| Receiver.SpelledIsDelivered | src/spi_drv.c:295-330 | the converse: silence, START or ERR, and the rest of such a frame is accepted and delivered exactly |
| Receiver.AcceptedLanguage | src/spi_drv.c:295-330 | a FIFO is accepted without loss if and only if it begins with silence, START or ERR, and the rest of the frame of some parameters below capacity |
| Receiver.AcceptedOpensWithStartIff | src/spi_drv.c:108-110 | an accepted reply was opened by START if and only if no ERR stands before the first START |
| Receiver.FramedLanguage | src/spi_drv.c:195-231 | the FIFOs accepted without loss that have a START before any ERR are those that begin with silence and a frame, and no others |
| Receiver.ErrorTakenForReply | src/spi_drv.c:108-110 | an ERR-led FIFO, with no START in it, that is accepted |
| Receiver.Duality | src/spi_drv.c:250-262 | a sender's frame with the reply bit set gives back all parameters, and is accepted if and only if it needed no padding |
| SpiDrv.NoCrossTalk | src/spi_drv.c:281-292 | in any sequence of transactions each reply is decoded from the bytes of its own receive phase alone |
| SpiDrv.BurstExact | src/spi_drv.c:289-291 | a transfer of n bytes brings the first n bytes of what the slave clocks out, or all of it |
| SpiDrv.WritesStayInside | src/spi_drv.c:299-330 | for any FIFO: exactly length + 1 bytes written per parameter, all inside the capacity, of the descriptors the reply reaches; others untouched; unread bytes kept |
| SpiDrv.SpiDrv.PutField | src/spi_drv.c:150-155 | appends one parameter, high length byte first |
| SpiDrv.SpiDrv.PutFields | src/spi_drv.c:245-256 | the loop leaves header and all parameters, inside the buffer |
| SpiDrv.SpiDrv.PutClosing | src/spi_drv.c:258-262 | the padding loop and END |
| SpiDrv.SpiDrv.FillFrame | src/spi_drv.c:140-162 | the transmit buffer holds the encoded frame |
| SpiDrv.SpiDrv.Transfer | src/spi_drv.c:169-170 | what goes out is the front of the buffer, what comes in is at most as long |
| SpiDrv.SpiDrv.Send | src/spi_drv.c:241-272 | exactly the encoded frame goes out; the FIFO holds only what came in meanwhile |
| SpiDrv.SpiDrv.ReadChar | src/spi_drv.c:120-125 | the FIFO's first byte, or 0 when drained |
| SpiDrv.SpiDrv.WaitSpiChar | src/spi_drv.c:103-113 | the do-while loop refines `WaitFor` and returns 1, -1 or 0 |
| SpiDrv.SpiDrv.ReadLength | src/spi_drv.c:217-218 | one byte, or two with the high byte first |
| SpiDrv.SpiDrv.StoreBytes | src/spi_drv.c:323-326 | the bytes and their NUL, nothing beyond |
| SpiDrv.SpiDrv.ReadParam | src/spi_drv.c:314-328 | one descriptor and its storage change, all others keep their values |
| SpiDrv.SpiDrv.ReadParams | src/spi_drv.c:214-229 | the loop refines `ReadFields` into the caller's storage |
| SpiDrv.SpiDrv.ReadHeader | src/spi_drv.c:295-303 | sync, echo and count, with what is left in the FIFO on each exit |
| SpiDrv.SpiDrv.ReadBody | src/spi_drv.c:314-330 | the parameter loop and the test for END, with what each leaves behind |
| SpiDrv.SpiDrv.ParseReply | src/spi_drv.c:195-231 | result, count, storage and remaining FIFO are those of `Parse` |
| SpiDrv.SpiDrv.Receive | src/spi_drv.c:274-331 | the same for the whole call, on the bytes of its own transfer, of `min(maxSize, 255)` zeros sent; only descriptors the reply reaches need their storage |
| ServerDrv.OneByteNeverArrives | src/server_drv.c:143-157 | a one-byte object gets its NUL and never its byte, for any reply |
| ServerDrv.StateIsAcceptance | src/server_drv.c:143-157 | so the state read is CLOSED if the reply was accepted and failure otherwise, whatever it said |
| ServerDrv.StateMisread | src/server_drv.c:143-157 | a well-formed state reply reads as CLOSED if the state is the END byte and as failure otherwise |
| ServerDrv.Exchange | src/server_drv.c:127-141 | one command, one reply, and what the descriptor and its storage hold afterwards |
| ServerDrv.GetClientState | src/server_drv.c:143-157 | the result is a function of the reply's burst; the query of `StateRequestBytes` goes out and two bursts are used |
| ServerDrv.SocketRequestBytes | src/server_drv.c:110-116 | a one-socket command byte by byte, and what it decodes to |
| ServerDrv.StateRequestBytes | src/server_drv.c:145-150 | the state query byte by byte; it decodes to its command and its socket |
| ServerDrv.ReplyTells | src/server_drv.c:152-156 | the bytes of a state reply, with which the laws about such replies apply |
| ServerDrv.RequestNamesSocket | src/server_drv.c:189-195 | whoever decodes the GET_DATABUF frame learns the socket it asks about |
| ServerDrv.DataRequestBytes | src/server_drv.c:188-195 | the GET_DATABUF frame byte by byte: lengths high byte first, the capacity low byte first |
| ServerDrv.DataReplyBytes | src/spi_drv.c:234-239 | the reply that carries a chunk byte by byte |
| ServerDrv.GetDataBuf | src/server_drv.c:188-200 | the frame sent; return value, length and buffer, as written and with the write-back |
| ServerDrv.WriteBackExposesFetched | src/WiFiSocketBuffer.c:60-64 | with the write-back, exactly the received bytes become readable, whatever the buffer held |
| ServerDrv.AsWrittenExposesFetchedIff | src/server_drv.c:188-200 | as written they do if and only if a valid header announces an empty parameter |
| ServerDrv.AsWrittenExposes | src/server_drv.c:188-200 | as written 255 bytes become readable, more than any reply can carry, or none if the reply announced none |
| ServerDrv.AsWrittenShows | src/WiFiSocketBuffer.c:60-63 | namely the bytes received, a NUL, and the old storage behind it |
| ServerDrv.SilenceExposed | src/server_drv.c:188-200 | a reply of no bytes at all makes 255 bytes of old storage readable |
| ServerDrv.FetchedOfFramed | src/server_drv.c:195-198 | a framed chunk is received whole if it lies within the 255-byte transfer, and not at all otherwise |
| ServerDrv.CheckDataSent | src/server_drv.c:252-274 | as written, for replies no two of which carry a parameter, and with the length restored, for all: exactly 25 polls go out and failure is reported |
| ServerDrv.DataSentPollsBytes | src/server_drv.c:257-263 | every poll is the DATA_SENT query about the socket, byte by byte, and 20 zeros |
| ServerDrv.Poll | src/server_drv.c:259-264 | one poll: what it sends, that the response stays 0, and the length it leaves in the descriptor |
| ServerDrv.PollStores | src/spi_drv.c:319-327 | an answered poll stores a NUL through a fresh descriptor, and 255 bytes and a NUL through the one that leaves |
| ServerDrv.PollsSafeIff | src/server_drv.c:257-273 | the first n polls of the loop as written stay inside the one-byte object if and only if no two of them are answered with a parameter |
| ServerDrv.TwoAnswersOverflow | src/server_drv.c:257-273 | two well-formed answers, the second of which does not |
| SocketStream.StepConserves | src/WiFiClient.c:153-173 | one operation: buffered and received equal delivered and still buffered, for every socket |
| SocketStream.Conservation | src/WiFiSocketBuffer.c:51-94 | in every run, closing by a status query included, no byte of any socket is lost, duplicated or reordered |
| SocketStream.Isolation | src/WiFiSocketBuffer.c:51-94 | an operation leaves every other socket's bytes alone |
| SocketStream.AvailableCounts | src/WiFiSocketBuffer.c:67 | the number of bytes readable, under either policy |
| SocketStream.PeekShowsFirst | src/WiFiSocketBuffer.c:70-76 | -1 if and only if nothing is readable, otherwise the first byte; nothing changes |
| SocketStream.ReadCharReturnsTaken | src/WiFiClient.c:113-121 | -1 if and only if nothing is readable, otherwise the byte taken off the front |
| SocketStream.ReadCountsTaken | src/WiFiSocketBuffer.c:78-94 | the number of bytes taken off the front, at most what was asked for, and less only if that was all |
| SocketStream.StepReturns | src/WiFiClient.c:105-173 | what each operation returns in terms of what was readable; `connected` says yes if and only if something was, or the status reply was not accepted |
| SocketStream.StepSends | src/WiFiSocketBuffer.c:51-64 | the refill goes out only if nothing was buffered, the state query only if nothing came, both about the socket asked for, byte by byte; one burst is used for each transfer |
| SocketStream.RunKeepsStep | src/WiFiSocketBuffer.c:51-94 | over every run one burst is used for each transfer |
| SocketStream.ReadingRun | src/WiFiSocketBuffer.c:78-94 | a run of reads delivers the front of what was pending and leaves the rest |
| SocketStream.ReadSizeIndependence | src/WiFiSocketBuffer.c:78-94 | schedules that take as many bytes deliver the same bytes |
| SocketStream.PeekForetells | src/WiFiSocketBuffer.c:70-76 | a peeked byte is the first byte read next, however it is read |
| SocketStream.ReceivedIsShare | src/server_drv.c:188-200 | framed refills bring each socket exactly the chunks sent in answer to frames naming it |
| SocketStream.FrameCarries | src/spi_drv.c:234-239 | the bytes of a burst to which the law above applies |
| SocketStream.EndToEnd | src/WiFiSocketBuffer.c:51-94 | over every run of all sockets, status queries included, the bytes delivered and still buffered for a socket are, in order, those buffered at first and then the chunks the slave sent in answer to frames that decode to that socket |
| SocketStream.StepWithWriteBack | src/WiFiSocketBuffer.c:51-68 | with the write-back what the storage held before makes no difference to an operation |
| SocketStream.RunWithWriteBack | src/WiFiSocketBuffer.c:51-94 | nor to a run, so the laws above hold of what the methods do |
| SocketStream.ExposedConserved | src/WiFiSocketBuffer.c:51-94 | under either policy, in every run, the bytes the refills made readable are delivered or kept, once and in order |
| SocketStream.AsWrittenConservesIff | src/WiFiSocketBuffer.c:60-64 | as the code stands, in every run, a socket's bytes delivered and kept are those buffered and received if and only if every refill announced an empty parameter |
| SocketStream.AliveStates | src/WiFiClient.c:164-165 | ESTABLISHED, CLOSING, LAST_ACK and every byte that is no TCP state count as connected, 255 for WL_FAILURE among them |
| SocketStream.ConnectedIffUnanswered | src/WiFiClient.c:153-173 | with nothing readable the answer is yes if and only if the status reply was not accepted |
| SocketStream.ConnectedAnswer | src/WiFiClient.c:153-173 | on a well-formed status reply the answer is right if and only if the state is open and not the END byte |
| SocketStream.ConnectedAsWritten | src/WiFiClient.c:153-173 | as the code stands the answer is no if and only if the refill announced an empty parameter and the status reply was accepted |
| SocketStream.TwoPollsSayYes | src/WiFiClient.c:153-173 | two polls answered by well-formed states other than the END byte both say yes, whatever the states and the refills |
| WiFiSocketBuffer.WiFiSocketBuffer.constructor | src/WiFiSocketBuffer.c:33-35 | ten empty buffers satisfying the invariant |
| WiFiSocketBuffer.WiFiSocketBuffer.Close | src/WiFiSocketBuffer.c:43-49 | that buffer is freed and empty, the other slots are unchanged |
| WiFiSocketBuffer.WiFiSocketBuffer.Deinit | src/WiFiSocketBuffer.c:37-41 | all ten are freed and empty |
| WiFiSocketBuffer.WiFiSocketBuffer.Allocate | src/WiFiSocketBuffer.c:53-56 | fresh storage, shared with no other slot; nothing readable changes |
| WiFiSocketBuffer.WiFiSocketBuffer.Refill | src/WiFiSocketBuffer.c:58-64 | the exchange refines `Refilled`, for either length policy |
| WiFiSocketBuffer.WiFiSocketBuffer.Available | src/WiFiSocketBuffer.c:51-68 | refills only an empty buffer, keeps its storage and the other slots, keeps the invariant, returns the bytes readable |
| WiFiSocketBuffer.WiFiSocketBuffer.Peek | src/WiFiSocketBuffer.c:70-76 | refines the `Peek` step, for either length policy |
| WiFiSocketBuffer.WiFiSocketBuffer.Read | src/WiFiSocketBuffer.c:78-94 | refines the `Read` step, for either policy; the caller's buffer gets exactly the bytes delivered |
| WiFiSocketBuffer.WiFiSocketBuffer.Consume | src/WiFiSocketBuffer.c:89-91 | head and length move past the bytes copied out |
| WiFiClient.Available | src/WiFiClient.c:105-111 | refines the `Available` step, for either policy; no effect without a socket |
| WiFiClient.ReadChar | src/WiFiClient.c:113-121 | refines the `ReadChar` step, for either policy: the second availability check never refills |
| WiFiClient.Status | src/WiFiClient.c:175-180 | without a socket CLOSED and no effect; else the state query goes out, its reply decides the result, and no buffered byte changes |
| WiFiClient.Connected | src/WiFiClient.c:153-173 | refines the `Connected` step for either policy; the buffer is freed if and only if the answer is no, the other slots are unchanged |
| WiFiClient.AwaitConnected | src/WiFiClient.c:57-60 | the loop: it ends with the first yes, or with the first check of the clock after a no that finds the limit passed |
| WiFiClient.ConnectCommon | src/WiFiClient.c:54-66 | polls on after every no while the limit, in true time, is not reached, and stops at the first yes or with the limit reached, after at most ceil(limit / d) + 2 polls; does nothing but poll, and returns the socket if and only if the last poll said yes, else the buffer is freed; well-formed states other than the END byte make it return the socket after two polls |
| WiFiClient.StopClient | src/server_drv.c:110-124 | the stop command goes out and no buffered byte changes |
| WiFiClient.StoppingSends | src/server_drv.c:110-119 | the stop command byte by byte |
| WiFiClient.PolledSends | src/WiFiClient.c:142-147 | all that the polls send is the state query about that socket |
| WiFiClient.StatusClosedIff | src/WiFiClient.c:142-147 | a poll sees CLOSED if and only if its reply was accepted |
| WiFiClient.AwaitClosed | src/WiFiClient.c:142-147 | stops at the first CLOSED answer, or after 50 polls |
| WiFiClient.Stop | src/WiFiClient.c:135-151 | as above, then that buffer alone is freed and empty; well-formed states other than the END byte make it use all 50 polls |
| Ticks.WrapAgrees | src/WiFiClient.c:58 | below one turn of the counter the unsigned test agrees with true time |
| Ticks.NextCheckExact | src/WiFiClient.c:58 | the next check is right for every moment in time if and only if the gap to it is at most `m - limit` |
| Ticks.ChecksAgree | src/WiFiClient.c:55-60 | along a paced loop every check agrees with true time |
| Ticks.TurnsBounded | src/WiFiClient.c:58-60 | the loop body runs at most ceil(limit / d) times |
| Ticks.PassedInTrueTime | src/WiFiClient.c:58 | every check passed on the counter was passed in true time, and the next one agrees with it |
| Ticks.SteadyIsPaced | src/WiFiClient.c:59 | a steady clock meets the assumption on the pace |
| Handshake.StepKeepsInv | src/spi_drv.c:45-101 | every step of the driver, the pin, the interrupts and the SPI block keeps the invariant |
| Handshake.RunKeepsInv | src/spi_drv.c:85-101 | every state of every interleaving satisfies it |
| Handshake.NoLostWakeup | src/spi_drv.c:134-138 | a driver blocked on the ready semaphore has ESPBUSY high or the interrupt still to come |
| Handshake.TokenChanges | src/spi_drv.c:46-50 | the ready token comes only with the interrupt, and goes only when a wait takes it or a new semaphore replaces it |
| Handshake.OneFallOneWait | src/spi_drv.c:134-138 | in every run, waits ended by a token and tokens and edges left never exceed the falls of ESPBUSY and what was there at first: one fall ends one wait at most |
| Handshake.NewSemaphoreIsEmpty | src/spi_drv.c:64-65 | no token outlives `SpiDrv_end`: the next call begins with an empty semaphore |
| Handshake.WaitBeforeSpin | src/spi_drv.c:127-138 | the driver goes on to chip select only after a low read of ESPBUSY or with a token taken |
| Handshake.WaitBeforeTransfer | src/spi_drv.c:93-97 | a transfer begins only right after a low read under chip select, a token taken there, or the 5 ms |
| Handshake.LowBeforeSelect | src/spi_drv.c:127-132 | chip select is asserted only right after a low read of ESPBUSY, stale tokens or not |
| Handshake.BusDiscipline | src/spi_drv.c:164-171 | chip select is released only after its own transfer's completion was taken, and is held from before the start until then |
| Handshake.StartsClean | src/spi_drv.c:53-58 | a transfer starts under chip select, with no transfer and no completion left over |
| Handshake.ReleasedBetweenCalls | src/spi_drv.c:181-200 | after every exit, early ones included, the bus is released |
| Handshake.BegunByCall | src/spi_drv.c:85-91 | the driver works only within a call, and sends or receives as that call said |
| Handshake.ReturnsAfterRelease | src/spi_drv.c:169-201 | a call returns only after its transfer was released, and a receive parses in between |
| Handshake.CanReturn | src/spi_drv.c:85-101 | from every reachable state some continuation completes the call: there is no dead end |
| Handshake.WorkBounded | src/spi_drv.c:85-101 | in every run the useful actions number at most 44 for each call, 2 for each rise of ESPBUSY, and what was owed at the start |
| Handshake.CallEnds | src/spi_drv.c:85-101 | so a call ends: at most 47 useful actions and 2 for each rise, and when none is left it has returned with the bus released |
| Handshake.WaitsForFallIff | src/spi_drv.c:93-97 | each of the two waits that begins with ESPBUSY high, and does not time out, sees it fall before going on if and only if it begins with no token and no unserved edge |
| Handshake.WaitOnOldToken | src/spi_drv.c:134-138 | with a token or an unserved edge, a wait that ends with ESPBUSY high throughout |
| Handshake.TransferWhileBusy | src/spi_drv.c:93-97 | such a run from the start, without timeout, to a transfer that begins while ESPBUSY is high |
| WiFiDrv.NamesLeaveRoom | src/wifi_drv.c:350-356 | at most 31 bytes of a row are decoded ones, for any reply |
| WiFiDrv.LongName | src/spi_drv.c:319-327 | the first name of 32 bytes or more leaves its first 31, after the names before it |
| WiFiDrv.RowExact | src/wifi_drv.c:348-353 | a row is 32 bytes, the name and then zeros only |
| WiFiDrv.ScanRequestBytes | src/wifi_drv.c:346 | the scan command byte by byte |
| WiFiDrv.ScanRoundTrip | src/wifi_drv.c:345-357 | a well-formed reply within the transfer gives exactly its names, nothing in the other rows, and their number |
| WiFiDrv.WiFiDrv.ClearTable | src/wifi_drv.c:348 | all rows are zero |
| WiFiDrv.WiFiDrv.Descriptors | src/wifi_drv.c:350-353 | ten separate descriptors, one a row |
| WiFiDrv.WiFiDrv.ReceiveNames | src/wifi_drv.c:356 | every row becomes its decoded name followed by zeros |
| WiFiDrv.WiFiDrv.GetScanNetworks | src/wifi_drv.c:339-358 | the same for the whole call, for every reply content |

## Left out

- WiFiSocketBuffer.WiFiSocketBuffer.Read: requires a length that fits `int` and a caller's buffer of its own.
- WiFiSocketBuffer.WiFiSocketBuffer.Allocate: takes for granted that `malloc` succeeds.
- SocketStream.EndToEnd: is for the write-back of the received length; as the code stands it fails, and `AsWrittenConservesIff` says when.
- WiFiClient.ConnectCommon: the pace of the loop (at least `d` ticks a turn, no turn longer than `m - limit`) is an assumption about the scheduler.
- ServerDrv.CheckDataSent: with the reused descriptor, requires that no two replies carry a parameter, because otherwise the second is stored beyond the one-byte object and what that overwrites is not part of this model.
- SpiDrv.SpiDrv.Send: requires the frame to fit the transmit buffer, as the source asks of its callers; `FrameLength` says when it does.
- SpiDrv.SpiDrv.Receive: requires descriptors that share no storage, and storage behind those the reply reaches.
- SocketStream.Conservation: covers no `stop` and no `deinit`, which discard what is buffered.
- Handshake.RunKeepsInv: assumes one FreeRTOS task on the bus, one SPI_DONE for each transfer, and a completion semaphore that exists and starts empty.
- The value `WiFiDrv_getScanNetworks` returns after a failed receive, which is uninitialised there; `paramsRead` is then `None`.
- `connect`, `connectSSL`, `write` and their `ServerDrv` commands: one send and one receive each, before the polling modelled here.
- The other one-command wrappers of `src/server_drv.c` and `src/wifi_drv.c`, and the forwarding in `src/WiFi.c`: only easy members.
- PSoC registers, reset pulses, FreeRTOS scheduling and delays: present only as a FIFO, a pin, semaphores and a counter.
- Temperature, LEDs, ping, DNS and everything inside the co-processor.
