# Mixminion core, modelled in Dafny

This project models six parts of Mixminion, the Type III anonymous remailer.
Each part is one Dafny module, and the project proves the rules each part
follows.

- **MMTP server** (`lib/mixminion/server/MMTPServer.py`). This is the
  Mixminion Transfer Protocol server. It is split into three modules:
  - `MMTPAsync` models the select loop's connection registry and its
    token-bucket bandwidth limit (class `SelectAsyncServer`).
  - `MMTPConnection` models the server side of one connection: version
    negotiation on the first line, then fixed-size frames checked against
    their SHA-1 digests and acknowledged (class `ServerConnection`).
  - `MMTPOutgoing` models the outgoing-connection manager: reuse of an open
    connection to the same address, the limit on client connections, the
    FIFO list of delayed sends, and the DNS results queue (class
    `MMTPAsyncServer`).
- **Packet format rules** (`BuildMessage`). These are the non-cryptographic
  rules of the Type III packet format: the decoding tag, where the payload
  checksum sits, the header space budget, the argument checks of packet
  building, and the order in which `decodePayload` tries its keys. They also
  cover the order of reply-block secrets and of the layers of encryption.
- **TLS wrapper** (`TLS`, from `src/tls.c`). This covers OpenSSL error
  classification, the results of read/write/shutdown/accept/connect/
  do_handshake, and the certificate chain and lifetime checks.
- **Server statistics** (`EventStats`). An `EventLog` keeps counts per event
  and argument, accumulates logging time and rotates its report on a
  schedule rounded to the hour. `NilEventLog` ignores everything.
- **Test support** (`TestVectors`, `TestDoubles`). This covers the hex
  codecs, the cyclic byte generator, the attribute-replacement undo stack
  with its call log, and the directory-dump delivery module.
- **Command line** (`CommandLine`). This covers quote stripping and `main`'s
  decision from its argument vector and the command table.

`Common` holds the shared vocabulary: bytes, `Option`, 20-byte digests,
Python slicing, list reversal and sums.

The model does not use any real cryptography. SHA-1, Lioness, RSA, the
servers' routing information, OpenSSL's reports, `select`'s ready sets,
connection callbacks and the clock are all parameters of the operations
that use them. Nothing is assumed about them beyond what each contract
states, such as a digest's length or a cipher that undoes itself.

## Model

| member | source | states |
|---|---|---|
| MMTPAsync.ActiveCalls | lib/mixminion/server/MMTPServer.py:118-125 | Every call is for a listed fd that select reports ready for something it asked for; it carries what the fd is ready for and the round's cap. |
| MMTPAsync.ActiveCallsComplete | lib/mixminion/server/MMTPServer.py:118-125 | Conversely, every listed fd that select reports ready for something it asked for is called, with what it is ready for. |
| MMTPAsync.ActiveCallsDistinct | lib/mixminion/server/MMTPServer.py:118-125 | Each fd is processed at most once per round. |
| MMTPAsync.ApplyAllKeys | lib/mixminion/server/MMTPServer.py:132-140 | Through a round, `connections` and `state` keep the same key set and only lose keys. |
| MMTPAsync.ApplyAllUntouched | lib/mixminion/server/MMTPServer.py:132-140 | A connection that was not processed keeps its object and its (wantRead, wantWrite). |
| MMTPAsync.ApplyAllCalled | lib/mixminion/server/MMTPServer.py:132-140 | A processed connection is removed from both maps exactly when it reported itself closed; otherwise it keeps its object and its new wants are recorded. |
| MMTPAsync.CapNeverOverdraws | lib/mixminion/server/MMTPServer.py:128-135 | With a positive bucket shared as floorDiv(bucket, n) among at most n connections, connections that stay within their cap never overdraw it. |
| MMTPAsync.SameActiveCalls | lib/mixminion/server/MMTPServer.py:118-131 | How many connections are active does not depend on the cap passed to them. |
| MMTPAsync.SelectAsyncServer.constructor | lib/mixminion/server/MMTPServer.py:75-80 | No connections, no bandwidth limit, no bucket, no timeout. |
| MMTPAsync.SelectAsyncServer.Register | lib/mixminion/server/MMTPServer.py:142-148 | A connection that is not open is ignored; otherwise both maps get the fd, keeping their key sets equal. |
| MMTPAsync.SelectAsyncServer.Remove | lib/mixminion/server/MMTPServer.py:150-155 | The fd is deleted from both maps; an unknown fd raises KeyError and changes nothing. |
| MMTPAsync.SelectAsyncServer.TryTimeout | lib/mixminion/server/MMTPServer.py:157-169 | Without a timeout nothing changes; otherwise exactly the connections that time out at now − timeout are removed, and the others keep their objects and wants. |
| MMTPAsync.SelectAsyncServer.SetBandwidth | lib/mixminion/server/MMTPServer.py:171-186 | None lifts the limit; otherwise n bytes per tick, with maxBucket defaulting to 5 × n. |
| MMTPAsync.SelectAsyncServer.Tick | lib/mixminion/server/MMTPServer.py:188-200 | Without a limit the bucket becomes None; otherwise it becomes min((bucket or 0) + bandwidthPerTick, maxBucket), never above maxBucket. |
| MMTPAsync.SelectAsyncServer.Answer | lib/mixminion/server/MMTPServer.py:133-140 | One connection's answer: with a cap the bucket drops by its bytes; the registry forgets a closed connection and records an open one's wants. |
| MMTPAsync.SelectAsyncServer.AnswerAll | lib/mixminion/server/MMTPServer.py:132-140 | The loop over the active connections leaves the registry as the answers, in order, make it; with a cap, the bucket ends lower by exactly the bytes used. |
| MMTPAsync.SelectAsyncServer.Process | lib/mixminion/server/MMTPServer.py:82-140 | Nothing is touched with no interest, a bucket ≤ 0 or an interrupted select. Otherwise each ready connection is processed once with cap = floorDiv(bucket, #active), the bucket drops by the bytes used, and the maps keep equal key sets. |
| MMTPConnection.NonSpaceRun | lib/mixminion/server/MMTPServer.py:476 | The length of the longest whitespace-free prefix (the `[^\s\r\n]+` of PROTOCOL_RE). |
| MMTPConnection.MatchProtocolCorrect | lib/mixminion/server/MMTPServer.py:476 | PROTOCOL_RE.match yields group g exactly when the line starts with "MMTP " + g + CR LF, g non-empty and free of whitespace. |
| MMTPConnection.SplitJoin | lib/mixminion/server/MMTPServer.py:396 | Joining the pieces of str.split(",") with commas gives the string back. |
| MMTPConnection.SplitOfJoin | lib/mixminion/server/MMTPServer.py:396 | Splitting comma-free pieces joined with commas gives the pieces back. |
| MMTPConnection.ListedVersionFound | lib/mixminion/server/MMTPServer.py:396-398 | A version listed among comma-free others is found in the split list. |
| MMTPConnection.GreetingAccepted | lib/mixminion/server/MMTPServer.py:389-402 | A greeting "MMTP v1,…,0.3,…\r\n" with whitespace-free versions matches, and 0.3 is among its versions. |
| MMTPConnection.CheckFrame | lib/mixminion/server/MMTPServer.py:414-462 | A frame is accepted exactly when its control is JUNK or SEND and its digest is sha1(packet + that word). Accepted padding gives JunkReceived and the ack "RECEIVED\r\n" + sha1(pkt+"RECEIVED JUNK"). A SEND in reject mode gives PacketRejected and "REJECTED\r\n" + sha1(pkt+"REJECTED"). Otherwise a SEND gives Consumed(pkt) and "RECEIVED\r\n" + sha1(pkt+"RECEIVED"). Every ack is 30 bytes. |
| MMTPConnection.UnknownControlRefused | lib/mixminion/server/MMTPServer.py:432-437 | A frame with an unknown control string is refused whatever its digest. |
| MMTPConnection.ReadFrames | lib/mixminion/server/MMTPServer.py:412-462 | Only whole frames are consumed, from the front; without a shutdown, less than one frame is left. |
| MMTPConnection.ReadFramesStep | lib/mixminion/server/MMTPServer.py:413-462 | Taking one frame either ends the read with nothing made, or adds exactly one callback and one 30-byte ack. |
| MMTPConnection.ReadFramesCounts | lib/mixminion/server/MMTPServer.py:413-462 | Bytes consumed = (callbacks + 1 if shut down) × MESSAGE_LEN, and ack bytes = callbacks × 30. |
| MMTPConnection.SendFrameChecks | lib/mixminion/server/MMTPServer.py:423-462 | A SEND frame with digest sha1(pkt+"SEND") hands pkt to the consumer, acked with "RECEIVED\r\n" + sha1(pkt+"RECEIVED"). |
| MMTPConnection.JunkFrameChecks | lib/mixminion/server/MMTPServer.py:418-462 | A JUNK frame with digest sha1(pkt+"JUNK") is accepted in either mode. It makes the junk callback, reaches no consumer, and is acked with "RECEIVED\r\n" + sha1(pkt+"RECEIVED JUNK"). |
| MMTPConnection.RejectedFrameChecks | lib/mixminion/server/MMTPServer.py:423-459 | In reject mode a well-formed SEND frame makes the reject callback and is acked with "REJECTED\r\n" + sha1(pkt+"REJECTED"). |
| MMTPConnection.SendFramesAccepted | lib/mixminion/server/MMTPServer.py:412-462 | Packets framed as a client sends them all reach the consumer in order, each with its receipt, and nothing is left. |
| MMTPConnection.RejectModeConsumesNothing | lib/mixminion/server/MMTPServer.py:425-459 | In reject mode no packet reaches the consumer. |
| MMTPConnection.ServerConnection.constructor | lib/mixminion/server/MMTPServer.py:358-372 | A new connection: no protocol, empty buffers, no callbacks, no handlers, and the given reject flag. |
| MMTPConnection.ServerConnection.OnConnected | lib/mixminion/server/MMTPServer.py:374-376 | Reading starts, with readProtocol as the handler; nothing else changes. |
| MMTPConnection.ServerConnection.ReadProtocol | lib/mixminion/server/MMTPServer.py:378-405 | No line: nothing changes. An overlong line: shutdown. A line is taken off the inbound buffer (clear=1) and reading stops. If it matches and lists 0.3, the protocol is 0.3 and "MMTP 0.3\r\n" is queued; otherwise shutdown. |
| MMTPConnection.ServerConnection.ProtocolWritten | lib/mixminion/server/MMTPServer.py:407-410 | Data frames are read from then on; reading resumes. |
| MMTPConnection.ServerConnection.TakeFrame | lib/mixminion/server/MMTPServer.py:413-462 | One frame is taken. A bad one starts shutdown with no callback and no ack; a good one makes its callback, then queues its ack. |
| MMTPConnection.ServerConnection.OnDataRead | lib/mixminion/server/MMTPServer.py:412-462 | The buffer, acks, callbacks and shutdown flag end as ReadFrames of the old buffer says; the handlers and protocol are unchanged. |
| MMTPOutgoing.SendStep | lib/mixminion/server/MMTPServer.py:753-811 | Exactly one path, in the source's order. An active connection to the address takes the packets. At the limit, the request is appended to pendingPackets. A failed connect fails every packet. Otherwise a fresh connection holding the packets is mapped to the address and registered. Below the limit nothing is delayed, and the limit is kept. |
| MMTPOutgoing.SendStepConserves | lib/mixminion/server/MMTPServer.py:753-811 | One `_sendPackets` call accounts for exactly the packets it was given: none lost, none duplicated. |
| MMTPOutgoing.DrainPending | lib/mixminion/server/MMTPServer.py:740-743 | Replay stops only at the limit or with nothing pending, and keeps the limit. |
| MMTPOutgoing.DrainPendingFifo | lib/mixminion/server/MMTPServer.py:740-743 | Only the oldest pending requests are replayed, and the rest stay in order. |
| MMTPOutgoing.DrainPendingConserves | lib/mixminion/server/MMTPServer.py:740-743 | Replaying pending requests loses and invents no packet. |
| MMTPOutgoing.DrainQueue | lib/mixminion/server/MMTPServer.py:745-751 | Sending the queued DNS results keeps the limit. |
| MMTPOutgoing.DrainQueueConserves | lib/mixminion/server/MMTPServer.py:745-751 | Sending the queued DNS results accounts for exactly their packets. |
| MMTPOutgoing.MMTPAsyncServer.constructor | lib/mixminion/server/MMTPServer.py:579-586 | maxClientConnections is MaxConnections, or 16 when it is absent; nothing is open, pending or queued. |
| MMTPOutgoing.MMTPAsyncServer.QueueSendablePackets | lib/mixminion/server/MMTPServer.py:723-732 | The request joins the end of the message queue; nothing else changes. |
| MMTPOutgoing.MMTPAsyncServer.SendPackets | lib/mixminion/server/MMTPServer.py:753-811 | The new state and the path taken are SendStep's, and the connection limit is kept. |
| MMTPOutgoing.MMTPAsyncServer.QueueOn | lib/mixminion/server/MMTPServer.py:766-772 | The connection's queue grows by the packets, in order; nothing else changes. |
| MMTPOutgoing.MMTPAsyncServer.OpenConnection | lib/mixminion/server/MMTPServer.py:780-811 | A fresh connection holding the packets is mapped to the address and registered with the select loop. |
| MMTPOutgoing.MMTPAsyncServer.ClientFinished | lib/mixminion/server/MMTPServer.py:813-820 | The address is no longer mapped, and found says whether it was; nothing else changes. |
| MMTPOutgoing.MMTPAsyncServer.ReplayPending | lib/mixminion/server/MMTPServer.py:740-743 | The loop leaves the state DrainPending gives. |
| MMTPOutgoing.MMTPAsyncServer.SendAllQueued | lib/mixminion/server/MMTPServer.py:745-751 | The loop empties the message queue and leaves the state DrainQueue gives. |
| MMTPOutgoing.MMTPAsyncServer.SendQueuedPackets | lib/mixminion/server/MMTPServer.py:734-751 | Pending requests are replayed first, then every queued DNS result is sent. |
| BuildMessage.RandomTag | lib/mixminion/BuildMessage.py:728-731 | TAG_LEN bytes: a first byte with its top bit clear, then the bytes drawn after it. |
| BuildMessage.RandomTagOnto | lib/mixminion/BuildMessage.py:728-731 | Every tag whose first byte has its top bit clear can be drawn. |
| BuildMessage.RandomTagIgnoresTopBit | lib/mixminion/BuildMessage.py:730 | The top bit of the first drawn byte makes no difference. |
| BuildMessage.SingletonChecks | lib/mixminion/BuildMessage.py:733-738 | A singleton payload with the hash of its data at bytes 2-21 passes the check. |
| BuildMessage.FragmentChecks | lib/mixminion/BuildMessage.py:735-736 | A fragment payload (top bit set) with the hash of its data at bytes 3-22 passes the check. |
| BuildMessage.WrongHashFails | lib/mixminion/BuildMessage.py:737-738 | A singleton payload whose bytes 2-21 differ from sha1(payload[22:]) fails. |
| BuildMessage.Routes | lib/mixminion/BuildMessage.py:750-754 | One entry per node, or one for an empty path. Entry i is path[i].getRoutingFor(path[i+1], swap=0), and the last is (exitType, exitInfo). |
| BuildMessage.GetRouting | lib/mixminion/BuildMessage.py:740-770 | Succeeds exactly when sum(sizes) ≤ HEADER_LEN and the padding plus the last size reaches ENC_SUBHEADER_LEN. It then returns the routing list, each subheader's size and their sum. |
| BuildMessage.RoutingFitsHeader | lib/mixminion/BuildMessage.py:756-770 | A routing that fits uses at most HEADER_LEN bytes, at least 84 per entry, so it has at most 24 entries. |
| BuildMessage.ShorterExitStillFits | lib/mixminion/BuildMessage.py:756-770 | A shorter exit address never stops a routing from fitting. |
| BuildMessage.CheckedExitInfo | lib/mixminion/BuildMessage.py:342-347 | The intended exit address to size: the real address, if any, is a prefix of it. |
| BuildMessage.CheckPathLengthAsWritten | lib/mixminion/BuildMessage.py:326-362 | IndexError exactly when both legs are given and one is empty. Otherwise it passes exactly when both legs fit, and the second leg is sized with "" whenever suppressTag is set, whatever the address. A failure names the first leg when it does not fit, else the second, and names a leg only with explicitSwap. |
| BuildMessage.SuppressedTagCheckMissesOverflow | lib/mixminion/BuildMessage.py:342-352 | With suppressTag, the check as written passes a one-server leg whose 2000-byte exit address cannot fit in any header. |
| BuildMessage.CheckPathLength | lib/mixminion/BuildMessage.py:326-362 | The corrected check: IndexError and leg naming as written. It passes exactly when both legs fit, with the second leg sized with the real address, plus the dummy tag unless suppressTag. It equals the check as written unless suppressTag is set and an address is given. |
| BuildMessage.PathLengthVerdict | lib/mixminion/BuildMessage.py:335-362 | IndexError exactly when both legs are given and one is empty; Fits exactly when the first leg with its swap hop routes and the second leg with the exit address routes. A failure names leg 1 when the first leg does not fit, else leg 2, and names a leg only with explicitSwap. |
| BuildMessage.CheckPathLengthSound | lib/mixminion/BuildMessage.py:326-362 | When the corrected check passes, the second leg routes with the real exit address, whether or not the tag is suppressed. |
| BuildMessage.BuildPacketChecks | lib/mixminion/BuildMessage.py:527-540 | A too-short exit address (unless suppressTag), then an invalid exit type, raise MixError, in that order. Then an empty leg is an IndexError. Otherwise building proceeds exactly when both legs fit, and a UIError names the leg that does not. A packet that proceeds has a second leg that routes its real exit address. |
| BuildMessage.BuildForwardPacketChecks | lib/mixminion/BuildMessage.py:114-149 | An empty first leg, then an empty second leg, raise MixError. When building proceeds, the tag is prepended to the exit address unless suppressTag. |
| BuildMessage.ForwardTagNeverShort | lib/mixminion/BuildMessage.py:145-147 | A tagged forward packet never trips the short exit address check. |
| BuildMessage.NormalizeUserKeys | lib/mixminion/BuildMessage.py:384-389 | None becomes [], a string becomes [("", key)], a dict becomes its items, and a list stays as it is. |
| BuildMessage.TryUserKeys | lib/mixminion/BuildMessage.py:405-418 | A result comes from the first listed key whose validation hash ends in 0 and whose reply decoding succeeds: every earlier such key's decoding raised MixError. No result means every such key's decoding raised MixError. |
| BuildMessage.DecodePayload | lib/mixminion/BuildMessage.py:366-428 | A wrong payload length, then a wrong tag length, raise MixError. A valid checksum is parsed before any key is tried, and an empty tag then gives None. A reply is credited to the first fitting user key that decodes it. With no fitting key and no RSA key, the result is None. |
| BuildMessage.UserKeysBeforeRsa | lib/mixminion/BuildMessage.py:405-428 | The RSA key is tried last: once a user key decodes the payload, the RSA key makes no difference. |
| BuildMessage.OneKeyIsDefaultIdentity | lib/mixminion/BuildMessage.py:386-387 | A single key string acts as identity "" with that key. |
| BuildMessage.ReplySecrets | lib/mixminion/BuildMessage.py:271-274 | Of len(path)+1 secrets, the header secrets are the first len(path) reversed, and the shared key is the last. |
| BuildMessage.ReplySecretsDecodeInDrawOrder | lib/mixminion/BuildMessage.py:268-274 | A reply's layers, put on by the shared key and then by each hop, come off when the recipient encrypts with the secrets in drawing order. |
| BuildMessage.DecodeReplyPayload | lib/mixminion/BuildMessage.py:467-486 | The loop computes ReplyDecoding, the recursive reading of `_decodeReplyPayload` about which UncheckedReplyDecoding, CheckedReplyNeedsChecksum and ReplyRoundTrip are proved. |
| BuildMessage.UncheckedReplyDecoding | lib/mixminion/BuildMessage.py:475-486 | Without check, exactly the fully re-encrypted payload is parsed, and only if its checksum is valid. |
| BuildMessage.CheckedReplyNeedsChecksum | lib/mixminion/BuildMessage.py:475-484 | With check, a reply whose intermediate results all fail the checksum is refused. |
| BuildMessage.ReplyRoundTrip | lib/mixminion/BuildMessage.py:467-486 | A reply whose payload carried a valid checksum decodes back to the parsed payload, from the secrets in drawing order. |
| BuildMessage.PeelReversedPayload | lib/mixminion/BuildMessage.py:694-700 | Payload layers put on in reverse path order come off hop by hop in path order. |
| BuildMessage.PeelReversedHeader | lib/mixminion/BuildMessage.py:714-721 | Header layers put on in reverse path order come off hop by hop in path order. |
| BuildMessage.FirstLegPeels | lib/mixminion/BuildMessage.py:702-721 | The first leg's hops, each removing its layer, are left with the bound header 2 and payload. |
| BuildMessage.CopyOf | lib/mixminion/BuildMessage.py:711-712 | list[:] gives a fresh array with the same contents. |
| BuildMessage.ReverseInPlace | lib/mixminion/BuildMessage.py:715 | list.reverse() leaves the reversed contents in place. |
| BuildMessage.ConstructMessage | lib/mixminion/BuildMessage.py:681-723 | The packet is header 1, then header 2 and the payload with their layers in the right order, and the caller's secret lists are unchanged. |
| BuildMessage.ConstructedLength | lib/mixminion/BuildMessage.py:687-723 | With length-preserving Lioness, a packet is two headers and a payload long. |
| TLS.TlsError | src/tls.c:65-92 | NO_ERROR exactly for no error and for an ignored SYSCALL; ZERO_RETURN exactly for a clean close, raising only without IGNORE_ZERO_RETURN; WANT_READ/WANT_WRITE raise TLSWantRead/TLSWantWrite; an unignored SYSCALL raises TLSClosed; every ERROR leaves an exception set. |
| TLS.Read | src/tls.c:416-456 | A negative size raises MemoryError; r > 0 returns exactly the r bytes read; otherwise None iff NO_ERROR, 0 iff a clean close, failure on ERROR. |
| TLS.Write | src/tls.c:466-496 | r on NO_ERROR, 0 on a clean close, failure exactly on ERROR. |
| TLS.Shutdown | src/tls.c:504-525 | 1 when r == 1, before any error check; otherwise failure exactly for a non-zero classification, then 0 for r == 0 and None otherwise. |
| TLS.Accept | src/tls.c:343-362 | Success exactly on NO_ERROR, so a clean close fails. |
| TLS.Connect | src/tls.c:369-390 | Failure for every r ≤ 0, whatever the classification. |
| TLS.DoHandshakeAsWritten | src/tls.c:779-798 | As written, failure exactly when SSL_do_handshake returned 0. |
| TLS.DoHandshakeAsWrittenLosesWantRead | src/tls.c:773-798 | r = −1 with WANT_READ or WANT_WRITE is reported as success. |
| TLS.DoHandshake | src/tls.c:773-798 | As documented: success exactly for r > 0, and the would-block conditions raise TLSWantRead/TLSWantWrite. |
| TLS.CheckCertAlive | src/tls.c:584-618 | No peer certificate fails. now < notBefore gives "not yet valid"; notAfter ≤ now gives "expired". A readable window is accepted exactly when notBefore ≤ now < notAfter. |
| TLS.IdentityCert | src/tls.c:710-715 | The first chain entry that differs from the peer certificate, else entry 1. |
| TLS.VerifyCertAndGetIdentityPk | src/tls.c:683-744 | Success exactly for a 2-certificate chain whose identity certificate's key is RSA and signs the peer certificate; otherwise an exception is set, and a wrong chain size names itself. |
| EventStats.NowOrClock | lib/mixminion/server/EventStats.py:198 | `if not now: now = time()`: both None and 0 read the clock, and any other value is kept. |
| EventStats.NowUnlessNone | lib/mixminion/server/EventStats.py:225 | `if now is None: now = time()`: only None reads the clock, so 0 is kept. |
| EventStats.AddMissingEvents | lib/mixminion/server/EventStats.py:161-168 | Every event of _EVENTS is present. Loaded events keep their maps, and missing ones get empty maps. |
| EventStats.EmptyCounts | lib/mixminion/server/EventStats.py:170-172 | Exactly the events of _EVENTS, each with an empty map. |
| EventStats.NextRotationTarget | lib/mixminion/server/EventStats.py:303-309 | The unrounded next rotation is not before now, not before lastRotation + interval, and not before ¾ of an interval of logging time has accumulated. It is one of those bounds. |
| EventStats.RoundToHour | lib/mixminion/server/EventStats.py:311-314 | A whole hour, less than 5 minutes before and at most 55 minutes after the unrounded time. |
| EventStats.ScheduledRotation | lib/mixminion/server/EventStats.py:290-314 | For whole-hour intervals, a whole hour within that margin of the target; otherwise the target itself. |
| EventStats.RotationSpacing | lib/mixminion/server/EventStats.py:290-314 | Right after a rotation at t, the next one is at least one interval later, less the five-minute rounding margin for whole-hour intervals. |
| EventStats.ArgLessOrder | lib/mixminion/server/EventStats.py:276-277 | The order `args.sort()` uses (None first, then strings by character) is a strict total order. |
| EventStats.SortedKeys | lib/mixminion/server/EventStats.py:276-277 | Every argument exactly once, strictly sorted. |
| EventStats.Width | lib/mixminion/server/EventStats.py:278-279 | At least 10 and at least every argument's printed length, and equal to 10 or to one of them. |
| EventStats.PadLayout | lib/mixminion/server/EventStats.py:280-284 | "%Ns" right-justifies: blanks, then the text. |
| EventStats.CountRows | lib/mixminion/server/EventStats.py:281-286 | One row per sorted argument, with its count, and a total equal to the sum of the rows. |
| EventStats.ListEvent | lib/mixminion/server/EventStats.py:274-286 | An event's listing: every argument once, sorted, each with its count and "{Unknown}" for None, then a Total equal to the sum of the counts. |
| EventStats.ReportEvent | lib/mixminion/server/EventStats.py:267-286 | 0 with no entries; the bare count when the only argument is None; otherwise the listing. |
| EventStats.NilEventLog.GetNextRotation | lib/mixminion/server/EventStats.py:50-52 | Always 0. |
| EventStats.EventLog.constructor | lib/mixminion/server/EventStats.py:157-184 | Loaded state with missing events added, or empty counts starting at the clock. The next rotation is then scheduled. |
| EventStats.EventLog.Save | lib/mixminion/server/EventStats.py:194-206 | accumulatedTime grows by now − lastSave, and lastSave becomes now. The pickled record holds count, lastRotation and accumulatedTime. |
| EventStats.EventLog.Log | lib/mixminion/server/EventStats.py:208-219 | count[event][arg] goes up by one, starting at 1. An unknown event raises KeyError and changes nothing. Nothing else changes. |
| EventStats.EventLog.GetNextRotation | lib/mixminion/server/EventStats.py:221-222 | The scheduled next rotation. |
| EventStats.EventLog.SetNextRotation | lib/mixminion/server/EventStats.py:290-314 | nextRotation becomes ScheduledRotation of the current fields and now; nothing else changes. |
| EventStats.EventLog.Dump | lib/mixminion/server/EventStats.py:257-288 | The report runs from lastRotation to now, with one entry per event of _EVENTS, in order, each as ReportEvent describes. |
| EventStats.EventLog.Rotate | lib/mixminion/server/EventStats.py:224-255 | Before nextRotation it raises and changes nothing. Otherwise it reports the interval, after the boilerplate for a new history file. Counts are emptied, lastRotation = lastSave = now, accumulatedTime = 0, and the next rotation is rescheduled. |
| EventStats.PickleRoundTrip | lib/mixminion/server/EventStats.py:161-168 | Loading what `_save` pickled gives back the same counts. |
| TestVectors.DigitValueOfHexDigit | lib/mixminion/testSupport.py:338 | Reading back a "%X" digit gives its value. |
| TestVectors.HexStr | lib/mixminion/testSupport.py:351-355 | A bracketed string. |
| TestVectors.HexStrAt | lib/mixminion/testSupport.py:351-355 | hexStr has 3n+1 characters: the upper-case pair for byte k at 1+3k, followed by a space, or by "]" after the last. |
| TestVectors.PairsFromJoin | lib/mixminion/testSupport.py:333-349 | The splitting loop of unHexStr/unHexNum reads back exactly the groups that were joined. |
| TestVectors.SplitBracketedRoundTrip | lib/mixminion/testSupport.py:333-349 | The bracket checks and the loop give back the groups of a bracketed list. |
| TestVectors.UnHexStr | lib/mixminion/testSupport.py:333-340 | Succeeds only on a bracketed string. |
| TestVectors.UnHexStrRoundTrip | lib/mixminion/testSupport.py:333-355 | unHexStr(hexStr(s)) == s for every byte string. |
| TestVectors.HexValueOfDigits | lib/mixminion/testSupport.py:358 | "%X" % n read back as hexadecimal is n. |
| TestVectors.HexValueLeadingZero | lib/mixminion/testSupport.py:359-360 | A padding '0' does not change the value. |
| TestVectors.ConcatChunks | lib/mixminion/testSupport.py:361-363 | The pairs of an even-length string concatenate back to it. |
| TestVectors.HexNum | lib/mixminion/testSupport.py:357-364 | A bracketed string. |
| TestVectors.UnHexNum | lib/mixminion/testSupport.py:342-349 | Succeeds only on a bracketed string with something inside. |
| TestVectors.UnHexNumRoundTrip | lib/mixminion/testSupport.py:342-364 | unHexNum(hexNum(n)) == n for every n ≥ 0. |
| TestVectors.HexNumTestVector10000 | lib/mixminion/testSupport.py:440 | hexNum(10000) == "[27 10]". |
| TestVectors.HexNumTestVector100000 | lib/mixminion/testSupport.py:441 | hexNum(100000) == "[01 86 A0]". |
| TestVectors.HexNumTestVector1000000000 | lib/mixminion/testSupport.py:442 | hexNum(1000000000) == "[3B 9A CA 00]". |
| TestVectors.RepeatAt | lib/mixminion/testSupport.py:325-328 | Byte j of the pattern repeated is j mod 256. |
| TestVectors.CyclicRNG.constructor | lib/mixminion/testSupport.py:322-325 | idx starts at 0. |
| TestVectors.CyclicRNG.Prng | lib/mixminion/testSupport.py:326-331 | Exactly n bytes, byte k being (idx + k) mod 256; then idx becomes (idx + n) mod 256. |
| TestDoubles.SavedFor | lib/mixminion/testSupport.py:264-267 | The old value when the attribute exists, else the fact that it did not. |
| TestDoubles.UndoRestores | lib/mixminion/testSupport.py:261-316 | After any run of replacements, including repeated ones of the same attribute, undoing in reverse restores exactly the original attributes, and nothing raises. |
| TestDoubles.Replacements.constructor | lib/mixminion/testSupport.py:259-273 | Empty stack and call log. |
| TestDoubles.Replacements.ReplaceAttribute | lib/mixminion/testSupport.py:261-269 | The old value (or its absence) is pushed, then the attribute is set; the call log is unchanged. |
| TestDoubles.Replacements.ReplaceFunction | lib/mixminion/testSupport.py:288-293 | A logging stub named after the attribute replaces it. |
| TestDoubles.Replacements.CallStub | lib/mixminion/testSupport.py:275-286 | Every call appends (name, args, kwargs) to the log and returns fn's result, or None without fn. |
| TestDoubles.Replacements.ClearCallLog | lib/mixminion/testSupport.py:299-301 | The log becomes empty; nothing else changes. |
| TestDoubles.Replacements.UndoReplacedAttributes | lib/mixminion/testSupport.py:303-316 | The stack ends empty, and the attributes are restored from the reversed stack. |
| TestDoubles.MaxOr | lib/mixminion/testSupport.py:68 | max([d] + s): at least d and every element, and one of them. |
| TestDoubles.DirectoryStoreModule.constructor | lib/mixminion/testSupport.py:37-38 | No location and no files. |
| TestDoubles.DirectoryStoreModule.Configure | lib/mixminion/testSupport.py:59-71 | Without a location nothing else happens; otherwise next = 1 + max(existing numbers, −1), above every existing file. |
| TestDoubles.DirectoryStoreModule.ProcessMessage | lib/mixminion/testSupport.py:89-114 | 'fail' retries and 'FAIL!' refuses, changing nothing. Otherwise the message goes to a new file numbered next, no existing file is overwritten, and next goes up by one. |
| CommandLine.FixCommandToken | lib/mixminion/Main.py:239-245 | An empty token is unchanged; a token of length ≥ 2 quoted with matching ' or " loses exactly its ends; anything else is unchanged. |
| CommandLine.QuotedTokenRoundTrip | lib/mixminion/Main.py:242-243 | Quoting a word and fixing the token gives the word back. |
| CommandLine.LoneQuoteUnchanged | lib/mixminion/Main.py:244-245 | A lone quote is returned unchanged. |
| CommandLine.Basename | lib/mixminion/Main.py:346 | os.path.split(p)[1]: the suffix after the last '/', which contains none. |
| CommandLine.HandleOutcome | lib/mixminion/Main.py:345-371 | After a GetoptError, the "--help" retry's outcome decides the ending. A UIError ends in dumpAndExit, and a file permission error exits with status 1. A KeyboardInterrupt is re-raised only for unittests/benchmarks. An ImportError mentioning _socket exits with status 1, and any other ImportError, SystemExit or other exception propagates. |
| CommandLine.HandledEndings | lib/mixminion/Main.py:345-371 | main exits, always with status 1, exactly for a file permission error or a missing _socket module. It ends normally exactly when the command or its "--help" retry completed, or was interrupted outside unittests/benchmarks. |
| CommandLine.MainDispatch | lib/mixminion/Main.py:308-371 | Usage and exit(1) exactly with no command or an unknown (prefixed) one. Otherwise the table entry is invoked with "<basename> <command>" and args[2:], and once more with ["--help"] exactly after a GetoptError. The banner is shown as ShowsBanner says, and main ends as HandleOutcome decides. |
| CommandLine.DaemonStartRunsServer | lib/mixminion/Main.py:313-324 | In daemon mode, "start" reaches server-start's runServer. |
| CommandLine.QuietSuppressesBanner | lib/mixminion/Main.py:326-331 | '--quiet' or '-Q' anywhere in the arguments suppresses the banner. |

## Left out

- Sockets, `select`/`poll`, `ListenConnection`, `PollAsyncServer`, DNS lookups and their threads, `MessageQueue` and all locks. Readiness, connection answers and lookup results are inputs, and each operation is atomic.
- `time.sleep` in `SelectAsyncServer.process`: only its effect, that nothing is touched, is modelled.
- `MMTPAsyncServer.process` is `SendQueuedPackets` followed by `SelectAsyncServer.Process`. The two classes are modelled separately, and the outgoing side's connections are not registered in the select model.
- MMTPAsync.SelectAsyncServer.SetBandwidth: `int(n * TICK_INTERVAL)` with TICK_INTERVAL = 1.0 is taken to be n, because no floating point is modelled.
- The `TLSConnection` base class and `MMTPClientConnection` are not part of this model. `getInbufLine` becomes the `ProtocolLine` input, whose line is taken from the front of the inbound buffer, `beginWriting` appends to the outbound buffer, and `startShutdown` sets a flag.
- MMTPConnection.ServerConnection.OnDataRead: the three callbacks become a log of `Callback` values; the consumer's own effects are not modelled.
- Server name lookup, event logging in the connection constructor, and `_ClientCon`'s ping log.
- A connect that raises anything other than `socket.error` or `MixProtocolError` is not modelled; `canConnect` says only whether the connection was created.
- All OpenSSL work: contexts, SSL I/O itself, X509 parsing and comparison, signatures, reference counting and memory. `SSL_get_error`'s report and the certificate fields are inputs.
- TLS.CheckCertAlive: X509_cmp_time's convention is used. A time equal to now counts as earlier, so a certificate whose notAfter equals now has expired and one whose notBefore equals now is valid. An unreadable time compares as 0 and passes.
- TLS.VerifyCertAndGetIdentityPk: the "No distinct identity certificate found." branch cannot be reached, because each chain entry is asserted non-null. A memory failure creating the key object is not modelled.
- `pending`, `fileno`, `get_peer_cert_pk`, `get_cert_lifetime`, `renegotiate` and `get_num_bytes_raw` of `src/tls.c` are outside the modelled core.
- Cryptography: RSA/OAEP, Lioness, AES-CTR and SHA-1 are parameters. Lioness is a function of the data and a key description; `decodeReply` and `decodeRsa` stand for `_decodeStatelessReplyPayload` and `_decodeEncryptedForwardPayload`.
- BuildMessage.BuildPacketChecks: sizes the second leg with the corrected checkPathLength (see Findings). `_buildPacket` as written calls the original, so the two differ only when suppressTag is set and an exit address is given. There the source passes an address too long for the header, and the model refuses it with a UIError.
- `_buildHeader` (subheaders, junk and padding) and the PRNG draws of `_buildPacket` are left out. BuildMessage.BuildPacketChecks covers a second leg that is a path; a reply block as the second leg is not modelled.
- `encodeMessage`, compression and fragmentation, and `buildReplyBlock`'s seeding of the secret PRNG.
- The sizes of `mixminion.Packet` (PAYLOAD_LEN 28672, HEADER_LEN 2048, TAG_LEN 20, OAEP_OVERHEAD 42, MIN_SUBHEADER_LEN 42, ENC_SUBHEADER_LEN 256, MIN_EXIT_TYPE 0x100, DROP_TYPE 0, SECRET_LEN 16) are named constants. `mixminion.Packet` itself is not part of this model.
- EventStats: times are integer seconds. `nextRotation` is a real, so ¾ of an interval is exact. Pickling and the history file are values the operations return.
- EventStats.EventLog.constructor: the separate `time()` calls for lastRotation and lastSave, the one in `_setNextRotation` and the one in the final `save()` are a single clock reading. The final save then adds nothing.
- EventStats.EventLog.Dump: the formatted time stamps and the text layout of the lines are not modelled; rows carry the padded label and the count.
- The per-event wrappers of `NilEventLog`/`EventLog` (`receivedPacket` and the rest) each call `_log` with a fixed name.
- TestVectors.HexStrAt: the literal vector `hexStr("ABCDEFGHI")` is not proved on its own; its shape is covered by HexStrAt, and its round trip by UnHexStrRoundTrip.
- TestVectors.UnHexStr: `int(_, 16)` also accepts surrounding whitespace and a sign. The model accepts only two hex digits per group.
- TestVectors.UnHexNum: `long(_, 16)` also accepts surrounding whitespace, a sign, a "0x" prefix and a trailing "L", so "[0x 1A]" reads as 26 there and is refused here. The model accepts only hex digits.
- The printed crypto test vectors (`tvRSA`, `tvAES`, `tvLIONESS`), `mix_mktemp`, `deltree`, `suspendLog`/`resumeLog`.
- `_escapeMessageForEmail` and the file writes of `DirectoryStoreModule`; the text written is an input.
- `correctPath`, `printUsage`, the dynamic `__import__` of the command's module, and the interactive `commandShell` loop of `Main.py`.
- The durable queue, replay log and fragment reassembly: their code is not part of this model.

## Findings

| source | as written | input that shows it | evidently intended | confidence | as-written member | corrected member |
|---|---|---|---|---|---|---|
| src/tls.c:779-798 | `do_handshake` treats only `r == 0` as failure. | SSL_do_handshake returns −1 with SSL_ERROR_WANT_READ: the wrapper returns None. | As its documentation (lines 773-777) says: every r ≤ 0 is classified, so TLSWantRead/TLSWantWrite are raised. | not executed | TLS.DoHandshakeAsWrittenLosesWantRead | TLS.DoHandshake |
| lib/mixminion/BuildMessage.py:342-347 | With `suppressTag` set, the `else` branch replaces a real exit address with "", so the second leg is sized without its address. | suppressTag = 1, a one-server second leg and a 2000-byte exit address: the check passes, but `_getRouting` on that leg raises. | Use "" only when exitInfo is None, and the address itself when the tag is suppressed. | not executed | BuildMessage.SuppressedTagCheckMissesOverflow | BuildMessage.CheckPathLengthSound |
