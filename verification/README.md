# Verified models of the network emulator's protocol engines

These Dafny modules model the parts of the emulator that have the most state and branching, and
prove what those parts promise:

- the NETCONF agent: the chunked framing of RFC 6242 inside a receive loop, the access control of
  RFC 8341 with its printer and editor, and the decisions of `handle_rpc`;
- the SNMP agent's BER codec (X.690) as a whole-message round trip;
- IKE, manual-key and dead-peer handling as records on several devices, updated in pairs over
  arbitrary runs;
- the BIG-IP virtual server as handlers interleaved at their lock sections;
- the vulnerability-scan worker interleaved with its pause, resume and stop controls;
- the BGP listener's UPDATE parser (RFC 4271, RFC 6793) and its two route lists;
- the ALB listener's request parser, cookie stickiness and rule choice;
- the `section` output modifier, the DHCP allocator and the OSPF network lines of `app.py`.

Every source file has its own modules. Code that updates state is a class or a method proved
against a specification function of the same module; the theorems are lemmas about those
functions, over all inputs, runs or interleavings. `dafny verify dfyconfig.toml` checks everything.

Where a documented promise does not hold of the code, the model follows the code and the promise is
replaced by the exact condition: the NACM round trip (a blank module name is read back as `*`), the
SNMP round trip (a second arc of 40 or more), equal verdicts of two IKE ends (the peer's `ipsec use`
switch is never looked at), a stop during the last device of a scan, OSPF wildcards that are not
contiguous, BGP prefixes with octets beyond their length, BGP attributes that reach past their block,
dead-peer drops measured from the latest link-down, and, because `int()` reads negative chunk sizes,
a loop of `unframe_chunked` that always returns, messages that later bytes leave alone and sessions
on which the cuts of the byte stream do not matter. Each has a lemma that gives the condition in both
directions and one with an input that fails.

Bytes of the text protocols are characters of strings; BER and BGP octets are numbers from 0 to 255.
`None` or a named outcome stands for a Python exception. Python's string hash, the clock, the glob
matcher, reachability and connection results are parameters.

## Model

| member | source | states |
|---|---|---|
| `Unframing.Unframe` | engine/netconf_agent.py:527-548 | the receive-side loop with Python's indexing, on every buffer for which it returns: a message with the rest, or an unfinished buffer |
| `Unframing.ReturnsExactlyWhenNoRepeat` | engine/netconf_agent.py:531-548 | unframe_chunked returns if and only if no two turns of its loop start at one position, and a loop of more than 2n + 2 turns on n bytes never returns |
| `Unframing.ReadsExactlyTheGrammar` | engine/netconf_agent.py:527-548 | every well-formed chunked message at the start of the buffer is returned, with its payload and everything after it, and nothing else is, unless well-formed chunks are followed by a size that reads as a negative number |
| `Unframing.FollowsGrammar` | engine/netconf_agent.py:527-548 | up to the first negative chunk size the loop with Python's indexing reads what the position-by-position definition reads |
| `Unframing.MessageStaysExactlyWhenForward` | engine/netconf_agent.py:527-548 | a returned message is returned from every longer buffer, with only the rest growing, if and only if the loop never goes to before the start of the buffer |
| `Framing.UnframeExactlyTheGrammar` | engine/netconf_agent.py:527-548 | up to the first negative chunk size: the definition reads a message if and only if the buffer starts with a well-formed chunked message, with its payload and everything after it |
| `Unframing.FramedIsRead` | engine/netconf_agent.py:522-548 | every framed payload, whatever follows it, is read back unchanged with the rest left over |
| `Unframing.NegativeTurn` | engine/netconf_agent.py:541-548 | one turn: after a negative size the loop goes on at that distance before the end of the header, and this one turn repeats if and only if the header starts there |
| `Unframing.NegativeSizeMayNotAdvance` | engine/netconf_agent.py:531-548 | the loop never returns on the header -5, whatever follows it |
| `Unframing.TwoHeadersMayLoop` | engine/netconf_agent.py:531-548 | a chunk of one byte and the header -11: the loop never returns, although no turn comes back to its own header |
| `Unframing.LaterBytesChangeThis` | engine/netconf_agent.py:531-548 | a buffer that is no well-formed message and is returned as one, and as a longer one when more bytes are there |
| `Session.NetconfSession.Receive` | engine/netconf_agent.py:650-691 | one recv result on which the inner loop ends: the buffer is drained of every complete hello and message, and of nothing else |
| `Session.NetconfSession.Serve` | engine/netconf_agent.py:650-691 | the session loop over any list of recv results on which it ends |
| `Session.DrainAppend` | engine/netconf_agent.py:656-691 | draining before more bytes arrive loses nothing, unless a forward reading goes back there to a message or an endless loop: the result is that of draining everything at once |
| `Session.StreamingEqualsBatch` | engine/netconf_agent.py:650-691 | two ways of cutting one byte stream deliver the same messages in the same order and end the session alike, unless a chunk size takes the loop to before the start of its buffer; what comes before that is delivered for every cut |
| `Session.CutsNeverMatterExactlyWhen` | engine/netconf_agent.py:650-691 | every cut of a stream, with anything sent after it, gives what one recv would give, if and only if no beginning of the stream takes unframe_chunked to before the start of its buffer and there to a message or an endless loop |
| `SessionClients.CutsMatterHere` | engine/netconf_agent.py:650-691 | two byte strings that are delivered as two messages one after the other and as one other message when received at once |
| `SessionClients.EomDelimits` | engine/netconf_agent.py:656-688 | a text followed by the base:1.0 end marker is delimited correctly if and only if the text has no early or overlapping marker |
| `SessionClients.ChunkedClientIsServed` | engine/netconf_agent.py:650-691 | a base:1.1 client that frames its requests gets exactly its requests delivered up to its close-session, however the bytes are cut |
| `SessionClients.PlainClientIsServed` | engine/netconf_agent.py:650-691 | the same for a base:1.0 client whose requests contain no early end marker |
| `XmlEscape.EscapeRoundTrip` | engine/netconf_agent.py:103-105 | every text comes back from its escaped form, which contains no angle bracket |
| `XmlEscape.EscapeStep` | engine/netconf_agent.py:103-105 | the three replacements in a row never touch what an earlier one wrote: escaping works character by character |
| `Nacm.EditKeepsValid` | engine/netconf_agent.py:284-356 | an edit keeps names unique and non-empty, defaults and actions permit or deny and texts trimmed, even when it stops at an error halfway |
| `Nacm.EditKeepsOrder` | engine/netconf_agent.py:315-355 | the rule-lists that no edit deletes keep their relative order, new ones follow, even when the edit stops at an error |
| `NacmEdits.EditedExactly` | engine/netconf_agent.py:284-356 | after an edit that succeeds the leaves it gives are set and the others kept, and for groups and rule-lists the last element of a name decides: it deletes the entry or sets exactly its own trimmed texts and its rules, and a name no element gives keeps its entry |
| `NacmEdits.SucceedsExactlyWhen` | engine/netconf_agent.py:284-356 | an edit succeeds if and only if its defaults are permit or deny and every group and rule-list element is named and, unless it deletes, has named rules that permit or deny |
| `NacmRoundTrip.PrintedTreeApplies` | engine/netconf_agent.py:231-275 | applying the printed tree, to a fresh device or to the device itself, yields one and the same configuration, in which blank module names and operations have become * |
| `NacmRoundTrip.RoundTripExactlyWhenExplicit` | engine/netconf_agent.py:231-356 | the printed tree rebuilds the configuration if and only if every rule has a non-blank module name and non-blank operations |
| `NacmRoundTrip.BlankModuleIsReachable` | engine/netconf_agent.py:338-351 | a client can create a rule with a blank module name, for which the round trip then fails |
| `NacmCheck.FirstMatch` | engine/netconf_agent.py:380-396 | the nested rule loops return the action of the lexicographically first applicable rule, and nothing if and only if none applies |
| `NacmDecision.FreshDecides` | engine/netconf_agent.py:217-229 | a device as delivered lets everyone read and execute and only recovering users write |
| `NacmCheck.DecidesIsUnique` | engine/netconf_agent.py:380-396 | at most one rule decides a request |
| `NacmDecision.DecidedExactly` | engine/netconf_agent.py:358-408 | access is given if and only if access control is off, the user may recover, the first rule for a group of the user whose module, operation words, path and rpc name cover the request permits it, or no rule does and the default of its kind permits; the counters grow exactly on a denial by default |
| `NetconfServer.CountersCountDefaultDenials` | engine/netconf_agent.py:398-408 | over any run of requests, edits of the access rules included, denied-operations grows by the number of requests that the configuration then in force denies by default, denied-data-writes by those that write |
| `NetconfServer.Device.Check` | engine/netconf_agent.py:364-408 | nacm_check answers what the declarative rule of RFC 8341 says and counts only denials by default |
| `NetconfServer.Device.ApplyNacmEdit` | engine/netconf_agent.py:284-356 | the dictionary is edited step by step as specified, with whatever was changed before an error kept |
| `NetconfServer.Device.ApplyEditConfig` | engine/netconf_agent.py:133-171 | interfaces are edited one by one; earlier edits stay when a later one fails |
| `NetconfServer.EditStopsAtFirstUnknown` | engine/netconf_agent.py:133-171 | exactly the edits before the first one that names no existing interface are applied and kept; it succeeds if and only if there is none, and no interface is added, dropped, renamed or touched without being named |
| `IfaceEdits.EditIfaceExactly` | engine/netconf_agent.py:133-171 | an applied interface element changes exactly the interface it names: delete takes the address away, otherwise enabled gives up or down, a description even when empty replaces it, and address and mask are set where given |
| `NetconfServer.Device.HandleRpc` | engine/netconf_agent.py:414-495 | one request: the reply and the whole device state after it |
| `RpcRequests.ReadsAreAnswered` | engine/netconf_agent.py:414-462 | a client's get and get-config: the access configuration where its filter asks for it, the interfaces otherwise, with the permission each needs, nothing from elsewhere, and no datastore but running |
| `RpcRequests.EditsAreAnswered` | engine/netconf_agent.py:464-492 | a client's edit-config: which part it edits, the permission that needs, the reply, and no datastore but running |
| `RpcRequests.OthersAreAnswered` | engine/netconf_agent.py:414-495 | closing and killing a session changes nothing and is answered ok; an unknown operation and a message that is no XML are refused |
| `NetconfServer.ChangesNeedPermission` | engine/netconf_agent.py:414-495 | one request, as a step of RunChangesNeedPermission: interfaces or access rules change only by an edit that the rules in force before it permit, and an edit of one never touches the other |
| `NetconfServer.RefusedExactlyWhenNotPermitted` | engine/netconf_agent.py:414-495 | one request: access-denied is the answer if and only if the request needs a permission it does not have |
| `NetconfServer.RunChangesNeedPermission` | engine/netconf_agent.py:414-495 | after any run a changed access configuration or interface goes back to an edit of it that the rules in force when it came permitted |
| `NetconfServer.FreshRunsStayValid` | engine/netconf_agent.py:217-229 | every run from a fresh device stays well formed |
| `NetconfServer.RunKeepsValid` | engine/netconf_agent.py:284-408 | whatever any users send, the access configuration stays well formed and denied-operations bounds denied-data-writes |
| `NetconfServer.OnlyRecoveryUsersUnlock` | engine/netconf_agent.py:203-214 | on a fresh device no run of requests by users without recovery rights changes anything |
| `Ber.BerReader.ReadElement` | engine/snmp_udp_agent.py:113-124 | the cursor returns the element at its position and moves to the next, or reports the IndexError |
| `Ber.ReadTlv` | engine/snmp_udp_agent.py:40-48 | reading where an element was written gives that element, for short and long lengths, and stops right after it |
| `Ber.PaddingNeverNeeded` | engine/snmp_udp_agent.py:51-60 | the chosen octet count never leaves the leading bit set, so the padding branch is dead for non-negative integers |
| `Ber.DecodeEncodedInt` | engine/snmp_udp_agent.py:51-60 | decoding an encoded non-negative integer gives it back |
| `Ber.IntegerIsMinimal` | engine/snmp_udp_agent.py:51-60 | the first nine bits of an encoded integer are never all zero (section 8.3.2 of X.690) |
| `Ber.DecodeIntMeans` | engine/snmp_udp_agent.py:130-131 | the decoded integer is the two's-complement reading of the octets |
| `Ber.LengthIsMinimal` | engine/snmp_udp_agent.py:40-44 | the long form of a length has no leading zero octet |
| `Ber.EncodeOidArcs` | engine/snmp_udp_agent.py:63-81 | the outer loop over the arcs, negative ones in the first octet and errors included |
| `Ber.EncodeArcLoop` | engine/snmp_udp_agent.py:73-80 | the inner loops of one arc produce its base-128 digits with continuation bits |
| `Ber.DecodeOidLoop` | engine/snmp_udp_agent.py:134-148 | the decoder's loop |
| `Ber.DecodedOid` | engine/snmp_udp_agent.py:63-81 | an encoded identifier decodes with its first two arcs as quotient and remainder by 40 and all later arcs, of any size, unchanged |
| `Ber.EncodedExactlyWhen` | engine/snmp_udp_agent.py:63-81 | an identifier is encoded if and only if its first octet fits and no later arc is negative, missing first arcs counting as zero |
| `Ber.OidRoundTrip` | engine/snmp_udp_agent.py:134-148 | an encodable identifier comes back unchanged if and only if it has at least two arcs and the second lies between 0 and 39 |
| `Snmp.EncodeResponse` | engine/snmp_udp_agent.py:188-217 | the response encoder with its loop over the varbinds, errors included |
| `Snmp.DecodeRequest` | engine/snmp_udp_agent.py:151-185 | the request decoder with its four cursors |
| `SnmpValues.OnlySequencesAreRead` | engine/snmp_udp_agent.py:157-160 | a message that is no SEQUENCE is not decoded |
| `Snmp.ReadOidLoop` | engine/snmp_udp_agent.py:177-183 | the loop over the varbind list |
| `SnmpRoundTrip.ResponseReads` | engine/snmp_udp_agent.py:151-217 | a decoded response carries the version, community, response tag, request id, status and index it was encoded with, and each identifier as it rereads |
| `SnmpRoundTrip.RereadSameExactlyWhenFaithful` | engine/snmp_udp_agent.py:134-148 | an encodable identifier text is read back unchanged if and only if it is the printed form of at least two arcs with the second below 40 |
| `SnmpRoundTrip.RoundTrip` | engine/snmp_udp_agent.py:151-217 | the whole message, identifier list included, comes back if and only if every identifier is such a text |
| `SnmpRoundTrip.PrintedIsEncoded` | engine/snmp_udp_agent.py:63-81 | the printed form of at least two arcs is encoded wherever its first octet fits, and comes back |
| `SnmpRoundTrip.ExtraDots` | engine/snmp_udp_agent.py:63-64 | dots before, after and doubled inside an identifier add no arc |
| `SnmpValues.ValuesArrive` | engine/snmp_udp_agent.py:84-106 | reading the second element of every varbind of a response gives, in order, the tag and contents of its value: nothing for the two exceptions, the octets of a string, contents whose signed reading is the number, an identifier that rereads as itself does, the octets of an address |
| `SnmpValues.EncodedExactlyWhen` | engine/snmp_udp_agent.py:188-203 | the varbinds are encoded if and only if every identifier and every value can be: no negative number, no unreadable identifier, no address part beyond an octet |
| `SnmpValues.TagsOfResponse` | engine/snmp_udp_agent.py:188-217 | the message, its parts and those of its PDU carry the tags of SNMPv2c |
| `SnmpRoundTrip.NegativeSecondArc` | engine/snmp_udp_agent.py:63-68 | 2.-1 is encoded as well and comes back as 1.39 |
| `SnmpRoundTrip.SecondArcTooLarge` | engine/snmp_udp_agent.py:63-81 | 2.100 can be encoded but comes back as 4.20 |
| `Ike.Engine.NegotiateIpsec` | engine/ike_engine.py:473-590 | one negotiation of a Si-R-family device over all its tunnels: the whole new state of all devices |
| `Ike.Engine.NegotiateRecord` | engine/ike_engine.py:478-590 | one tunnel: the updates of the initiator's and the peer's record, including the old phase 2 left behind by a failed phase 1 |
| `Ike.Engine.InstallRecords` | engine/ike_engine.py:561-586 | the established pair of records with the SPIs exchanged, and the record on a Cisco peer |
| `Ike.Engine.NegotiateManual` | engine/ike_engine.py:372-456 | manual keying of a device over all its tunnels |
| `IkeAgreement.OthersNegotiateNothing` | engine/ike_engine.py:372-382 | no other kind of device keys by hand, and none but the Si-R family starts a negotiation of the model |
| `Ike.Engine.ManualRecord` | engine/ike_engine.py:383-449 | one manual tunnel: both records, and the configured values that keying overwrites on both ends |
| `Ike.Engine.Signal` | engine/ike_engine.py:177-228 | a link change or poll reaches every tunnel of the device |
| `IkeAgreement.EstablishedExactlyWhenAgreed` | engine/ike_engine.py:271-315 | after a negotiation of its own device a tunnel is established if and only if both ike switches and its own ipsec switch are on and the ends have the same non-empty key, Diffie-Hellman number, cipher and hash up to case and aliases, mode and protocol up to case, with the defaults for what is not configured |
| `IkeAgreement.WhatBothEndsKeep` | engine/ike_engine.py:478-577 | the whole record of both ends after one tunnel's negotiation, in terms of the configured values, and nothing else changes |
| `IkeAgreement.EstablishedWithCiscoExactlyWhen` | engine/ike_engine.py:88-141 | a tunnel to a Cisco device is established if and only if ISAKMP is enabled there, the key for this end's address and the first policy agree, and mode and protocol are main and esp |
| `IkeAgreement.KeyedExactlyWhenMatching` | engine/ike_engine.py:339-449 | manual keying: both ends are established with crossed numbers and the values of their send keys if both use manual keys, both directions are usable and each end sends with what the other receives with; otherwise this end waits and nothing else changes |
| `IkeAgreement.KeyedByDeviceExactlyWhen` | engine/ike_engine.py:372-449 | the same condition decides the status after all tunnels of the device have been keyed |
| `IkeAgreement.FindPeerExactly` | engine/ike_engine.py:234-264 | the peer for an address is the first directly linked device that has it, the first device that has it where none is linked, and nobody where none has it |
| `IkeAgreement.PairExactlyWhenMirrored` | engine/ike_engine.py:81-86 | with unique addresses two tunnels are each other's far end if and only if their end points mirror each other |
| `IkeTopology.FindsOwner` | engine/ike_engine.py:234-264 | with unique ownership the owner of an address is found, neighbour or not |
| `IkeTopology.PairSymmetric` | engine/ike_engine.py:81-86 | with unique end points being each other's far end is symmetric |
| `IkeTopology.VerdictSame` | engine/ike_engine.py:436-449 | manual keying elsewhere, which overwrites configured values, never changes the verdict on an IKE tunnel |
| `IkeTopology.SameVerdictExactlyWhen` | engine/ike_engine.py:271-309 | both ends reach the same verdict if and only if, for compatible ends, ipsec use is set alike on both devices; the peer's switch is read at line 514 but never used |
| `IkeRuns.RunExchanges` | engine/ike_engine.py:372-590 | every run keeps the SPIs of all pairs crossed |
| `IkeRuns.EstablishedEndsAgree` | engine/ike_engine.py:419-577 | after any run of negotiations, manual keying, link changes and polls, whenever both ends of a pair are established each receives on the SPI the other sends with |
| `IkeConvergence.StatusSettles` | engine/ike_engine.py:473-590 | from its device's first negotiation on, a tunnel is established exactly when the configuration says so, in any order and with any repetition of runs |
| `IkeConvergence.OrderMattersWhenVerdictsDiffer` | engine/ike_engine.py:512-516 | when only one end would bring the tunnel up, the same two negotiations leave the other end waiting or established, depending on their order |
| `IkeConvergence.OrderIrrelevantExactlyWhen` | engine/ike_engine.py:473-516 | the order in which two ends negotiate is irrelevant to both statuses if and only if, for compatible ends, ipsec use is set alike on both devices |
| `IkeConvergence.CascadeSettlesBothEnds` | app.py:332-392 | one cascade settles both ends of every tunnel with agreeing verdicts of the device that started it |
| `IkeDpd.PollingIsConfluent` | engine/ike_engine.py:207-228 | with nothing in between, polling at t1 and at t2 leaves every record as polling only at t2 |
| `IkeDpd.SignalsExactly` | engine/ike_engine.py:169-228 | what each signal does to each tunnel record of the lab, in every state: which one starts, stops or fires the timer, and that nothing else changes |
| `IkeDpd.TimerExactly` | engine/ike_engine.py:177-219 | over any run a tunnel's timer runs since a time if and only if DPD is on and a link-down at that time found it established and nothing has ended the timer since |
| `IkeDpd.DropsExactlyWhen` | engine/ike_engine.py:177-219 | over any run a poll drops a tunnel if and only if DPD is on, it is established, and a whole window has passed since the last link-down that found it established, with no link-up and no earlier poll past the window in between |
| `IkeDpd.DropsOnlyAfterSilentWindow` | engine/ike_engine.py:177-219 | so a drop is measured from the last link-down that found the tunnel established, with no link-up after it |
| `IkeDpd.DropsExactlyAfterWindow` | engine/ike_engine.py:169-219 | in every reachable state a poll after a link-down of an established tunnel drops it if and only if DPD is on and the window since that link-down has passed, whatever the timer did before |
| `IkeDpdLatest.LatestExactlyWhen` | engine/ike_engine.py:177-219 | every drop comes a whole window after the latest link-down, in every run whose clock never goes backwards, unless DPD is on with a positive window, ipsec use is off here and on at the far end, and the ends accept each other's proposals; and then some run drops earlier |
| `IkeDpdLatest.OverruledMeans` | engine/ike_engine.py:512-516 | those switches and proposals say exactly that the far end's negotiation would bring the tunnel up and this end's would not |
| `IkeDpdLatest.FailingRunDrops` | engine/ike_engine.py:190-219 | otherwise the run: established, link-down, waiting, link-down, established again, and a poll that drops however recent the latest link-down is |
| `IkeExample.DropBeforeTheWindow` | engine/ike_engine.py:190-219 | an instance: link-downs at 0 and 5, a window of 13, and the poll at 13 drops |
| `IkeExample.OrderDecidesHere` | engine/ike_engine.py:512-516 | two devices, ipsec use off on one: two orders of the same negotiations leave its end waiting or established |
| `BigIp.VirtualServerProxy.SelectMember` | engine/bigip_lb.py:159-185 | an uninterrupted selection: the stored member with the index unmoved exactly where persistence applies, it is healthy and was seen within the timeout; otherwise the next member in turn or the first least loaded one; and what is stored |
| `BigIp.VirtualServerProxy.Opened` | engine/bigip_lb.py:199-200 | the increment section |
| `BigIp.VirtualServerProxy.Ended` | engine/bigip_lb.py:214-229 | the decrement section, on an entry that exists |
| `BigIp.AloneIsUninterrupted` | engine/bigip_lb.py:159-185 | the sequential selection is the interleaved lock sections run without interruption |
| `BigIp.LookUpExactly` | engine/bigip_lb.py:159-173 | in every state a look-up goes on with the stored member if and only if persistence applies, the member is healthy and it was seen within the timeout, and is balanced over the healthy members otherwise |
| `BigIp.ChoiceExactly` | engine/bigip_lb.py:174-185 | in every state a balanced handler gets the next member in turn or the first least loaded one, to be stored where persistence applies |
| `BigIp.CountersCountOpenConnections` | engine/bigip_lb.py:199-229 | in every interleaving a counter is the number of handlers between increment and decrement, and every decrement finds its entry |
| `BigIp.LeastConnectionsBalances` | engine/bigip_lb.py:174-181 | with at most k handlers between selection and increment, the loads of any two members of a fixed pool differ by at most k |
| `BigIp.BalanceBoundIsTight` | engine/bigip_lb.py:175-200 | k selections before any increment all go to the first member, so k is the best bound |
| `BigIp.RoundRobinTakesTurns` | engine/bigip_lb.py:178-181 | in every interleaving the j-th balancing choice over a fixed pool is member j modulo its size |
| `BigIp.FirstVisitBinds` | engine/bigip_lb.py:182-185 | a first visit that no other connection of the client overlaps stores its member |
| `BigIp.ClientStays` | engine/bigip_lb.py:165-185 | once a member is stored for a client, every later connection of the client gets it, in every interleaving, while persistence is on, the member is healthy and no pause exceeds the timeout; what is stored at a look-up is not assumed |
| `Scan.ScanRecord.constructor` | engine/nexpose.py:500-529 | the scan record and control entry that start_scan creates |
| `Scan.ScanRecord.SetStatus` | engine/nexpose.py:593-629 | a control call: accepted exactly in the allowed states, with the flags it sets and clears |
| `Scan.AcceptedExactlyWhen` | engine/nexpose.py:593-629 | in every reachable state before the report a pause is accepted exactly in running, a resume in paused, a stop in either; the call then shows its state and sets the flags of that state, and any other call changes nothing |
| `Scan.PauseThenResume` | engine/nexpose.py:593-629 | in every reachable state a pause and a resume leave a running scan as it was |
| `Scan.ResumedScanFinishes` | engine/nexpose.py:540-591 | a paused scan that is resumed and then neither paused nor stopped ends finished with every target assessed |
| `Scan.ScanRecord.AssessNext` | engine/nexpose.py:558-566 | the assessment of one device and the publication of the count |
| `Scan.ScanRecord.Finish` | engine/nexpose.py:570-591 | the end of the worker: status, totals, credentials, and the control entry dropped |
| `Scan.CountFindings` | engine/nexpose.py:691-697 | the severity counts of one device |
| `Scan.FindingsAreSplit` | engine/nexpose.py:679-705 | what is reported of a device: the counted findings are those without an approved exception, the excluded ids those with one, together as many as were found, with their counts and the credential result |
| `Scan.Summarise` | engine/nexpose.py:574-578 | the totals over the assessed devices, and whether any credentials worked |
| `Scan.TotalsCountEverything` | engine/nexpose.py:574-577 | the totals count every remaining finding of every assessed device once, and the severities add up to the total |
| `Scan.AssessedIsPrefix` | engine/nexpose.py:544-566 | in every interleaving the assessed devices are a prefix of the targets, and before the report the visible status says exactly which flags are set |
| `Scan.AtMostOneMore` | engine/nexpose.py:547-558 | after an accepted pause or stop at most one more device is assessed until a resume, and none unless the worker was past its last look at the flag |
| `Scan.StopOverwrittenExactlyWhenLast` | engine/nexpose.py:549-581 | a stopped scan still ends as finished if and only if the assessed devices, with the one being assessed, were already all targets |
| `Scan.LateStopIsOverwritten` | engine/nexpose.py:549-581 | an instance: one target, stopped while it is assessed, ends finished |
| `Scan.ReportsWhatItDid` | engine/nexpose.py:568-591 | a reported scan is finished if and only if all targets were assessed, otherwise stopped, with the counts of exactly the assessed devices |
| `Scan.ReportIsFinal` | engine/nexpose.py:593-629 | after the report every control call is refused and no result changes |
| `Scan.UnpausedScanEnds` | engine/nexpose.py:540-591 | a scan nobody pauses ends within six worker steps for each target and four more, whatever else is called |
| `Scan.StopEndsTheScan` | engine/nexpose.py:547-591 | after a stop, paused or not, the worker is gone within five steps |
| `Bgp.ParseUpdate` | engine/real_bgp_agent.py:42-112 | the parser: ignored, crashed, or the attributes and prefixes it reads |
| `Bgp.AttrsLoop` | engine/real_bgp_agent.py:62-92 | the loop over the path attributes |
| `Bgp.AsPathLoop` | engine/real_bgp_agent.py:78-86 | the two loops over AS_PATH segments and their four-octet numbers |
| `Bgp.ExtendedMeans` | engine/real_bgp_agent.py:70 | the length takes two octets if and only if bit 0x10 of the flags is set |
| `Bgp.PrefixLoop` | engine/real_bgp_agent.py:94-103 | the loop over the routes |
| `Bgp.WidthMeans` | engine/real_bgp_agent.py:98-99 | a prefix takes as many whole octets as its length needs |
| `BgpRoundTrip.UpdateReads` | engine/real_bgp_agent.py:42-112 | any withdrawn block, attributes in any order with either length form, unknown types and prefixes of length 0 to 32 parse back, each attribute with its effect |
| `BgpRoundTrip.UpdateRoundTrip` | engine/real_bgp_agent.py:42-112 | with distinct types every attribute comes back and a missing one keeps its default; the prefixes come back if and only if all are canonical |
| `BgpRoundTrip.RoutesExactlyWhenCanonical` | engine/real_bgp_agent.py:94-103 | octets beyond a prefix's length are lost: a route list comes back if and only if it has none |
| `BgpRoundTrip.HostOctetsAreLost` | engine/real_bgp_agent.py:98-103 | an instance: 10.1.2.3/8 comes back as 10.0.0.0/8 |
| `BgpBlock.BlockExactlyTheGrammar` | engine/real_bgp_agent.py:62-74 | the attribute walk, by header sizes and lengths alone, lands exactly on the end of the block if and only if every attribute ends inside it, if and only if the block is a row of well-formed attributes |
| `BgpBlock.AttributesStayExactlyWhen` | engine/real_bgp_agent.py:50-74 | an accepted UPDATE takes every attribute from its own block if and only if the walk lands exactly on its end, otherwise it stops past it; then the result is what the block's attributes mean and no later octet can change it |
| `BgpBlock.OverrunWalksPast` | engine/real_bgp_agent.py:73-74 | the overrunning message walks four octets past the end |
| `BgpRoundTrip.AttributeMayReadRoutes` | engine/real_bgp_agent.py:73-74 | an attribute whose length reaches past the attributes is accepted and takes its value from the routes |
| `BgpRib.BgpNode.ApplyUpdate` | engine/real_bgp_agent.py:211-252 | the loop that rewrites both lists for every prefix, then the session's prefix count |
| `BgpRib.LastWriterWins` | engine/real_bgp_agent.py:222-248 | over any updates by any peers, in both lists, an announced key has exactly one route, that of its last announcement, and any other key what it had |
| `BgpRib.RouteOfLastAnnouncement` | engine/real_bgp_agent.py:211-248 | the one route of an announced key carries the preference, metric, path and origin of its last announcement, and its next hop or else the peer |
| `BgpRib.PeersDoNotInterfere` | engine/real_bgp_agent.py:222-248 | the routes of a peer and their order depend on its own updates only |
| `BgpRib.RibsAgree` | engine/real_bgp_agent.py:222-248 | loc_rib and rib_in keep agreeing on a peer's routes |
| `BgpRib.ReceivedCountsPrefixes` | engine/real_bgp_agent.py:249-252 | no key of the peer is there twice, and prefixes_received is the number of distinct prefixes it announced |
| `BgpRib.OtherSessionsStay` | engine/real_bgp_agent.py:211-252 | the count of a session whose peer announces nothing stays, and updates without routes change nothing |
| `BgpRib.SessionsStay` | engine/real_bgp_agent.py:249-252 | no run of updates opens or closes a session |
| `Alb.ParseRequest` | engine/alb_lb.py:158-180 | the header loops give the path, host and cookies of the request |
| `AlbRequest.ShortLinePath` | engine/alb_lb.py:163-166 | a request line of two words has its path as well; one without a space has the path / |
| `AlbRequest.BareWordsIgnored` | engine/alb_lb.py:174-177 | a part of a cookie header without an equals sign adds no cookie |
| `Alb.ReceiveLoop` | engine/alb_lb.py:206-212 | the receive loop ends at the first chunk that completes the blank line or the limit, or at the end of the stream |
| `AlbRequest.ReceivesUntil` | engine/alb_lb.py:206-212 | the receive loop takes chunks until the end of the stream, a blank line or 65536 bytes, and no further |
| `Alb.CutsDoNotMatter` | engine/alb_lb.py:206-222 | the parsed request does not depend on how the stream was cut, with the blank line in the first 65536 bytes |
| `Alb.MemberRoundTrip` | engine/alb_lb.py:182-192 | the cookie token of every member decodes to that member, whatever its address contains |
| `Alb.AlbListenerProxy.SelectMember` | engine/alb_lb.py:194-202 | the round-robin choice per target group |
| `Alb.AlbListenerProxy.Handle` | engine/alb_lb.py:222-233 | the member choice: a healthy cookie member first, otherwise round robin |
| `AlbSticky.InjectionAddsOneLine` | engine/alb_lb.py:282-305 | injection keeps the status line, every header line and every body byte and adds exactly the cookie line; without a blank line nothing changes |
| `AlbSticky.RequestReads` | engine/alb_lb.py:158-180 | a request written line by line is parsed line by line, whatever follows the blank line |
| `AlbRequest.ReadsWhatIsSaid` | engine/alb_lb.py:158-180 | the parsed request carries the path without its query, the value of the last host header in any case, and exactly the cookies sent, each with its last value |
| `AlbRequest.ChoiceExactly` | engine/alb_lb.py:222-233 | a request goes to the healthy member its cookie names where stickiness is on, otherwise to the group's next member, and nowhere without a group or a member |
| `AlbSticky.ClientKeepsToken` | engine/alb_lb.py:293-298 | what a client keeps of the injected line is the cookie with the member's token |
| `AlbRequest.CookieLineSays` | engine/alb_lb.py:293-298 | the injected line is a Set-Cookie of exactly three attributes: the member, the lifetime and the path |
| `AlbSticky.StickinessCloses` | engine/alb_lb.py:158-233 | any request returning that cookie among others is given the same member, round robin unmoved, if the member is healthy, and the next round-robin member otherwise |
| `AlbSticky.GroupsTakeTurns` | engine/alb_lb.py:194-202 | in any sequence of choices over all target groups the j-th choice for a group takes member j modulo the size of the group's own healthy list |
| `AlbRules.RuleMatches` | engine/alb_lb.py:90-106 | a rule matches if and only if it has conditions and each is met by some value; unknown fields never match |
| `AlbRules.MatchesExactly` | engine/alb_lb.py:90-106 | the same over the condition's own fields: the path, / when empty, or the host and the value in lower case |
| `AlbRules.SortedMeans` | engine/alb_lb.py:356-359 | the sorted rules are the same rules in priority order |
| `AlbRules.LowestPriorityWins` | engine/alb_lb.py:356-364 | the winner is the matching rule of smallest priority, the earliest on a tie, and there is none exactly when no rule matches |
| `AlbRules.SelectTarget` | engine/alb_lb.py:356-364 | the winner's target, or the default target |
| `Modifiers.Section` | app.py:1606-1623 | the nested loops over one index end and produce the sections |
| `Modifiers.Select` | app.py:1596-1599 | include and exclude |
| `Modifiers.Begin` | app.py:1600-1604 | begin |
| `Modifiers.BeginMeans` | app.py:1600-1604 | begin drops exactly the lines before the first matching one |
| `Modifiers.IndentMeans` | app.py:1606-1623 | the indentation compared by section is the number of leading spaces |
| `Modifiers.SectionIdempotent` | app.py:1606-1623 | section applied to its own output changes nothing, for every line predicate and indentation |
| `Modifiers.SectionKeepsExactly` | app.py:1606-1623 | section keeps, in order, exactly the matching lines and the lines below one: neither blank nor indented no more than it, and reached without such a line |
| `Modifiers.SectionIsSubsequence` | app.py:1606-1623 | its output is a subsequence of the input |
| `Modifiers.SectionKeepsHits` | app.py:1606-1623 | every matching line is in it, in order |
| `Modifiers.IncludeExcludeComplement` | app.py:1596-1599 | include and exclude split the lines into two ordered parts that weave back to the input |
| `Ztp.DhcpServer.Allocate` | app.py:5519-5546 | one allocation: the answer and the new lease sets |
| `Ztp.AllocatesLowestFree` | app.py:5536-5546 | the lowest free host from 10 to broadcast-1, and None exactly when there is none or the pool is unusable |
| `Ztp.AllocatesFromNetwork` | app.py:5519-5546 | for dotted network and mask: the lowest address from host 10 to the one before broadcast that no client of the pool has, that ends no excluded range and is not the router's, and it is recorded; nothing where there is none |
| `Ztp.NothingFromUnusable` | app.py:5524-5535 | a pool without network or mask, with an unreadable network or no host bits gives and records nothing |
| `Ztp.AllocatedInsidePool` | app.py:5536-5546 | in an aligned pool the address, read as a number, lies between host 10 and the one before broadcast |
| `Ztp.AllocateUsesOne` | app.py:5536-5546 | one call uses up exactly one free address, or none is left |
| `Ztp.PoolIsUsedUp` | app.py:5519-5546 | over any run exactly as many calls succeed as addresses were free, the first ones |
| `Ztp.NeverLeasedTwice` | app.py:5519-5546 | over any run no address is handed out twice, and none is the router, an exclusion end point or leased before |
| `Ipv4.ParsePrint` | app.py:5549-5555 | every 32-bit address prints as a dotted quad that parses back to it |
| `Ipv4.PrintDetermines` | app.py:5554-5555 | two numbers print alike only if their low 32 bits agree |
| `Ipv4.CombineOctets` | app.py:5549-5551 | for octets the shifted parts do not overlap: or-ing is adding |
| `Ipv4.MaskIsOnes` | app.py:7210 | the mask of a prefix is that many ones and then zeros, so counting its ones gives the prefix |
| `Ipv4.MaskReads` | app.py:7165-7170 | the dotted mask of every prefix length reads back as that length |
| `Ipv4.MaskClearsHostBits` | app.py:7211 | masking clears exactly the host bits |
| `Ospf.OspfConfig.EnterNetwork` | app.py:3867-3884 | a typed network line is stored once, or refused |
| `Ospf.OspfConfig.RunningConfig` | app.py:6252-6264 | the printed lines |
| `Ospf.TypedWildcardKept` | app.py:3875-3877 | the printed wildcard equals the typed one if and only if the typed one is contiguous |
| `Ospf.EvenWildcardIsPrintedOdd` | app.py:3875-3877 | an instance: 255.255.255.254 is stored with prefix 1 and printed as 127.255.255.255 |
| `Ospf.PrintedWildcardReads` | app.py:6257-6263 | reading a printed wildcard gives the prefix it was printed for |
| `Ospf.StoredAddressIsTheNetwork` | app.py:7205-7213 | the stored address of a readable 32-bit address is that address without its host bits |
| `Ospf.TypedIsReachable` | app.py:3867-3884 | every list reached by typing lines has storable texts and none twice |
| `Ospf.RunningConfigRebuilds` | app.py:6252-6264 | entering the printed lines rebuilds the same list on a fresh device and changes nothing on the device itself |

## Left out

- Sockets, threads, TLS, SSH and the event loops: only the bytes and the steps they deliver.
- `engine/protocols.py` and `engine/rules.py`, as well as the neighbour table, health probes and engines they contain: parameters where needed.
- Decoding of UTF-8, Unicode digits in `int()` and Python's limit on the digits of a number: bytes and characters are the same here and digits are ASCII.
- XML parsing and printing below the element tree, and the escaping of attribute values: NETCONF requests are trees.
- Message ids, error texts, log lines and the contents of replies beyond their kind in `handle_rpc`; exceptions raised inside it.
- Unframing.Unframe: an endless loop whose chunk data grows until memory runs out counts as one that never returns.
- Framing.UnframeExactlyTheGrammar: says nothing past the first negative chunk size; there MessageStaysExactlyWhenForward and ReturnsExactlyWhenNoRepeat hold.
- Session.StreamingEqualsBatch: of a session in which a chunk size takes the loop to before the start of the buffer it claims only the messages delivered before that; CutsNeverMatterExactlyWhen gives the exact condition for cuts under every continuation.
- Session.NetconfSession.Receive: promises nothing for bytes on which the inner loop never ends, as no state follows them.
- NetconfServer.Device.ApplyEditConfig: an error does not roll back earlier interfaces, as in the code; nothing is claimed about atomicity.
- Ber.EncodeOidArcs: a negative arc after the second, for which the code's loop would not end, gives no result; negative request ids and lengths of 2^1016 octets or more are outside the round trip.
- Cisco-initiated and Cisco-to-Cisco IKE: negotiation started by a Cisco device changes nothing in the model.
- Ike.Engine.NegotiateIpsec: the clock is read once for a whole negotiation, and the negotiation logs and results are not modelled; the configured and the negotiated part of a tunnel dictionary are two records.
- IkeConvergence.CascadeSettlesBothEnds: the order and repetition of the targets' negotiations is arbitrary, which covers the order of the code's sets and dictionaries; a cascade without any result is not covered.
- IkeConvergence.StatusSettles: polls are excluded, because a dead-peer drop changes the status; tunnels with manual keys on either end are excluded.
- IkeDpdLatest.LatestExactlyWhen: manual tunnels, whose status keying and IKE negotiation set in turn, are not covered by the condition; TimerExactly and DropsExactlyWhen cover them.
- The accelerated mode that divides dead-peer windows by ten.
- BigIp.ClientStays: connections of the client that were still choosing when the member was stored may end elsewhere, in the code too.
- SNAT pool rotation, the health monitors and the relay of the connection bytes.
- Scan.ScanRecord.SetStatus: one atomic step; the code checks and writes the status without a lock.
- `reset()` of the scan engine, the site's copy of the results, durations, and the assessment of a device beyond its findings and credentials.
- Bgp.ParseUpdate: IndexError, struct.error and OSError are one outcome; the session around it, its state machine and its timers are not modelled.
- BgpRib.BgpNode.ApplyUpdate: the dictionaries of `loc_rib` and the objects of `rib_in` are the same record; constant host names are dropped.
- Alb.AlbListenerProxy.Handle: connection failures and the 502 and 503 answers are not modelled.
- AlbSticky.StickinessCloses: member addresses with a carriage return or semicolon are excluded, as no header could carry them, and request lines are non-empty and without carriage returns.
- AlbRules.SelectTarget: rules whose record is missing are left out of the list.
- Modifiers.SectionIdempotent: stated on the list of lines; splitting the text into lines, joining it again and `count` are not modelled.
- Ztp.DhcpServer.Allocate: addresses inside an excluded range, between its two end points, may be handed out, as in the code.
- Ospf.OspfConfig.EnterNetwork: the area and the start of the OSPF engine are not modelled.
- All other agents, CLI dispatch and HTTP endpoints of the repository, which would mostly add single-branch facts.
