# go-udap: a verified model

go-udap configures Squeezebox Receivers over UDAP, a small request/reply protocol, and ships a
simulator of such devices (`mocksbr`). This project models both ends in Dafny and proves them
against each other.

- **State functions.** `Wire`, `Items`, `Tlv`, `Parameters`, `MacText` and `Decimal` hold the codec
  stack; `SimDevice` and `SimNetwork` the simulator; `ClientProtocol` and `Discovery` the client;
  `Ini`, `Backup` and `Validation` the backup and restore pipeline.
- **Objects.** `SimulatedDevice`, `SimulatedNetwork`, `InProcessTransport`, `UdapClient`,
  `SetCommand` and `OverrideFlags` are the program's objects, loops and in-place updates, each
  method proved to follow the state functions.
- **Results about whole runs.** `LockStep`, `ReadModifyWrite`, `Runs`, `SetEffect`, `Retries`,
  `Trust`, `StaleAcks`, `Backlog`, `Packets`, `Restore`, `RestoreCommand`, `Overrides`; `Scenarios`
  gives concrete starting points.
- **What is seen from outside.** `ReadContents`, `ResetWindow`, `NewDevices`, `CommandEffect`,
  `CommandPackets` and `Outcomes` say what operations do in terms of values, settings and the clock;
  `IniLines`, `InputRules`, `WireLayout`, `RequestParsing` and `HexText` say what texts and packets
  stand for, byte by byte. Their results are in terms that a user, or a peer on the wire, could check.
- **Concurrency.** `MultiTransport`, `Wakeup` and `Interleaving` are step systems whose steps are
  the locked or atomic pieces of the Go code.

Everything up to the concrete table is proved for any parameter table with unique names and disjoint
ascending regions (`Schema.Valid`); `ParameterTable` and `RestorableTable` show that the shipped
table is one. `Collections` states what the code relies on from `sort.Slice`, map iteration and
`maps.Copy`, and nothing about the order of ties or of iteration.

Results worth knowing before reading further:

- Every nil from `SetDeviceConfigWithContext` can be believed, over whole runs and whatever the device
  is configured to do, exactly when the client does not retry
  (`Scenarios.TrustedExactlyWithoutRetries`). With retries, further answers to earlier requests stay
  queued, and a read's answer passes for an acknowledgement. Having read the device before does not
  help: `set` itself reads first, and that read's second answer is what its write is given
  (`Scenarios.ReadThenSetReturnsNil`). Against a device that refuses writes, what a set returns after
  any session is decided by request number |before| / (retries + 1) of those sent before its write:
  nil exactly when that one was a read (`Backlog.HistoryDecides`).
- A value set under an alias can be acknowledged and lost, with the shipped table too
  (`SetEffect.AliasMayBeLost`, `Scenarios.SlimserverMayBeLost`). It is reported in every packet order
  exactly when all keys of its parameter, cached or given, stand for the same value
  (`SetEffect.NilReportsExactly`).
- `--device` overrides replace the devices they name exactly in strictly descending order
  (`Overrides.ReplacesNamedExactly`), although `cmd/mocksbr/flags.go:171-173` speaks of the device at
  a position and the flags are applied as given.
- A set that the simulator acknowledges can be undone by a reset that runs in the gap between its two
  locked halves (`Interleaving.AckedSetExactly`).

Go strings and byte slices are sequences of bytes. The clock is an arbitrary function from the
number of packets received to a time, so nothing is assumed about how long anything takes. `Recv` with
nothing left to take stands for a context that expires.

`dafny verify dfyconfig.toml` checks the whole project.

## Model

| member | source | states |
|---|---|---|
| SetEffect.NilMeansWritten | udap/config.go:120-170 | In lock step with a device that may refuse, drop or garble reads and refuse writes, for every packet order the map iteration can give: after a nil the target reports the canonical form of each configured value and its old value for every other parameter; after an error it reports what it did before; no other device changes and both ends are in step again |
| SetEffect.SetIsStore | udap/client.go:254-267 | For canonical names the outcome of a set does not depend on the order in which the map is ranged over |
| SetEffect.OnlyTableOrder | udap/client.go:254-267 | For canonical names there is exactly one packet order |
| SetEffect.AliasMayBeLost | udap/config.go:129-154 | A set of one value under an alias returns nil in both of two packet orders and caches the value; after one of them the device still reports the old value, after the other the new one |
| SetEffect.NilReportsExactly | udap/config.go:120-154 | For any keys, aliases included: in every packet order a nil means that every configured value is reported, exactly when the write is not acknowledged or all keys of a parameter in the merged map stand for the same value |
| SetEffect.WriteReportsExactly | mocksbr/handlers.go:157-169 | The same for what one write leaves on a device |
| Packets.SomeListing | udap/client.go:254-267 | Every map has a packet order |
| Scenarios.SlimserverMayBeLost | udap/parameters.go:148-155 | With the shipped table and a device with factory settings, a set of slimserver_address to any address returns nil and can leave the device reporting 0.0.0.0 |
| Runs.RunRefinesRegisters | udap/config.go:91-217 | Over any run of reads, sets and resets at any times, with a device that may refuse, drop or garble what it is asked: lock step and cache agreement hold between operations and the device's registers are those obtained by applying exactly the sets that returned nil, in order; a set that returns an error leaves no trace |
| Runs.PerformStep | udap/config.go:91-217 | One operation of any kind keeps lock step and changes the registers as its result says |
| Runs.SetStep | udap/config.go:120-170 | A set, with or without its prelude read, writes everything or nothing |
| Runs.WriteStep | udap/config.go:129-154 | The write half succeeds exactly when the configured values encode and the target is awake and accepts writes; otherwise no register changes |
| Runs.WriteRegisters | udap/config.go:129-133 | Merging the overrides over a cache that agrees with the device changes the configured registers to the canonical form of their values and no other, and keeps the agreement |
| Runs.RefreshAgrees | udap/config.go:99-107 | A full read leaves the cache in agreement with the device |
| Runs.StartsInStep | mocksbr/device.go:128-159 | A fresh client against a fresh device that answers at once is in step, whatever the device refuses, drops or garbles |
| Runs.TableOrderIsListing | udap/client.go:254-267 | Table order is an order the client can send |
| LockStep.Exchange | udap/config.go:24-48 | With one send and nothing pending from the target, an operation consumes the reply to its own request and leaves the queue empty |
| LockStep.SendServes | mocksbr/transport.go:44-64 | Sending a request to the target serves it once and queues its reply |
| LockStep.AwaitLast | udap/config.go:24-48 | The reply filter skips every packet that is not the target's and takes the first that is |
| ClientProtocol.NoPhantomWrites | udap/config.go:120-170 | For any network, queue and replies: a failing set leaves the cache as it was or as the prelude read left it; a successful one leaves that map updated by the overrides |
| Retries.SetNilMeansApplied | udap/config.go:120-170 | With nothing pending from the target, and without retries or with the cache loaded, a nil means the device ran the set, whatever it is configured to do |
| Retries.WriteNilMeansApplied | udap/config.go:129-154 | Unless a packet that reads as an acknowledgement comes first in the queue, a write that returns nil has been applied, for any number of retries and any configuration of the device |
| Retries.ReadIsSteady | udap/config.go:53-111 | A read sent once leaves nothing pending from the target and a canonical cache, whatever the device answers |
| Retries.ResponseCanonical | udap/getdata_response.go:34-68 | The keys of a decoded reply are canonical names and synthetic keys |
| Trust.RunIsSteady | udap/config.go:91-217 | Without retries, over any run of reads, sets and resets and whatever the device is configured to do: nothing is pending between operations, only the target changes, and every nil of a set can be believed |
| Scenarios.TrustedExactlyWithoutRetries | udap/config.go:136-154 | For a client with a given retries setting, every nil of every run against every device that answers at once can be believed exactly when the setting is zero |
| Backlog.HistoryDecides | udap/config.go:120-170 | Over any session of reads and sets with a device that answers reads and refuses writes: a set that asks for a change returns nil, and must not be believed, exactly when its values encode and request number |before| / (retries + 1) of those sent before its write was a read |
| Backlog.RunAgainst | udap/client.go:80-97 | Over such a session every request leaves retries answers behind, and the queue holds, in order, the answers to what was asked from packet |requests| on; no device changes |
| Backlog.TakeOne | udap/config.go:24-48 | A request brings its answers and its operation takes the oldest one that waits |
| Backlog.AskedAt | udap/client.go:80-97 | The k-th packet sent belongs to request number k / (retries + 1) |
| StaleAcks.NilTrustedExactly | udap/config.go:136-154 | Against a device that refuses writes, whatever is queued: a nil from a set that asks for a change can be believed exactly when, after the prelude, no packet that reads as an acknowledgement waits for a write that is going to be sent |
| StaleAcks.WriteTrustedExactly | udap/config.go:136-154 | The same for the write half |
| Scenarios.ReadThenSetReturnsNil | cli/set.go:139-152 | A client that retries, reads the device and then sets a value is told nil twice although the device refused the write and no device changed |
| Backlog.StoreReturns | udap/config.go:147-154 | When a read's answer is left over, a set returns nil and caches its values while no device changes |
| StaleAcks.SendReads | udap/client.go:80-97 | n sends of a full read to such a device queue n full answers and change no device |
| StaleAcks.WriteTakesStale | udap/config.go:136-154 | Whatever is queued, a write the device refuses changes no device and returns nil exactly when a packet that reads as an acknowledgement comes first |
| ReadModifyWrite.GetAllEffect | udap/config.go:91-111 | A full read in lock step succeeds exactly when the target is awake and answers reads properly, and then caches every parameter's canonical value; otherwise the cache stays |
| ReadModifyWrite.WriteEffect | udap/config.go:129-154 | A write in lock step, with any keys, returns nil exactly when its values encode and the target is awake and accepts writes, and the target then ran handleSetData on exactly its items; an error means it stored nothing |
| ReadModifyWrite.ResetEffect | udap/config.go:176-217 | A reset in lock step is reported as done unless the target refuses it, and reloads NVRAM |
| ReadModifyWrite.FullRead | mocksbr/responses.go:122-162 | The reply to a full request, decoded by the client, holds every parameter's canonical value and otherwise only synthetic keys |
| ReadModifyWrite.UpdatesOfMap | mocksbr/handlers.go:157-169 | The device stores, for each canonical key of the written map, the canonical form of its value, and nothing else |
| ReadModifyWrite.UpdatesLastWins | mocksbr/handlers.go:157-169 | Of several items for one parameter the last decides |
| ReadModifyWrite.ListingFits | udap/client.go:269-270 | The item count never overflows its 16-bit field |
| Packets.PacketIsFunction | udap/client.go:254-282 | The SetData items are the same for every iteration order exactly when keys of one parameter are written with the same bytes |
| Packets.InjectivePacket | mocksbr/responses.go:265-295 | For keys of distinct parameters there is one packet, its offsets strictly ascend, and the simulator reads back exactly its items |
| Packets.EffectIsFunction | mocksbr/handlers.go:157-169 | What a write leaves on the device depends on the map alone exactly when keys of one parameter stand for the same value |
| Packets.AnyNameCanWin | udap/client.go:254-267 | With two names of one parameter, each can be the one whose value the device ends up with |
| Packets.LastKeyWins | mocksbr/handlers.go:157-169 | The last key of a parameter in packet order decides what is stored |
| Packets.GetDataIsFunction | udap/client.go:189-210 | A GetData request is the same for every order of the names and every way of breaking ties, also with repeated names and aliases |
| UdapClient.Client.SetDeviceConfig | udap/config.go:120-170 | Follows the protocol function Set for a packet order that is one the code can arrive at |
| UdapClient.Client.WriteConfig | udap/config.go:129-170 | The part after the prelude; the cache changes only on an acknowledgement |
| UdapClient.Client.GetAllDeviceConfig | udap/config.go:91-111 | Follows GetAll: synthetic keys of earlier reads are dropped, the new read is copied over |
| UdapClient.Client.GetDeviceConfig | udap/config.go:53-80 | Follows GetConfig for the sorted regions of the known names |
| UdapClient.Client.ResetDevice | udap/config.go:176-217 | Follows Reset: no reply counts as success, an error reply does not |
| UdapClient.Client.WaitForDeviceReply | udap/config.go:24-48 | Takes packets until one parses and matches address and source; everything before it is gone |
| UdapClient.Client.SendRetried | udap/client.go:80-97 | Hands the packet to the transport retries + 1 times |
| UdapClient.Client.CreateUdapPacket | udap/client.go:103-131 | The counter wraps at 32 bits and the header carries its low 16 bits |
| UdapClient.Client.CreateGetDataPacket | udap/client.go:177-213 | Zero addresses are refused before the counter moves; otherwise header, credentials, count and the regions sorted by offset |
| UdapClient.Client.CreateSetDataPacket | udap/client.go:217-320 | Ranges over the map in any order, sorts unstably, and succeeds exactly when every known value encodes; the bytes are those of some listing of the map |
| UdapClient.Client.CreateResetPacket | udap/client.go:323-344 | A header only, or an error for a zero address |
| UdapClient.Client.FindDevice | cli/find.go:19-40 | The lookup by user input finds a device exactly when the input spells the address of a recorded one |
| UdapClient.Client.RecordDevice | udap/client.go:394-398 | Devices are filed under the text of their own address |
| UdapClient.Client.HandleDiscoveryReply | udap/discovery.go:37-54 | One packet registers at most its sender, with the fields of its entries |
| UdapClient.Client.DiscoverDevices | udap/discovery.go:15-33 | Broadcasts once per attempt and registers everything queued until nothing is left |
| UdapClient.KnownEntries | udap/client.go:254-260 | Each known key gives one entry, unknown keys none |
| UdapClient.WriteEntries | udap/client.go:276-290 | The items in order, or an error if one value does not encode |
| UdapClient.ParameterNames | udap/parameters.go:184-190 | The names in table order |
| UdapClient.AllNamesSorted | udap/client.go:189-201 | Asking for all names asks for all regions, in offset order |
| UdapClient.WithoutSynthetic | udap/config.go:102-106 | Exactly the synthetic keys are dropped |
| InProcessTransport.MockTransport.Send | mocksbr/transport.go:44-49 | Serves the packet and queues its replies in order |
| InProcessTransport.MockTransport.ScheduleReply | mocksbr/transport.go:55-64 | Immediate replies are queued, those of slow devices set aside until their timer fires |
| InProcessTransport.MockTransport.Fire | mocksbr/transport.go:61-63 | A timer queues its reply, or drops it once the transport is closed |
| InProcessTransport.DelayedArrive | mocksbr/transport.go:55-64 | In whatever order the timers fire, on an open transport the delayed replies arrive behind what is queued, each once and no others |
| InProcessTransport.MockTransport.EnqueueReply | mocksbr/transport.go:76-85 | Appends, or drops the reply once closed |
| InProcessTransport.MockTransport.Recv | mocksbr/transport.go:91-112 | Oldest first; an error once closed or when nothing comes |
| InProcessTransport.MockTransport.InjectReply | mocksbr/transport.go:70-72 | Queued with the given source |
| InProcessTransport.MockTransport.Close | mocksbr/transport.go:116-123 | Discards what is queued and refuses everything after |
| SimNetwork.NetRunKeepsValid | mocksbr/network.go:23-79 | Over any run of Add, RemoveAuto and packets, order lists the devices without repetition, each under its own lower-case address |
| SimNetwork.ReceiveKeepsValid | mocksbr/handlers.go:39-86 | Any bytes leave the network valid and its order alone |
| SimNetwork.UnicastFrame | mocksbr/handlers.go:121-149 | A unicast request changes at most the addressed device and gets at most one reply, which echoes the sequence, swaps the addresses and is no request |
| SimNetwork.DiscoveryFansOut | mocksbr/handlers.go:92-115 | One reply per eligible device, in insertion order, each from that device |
| SimNetwork.WindowIsSilentThroughout | mocksbr/handlers.go:39-149 | Over any run of packets, of any bytes, that arrive inside a device's reboot window, the device keeps its whole state and no reply comes from it |
| SimNetwork.WindowIsSilent | mocksbr/device.go:205-217 | The same for one packet |
| SimNetwork.ServeAnswers | mocksbr/responses.go:18-33 | Every reply parses, echoes the sequence and comes from the addressed device |
| SimNetwork.NewNetworkIsValid | mocksbr/network.go:23-39 | Automatic devices have different addresses |
| SimulatedNetwork.Network.ReceiveScheduled | mocksbr/handlers.go:39-86 | The object follows the state function for every input |
| SimulatedNetwork.Network.DispatchUnicast | mocksbr/handlers.go:121-149 | Follows Dispatch; only the addressed object changes |
| SimulatedNetwork.Network.HandleDiscovery | mocksbr/handlers.go:92-115 | Follows Discover over the whole order |
| SimulatedNetwork.Network.Add | mocksbr/network.go:42-57 | Refuses malformed and duplicate addresses, otherwise files a new device under the lower-case address |
| SimulatedNetwork.Network.RemoveAuto | mocksbr/network.go:69-79 | Removes the device at a one-based position, or nothing |
| SimulatedNetwork.Network.constructor | mocksbr/network.go:23-39 | A network of n automatic devices |
| SimulatedDevice.Device.constructor | mocksbr/device.go:128-159 | Factory defaults, overlaid with the configured values and name, in both memories |
| SimulatedDevice.Device.ApplySet | mocksbr/device.go:162-166 | Working memory is updated, NVRAM is not |
| SimulatedDevice.Device.ApplySave | mocksbr/device.go:169-173 | NVRAM becomes working memory |
| SimulatedDevice.Device.ApplyReset | mocksbr/device.go:178-182 | Working memory becomes NVRAM |
| SimulatedDevice.Device.StartReboot | mocksbr/device.go:194-199 | The reboot window begins |
| SimulatedDevice.Device.Rebooting | mocksbr/device.go:205-217 | True inside the window; at its end the memory is reloaded once |
| SimulatedDevice.Device.HandleSetData | mocksbr/handlers.go:157-169 | Both memories take exactly the parsed items, last wins, and the acknowledgement counts them |
| SimulatedDevice.Device.BuildGetDataResponse | mocksbr/responses.go:122-162 | The requested regions in order, then the extra entries in ascending order, or one of the malformed shapes |
| SimulatedDevice.Device.Respond | mocksbr/handlers.go:46-80 | The handler of each operation |
| SimulatedDevice.BuildUnknownItems | mocksbr/responses.go:155-160 | Extra entries come out once each, sorted by offset |
| SimulatedDevice.FactoryDefaultMap | mocksbr/device.go:17-23 | One entry per parameter |
| SimDevice.DecodeParam | mocksbr/responses.go:330-347 | The simulator renders values as the client does |
| SimDevice.EncodersAgree | mocksbr/responses.go:303-325 | The simulator encodes as the client does wherever that succeeds, and as zeros elsewhere |
| SimDevice.ReadingIsCanonical | mocksbr/responses.go:303-325 | What a device reports can be written back and is then reported again |
| Wire.ParseExactly | udap/protocol.go:179-197 | Bytes parse to a header and payload exactly when they are its encoding followed by the payload and its type is UCP |
| Wire.RequestBitOfEncode | udap/loopback.go:18-23 | The request test looks at the flags byte of the header |
| Wire.RequestsAreRequests | udap/client.go:103-131 | Every packet a client builds parses as built and is taken for a request |
| Wire.SequenceNumbersDistinct | udap/client.go:103-131 | Any 65536 consecutive packets carry distinct sequence numbers, also across the 32-bit wrap; the next repeats the first |
| Items.GetDataResponseExactly | udap/getdata_response.go:34-68 | Decoding succeeds exactly on a count followed by that many complete items, and the result has no more entries than headers fit in the payload |
| Items.ParseGetDataResponse | udap/getdata_response.go:34-68 | The cursor loop computes the last-wins reading of the items |
| Items.ResponseOf | udap/getdata_response.go:34-68 | What was encoded is what is decoded, trailing bytes ignored |
| Items.FoldLastWins | udap/getdata_response.go:59-65 | A key holds the value of its last item |
| Items.KeysDiffer | udap/getdata_response.go:59-65 | Different offsets are reported under different keys, synthetic ones included |
| Items.ParseSetDataRequest | mocksbr/responses.go:265-295 | The complete items among those announced |
| Items.ParseGetDataRequest | mocksbr/responses.go:215-238 | The complete pairs among those announced |
| Items.SetDataRequestOfPayload | mocksbr/responses.go:265-295 | The simulator reads back exactly what the client wrote |
| Items.GetDataRequestOfPayload | mocksbr/responses.go:215-238 | The simulator reads back exactly what the client asked for |
| Parameters.EncodeAfterFormat | udap/parameters.go:62-95 | Rendering and encoding again is the identity on numbers and addresses and zero-fills strings after the first NUL |
| Parameters.CanonIdempotent | udap/parameters.go:62-95 | Encoding and rendering is an idempotent canonicalisation |
| Parameters.FormatGetDataValue | udap/getdata_response.go:72-89 | The loop stops at the first NUL |
| Decimal.QuadExactly | udap/parameters.go:79-90 | A text is an address exactly when it is the rendering of four bytes |
| Decimal.ParseOfDec | udap/parameters.go:65-75 | Rendered numbers parse back, within the width |
| ParameterTable.TableIsValid | udap/parameters.go:119-159 | The shipped table has unique names and disjoint ascending regions, and its aliases name entries of it |
| Tlv.DecodeExactly | udap/protocol.go:127-164 | Bytes decode to a list exactly when they are its encoding followed by at most one truncated entry |
| Tlv.DecodeTlv | udap/protocol.go:138-164 | The loop computes the complete entries |
| Tlv.ScanDiscovery | udap/discovery.go:114-142 | The hand-written scanner keeps the last value of each tag |
| Tlv.ScanGetIP | udap/getip.go:86-114 | The last four-byte value of each address tag |
| Tlv.ScanGetUUID | udap/getuuid.go:87-103 | The first sixteen-byte identifier |
| Tlv.LatestIsLast | udap/discovery.go:114-142 | The fold returns the value of the last entry of its tag |
| Discovery.DiscoveryFindsEligible | udap/discovery.go:15-54 | One round registers exactly the eligible devices, each under its own address with its own data; other entries stay |
| Discovery.ReplyDescribes | mocksbr/responses.go:72-92 | A client learns from a discovery reply exactly the device's own data, cut to 255 bytes |
| MacText.NormalizeMacExactly | cli/find.go:19-40 | Input is accepted exactly when stripping ':' and '-' leaves twelve hex digits; the first branch never decides the result |
| MacText.NormalFormIsFixed | cli/find.go:19-40 | The normal form is a fixed point of normalizeMAC and of String after ParseMAC |
| MacText.NormalFormIsCanonical | cli/find.go:19-40 | The normal form is the text of the address the digits spell |
| MacText.NormalizeMacLoop | cli/find.go:19-40 | The branches and the building loop compute it |
| MacText.ParseMacLoop | udap/mac.go:33-54 | Accepts exactly six pairs of hex digits separated by colons |
| MacText.StringOfMac | udap/mac.go:74-85 | A lower-case colon form is the rendering of the address it spells |
| MacText.MacOfString | udap/mac.go:74-85 | Rendering and parsing gives the address back |
| Restore.BackupRestoreRoundTrip | cli/set.go:65-162 | Printing the changed values of a device and piping the text into set on a device with factory settings makes a later full read return the same values, the interface sentinel apart |
| RestoreCommand.CommandRoundTrip | cli/set.go:65-162 | The text read prints for one device, piped into the set command for another that has factory settings: whatever order its packet gets, with or without the reset, that device then has the registers of the first, the interface sentinel apart |
| RestoreCommand.CommandRestores | cli/set.go:145-159 | The same from the changed values on; the command reports success unless the reset it was asked for is refused |
| Restore.BackupExactly | cli/read.go:85-97 | The printed text parses back to the changed values exactly when each is valid, trimmed and free of newlines |
| Restore.RestoreReturns | cli/set.go:145-157 | Setting the changed values on a device with factory settings reproduces all of them |
| Restore.RunSetReturns | cli/set.go:145-157 | Read, choice of interface and write update the registers by the given parameters |
| Restore.RestoredRegisters | cli/set_interface_default.go:26-44 | An interface left at its sentinel becomes wireless if a network name is restored and wired otherwise |
| Restore.ReadReturns | udap/config.go:91-111 | A read of a device that is up returns its registers |
| Restore.NewDeviceIsFactory | mocksbr/device.go:128-159 | A new simulated device reports the factory defaults |
| RestorableTable.TableIsRestorable | udap/parameters.go:119-146 | The shipped names can be written in a file and the shipped defaults are what devices report |
| SetCommand.RunSet | cli/set.go:65-162 | Nothing is sent on invalid inputs; then read, interface, write and reset each run only if the one before succeeded, and the result lists what was written |
| SetCommand.CollectFlags | cli/set.go:78-89 | One invalid flag refuses them all |
| Ini.ParseOfPrint | cli/config.go:23-62 | Printing a map and parsing the text gives it back exactly when its entries are clean: known keys, one per parameter, valid trimmed values, no newline, no over-long line |
| Ini.ParsedIsClean | cli/config.go:23-62 | Whatever the input, a parsed map is clean |
| Ini.ParseIni | cli/config.go:23-62 | The line loop computes the fold of the line rule |
| Ini.ParseLine | cli/config.go:28-56 | Blank lines and comments are skipped; every other line is an assignment or an error |
| Backup.FilterReadOutput | cli/read.go:85-97 | Keeps exactly the changed values of real parameters |
| Backup.SortedParams | cli/output.go:22-28 | Every entry once, names strictly ascending |
| Backup.WriteText | cli/output.go:30-37 | One name=value line per entry |
| Backup.MergeSources | cli/source.go:27-58 | File or piped text under flags; an error exactly when the text does not parse or nothing is given |
| Backup.ApplyInterfaceDefault | cli/set_interface_default.go:26-44 | A given interface is kept; the sentinel is replaced; anything else is left alone |
| Validation.AcceptedEncodes | udap/validation.go:35-96 | A known name and an accepted value never fail to encode, and nothing is cut off |
| Validation.FitsLengthExactly | udap/validation.go:41-65 | The rules by length accept exactly what encodes without truncation |
| Tlv.EncodeTlv | udap/protocol.go:127-135 | The loop appends type, length and value of each entry |
| MacText.MacStringLoop | udap/mac.go:74-85 | The loop writes two digits per byte and a colon between bytes |
| Scenarios.NewSimulatorIsFactory | mocksbr/network.go:23-39 | Every automatic device of a new simulator is one with factory settings, in lock step with a client that does not retry |
| Scenarios.RefusedSetReturnsNil | udap/config.go:120-154 | The trace: a device that refuses writes, a client with retries and nothing cached; a set of one value returns nil and caches it, and no device has changed |
| Scenarios.RefusedHostname | udap/parameters.go:119-146 | Both traces with the shipped table and any host name: a set alone, and a read followed by a set |
| MultiTransport.NothingLost | udap/multi_transport.go:73-127 | Before Close, each child's packets are those delivered, then those queued, then at most one held, in order; at most 32 and one per child are on the way |
| MultiTransport.AtMostOneLost | udap/multi_transport.go:98-127 | After Close, each child has lost at most the packet its pump was holding |
| MultiTransport.CloseReturns | udap/multi_transport.go:131-142 | Once everything is closed the pumps take at most two steps per child and come to rest only by all returning, also with the channel full |
| MultiTransport.Send | udap/multi_transport.go:53-68 | Succeeds exactly when one child does |
| Wakeup.EnoughForOne | mocksbr/transport.go:76-130 | The one-slot wakeup channel never loses a wakeup exactly for at most one receiver at a time |
| Wakeup.RepliesInOrder | mocksbr/transport.go:76-112 | For any number of receivers, replies come out once each in the order they were queued |
| Wakeup.WaiterIsServed | mocksbr/transport.go:91-130 | A lone waiting receiver gets the oldest reply after at most three steps |
| Interleaving.MemoriesAgree | mocksbr/handlers.go:157-169 | For any interleaving, the two memories differ only while some set handler is between its halves |
| Interleaving.AckedSetExactly | mocksbr/device.go:162-217 | An acknowledged write is in both memories, and stays, exactly when of the saves and reloads in the handler's gap the first is a save |
| Interleaving.ResetInGapLoses | mocksbr/device.go:178-182 | A reset whose second half falls into the gap loses an acknowledged write |
| Overrides.ReplacesNamedExactly | cmd/mocksbr/flags.go:174-189 | Every override replaces the device it names exactly when positions are given in strictly descending order |
| Overrides.DescendingReplaces | cmd/mocksbr/flags.go:174-189 | In descending order the named devices are replaced and all others left as they were |
| Overrides.AscendingReplacesTheReplacement | cmd/mocksbr/flags.go:174-189 | Overrides 1 and 2 in that order leave device 2 in place; of two devices, the second replaces the first replacement |
| OverrideFlags.CollectOverrides | cmd/mocksbr/flags.go:26-44 | Succeeds exactly when every flag parses and no position is given twice |
| OverrideFlags.ReplaceAutoDevice | cmd/mocksbr/flags.go:174-189 | The object follows the state function; when the replacement is refused the old device is gone all the same |
| OverrideFlags.ReplaceAutoDevices | cmd/mocksbr/main.go:100-107 | The loop over the overrides, ended by the first failure |
| CommandEffect.CommandIsAtomic | cli/set.go:145-159 | Whatever the device holds, refuses, drops or garbles, and for every packet order: a set command that reports success has changed the registers exactly as asked - each given parameter to the canonical form of its value, an interface that was not given and stood at its factory value to wireless or wired, every other register not at all; one that reports an error has changed none, unless all that failed was the reset it was asked for |
| CommandEffect.InterfaceChangesExactly | cli/set_interface_default.go:26-44 | On a device that is up with any registers, a set that does not name the interface changes it exactly when the device reported the factory value, and then the network name decides; otherwise what is written is exactly what was given |
| CommandEffect.CommandSucceeds | cli/set.go:145-159 | On a device that is up, values that encode are written |
| Scenarios.ShippedInterfaceChanges | cli/set_interface_default.go:26-44 | With the shipped table that factory value is 128: a device configured as wired or wireless stays what it is |
| CommandPackets.CommandSends | cli/set.go:145-159 | On a device that answers the read: a value that does not encode ends the command after one packet, a refused write after two; the reset that was asked for is the third, and puts the device down for its reboot delay from then on unless it refuses it |
| CommandPackets.FailedReadEndsCommand | cli/set.go:145-147 | A read that fails ends the command with an error after one packet |
| CommandPackets.InvalidInputsSendNothing | cli/set.go:78-102 | An invalid flag ends the command before anything is sent |
| ReadContents.FullReadCaches | udap/config.go:91-111 | Whatever was cached before, key by key: after a full read that succeeds a parameter is cached as the device reports it, a key that begins with offset_ is cached exactly when the device holds an extra entry at that offset, with its bytes in hex, and any other key stays as it was; a read that fails changes no key |
| ReadContents.ReadShows | udap/getdata_response.go:34-68 | A read of the regions of some parameters succeeds exactly when the target is awake and answers reads; it returns the canonical value of each, the extra entries of the device in hex under their offsets, and nothing else |
| ReadContents.NamedReadShows | udap/config.go:53-80 | The same for a read of some names, whatever the order of its packet: known ones are returned under their canonical name, unknown ones are skipped |
| ResetWindow.ResetOpensWindow | mocksbr/handlers.go:60-66 | A reset that the target takes puts it down until exactly its reboot delay later; one that it does not take leaves it as far from being up as it was; both ends stay in step |
| ResetWindow.ReadAfterReset | mocksbr/device.go:178-217 | The read after a reset is answered exactly when it arrives no sooner than the reboot delay and the device answers reads, and then from what was stored before the reset; before that it fails and the cache stays |
| ResetWindow.ReadAfterResetReturns | mocksbr/integration_test.go:96-123 | In step, these are the registers from before the reset |
| NewDevices.AddedExactly | mocksbr/network.go:42-57 | Adding a device fails exactly on a malformed or known address; otherwise both memories hold its name as the host name if one is given, else the configured value, else the table's default, and nothing else; it is not rebooting; what its settings leave out is that of a Squeezebox; no other device changes |
| NewDevices.OverridePutsNew | cmd/mocksbr/flags.go:174-189 | An override takes out the device at its position and puts such a new device last, under the address of the old one unless it brings its own, and with an identifier made from the position unless it brings one |
| NewDevices.ReplacementIsNew | cmd/mocksbr/flags.go:174-189 | So what a list of overrides leaves in place of the devices it names is new |
| NewDevices.AutoUuidIs | cmd/mocksbr/flags.go:182-184 | That identifier is a fixed prefix and the position in three digits |
| NewDevices.AddedDeviceReads | mocksbr/device.go:128-159 | A full read of a device just added reports, for every parameter, the canonical form of the value it started with, or that of zero bytes if that is no value of the parameter |
| NewDevices.NewDeviceIsDiscovered | mocksbr/responses.go:72-92 | Discovery finds a new device exactly when it is reachable and does not refuse it, and learns its name or a generic one, wait_slimserver or init by whether it has one, and the given or usual model, identifier, firmware and hardware |
| Outcomes.ReadSucceedsExactly | mocksbr/device.go:219-232 | In terms of the settings: a read succeeds exactly on a device that is up and neither fails, drops nor garbles reads |
| Outcomes.WriteSucceedsExactly | mocksbr/device.go:219-232 | A write succeeds exactly on a device that is up and is to fail neither on setting nor on saving, if the values encode |
| Outcomes.ResetSucceedsExactly | udap/config.go:186-217 | A reset is reported as done exactly unless a device that is up refuses it |
| Outcomes.ZeroAddressIsRefused | udap/client.go:177-180 | Nothing is sent to the zero address |
| Outcomes.RequestsAreRepeated | udap/client.go:80-97 | A read or reset is put on the wire retries + 1 times, whether it is answered or not |
| Outcomes.WritesAreRepeated | udap/client.go:80-97 | So is a write, unless one of its values does not encode: then nothing is sent |
| Outcomes.AwaitTakesFirst | udap/config.go:24-48 | Byte by byte: a waiting client takes the first packet of type UCP whose source address is the target's and that comes from where the target was found, whatever it answers, and drops those before it |
| Outcomes.AcknowledgedBy | udap/config.go:147-154 | With one packet of the target waiting and the target unreachable, a write returns nil exactly if its method is 2, 5 or 6 |
| Outcomes.NothingIsReadOnceClosed | mocksbr/transport.go:91-97 | On a closed transport reads fail and a reset counts as done |
| Outcomes.SlowReplyIsSetAside | mocksbr/transport.go:55-64 | The reply of a slow device is set aside and not queued |
| Outcomes.BothDiscoveriesFanOut | mocksbr/handlers.go:46-48 | Both discovery methods, whoever they are addressed to, are answered by every eligible device in insertion order |
| Outcomes.OthersAreNotRegistered | udap/discovery.go:37-54 | Only packets that parse and name an Ethernet source are registered |
| Outcomes.NetworkSettingsAreRead | mocksbr/responses.go:353-380 | A get_ip request to a device that is up is answered, unless such answers are dropped, with its address, subnet mask and gateway, each of which the client reads in its place |
| Outcomes.IdentifierIsRead | mocksbr/responses.go:386-393 | An identifier of 32 lower-case hex digits is read back as it was configured |
| Outcomes.OtherMethodsAreIgnored | mocksbr/handlers.go:81-86 | Any other method changes nothing and is not answered |
| IniLines.CommentsAreSkipped | cli/config.go:30-37 | A line of white space only, or whose first other byte is '#' or ';', counts for nothing wherever it stands |
| IniLines.EntryIsAdded | cli/config.go:42-56 | A key and a value with any white space around them add to what the lines before gave, a later value for a key replacing the earlier one; the line refuses the file exactly when the key is unknown, the value not accepted, or the parameter set under another key before |
| IniLines.NoEqualsRefuses | cli/config.go:38-41 | Any other line without '=' refuses the file |
| IniLines.LongLineRefuses | cli/config.go:57-59 | So does a line of 65536 bytes or more |
| IniLines.PrintedLine | cli/output.go:30-37 | A printed list is name, '=', value and newline for each entry in turn |
| InputRules.ChannelRule | udap/validation.go:72-77 | With the shipped table a channel is accepted exactly if it is digits with a value from 1 to 13 |
| InputRules.ModeRule | udap/validation.go:67-71 | A mode exactly if it is 0 or 1 |
| InputRules.KeyLengthRule | udap/validation.go:78-82 | A key length exactly if it is 5 or 13 |
| InputRules.SecretRules | udap/validation.go:83-92 | A passphrase exactly if it has 8 to 63 bytes, a network name exactly if it has 1 to 32 |
| InputRules.OtherRule | udap/validation.go:41-65 | Any other parameter by its wire length: a number that fits, the text of four address bytes, or no more bytes than the field |
| InputRules.TextAndFlags | cli/source.go:27-58 | A file, or else what is piped in, gives the parameters, flags taking precedence; refused exactly when the text does not parse, a flag is invalid or both name nothing |
| InputRules.FlagsOnly | cli/source.go:27-58 | Without a text there have to be valid flags |
| Backup.LessExactly | cli/output.go:22-28 | The order of names: the first byte that differs decides, and the end of a name comes first |
| HexText.DecodeOfHex | udap/getdata_response.go:52-66 | Hex rendering and the simulator's decoder undo each other, with two lower-case digits per byte |
| HexText.HexOfDecode | mocksbr/responses.go:110-116 | An even number of lower-case hex digits is kept by decoding and rendering |
| HexText.HexOne | udap/getdata_response.go:52-66 | One byte is two digits, the high one first |
| WireLayout.WritePacket | udap/client.go:217-320 | A write request byte by byte: the 27-byte header, 32 zero bytes, the number of items high byte first, the items |
| WireLayout.ReadPacket | udap/client.go:177-213 | A read request byte by byte, the same with regions |
| WireLayout.ItemBytes | udap/client.go:276-290 | An item is its offset, its length, both high byte first, and its bytes |
| WireLayout.ShortPackets | udap/client.go:323-344 | A reset and a discovery are a header each |
| WireLayout.ReplyIs | mocksbr/responses.go:18-33 | A reply goes back to the sender with its sequence number and without the request flag |
| WireLayout.AcknowledgementBytes | mocksbr/responses.go:166-172 | A write that is taken is acknowledged with the number of its items |
| WireLayout.GarbledReplies | mocksbr/responses.go:122-145 | The bytes of the three garbled answers |
| RequestParsing.WriteRequestExactly | mocksbr/responses.go:265-295 | For any payload: a write request stands for the longest list of complete items it holds, up to the announced number, and for none if it is too short to announce any |
| RequestParsing.ReadRequestExactly | mocksbr/responses.go:215-238 | For any payload: a read request asks for the announced number of regions or for as many as it holds |
| WireLayout.RefusalBytes | mocksbr/responses.go:184-195 | A refusal is an error reply with one entry: tag 3, its length, and a message |
| Tlv.LatestQuadIsLast | udap/getip.go:86-114 | Of the entries of an address tag the last that is four bytes long counts, and no other |
| Tlv.FirstUuidIsFirst | udap/getuuid.go:87-103 | The first entry of the identifier tag that is sixteen bytes long counts; without one there is no identifier |
| MultiTransport.HeldIsDelivered | udap/multi_transport.go:98-127 | A packet held by a pump can always be delivered, behind those queued, also with the channel full |
| Interleaving.AloneIsAtomic | mocksbr/handlers.go:157-169 | With nothing between its halves a handler does to the device what one packet does |

## Left out

- Runs.RunRefinesRegisters: states its result for configurations with canonical names; `SetEffect.AliasMayBeLost` and `SetEffect.NilReportsExactly` show what goes wrong with aliases and exactly when.
- Runs.StartsInStep: lock step leaves out devices with `Slow`, and devices whose extra entries sit at offsets of the table or are too many for a 16-bit count, which misreport what they hold; `Trust.RunIsSteady` covers the latter too.
- Backlog.HistoryDecides: covers sessions of reads and sets; a reset puts the device into its reboot window, where the number of answers depends on the clock.
- SimNetwork.NetRunKeepsValid: one reading of the clock serves all devices that look at one packet, where the code reads it once per device.
- UdapClient.Client.SendRetried: the in-process transport never refuses a packet, so the branch for a send error is not reached.
- InProcessTransport.MockTransport.Fire: a timer may fire at any moment and in any order; how long it takes is not modelled, and the client's operations are proved for devices without `Slow`.
- SimDevice.ReadingIsCanonical: a four-byte value is a plain dotted quad; the IPv4-mapped IPv6 texts that `net.ParseIP` also takes are not modelled.
- Ini.ParseIni: white space is ASCII white space, and lines are limited to 65536 bytes as `bufio.Scanner` limits them.
- MacText.NormalizeMacLoop: input is ASCII; `strings.ToLower` on other letters is not modelled.
- MacText.MacOfString: the simulator's own address parser is applied to 17-character texts only, where it cannot go out of range.
- MultiTransport.Send: each child's result is an input; what a child does with the packet is not part of the model.
- OverrideFlags.CollectOverrides: what a single flag parses to is an input.
- Sockets, broadcast, interface enumeration, platform options: operating-system calls.
- Command-line parsing, JSON and CSV output, progress, completion, exit codes, log and error texts.
- The product name derived from a device identifier (`combineModel`): a table lookup.
- `discoverAndFind`'s polling: only its two ends, discovery and the lookup, are modelled.
- Extra NVRAM entries longer than 65535 bytes, whose length the wire format cannot express.
- The sends and waits of `get_ip` and `get_uuid`: same shape as a read, with only their reply scanners of interest.
- `Device.Validate`, `Packet.Validate`, `TLVData.Validate`: field checks that no operation calls.
