# A verified model of virtinjectd and its companions

This project models, in Dafny, four programs of the dra-driver-integration-env repository and
proves what they are meant to guarantee.

* **virtinjectd** is a libvirt RPC proxy. Two pumps copy length-prefixed messages between a
  client and libvirtd. The client-to-server pump lets a chain of hook scripts rewrite the domain
  XML of define calls. `Bytes`, `Buffers`, `Protocol` and `Xdr` are the byte formats, `Forwarding`
  is the forward loop as a function of byte streams, `Channel` the same loop over connections that
  deliver their bytes in arbitrary chunks, `Sorting` and `Hooks` the hook chain, `Proxy` the
  interception. `Session` is `handleConnection` as a state machine of two pumps, the handler that
  waits for them and the two peers; `Teardown` is about how it ends, `Progress` about pumps that
  keep moving, `Delivery` about what arrives, and `Scenarios` holds two sessions played to their end.
* **dramachine.py** is the hook that prepares a minikube domain for SR-IOV. `DomainXml` and
  `MachineType` are its data, `Edits` describes its four passes as values of one small edit
  language, `Extension` says what edits leave alone, `Dramachine` proves what runs of passes do, and
  `ElementTree` holds the passes as they are written, changing elements in place, each proved equal
  to its edit. `Example` follows one small domain through all of them.
* **setup/sriovvf** creates virtual functions and places them on NUMA nodes (`PciAddress`, `Sriov`).
* **setup/pkg/hugepages** splits huge pages over NUMA nodes (`Hugepages`). `Faults` is what this
  tool and the previous one share: writing a list when any attempt may fail.

`EndToEnd` puts the proxy and the hook together.

`dafny verify dfyconfig.toml` checks the whole project.

## How the model is set up

* A byte is an integer from 0 to 255, a Go string a sequence of bytes, a stream a sequence of bytes.
  32-bit words wrap where the source converts to `uint32`: `WriteMessage` with a payload of 4 GiB
  either cuts the message short or panics, and both are modelled. A panic ends the process; in
  `Channel` and `Session` it shows as a pump that fails.
* In `Session` a connection carries the history of both directions. Steps are as small as the
  system calls allow: a read of some bytes, a write of some bytes into a bounded send buffer, each
  close, `wg.Done`, each deferred close of the handler, and the peers' sends, receives, ends and
  resets. Processing a message, hooks included, is one step that terminates, which the three-second
  limit of `runHook` is there to ensure.
* The liveness theorems are about infinite executions in which no goroutine that can run is
  forgotten for ever (`Teardown.Fair`). Those about delivery also assume a send buffer of at least
  one byte and a receiver that goes on receiving (`Progress.KeepsReceiving`).
  `Scenarios.RequestSession` shows that such executions exist.
* Hook scripts, the XML parser and writer, directory listings and device probing are functions or
  values that the theorems quantify over. Where a theorem needs the writer's output to parse back
  to the tree it printed, that is stated as `PrintsBack`.
* `root.find("./os/type")` takes the first `type` of the first `os` element that has one, which
  need not be the first `os` element.
* Attributes of an element are an ordered list, because the printed bytes depend on the order.
* sysfs is a log or a map with a failure oracle: any attempt to write may fail, and a failed write
  changes nothing. The contracts say exactly what is written for every oracle.

## What turned out to need a condition

* Replacing an XDR string by itself restores the payload only if its padding was zero: the decoder
  accepts any padding, the encoder writes zeros (`Xdr.ReplaceWithDecodedIff`, and
  `Xdr.NonZeroPaddingIsLost` for a payload).
* Neither `EncodeXDRString` nor `WriteMessage` checks a size limit, so a patched call can become
  unreadable; exactly when is `Proxy.PatchedReadableIff`, and what this means for two proxies in a
  row is `Proxy.ProxiesInSeriesIff`. `Proxy.HugeAnswerIsUnreadable` is a call for which it happens.
* `setNumVFs` goes through zero only from a positive count. With a negative number in the file it
  would jump (`Sriov.NegativeCountJumps`); `Sriov.NeverJumpsIff` gives the exact condition.
* With a negative number of zones, which the type allows, pages are conserved only in the cases of
  `Hugepages.NegativeZonesConserveIff`; `Hugepages.NegativeZonesLosePages` is another one. The only
  caller passes the number of nodes it found (setup/hugepages/main.go, line 48), so the edge that
  the program can reach is zero zones: there `RuntimeHugepages` panics on every non-empty
  configuration.
* What one side sent arrives unless the other side ends its own stream before it is forwarded, since
  the first pump to leave closes both connections. A client that ends its stream while it waits for
  a reply can lose the reply (`Scenarios.ReplyIsLost`); `Delivery.EverythingArrives` names this
  case, resets and unusable bytes as the only ones.

## Where code and documentation differ

The model follows the code.

* The API comment on `HugePage.Node` says that pages without a node are split equally; in the code
  the node counts on single-zone machines only, and on others pages are always split.
* The comment on `handleConnection` says that other messages are forwarded as raw bytes without
  inspection; they are parsed and serialized again, which gives the same bytes
  (`Forwarding.PassthroughWritesLongestLegalPrefix`).

## Model

| member | source | states |
|---|---|---|
| Bytes.PutUint32 | virtinjectd/protocol.go:132-137 | four bytes that read back as the word |
| Bytes.PutUint32Uint32 | virtinjectd/protocol.go:120-137 | writing a word that was read gives the same four bytes |
| Buffers.CopyAt | virtinjectd/protocol.go:195-196 | copy in place: the common length is overwritten, everything else stays |
| Buffers.PutUint32At | virtinjectd/protocol.go:132-137 | a word put in place, the rest of the buffer unchanged |
| Protocol.ParseHeaderIff | virtinjectd/protocol.go:115-139 | a header is obtained exactly from bytes that begin with its 24 marshalled bytes |
| Protocol.ParseMarshal | virtinjectd/protocol.go:115-139 | parsing a marshalled header gives the header |
| Protocol.MarshalParse | virtinjectd/protocol.go:115-139 | marshalling a parsed header gives its 24 bytes |
| Protocol.HeaderLayout | virtinjectd/protocol.go:130-139 | program, version, procedure, type, serial and status in this order, four bytes each |
| Protocol.MarshalHeaderBuffer | virtinjectd/protocol.go:130-139 | six words put into a buffer make the marshalled header |
| Protocol.DefineCallBytes | virtinjectd/protocol.go:209-214 | a define call is told by sixteen fixed bytes on the wire, in both directions |
| Protocol.ReadInTwoParts | virtinjectd/protocol.go:149-182 | when the length is legal and enough bytes are there, the message is what reading the length word and then the announced bytes yields |
| Protocol.ReadByLength | virtinjectd/protocol.go:149-182 | in numbers: each error and success by the number of bytes and the length word, legal from 28 to 33554436 |
| Protocol.ReadIff | virtinjectd/protocol.go:149-204 | a message is read in front of a rest if and only if the bytes are its frame and the rest |
| Protocol.MessageBuffer | virtinjectd/protocol.go:188-196 | the buffer built in place is the serialized message, wrap-around and panic included |
| Protocol.SerializeIsWire | virtinjectd/protocol.go:188-196 | without wrap-around the message is length word, header and payload |
| Protocol.SerializeByLength | virtinjectd/protocol.go:188-196 | lengths wrap from 4294967268 payload bytes on, and writing panics exactly when the wrapped length is below 28 |
| Protocol.ReadBackIff | virtinjectd/protocol.go:149-204 | a written message is read back, following bytes untouched, if and only if its payload is at most 33554408 bytes |
| Protocol.WireRead | virtinjectd/protocol.go:149-204 | a message that was read is written back as the same bytes |
| Protocol.FramesRebuild | virtinjectd/protocol.go:149-182 | the messages read and the leftover rebuild the stream, and the leftover begins with no message |
| Protocol.FramesOfWire | virtinjectd/protocol.go:149-204 | any sequence of readable messages is read back in front of any bytes |
| Protocol.FramesStopAtOversized | virtinjectd/protocol.go:158-164 | an oversized message (its length still fitting 32 bits) ends the reading: nothing behind it is seen |
| Protocol.LegalStreamIff | virtinjectd/protocol.go:155-164 | a stream is read to its end exactly when its length words cut it into whole legal frames |
| Protocol.LegalFrameIff | virtinjectd/protocol.go:155-164 | a frame whose length word is its size is legal from 28 to 33554436 bytes |
| Protocol.FramesAppend | virtinjectd/protocol.go:149-182 | whole frames followed by anything are read as the frames and then the rest |
| Protocol.ReadMonotone | virtinjectd/protocol.go:149-182 | bytes that arrive later do not change a message already read |
| Protocol.FramesAreLongestLegalPrefix | virtinjectd/protocol.go:149-182 | no prefix of whole legal frames is longer than what is read |
| Forwarding.ForwardedAppend | virtinjectd/proxy.go:129-141 | when every frame of the first part is forwarded and nothing is left over, forwarding two parts in turn is forwarding them at once |
| Forwarding.ForwardedMonotone | virtinjectd/proxy.go:129-141 | more input extends the output and never changes it |
| Forwarding.ForwardedIsMap | virtinjectd/proxy.go:129-141 | unless a length wraps around, the output is the frames of the processed messages, as many and in the same order |
| Forwarding.ForwardedReadBack | virtinjectd/proxy.go:129-141 | if the processed messages are readable, a reader behind the loop sees exactly them and nothing is left over |
| Forwarding.PassthroughWritesLongestLegalPrefix | virtinjectd/proxy.go:111-141 | the server-to-client pump writes the longest prefix of its input made of complete legal frames |
| Forwarding.ForwardedSplitsAtFrames | virtinjectd/proxy.go:129-141 | unless a length wraps around, splitting the input between frames splits the output |
| Forwarding.ForwardedTwiceIff | virtinjectd/proxy.go:129-141 | unless a length wraps around, two loops in series with an idempotent processor equal one if and only if every written message is readable |
| Forwarding.FramesMonotone | virtinjectd/protocol.go:149-182 | reading less of a stream gives a beginning of the messages |
| Forwarding.DownstreamReadsProcessed | virtinjectd/proxy.go:129-141 | unless a length wraps around, a reader behind the loop sees at any moment a beginning of the processed messages |
| Xdr.Pad | virtinjectd/xdr.go:23-29 | fewer than four bytes, up to a multiple of four |
| Xdr.DecodeIff | virtinjectd/xdr.go:43-63 | a text and a number of consumed bytes result if and only if length word and text are there, within the limit, with room for padding of any value, and the number is theirs |
| Xdr.DecodeEncode | virtinjectd/xdr.go:43-76 | decoding an encoding in front of any bytes gives the text and consumes exactly the encoding |
| Xdr.DecodeRejectsLong | virtinjectd/xdr.go:49-52 | longer texts whose length fits 32 bits are rejected |
| Xdr.RoundTripIff | virtinjectd/xdr.go:43-76 | the round trip holds if and only if the text has at most 4194304 bytes, also beyond 32 bits |
| Xdr.EncodeIsPrefixFree | virtinjectd/xdr.go:68-76 | no encoding of a text below 4 GiB is a proper prefix of another |
| Xdr.ReplaceThenDecode | virtinjectd/xdr.go:84-101 | after a replacement by a text within the limit the new text is decoded and the tail is the same |
| Xdr.ReplaceTwice | virtinjectd/xdr.go:84-101 | of two replacements, the first within the limit, the last one wins |
| Xdr.ReplaceWithDecodedIff | virtinjectd/xdr.go:54-101 | replacing the text by itself restores the payload if and only if its padding was zero |
| Xdr.NonZeroPaddingIsLost | virtinjectd/xdr.go:54-101 | a payload of eight bytes that replacing its text by itself does change |
| Xdr.ReplaceKeepsAlignment | virtinjectd/xdr.go:84-101 | payload length modulo four never changes |
| Xdr.EncodeBuffer | virtinjectd/xdr.go:68-76 | the buffer filled in place is the encoding |
| Xdr.ReplaceBuffer | virtinjectd/xdr.go:84-101 | the copies make the replaced payload; a decoding error leaves the payload |
| Sorting.LeqSharedPrefix | virtinjectd/hook.go:274-276 | full paths under one directory compare as their file names |
| Sorting.LeqIff | virtinjectd/hook.go:276 | the order by position: a beginning comes first, otherwise the first different byte decides, the smaller one first |
| Sorting.SortCorrect | virtinjectd/hook.go:276 | ascending in that order and a permutation |
| Sorting.SortUnique | virtinjectd/hook.go:276 | any ascending permutation is the same list, so the algorithm does not matter |
| Sorting.SortPrefixed | virtinjectd/hook.go:274-276 | sorting full paths is sorting file names |
| Hooks.FoldAppend | virtinjectd/hook.go:145-158 | hook lists compose: running a list is running its parts one after the other |
| Hooks.IdleHookCanBeDeleted | virtinjectd/hook.go:148-156 | a hook that fails or prints blanks on the XML it is given can be deleted wherever it stands in the list |
| Hooks.OnlyActiveHooksMatter | virtinjectd/hook.go:148-156 | deleting all such hooks leaves the same result, and no such hook |
| Hooks.FoldNeverBlanks | virtinjectd/hook.go:219-231 | non-blank XML is non-blank at every stage |
| Hooks.SpaceWidthIff | virtinjectd/hook.go:221 | white space at the front is the UTF-8 encoding of one of the code points of unicode.IsSpace |
| Hooks.BlankAscii | virtinjectd/hook.go:221 | an ASCII text is blank if and only if its bytes are 9 to 13 or 32 |
| Hooks.ListHookDir | virtinjectd/hook.go:240-279 | every full path as often as listed entries of that name are no directory, can be examined, are regular and executable, in ascending order; an error only if the directory cannot be read |
| Hooks.SortedListingNeedsNoSort | virtinjectd/hook.go:241-276 | eligible names that come in order are not changed by the sort |
| Hooks.SingleHookChain | virtinjectd/hook.go:126-130 | without a directory the chain is its single hook |
| Hooks.Run | virtinjectd/hook.go:122-159 | the single hook is started first, on the input, and then the executable regular files of the directory in alphabetical order; each gets what the one before it left, its output unless it failed or that was blank; a listing error returns the input with no hook started |
| Hooks.RunHooks | virtinjectd/hook.go:145-158 | the loop computes the fold, starts every hook once, in order, and hands the XML on |
| Proxy.InterceptRefines | virtinjectd/proxy.go:77-96 | header kept; other calls and undecodable or failed ones byte-identical; define calls carry the hooks' XML in front of the same tail |
| Proxy.ClientPathRefinesFrameMap | virtinjectd/proxy.go:77-141 | if the processed messages are readable, libvirtd reads as many messages as the client sent, in order, each refining its original |
| Proxy.PatchedReadableIff | virtinjectd/proxy.go:186-192 | a define call whose XML changed is readable if and only if header, new XML and tail fit 32 MiB |
| Proxy.InterceptIdempotent | virtinjectd/proxy.go:158-193 | with an idempotent chain and XML below 4 GiB, patching is idempotent byte for byte on every payload |
| Proxy.ProxiesInSeriesIff | virtinjectd/proxy.go:77-193 | with such a chain, and unless a length wraps around, two proxies in series are one, on any stream, if and only if every patched message is readable |
| Proxy.HugeAnswerIsUnreadable | virtinjectd/proxy.go:186-192 | hooks that answer with 32 MiB turn a readable call into an unreadable one, and behind a second proxy nothing arrives |
| Proxy.UnchangedXmlIsTransparent | virtinjectd/proxy.go:174-178 | hooks that answer with their input make the client path as transparent as the server path |
| Channel.Conn.ReadSome | virtinjectd/protocol.go:152-152 | one read takes a non-empty beginning of the unread bytes, however they are cut |
| Channel.Conn.ReadFull | virtinjectd/protocol.go:152-168 | exactly the first n unread bytes, or all of them at the end of the stream |
| Channel.Conn.ReadMessage | virtinjectd/protocol.go:149-182 | the first message of the unread bytes, independent of chunks; the rest stays unread |
| Channel.Conn.Write | virtinjectd/protocol.go:200-202 | everything, or what there is room for and an error |
| Channel.Conn.WriteMessage | virtinjectd/protocol.go:188-204 | the serialized message is appended; a failed write leaves its beginning, a panic nothing |
| Channel.Forward | virtinjectd/proxy.go:129-141 | the bytes written are the forwarded stream, cut where the destination fails, for every chunking |
| Channel.ForwardIgnoresChunking | virtinjectd/proxy.go:129-141 | the same bytes cut in two ways leave the same output |
| Session.NeedReadsOn | virtinjectd/protocol.go:152-170 | while bytes are missing there is no message, and a complete one has nothing behind it |
| Session.OnlyItsPumpMoves | virtinjectd/proxy.go:97-124 | each connection has one writer and one reader: no other step touches them |
| Session.InvStep | virtinjectd/proxy.go:97-141 | every step keeps output tied to input, closing order, counter and handler |
| Session.InvRun | virtinjectd/proxy.go:97-141 | so does every run |
| Session.DeliveryIsFaithful | virtinjectd/proxy.go:97-141 | in every reachable state libvirtd has received a prefix of the forwarded client bytes, and the client a prefix of the server's bytes |
| Session.WaitingPumpIsUpToDate | virtinjectd/proxy.go:129-141 | a pump that waits has written everything the bytes sent so far amount to |
| Session.RefusalStopsExactly | virtinjectd/protocol.go:157-204 | a pump that leaves because of what it read, an illegal length or a message whose serialization panics, has written all that the whole stream amounts to |
| Session.WaitGroupCounts | virtinjectd/proxy.go:70-127 | the counter is the number of unfinished pumps; below two both connections are closed; at return both pumps are done |
| Teardown.MustMoveCan | virtinjectd/proxy.go:105-126 | a pump that is leaving, or any pump once both connections are closed, can step; so can the handler at zero |
| Teardown.OwnStepDescends | virtinjectd/proxy.go:105-126 | and its step brings it nearer to its end |
| Teardown.OthersDoNotDisturb | virtinjectd/proxy.go:97-126 | and nobody else can stop it |
| Teardown.ClosedConnectionEnds | virtinjectd/proxy.go:105-126 | after both closes every run has at most 13 more steps of the proxy |
| Teardown.ClosedConnectionNeverStuck | virtinjectd/proxy.go:105-126 | after both closes some part of the proxy can step until the handler has returned |
| Teardown.FailureLeadsToReturn | virtinjectd/proxy.go:55-127 | in every fair execution, once a pump has failed, handleConnection returns with both connections closed and the counter at zero |
| Progress.OpenAlways | virtinjectd/proxy.go:97-126 | in every execution both connections are open as long as both pumps copy |
| Progress.PumpMoves | virtinjectd/proxy.go:129-141 | in a fair execution a pump that is not waiting for bytes moves, if its receiver keeps receiving |
| Progress.OwnStepAdvances | virtinjectd/proxy.go:129-141 | each step of a pump ends its copying or brings it nearer to having read and written a given number of bytes |
| Delivery.LeavesComplete | virtinjectd/proxy.go:129-141 | a pump that stops copying undisturbed has written what all bytes sent amount to |
| Delivery.LeavesForCause | virtinjectd/proxy.go:129-141 | a pump leaves an open session only because of a reset, the end of its source, an illegal length or a message that cannot be written |
| Delivery.LeftForCauseAlways | virtinjectd/proxy.go:97-141 | in every execution, if the other pump has left while this one copies, the peers have caused it in one of these ways |
| Delivery.EverythingArrives | virtinjectd/proxy.go:97-141 | in every fair execution whose receiver keeps receiving, all that the bytes sent amount to is delivered, also when the session ends afterwards; the one exception is a pump that had not written all of it yet when a reset happened or the receiving side ended its own stream or sent what cannot be forwarded |
| Delivery.EveryMessageArrives | virtinjectd/proxy.go:97-141 | if the peers do none of this while the pump copies, whatever they do afterwards, the first n messages sent are eventually the first that the other side reads, processed, in order, as long as these n are readable |
| Delivery.EndDeliversAndReturns | virtinjectd/proxy.go:55-141 | then, when the sending side ends its stream, what is delivered is exactly what all its bytes amount to, and the handler returns |
| Progress.EndLeadsToReturn | virtinjectd/proxy.go:55-127 | in every fair execution an end of stream on either side, with the other side receiving, leads to the return of handleConnection |
| Scenarios.RequestSession | virtinjectd/proxy.go:97-141 | for every message there is a fair execution in which the client sends it and ends its stream and all premises of the delivery theorems hold |
| Scenarios.ReplyIsLost | virtinjectd/proxy.go:97-126 | and one without any reset in which the client ends its stream and never receives a byte of a message that libvirtd had sent |
| MachineType.VersionSuffixIff | scripts/libvirt-qemu-hook/dramachine.py:29-33 | a suffix is found if and only if the name ends in a dash and that version, so there is at most one and None means none |
| MachineType.NewMachineIsQ35 | scripts/libvirt-qemu-hook/dramachine.py:28-34 | the new name mentions q35, whatever the old one was |
| MachineType.ContainsIff | scripts/libvirt-qemu-hook/dramachine.py:25-26 | the q35 test: the text is found at some position |
| MachineType.IsVersionIff | scripts/libvirt-qemu-hook/dramachine.py:29 | a version is two or more groups of digits joined by dots |
| MachineType.NewMachineKeepsVersion | scripts/libvirt-qemu-hook/dramachine.py:28-34 | it has the version suffix of the old name, or none |
| MachineType.VersionedRename | scripts/libvirt-qemu-hook/dramachine.py:13-34 | pc-i440fx with any version becomes pc-q35 with that version |
| MachineType.AliasRename | scripts/libvirt-qemu-hook/dramachine.py:31-34 | a name without a dash becomes q35 |
| MachineType.UnversionedRename | scripts/libvirt-qemu-hook/dramachine.py:31-34 | so does every name that does not end in a dash and a version |
| MachineType.JammyRename | scripts/libvirt-qemu-hook/dramachine.py:31-34 | pc-i440fx-jammy is one |
| Edits.FixMachineCorrect | scripts/libvirt-qemu-hook/dramachine.py:13-40 | the machine edit reports exactly an unmet goal and reaches it |
| Edits.ReportsUnmetGoal | scripts/libvirt-qemu-hook/dramachine.py:13-121 | every edit reports a change if and only if its goal did not hold, and otherwise changes nothing |
| Edits.UntouchedStays | scripts/libvirt-qemu-hook/dramachine.py:42-121 | children with tags an edit does not name are all as before |
| Edits.CompatibleKeepsGoal | scripts/libvirt-qemu-hook/dramachine.py:42-121 | compatible edits do not spoil each other's goals |
| Edits.ReachesGoal | scripts/libvirt-qemu-hook/dramachine.py:13-121 | every sound edit reaches its goal on every tree |
| Edits.FlagIsExact | scripts/libvirt-qemu-hook/dramachine.py:13-121 | the change flag is true if and only if the tree changed |
| Extension.EditsOnlyExtend | scripts/libvirt-qemu-hook/dramachine.py:13-121 | an edit changes only the attributes in its scope, on the elements its own searches find, and adds only the elements they miss |
| Extension.FoundKept | scripts/libvirt-qemu-hook/dramachine.py:18-66 | a search finds the same place after an extension as before |
| Extension.ExtendsTransitive | scripts/libvirt-qemu-hook/dramachine.py:138-142 | extensions in the same scope compose |
| Dramachine.PassesAreSound | scripts/libvirt-qemu-hook/dramachine.py:13-121 | the four passes are sound, pairwise compatible and leave name elements alone |
| Dramachine.PassesReachJointGoal | scripts/libvirt-qemu-hook/dramachine.py:138-142 | in any order and number, the goals of all passes that ran hold together |
| Dramachine.PassesReachFixedPoint | scripts/libvirt-qemu-hook/dramachine.py:13-121 | running any of the same passes again, in any order, changes nothing and every one returns False |
| Dramachine.PassesOnlyExtend | scripts/libvirt-qemu-hook/dramachine.py:13-121 | any run of passes changes only five attributes of the found os/type, features/ioapic, devices/iommu and devices/iommu/driver, creates these but for os and type, and adds interfaces to devices; everything else is identical and in place |
| Dramachine.OthersStay | scripts/libvirt-qemu-hook/dramachine.py:13-121 | the same without scopes: other children of the domain, and all old children of devices but the first iommu, are identical |
| Dramachine.FlagsAreExact | scripts/libvirt-qemu-hook/dramachine.py:136-144 | changes_made is true if and only if the tree changed, if and only if some goal was unmet |
| Dramachine.PassesIgbCount | scripts/libvirt-qemu-hook/dramachine.py:93-121 | n igb interfaces in the first devices element become max(1, n) |
| Dramachine.IsIgbIff | scripts/libvirt-qemu-hook/dramachine.py:105-110 | an igb interface is one of type network whose first model has type igb |
| Dramachine.PassesInterfaces | scripts/libvirt-qemu-hook/dramachine.py:93-121 | interfaces stay in order, and a domain without an igb one gets one behind them, of type network with source sriov-net, model igb and nothing else |
| Dramachine.OsTypeIff | scripts/libvirt-qemu-hook/dramachine.py:18-20 | the type that is found is the first one of the first os element that has any |
| Dramachine.PassesMachine | scripts/libvirt-qemu-hook/dramachine.py:13-40 | a machine name that mentions q35 stays, and any other becomes its q35 name |
| Dramachine.PassesKeepName | scripts/libvirt-qemu-hook/dramachine.py:133-134 | the name test gives the same answer after any run |
| Dramachine.SelectedIff | scripts/libvirt-qemu-hook/dramachine.py:133-134 | the text of the first name begins with minikube-m |
| Dramachine.ConformsMeans | scripts/libvirt-qemu-hook/dramachine.py:13-121 | the joint goal spelled out by paths, attributes and interfaces |
| Dramachine.ConformsIff | scripts/libvirt-qemu-hook/dramachine.py:136-144 | no change is made if and only if the domain conforms, and the result always conforms |
| Dramachine.VerbatimIff | scripts/libvirt-qemu-hook/dramachine.py:123-151 | the input comes out byte for byte if and only if it is empty, or parses to a domain that is not selected or conforms |
| Dramachine.OutputConforms | scripts/libvirt-qemu-hook/dramachine.py:123-151 | a selected domain comes out conforming, selected, extended, with the same interfaces and, if none was an igb one, the SR-IOV interface behind them |
| Dramachine.FilterIsIdempotent | scripts/libvirt-qemu-hook/dramachine.py:123-151 | filtering the output of a successful filter reproduces it byte for byte |
| Dramachine.ExitCode | scripts/libvirt-qemu-hook/dramachine.py:123-158 | 1 exactly for non-empty input that does not parse, without output, and 0 otherwise |
| Example.PlainWorkerBecomes | scripts/libvirt-qemu-hook/dramachine.py:13-144 | a worker with a name and machine pc, and the whole tree it becomes |
| ElementTree.Element.FindIndex | scripts/libvirt-qemu-hook/dramachine.py:45-50 | the first child with a tag |
| ElementTree.Element.FindOrCreate | scripts/libvirt-qemu-hook/dramachine.py:45-53 | the first child with a tag, or a new one appended in place |
| ElementTree.Element.SetIfDifferent | scripts/libvirt-qemu-hook/dramachine.py:55-57 | the attribute edit, in place, with its flag |
| ElementTree.EnsureMachineType | scripts/libvirt-qemu-hook/dramachine.py:13-40 | the in-place function computes the machine edit and its flag |
| ElementTree.EnsureIoapic | scripts/libvirt-qemu-hook/dramachine.py:42-59 | the in-place function computes the ioapic edit and its flag |
| ElementTree.EnsureIommu | scripts/libvirt-qemu-hook/dramachine.py:61-91 | the in-place function computes the iommu edit and its flag |
| ElementTree.HasIgb | scripts/libvirt-qemu-hook/dramachine.py:105-110 | the loop finds an igb interface if and only if there is one |
| ElementTree.EnsureIgbInterface | scripts/libvirt-qemu-hook/dramachine.py:93-121 | the in-place function computes the igb edit and its flag |
| ElementTree.MutateDomain | scripts/libvirt-qemu-hook/dramachine.py:136-142 | the four calls compute the run of passes and changes_made |
| EndToEnd.DramachineChainIsIdempotent | virtinjectd/hook.go:171-232 | if the writer prints back, the chain that runs dramachine.py is idempotent on every text |
| EndToEnd.DefinedDomainConforms | virtinjectd/proxy.go:143-193 | if the new XML is not blank and within 4 MiB, the define call that leaves the proxy for a minikube worker carries a conforming extension of the client's domain with its interfaces and, if none was an igb one, the SR-IOV interface, still a worker, with the client's own header and tail |
| EndToEnd.SessionDeliversFrameMap | virtinjectd/proxy.go:77-141 | unless a length wraps around, over all runs libvirtd receives a prefix of the frame-by-frame image of the client's stream |
| EndToEnd.SessionDeliversMessages | virtinjectd/proxy.go:77-141 | unless a length wraps around, in every reachable state the messages in what libvirtd received are the first ones the client sent, in order, each refining its original |
| EndToEnd.ReceivedDomainsConform | virtinjectd/proxy.go:77-193 | with dramachine.py as hook, every definition of a worker among them is one of a conforming extension of the client's domain |
| EndToEnd.WorkerDefinitionArrives | virtinjectd/proxy.go:77-193 | in every fair execution that the peers do not hinder, a worker defined in the n-th message is eventually received in that place, conforming |
| PciAddress.PciAddressIff | setup/sriovvf/main.go:403-429 | the test by splitting accepts exactly the shape dddd:dd:dd.d in hex digits |
| PciAddress.PciAddressByCharacters | setup/sriovvf/main.go:403-429 | the same in characters, with the hex digits of both cases spelled out |
| Sriov.Sysfs.WriteInt | setup/sriovvf/main.go:398-401 | a write succeeds and is logged, or fails and changes nothing |
| Sriov.SetNumVFs | setup/sriovvf/main.go:271-290 | the reset is written up to its first failing write, and the error says whether resetting or configuring failed |
| Sriov.SetPFNUMANode | setup/sriovvf/main.go:345-352 | the node is written unless the write fails, and only then is there an error |
| Sriov.PlacePF | setup/sriovvf/main.go:145-151 | the PF is moved only if a node was given |
| Sriov.PinVFNUMA | setup/sriovvf/main.go:354-364 | the VFs before the first failing write are pinned; the error names that VF, and there is none if no write fails |
| Sriov.BalanceVFNUMA | setup/sriovvf/main.go:366-377 | the VFs before the first failing write are placed, each on the node whose turn it is; the error names that VF, and there is none if no write fails; distinct nodes get the same number of VFs, or earlier ones one more |
| Sriov.PlaceVFs | setup/sriovvf/main.go:153-193 | the placement is written up to its first failing write; otherwise the result is the error of the listings, if any |
| Sriov.Configure | setup/sriovvf/main.go:139-193 | strict mode writes the plan up to its first failing write; try mode each of its three parts up to the first failing write of that part |
| Sriov.PlaceDevices | setup/sriovvf/main.go:145-193 | the same for the PF and the VFs, with the error of the first failing write |
| Sriov.Run | setup/sriovvf/main.go:96-194 | strict mode writes the plan up to its first failing write; each error is returned exactly for the request, the reading or the numbered write that is at fault; try mode never errs and still does the other parts; in both modes the counts come first, a beginning of the reset, in 0..totalVFs, never jumping from a non-negative count, then the PF on the given node, then the VFs from the first on, on that node or the one whose turn it is, all of them if nothing fails |
| Sriov.TryContinuesStrict | setup/sriovvf/main.go:96-194 | what try mode writes begins with what strict mode writes under the same failures, and both are the whole plan if no write fails |
| Sriov.StrictStart | setup/sriovvf/main.go:139-143 | a strict run ends with the count's error, or goes on to exactly the remaining plan |
| Sriov.CountsAreReset | setup/sriovvf/main.go:139-193 | in both modes the count file sees a beginning of the reset and nothing else |
| Sriov.RunIsRight | setup/sriovvf/main.go:139-193 | what either mode writes, without the plan: counts, then the PF, then VFs from the first on, each on its node; everything if no attempt fails |
| Sriov.TryGoesOn | setup/sriovvf/main.go:98-108 | try mode moves the PF unless that write fails, and places all VFs unless one of theirs fails |
| Sriov.StrictErrorMeans | setup/sriovvf/main.go:139-193 | which failing attempt or reading each error stands for: a failing zero is the reset error, for example |
| Sriov.NeverJumpsIff | setup/sriovvf/main.go:273-286 | the count never jumps between non-zero values, wherever writing stops, if and only if the file held no negative number or zero is requested |
| Sriov.NegativeCountJumps | setup/sriovvf/main.go:278-286 | a negative count in the file makes it jump |
| Sriov.CountsInRange | setup/sriovvf/main.go:110-138 | every count written lies in 0..totalVFs and the last one is the request |
| Sriov.PlacedIs | setup/sriovvf/main.go:366-377 | how many of the first k VFs go to each position |
| Sriov.BalanceIsFair | setup/sriovvf/main.go:366-377 | at every moment positions differ by at most one, earlier ones ahead |
| Sriov.WritesFollowTurns | setup/sriovvf/main.go:366-377 | with distinct nodes the writes put on each node what its position is due |
| Sriov.ResolvePF | setup/sriovvf/main.go:196-231 | the requested device if its address is well formed and it validates; otherwise the usable device with the least name, and an error exactly if there is none |
| Hugepages.Remainder | setup/pkg/hugepages/provision/provision.go:53-53 | smaller than the divisor in size, with the sign of the dividend, for any divisor but zero |
| Hugepages.QuotientRemainder | setup/pkg/hugepages/provision/provision.go:53-54 | quotient and remainder rebuild the count, negative counts and divisors included |
| Hugepages.Sysfs.ProvisionOnNode | setup/pkg/hugepages/provision/provision.go:70-90 | the file of the node and normalised size gets the count; an unsupported size or a failing write changes nothing, and the result says which |
| Hugepages.Sysfs.ProvisionOnMultiNode | setup/pkg/hugepages/provision/provision.go:52-68 | for any number of zones, the shares are written node by node up to the first failing write, and exactly such a write is reported; zero zones panic, and a negative number writes to node 0 only |
| Hugepages.Sysfs.ProvisionGroup | setup/pkg/hugepages/provision/provision.go:35-44 | the same for one group and any number of zones, on one node or split over all |
| Hugepages.Sysfs.RuntimeHugepages | setup/pkg/hugepages/provision/provision.go:30-50 | the files are as after the plan up to its first failing write; the result tells a failed write, an unsupported size and the division by zero zones apart; a run without error settles every file by the last group that concerns it and, on two or more zones, conserves the pages of every size |
| Hugepages.SpreadSets | setup/pkg/hugepages/provision/provision.go:52-68 | a split sets every node of its size and no other file |
| Hugepages.LastGroupWins | setup/pkg/hugepages/provision/provision.go:34-48 | with supported sizes and unless there is a single zone, each node written to ends with its share of the last group of the size; other sizes and nodes are untouched |
| Hugepages.PagesAreConserved | setup/pkg/hugepages/provision/provision.go:52-68 | the nodes together hold exactly that group's count; nodes 1 and up are equal and node 0 has the remainder more |
| Hugepages.NegativeZonesConserveIff | setup/pkg/hugepages/provision/provision.go:52-68 | a negative number of zones conserves the pages if and only if the count is smaller in size than that number |
| Hugepages.NegativeZonesLosePages | setup/pkg/hugepages/provision/provision.go:52-68 | five pages on minus two zones: node 0 is told to hold minus one |
| Hugepages.SingleZoneLastGroupWins | setup/pkg/hugepages/provision/provision.go:37-40 | on one zone the last group for a node and size decides the file |
| Hugepages.SingleGroup | setup/pkg/hugepages/provision/provision.go:37-40 | one group on one zone sets the file of its node, and of node 0 if it names none |
| Hugepages.NormalSizeIff | setup/pkg/hugepages/provision/api/v0/validation_amd64.go:25-34 | three spellings each of 1G and 2M, and no other size |
| Hugepages.CompleteRun | setup/pkg/hugepages/provision/provision.go:30-50 | a plan written without failure settles every file and conserves the pages |

## Left out

- Real sockets, dialing the upstream, the accept loop, signals and flags: only connections that exist are modelled.
- Logging, including `isConnectionClosed`, which only decides what is logged.
- Starting hook processes, their arguments, stderr and the three-second timer: a hook is a function from path and XML to failure or output.
- Hooks or a hook directory that change while a session runs: one session uses one processor throughout.
- XML parsing and printing, and exceptions of the writer: trees are given, and the one assumption about printing is explicit.
- Unicode digits and trailing newlines in the machine-type pattern: version digits are the ten ASCII ones and a name ends where it ends.
- The `argv` test of dramachine.py's `main`: the proxy always passes the values that let it run.
- Validating a PF device, reading VF links and NUMA nodes: their results are inputs of `Sriov.Run` and `Sriov.ResolvePF`.
- `os.WriteFile` truncating an ordinary file before a failed write: files in sysfs are not truncated.
- Huge page sizes on architectures other than amd64, where every size is refused.
- Path building, YAML, containerd configuration, drivers, validation programs and manifests: plumbing, or easy members only.
- Proxy.InterceptIdempotent: assumes texts shorter than 4 GiB, because beyond that the length word no longer tells the length.
- Proxy.ProxiesInSeriesIff: assumes texts shorter than 4 GiB and written messages that fit the 32-bit length word.
- Forwarding.ForwardedIsMap: assumes processed messages that fit the 32-bit length word; Protocol.MessageBuffer says what happens to others.
- Forwarding.ForwardedSplitsAtFrames: assumes the same.
- Forwarding.ForwardedTwiceIff: assumes the same.
- Forwarding.DownstreamReadsProcessed: assumes the same.
- EndToEnd.SessionDeliversFrameMap: assumes the same; Session.DeliveryIsFaithful does not.
- EndToEnd.SessionDeliversMessages: assumes the same.
- Delivery.EveryMessageArrives: assumes the same.
- EndToEnd.WorkerDefinitionArrives: assumes the same, and of the XML what EndToEnd.DefinedDomainConforms assumes.
- EndToEnd.ReceivedDomainsConform: assumes the same, and of the XML what EndToEnd.DefinedDomainConforms assumes.
- Teardown.FailureLeadsToReturn: a pump that panics leaves here like one that fails, while in Go the panic ends the process.
- Xdr.EncodeIsPrefixFree: assumes texts shorter than 4 GiB.
- EndToEnd.DefinedDomainConforms: assumes that the printed XML is not blank and has at most 4 MiB, the limit of the XDR decoder.
- Sriov.ResolvePF: does not tell the different errors apart.
- Channel.Forward: says what is written, not how much of an unusable rest was read from the source.
