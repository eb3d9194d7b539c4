# A verified model of the Open Datapath netlink library

The library lets a Go program talk to the Open vSwitch datapath of a Linux
kernel over generic netlink. This project models its four difficult parts in
Dafny and proves what they are for.

- **The attribute codec** (`Bytes`, `Attributes`, `Builder`, `Messages`,
  `Parser`). The builder appends attributes to a buffer that moves when it
  grows, and fills in their lengths afterwards. The parser is a cursor. The
  main results: parsing recovers every level of a forest of attributes if and
  only if every length fitted into 16 bits (`Attributes.RoundTrip`); a list cut
  anywhere yields the attributes that lie wholly before the cut, and no error
  exactly at the ends of attributes and in their padding (`Attributes.CutList`);
  the builder's methods append exactly the encoding that those lemmas speak of,
  with bounded slack and copying; messages put one behind the other are taken
  apart again (`Messages.SplitJoined`, `RequestHeaders`, `RequestAttrs`).
- **Flows** (`Tunnels`, `FlowKeys`, `FlowKeyCodec`, `FlowMatching`,
  `FlowEquality`, `MissMatching`, `ParserTable`, `FlowSpecs`, `FlowSpecCodec`,
  `ActionWire`, `FlowSpecBuilder`, `InPortMasks`, `ParsingAgain`,
  `FlowParsing`, `FlowMessages`). A flow that is serialised, framed, unframed and parsed is
  equal to the original, in both directions, if and only if it has an ethernet
  key and its keys and actions are canonical (`FlowSpecCodec.FlowRoundTrip`,
  `FlowMessages.ThroughMessage`); without an ethernet key it gains exactly the
  default one. `Equals` on blob-shaped keys says that the same packets are
  selected (`FlowMatching.EqualsIffSamePackets`); with keys of all kinds it is
  an equivalence relation on the regular sets, and every other set breaks a law
  together with regular ones (`FlowEquality.EqualsLawfulIff`). Serialising a
  second time puts the same keys and masks on the wire if and only if the
  in-port mask was all ones or all zero (`FlowSpecCodec.SecondSerialisation`).
  Parsing works on slices of the message's buffer and overwrites the in-port
  mask in it; that is all it writes, the masks it shares between calls stay as
  they are, and the message parses to the same flows again
  (`FlowParsing.ParseFlowKeys`, `ParseTwice`, `ParseFlowSpec`,
  `ParsingAgain.MessageAgain`).
- **The receive loops** (`Receive`, `Dumps`, `Consuming`, `Requests`). The
  loops thread the variables that their callbacks assign. What a dump delivers
  and how it ends is given in closed form and does not depend on how the replies
  are split into datagrams (`Dumps.DumpExact`, `RequestMulti`,
  `SplitIndependent`); over any run of fewer than 2^32 requests no leftover
  reply is taken for a later one's, and with one request more there is a run in
  which one is (`Requests.StaleNeverDelivered`, `WrappedNumberCollides`); the
  log of the calls that `consume` makes satisfies a specification that only one
  log satisfies (`Consuming.Consume`, `LogUnique`).
- **The upcall port protocol** (`UpcallPorts`, `UpcallRun`, `UpcallConsumer`,
  `MissSockets`). For every interleaving of the kernel, the enumerating thread
  and the event thread, once the event queue is drained and the enumeration has
  finished every existing vport has our upcall port
  (`UpcallPorts.QuiescentMeansSet`), and the SET/NEW feedback loop ends
  (`LoopEnds`). Whatever fails no socket is leaked, and whatever the order and
  number of cancellations nobody else's descriptor is closed, although the
  system reuses their numbers (`MissSockets.ConsumeMisses`, `ConsumeAndCancel`).

## Conventions

- The code reads and writes integers through pointer casts, so every function
  that touches one takes the host's byte order as a parameter `h`. All results
  hold for both.
- `Outcome` is a Go result: a value, an error, or a panic. Error texts are not
  modelled. `nil` slices are `None`.
- The range over a Go map visits it in any order: functions take the order as a
  parameter, methods pick, and the results hold for all orders. `parseSetAction`
  returns an arbitrary attribute of several, so its results are a relation
  (`FlowSpecs.SetResult`).
- The generator closures that `PutAttr` calls are given by the tree of
  attributes that they put. The callbacks of the receive loops are functions from
  the variables they close over to those variables and a verdict, which the loops
  thread; a consumer's decision is any function of the calls made to it before.
- `Pending` is a receive loop that waits for another datagram. A message whose
  length does not cover its header, or an error message without an error code,
  makes the library read beyond the message; the model ends such a run with
  `Overran` and says nothing about what the read yields.

## Where the code and its description part

The model follows the code.

- A tunnel destination address of the wrong length counts as absent, because
  the error is overwritten (`Tunnels.WrongSizes`, `ShortDestination`).
- `TunnelFlowKey.Ignored` overlooks the DF flag, so a key that matches on DF
  alone is not sent (`FlowKeyCodec.TunnelIgnoredIff`).
- `UnknownFlowKey.Equals` is not symmetric
  (`FlowKeyCodec.UnknownEqualsSymmetry`), and `FlowKeys.Equals` is not
  transitive: two tunnel keys that are ignored although there is something in
  them both equal an absent key and not each other
  (`FlowEquality.IrregularBreaks`).
- The default ethernet key is described as completely wildcarded but has an
  all-ones mask (`FlowSpecCodec.DefaultEthernetAdded`).
- A `SetUnknownAction` is written without the SET around it and never comes
  back (`FlowSpecCodec.UnknownActionLost`).
- `Request` gives up at a stale message where `RequestMulti` skips it
  (`Dumps.RequestExact`).
- In-port masks other than all ones and all zeros are sent once and then lost
  (`FlowKeyCodec.InPortLost`).

## Model

| member | source | states |
|---|---|---|
| `Bytes.U16RoundTrip` | odp/unsafe.go:31-33 | a 16-bit store at any position of any buffer is read back, on either byte order |
| `Bytes.BytesOf` | odp/unsafe.go:75-78 | a 16-bit store puts the two bytes in the host's order, and the conversion reads them most significant first |
| `Bytes.U32RoundTrip` | odp/unsafe.go:35-37 | the same for 32 bits |
| `Bytes.U32Layout` | odp/unsafe.go:35-37 | a 32-bit store puts the four base-256 digits of the number in the host's order |
| `Bytes.U32Worth` | odp/unsafe.go:35-37 | a 32-bit load is worth what its four bytes are worth in that order |
| `Bytes.PortRoundTrip` | odp/unsafe.go:75-82 | after `uint16ToBE` a port lies in memory most significant byte first on either host, and the conversion undoes itself |
| `Attributes.EncodeAppend` | odp/netlink.go:147-153 | putting two lists one after the other appends the first's encoding and then the second's at its new position |
| `Attributes.EncodeShift` | odp/netlink.go:125-133 | the encoding depends on the buffer position only through its alignment, so buffer-relative and value-relative padding agree |
| `Attributes.FitsInside` | odp/netlink.go:147-165 | if a nested attribute's length fits 16 bits then so do its children's |
| `Attributes.HeaderAt` | odp/netlink.go:147-153 | the header at the aligned position holds the type and the length that spans exactly header and value, modulo 2^16 |
| `Attributes.ParseEncoded` | odp/netlink.go:469-493 | inside any buffer, a stretch of encoded attributes is handed out one for one, after which parsing carries on behind it |
| `Attributes.ParseNestedValue` | odp/netlink.go:503-506 | the value of a nested attribute, trailing padding included, parses to exactly its children |
| `Attributes.FittingRecovers` | odp/netlink.go:525-538 | a forest that fits is recovered at every depth of nesting |
| `Attributes.RecoveredSpan` | odp/netlink.go:469-493 | data from which a forest can be recovered is at least as long as the forest's encoding |
| `Attributes.OverlongLost` | odp/netlink.go:152 | if parsing an encoding recovers the forest then no length was cut by the narrowing to 16 bits |
| `Attributes.RoundTrip` | odp/netlink.go:147-208 | after any prefix, building and parsing recovers every level of any forest if and only if every length fits 16 bits |
| `Attributes.CutInside` | odp/netlink.go:461-467 | a cut inside an attribute is reported as truncation, with nothing more handed out |
| `Attributes.CutList` | odp/netlink.go:461-493 | a list cut at any byte hands out exactly the attributes wholly before the cut, never panics, and succeeds if and only if the cut is at an attribute's end or in the padding after it |
| `Attributes.ToMapAppend` | odp/netlink.go:495-501 | taking attributes by type from two lists is one map overriding the other: the later attribute of a type wins |
| `Attributes.ParseNestedMap` | odp/netlink.go:503-515 | a nested attribute's value parses to the map of its children |
| `Builder.MakeAlignedByteSliceCap` | odp/unsafe.go:14-25 | the slice starts at an aligned address, is zero, lies in its allocation and has the capacity asked for and less than 8 bytes more |
| `Builder.ExpandedCap` | odp/netlink.go:97-101 | the growth loop ends with the first in the sequence of grown sizes that suffices, which is at most half as much again as the length asked for and at least half as much again as the size before |
| `Builder.NlMsgBuilder.constructor` | odp/netlink.go:87-94 | a new builder holds a header with type and flags and zeros elsewhere |
| `Builder.NlMsgBuilder.Expand` | odp/netlink.go:97-105 | reallocation keeps the contents and exposes only zeros behind them |
| `Builder.NlMsgBuilder.Extend` | odp/netlink.go:107-133 | extending appends zeros and keeps the capacity within 3/2 of the length plus 7 and all copying so far within twice the capacity |
| `Builder.NlMsgBuilder.Align` | odp/netlink.go:107-113 | appends zero padding up to the alignment |
| `Builder.NlMsgBuilder.Grow` | odp/netlink.go:115-123 | appends zeros and returns where they start |
| `Builder.NlMsgBuilder.AlignGrow` | odp/netlink.go:125-133 | appends zero padding and then zeros, and returns where the latter start |
| `Builder.NlMsgBuilder.PutBytes` | odp/netlink.go:203-208 | appends the bytes |
| `Builder.NlMsgBuilder.PutAttr` | odp/netlink.go:147-165 | earlier bytes stay as they are across reallocations in nested generators, and exactly the attribute's encoding is appended, with the length patched in afterwards |
| `Builder.NlMsgBuilder.PutValue` | odp/netlink.go:155-165 | trailing padding is part of a nested attribute's value and not of a leaf's |
| `Builder.NlMsgBuilder.PutForest` | odp/netlink.go:147-153 | a sequence of puts appends the encoding of the list |
| `Builder.NlMsgBuilder.PutGenlMsghdr` | odp/genetlink.go:13-19 | appends the aligned generic netlink header |
| `Builder.NlMsgBuilder.PutOvsHeader` | odp/dpif.go:134-138 | appends the aligned OVS header |
| `Builder.NlMsgBuilder.Finish` | odp/netlink.go:137-145 | the result is the contents with total length and next sequence number filled in, digit by digit in the host's order, and all else unchanged; the builder is emptied |
| `Builder.NestedValue` | odp/netlink.go:155-165 | padding counted from the message's start equals padding counted from the value's start |
| `Builder.StartRequest` | odp/flow.go:1289-1291 | a new builder with the three headers in place |
| `Builder.FinishedRequest` | odp/netlink.go:137-145 | filling in length and number behind those headers and any attributes makes exactly the request, all else unchanged |
| `Builder.RequestLayout` | odp/netlink.go:137-145 | byte by byte, where length, type, flags, number, port, command, version, datapath and attributes of a request are |
| `Builder.BuildRequest` | odp/flow.go:1286-1298 | the calls every OVS request makes yield a message with the three headers, its own length, the next sequence number and the encoded attributes |
| `Messages.NextFinished` | odp/netlink.go:244-263 | a finished message anywhere in a datagram is framed exactly |
| `Messages.SplitJoined` | odp/netlink.go:230-263 | finished messages, padded and concatenated, come out one by one, unchanged and in order, and then none, however much of the last padding is there |
| `Messages.RequestHeaders` | odp/dpif.go:153-184 | a built request is framed as one message, and the header checks accept it exactly when they accept its command, yielding command, datapath and the attributes' position |
| `Messages.RequestAttrs` | odp/netlink.go:495-501 | parsing the attributes of a built request behind its headers recovers what was put in, at every level |
| `Parser.NlMsgParser.Advance` | odp/netlink.go:221-228 | advances if and only if enough data is left |
| `Parser.NlMsgParser.AlignAdvance` | odp/netlink.go:230-238 | returns the aligned position if enough data follows; the cursor stays aligned either way |
| `Parser.NlMsgParser.NextNlMsg` | odp/netlink.go:244-263 | nothing, an error, or a parser of just the next message, with the cursor moved to the aligned end |
| `Parser.NlMsgParser.ExpectNlMsghdr` | odp/netlink.go:313-325 | succeeds exactly on a complete header of the wanted type, and panics at the end of the data |
| `Parser.NlMsgParser.CheckGenlMsghdr` | odp/genetlink.go:21-43 | accepts exactly the wanted command, the fallback, or any if none is wanted |
| `Parser.NlMsgParser.TakeOvsHeader` | odp/dpif.go:140-147 | yields the datapath index if the header is there |
| `Parser.NlMsgParser.CheckNlMsgHeaders` | odp/dpif.go:153-184 | the three header checks in turn refine `CheckHeaders` |
| `Parser.NlMsgParser.ParseAttrs` | odp/netlink.go:469-493 | the loop hands out exactly the attributes, ends in the status and leaves the cursor where the specification says |
| `Parser.NlMsgParser.TakeAttrs` | odp/netlink.go:495-501 | the map of the attributes handed out, where later ones displace earlier ones |
| `Tunnels.GetFixed` | odp/netlink.go:338-372 | an attribute is absent, of the wanted size, or an error |
| `Tunnels.ForestHolds` | odp/flow.go:595-633 | exactly the attributes that the presence calls for arrive, with their own values |
| `Tunnels.PortRead` | odp/flow.go:679-689 | a port that was byte-swapped into an attribute is read as itself |
| `Tunnels.TunnelReadBack` | odp/flow.go:644-692 | reading written tunnel attributes gives the present fields, zeros elsewhere, and the presence, where a clear flag looks absent |
| `Tunnels.TunnelRoundTrip` | odp/flow.go:595-692 | the same from the bytes of the nested attribute |
| `Tunnels.MaskShown` | odp/flow.go:539-554 | a mask written with its own presence is read back unchanged |
| `Tunnels.ForestOnWire` | odp/flow.go:595-633 | by attribute number: each field is there if it is present, flags only if set as well, ports most significant byte first, and nothing else |
| `Tunnels.WrongSizes` | odp/flow.go:644-692 | parsing never panics, fails if and only if one of the other eight attributes has the wrong size, and reports the destination address if and only if it has 4 bytes; so a wrong size is reported exactly when the destination address is not the only one |
| `Tunnels.ShortDestination` | odp/flow.go:655-660 | a destination address of 3 bytes alone parses as no tunnel attributes at all |
| `FlowKeys.KindOf` | odp/flow.go:877-907 | which types are tunnel, ethernet and in-port keys, and that blob keys are not empty |
| `ParserTable.MissByType` | odp/flow.go:877-907 | by type number, with the sizes of the kernel's structures: without masks a blob type parses if and only if it has its size, to an exact key of the right kind, and every type outside the table is kept as an exact unknown key |
| `ParserTable.MaskedByType` | odp/flow.go:877-907 | with masks, key and mask must both have that size; a mask may stand alone only if it asks for nothing |
| `ParserTable.TunnelByMasks` | odp/flow.go:847-875 | a tunnel key with no masks at all, with its mask left out, with its mask, and a mask without a key |
| `ParserTable.UnknownByMasks` | odp/flow.go:177-179 | the same for a type outside the table, and which of the results are ignored |
| `ParserTable.TunnelDataOutcome` | odp/flow.go:635-642 | tunnel data parses if and only if it is complete and sized, and panics if and only if an attribute's length is below 4 |
| `ParserTable.WhenKeyPanics` | odp/flow.go:114-167 | parsing a type panics exactly for such tunnel data; every other failure is an error |
| `FlowKeyCodec.KeyForestLookup` | odp/flow.go:63-68 | in any visiting order, the attribute of a type is that type's key unless it is ignored |
| `FlowKeyCodec.MaskForestLookup` | odp/flow.go:76-83 | the same for masks |
| `FlowKeyCodec.SentKeys` | odp/flow.go:55-73 | the key attributes that arrive are those of the keys that are not ignored and of the default ethernet key if there was none |
| `FlowKeyCodec.SentMasks` | odp/flow.go:75-91 | the same for masks |
| `FlowKeyCodec.KeyReadBack` | odp/flow.go:332-408 | the attributes of one key are parsed to its normal form |
| `FlowKeyCodec.KeysReadBack` | odp/flow.go:114-167 | parsing what was serialised succeeds on every type and gives the normal form of the keys that were sent |
| `FlowKeyCodec.ShownIffCanonical` | odp/flow.go:595-692 | a tunnel's fields survive if and only if those that are not present are zero |
| `FlowKeyCodec.NormalEquals` | odp/flow.go:304-330 | a sent key equals what it is read back as, in either direction, if and only if it is canonical |
| `FlowKeyCodec.KeysEqual` | odp/flow.go:31-53 | the set read back equals the original, in either direction, if and only if it had an ethernet key and every sent key is canonical |
| `FlowKeyCodec.NormalisationStable` | odp/flow.go:55-91 | serialising the parsed keys puts the same key and mask attributes on the wire, canonical or not, if in-port masks are all ones or all zero |
| `FlowKeyCodec.InPortLost` | odp/flow.go:397-408 | with any other in-port mask the in-port key is sent the first time and not the second |
| `FlowKeyCodec.TunnelIgnoredIff` | odp/flow.go:836-845 | a tunnel key is ignored if and only if its mask is zero apart from DF |
| `FlowKeyCodec.UnknownEqualsSymmetry` | odp/flow.go:220-238 | exactly when `Equals` on unknown keys is symmetric, and that an ignored key equals an exact one but not conversely |
| `FlowKeyCodec.TunnelSent` | odp/flow.go:815-826 | by attribute number: key and mask always have the destination address and the TTL, and any other field if and only if its mask is not zero |
| `FlowKeyCodec.DefaultEthernetSent` | odp/flow.go:55-61 | a flow without an ethernet key is sent with one of twelve zero bytes under a mask of twelve bytes 0xff |
| `FlowMatching.SameBytes` | odp/flow.go:321-327 | masked bytes that accept the same values have the same mask and agree under it |
| `FlowMatching.KeyEqualsIffSame` | odp/flow.go:304-330 | blob keys of one type are equal if and only if they accept the same values |
| `FlowMatching.AcceptsAllIffZero` | odp/flow.go:284-286 | a blob key accepts every value if and only if its mask is zero |
| `FlowMatching.EqualsIffSamePackets` | odp/flow.go:31-53 | sets of blob-shaped keys are equal if and only if they agree on having an ethernet key and select the same packets, absent and zero-mask keys mixed |
| `FlowMatching.EqualsEquivalence` | odp/flow.go:31-53 | so `Equals` is reflexive, symmetric and transitive there |
| `FlowMatching.ParsedMeaning` | odp/flow.go:117-163 | a blob type parses exactly when key and mask have the table's size, and accepts exactly the values that agree under the mask: only the key itself without masks, everything where the mask is left out |
| `MissMatching.PresenceMask` | odp/flow.go:557-593 | under the mask of a presence, tunnels agree if and only if they have the same values in the fields that are present |
| `MissMatching.MissMatchesItself` | odp/packet.go:134-144 | the keys of a missed packet, of all kinds, parsed without masks, select a packet if and only if it has those very fields |
| `MissMatching.AllOnesIsExact` | odp/flow.go:169-175 | an unknown key under a mask of all ones matches as an exact one does |
| `FlowEquality.EqualsBySlots` | odp/flow.go:31-53 | `Equals` compares the sets type by type, an absent key counting like an ignored one |
| `FlowEquality.RegularLawful` | odp/flow.go:31-53 | on regular sets, with keys of all kinds, `Equals` is reflexive, symmetric and transitive |
| `FlowEquality.IrregularBreaks` | odp/flow.go:828-845 | any other set breaks symmetry or transitivity together with two regular sets, which are given |
| `FlowEquality.EqualsLawfulIff` | odp/flow.go:31-53 | a set is regular if and only if it satisfies the laws with all regular sets |
| `FlowEquality.EqualKeysAlike` | odp/flow.go:304-319 | keys of different types, kinds or sizes are never equal |
| `FlowSpecs.ParseSetAction` | odp/flow.go:1119-1160 | the result is one that the specification allows: the 4.3 layout first, then a tunnel, then any attribute |
| `FlowSpecs.ParseAction` | odp/flow.go:1170-1173 | output and set actions parse as specified and every other type is an error |
| `FlowSpecs.RefusedForGood` | odp/flow.go:1154-1156 | whether an action parses does not depend on which attribute is picked |
| `FlowSpecs.ParseActions` | odp/flow.go:1268-1280 | all actions in order, or the failure of one that cannot parse |
| `FlowSpecCodec.OutputReadBack` | odp/flow.go:944-962 | an output action is read back as itself and nothing else |
| `FlowSpecCodec.NestedSet` | odp/flow.go:1030-1038 | the nested encoding of a tunnel action is read as its normal form and nothing else |
| `FlowSpecCodec.FlattenedSet` | odp/flow.go:1125-1148 | the flattened encoding of kernel 4.3 is read as the same tunnel if the destination address is present, and not as a tunnel if it is not |
| `FlowSpecCodec.SetTunnelEquals` | odp/flow.go:1030-1046 | both encodings give the same action, which equals the original in either direction if and only if that is canonical |
| `FlowSpecCodec.UnknownActionLost` | odp/flow.go:1115-1117 | an action of unknown type is never read back as an action equal to it |
| `FlowSpecCodec.ActionReadBack` | odp/flow.go:1119-1168 | any action equals what it is read back as if and only if it is canonical |
| `FlowSpecCodec.ActionParses` | odp/flow.go:956-962 | output and tunnel actions always parse |
| `FlowSpecCodec.SpecReadBack` | odp/flow.go:1247-1284 | exactly which flows the built attributes can parse to |
| `FlowSpecCodec.SpecRoundTripEquals` | odp/flow.go:1222-1237 | every flow they can parse to equals the original, in either direction, if and only if the original is faithful |
| `FlowSpecCodec.SpecRoundTripParses` | odp/flow.go:1208-1284 | flows of output and tunnel actions always parse |
| `FlowSpecCodec.FlowRoundTrip` | odp/flow.go:1208-1284 | from the bytes, at any position of a message and in any visiting orders: an equal flow is read back if and only if there is an ethernet key and all sent keys and all actions are canonical |
| `FlowSpecCodec.DefaultEthernetAdded` | odp/flow.go:55-91 | without an ethernet key the flow comes back with exactly the default one added, and so not equal to the original |
| `FlowSpecCodec.SecondSerialisation` | odp/flow.go:1208-1284 | a flow that was serialised and parsed has, when it is serialised again in whatever order, the same key and mask attributes if and only if its in-port mask was all ones or all zero |
| `ActionWire.OutputSent` | odp/flow.go:944-946 | an output is attribute 1 with the port's four bytes in host order |
| `ActionWire.SetTunnelSent` | odp/flow.go:1030-1038 | a tunnel action is attribute 3 around 16 around the present fields, with the flags exactly if they are set |
| `ActionWire.FlowSent` | odp/flow.go:1208-1220 | a flow is attribute 1 for keys, 7 for masks and 2 for actions, one attribute for each action in order |
| `ActionWire.SetOfOne` | odp/flow.go:1119-1160 | a SET of one attribute is read as that attribute, of whatever type and size, except in the three tunnel cases |
| `ActionWire.PrioritySetMisread` | odp/flow.go:1140-1143 | a SET of a 4-byte priority is always taken for a tunnel to that address |
| `ActionWire.ActionEqualsOnWire` | odp/flow.go:1040-1046 | two actions are equal if and only if both or neither are of unknown type and, tunnel fields written out in full, they are the same on the wire |
| `ActionWire.SpecEqualsOnWire` | odp/flow.go:1222-1237 | two flows are equal if and only if their keys are and their actions are the same on the wire, one by one and in order |
| `ActionWire.OutputsEqual` | odp/flow.go:948-954 | flows of outputs with equal keys are equal if and only if they name the same ports in the same order |
| `ActionWire.ActionEqualsLaws` | odp/flow.go:1103-1109 | `Equals` on actions is reflexive, symmetric and transitive |
| `ActionWire.WhenActionPanics` | odp/flow.go:1119-1160 | reading an action panics exactly for a malformed SET or tunnel in it; every other failure is an error |
| `FlowSpecBuilder.Visit` | odp/flow.go:64-68 | a range over the keys visits each exactly once, in some order |
| `FlowSpecBuilder.PutFlowKeys` | odp/flow.go:55-91 | appends the key and mask attributes in two visits that need not agree, and succeeds if and only if there is no exact unknown key |
| `FlowSpecBuilder.PutFlowSpec` | odp/flow.go:1208-1220 | appends keys, masks and actions, or only the first two when the keys cannot be serialised |
| `FlowMessages.RequestArrives` | odp/flow.go:1239-1245 | framing, header checks and attribute parsing of a built request all succeed and yield what was put in |
| `FlowMessages.MessageArrives` | odp/flow.go:1239-1284 | what each stage of parsing meets in a message that holds a flow |
| `FlowMessages.BuildFlow` | odp/flow.go:1286-1294 | driving the builder as the source does yields the request that holds the flow, or an error if and only if there is an exact unknown key |
| `FlowMessages.ReadFlow` | odp/flow.go:1239-1284 | yields a flow if and only if the datagram begins with a message of the right family, command and datapath whose attributes parse to one, and then such a flow; panics only at an empty message or malformed attributes |
| `FlowMessages.ThroughMessage` | odp/flow.go:1239-1298 | building and reading the message gives an equal flow, in both directions, if and only if the flow is faithful |
| `FlowMessages.RepliesAccepted` | odp/dpif.go:158-173 | a reply about flows passes the checks if and only if it has the command asked for or command 1, NEW |
| `InPortMasks.NormaliseMask` | odp/flow.go:397-402 | in the message buffer, exactly the bytes of an in-port mask other than all ones become zero |
| `InPortMasks.ValueAt` | odp/netlink.go:487-489 | where each attribute's value lies in the buffer, behind all earlier values |
| `InPortMasks.OverwriteValue` | odp/netlink.go:469-493 | overwriting one attribute's value changes that value and nothing else that parsing yields |
| `InPortMasks.InPortAgain` | odp/flow.go:397-408 | zeroing is idempotent and a zeroed mask parses to the same in-port key |
| `ParsingAgain.MasksAgain` | odp/flow.go:397-402 | after the zeroing the mask attributes parse to the same map but for the in-port mask |
| `ParsingAgain.KeyAgain` | odp/flow.go:114-167 | zeroed or not, the masks lead to the same key of every type |
| `ParsingAgain.SpecAgain` | odp/flow.go:1247-1284 | and to the same flows |
| `ParsingAgain.MessageAgain` | odp/flow.go:1239-1284 | a message in which parsing zeroed an in-port mask parses, from the top, to the same flows again |
| `FlowParsing.TakeSpans` | odp/netlink.go:469-501 | the attributes by type as slices of the buffer, no two of which overlap |
| `FlowParsing.TakeNested` | odp/netlink.go:503-506 | the same for a nested attribute, with its errors |
| `FlowParsing.ZeroedValues` | odp/flow.go:397-402 | zeroing the in-port mask leaves every key and every other mask in the buffer alone |
| `FlowParsing.ParseSlice` | odp/flow.go:332-408 | the parsers of the table yield the specified key, and only the in-port one writes, and only to its mask |
| `FlowParsing.ChooseMask` | odp/flow.go:117-137 | the mask is the message's or the table's, and makes parsing the type what the specification says |
| `FlowParsing.SharedMaskKept` | odp/flow.go:881-885 | writing to one of the table's in-port masks writes what is there |
| `FlowParsing.ParseType` | odp/flow.go:117-143 | one type is parsed as specified; the table is unchanged, and so is the buffer but for an in-port mask in it |
| `FlowParsing.ParseTypes` | odp/flow.go:145-164 | one loop parses all of its types or returns a failure of one of them, in whatever order it goes and whether or not the in-port mask was zeroed before |
| `FlowParsing.ParseFlowKeys` | odp/flow.go:114-167 | succeeds if and only if every type among keys and masks parses, with exactly those types in the result, and otherwise fails as one of them does; writes nothing but the in-port mask's bytes, and leaves the shared masks unchanged |
| `FlowParsing.ParseTwice` | odp/flow.go:114-167 | parsing the same attributes again gives the same keys, or fails again |
| `FlowParsing.ZeroedNested` | odp/flow.go:1253-1258 | after the zeroing, the mask attribute parses to the same masks but for that one, and the flow's other attributes are untouched |
| `FlowParsing.ParseSpecKeys` | odp/flow.go:1248-1261 | yields a key set that the attributes parse to, whenever there is one, fails with an error or a panic only for a reason in them, and leaves a buffer that parses to the same |
| `FlowParsing.ParseFlowSpec` | odp/flow.go:1247-1284 | yields a flow that the attributes parse to, whenever there is one, fails with an error or a panic only for a reason in them, and leaves a buffer that parses to the same flows |
| `Receive.ReceiveDatagram` | odp/netlink.go:580-601 | the inner loop over one datagram is the specification on its messages; an empty datagram is an error |
| `Receive.NetlinkSocket.Receive` | odp/netlink.go:573-603 | the nested loops depend on the datagrams only through the stream of messages in them, leave the callback's variables as the specification does, and take as few datagrams as it takes to end |
| `Receive.ReceiveAppend` | odp/netlink.go:573-603 | a run over two streams is the run over the first, continued over the second if that did not end it |
| `Dumps.TurnByClass` | odp/netlink.go:617-652 | what the callbacks of `RequestMulti` and `Request`, check by check, come to for each class of message |
| `Dumps.DumpPrefix` | odp/netlink.go:636-652 | passing over leftovers and accepted replies leaves the consumer called with exactly those replies, in order |
| `Dumps.DumpExact` | odp/netlink.go:630-672 | a dump calls the consumer with exactly the replies with its number and port, in order, up to the first framing error, foreign message, error, completion or consumer failure, and ends accordingly |
| `Dumps.RequestMulti` | odp/netlink.go:630-653 | what the loop leaves is that outcome for the queued datagrams, and no more of them are taken than it needs |
| `Dumps.RepliesMatch` | odp/netlink.go:290-311 | every delivered message has the request's number and port |
| `Dumps.DeliveredMatch` | odp/netlink.go:290-311 | whatever the stream, all that a dump delivers has the request's number and port |
| `Dumps.AnySplit` | odp/netlink.go:573-603 | any split of finished messages into non-empty datagrams, with or without padding at their ends, gives the same stream |
| `Dumps.SplitIndependent` | odp/netlink.go:573-603 | so every receive loop has the same outcome on two splits of one stream |
| `Dumps.RequestExact` | odp/netlink.go:617-623 | the first item alone decides about response and ending; a stale message gives neither a response nor an error |
| `Dumps.Request` | odp/netlink.go:611-625 | there is a response if and only if the first message is relevant and no error, and then it is that one, with the request's number and port |
| `Dumps.HeaderFields` | odp/netlink.go:290-311 | type, number and port that the loops read are those that a sender puts into the header, and the code is the first four bytes behind it |
| `Dumps.ClassifyByHeader` | odp/netlink.go:273-311 | what a message is to a request, by its header fields and the numbers 2 for an error and 3 for a completion |
| `Dumps.CheckByHeader` | odp/netlink.go:273-288 | the same for the check that `consume` makes |
| `Dumps.ResponseByHeader` | odp/netlink.go:290-311 | a message for another port is an error, one with another number is merely irrelevant |
| `Dumps.RequestNumber` | odp/netlink.go:137-145 | a built request carries the number that finishing it returned |
| `Consuming.LogGrows` | odp/netlink.go:680-691 | one turn of the callback, header check, handler and report, keeps the log good and goes on |
| `Consuming.Peel` | odp/netlink.go:680-691 | the calls about the last message of a good log are those that one turn makes |
| `Consuming.LogUnique` | odp/netlink.go:678-698 | messages and handler determine a good log completely |
| `Consuming.ConsumeExact` | odp/netlink.go:678-698 | the loop passes over all messages with readable headers, with a good log of them, and ends at the first item that is none |
| `Consuming.Consume` | odp/netlink.go:678-698 | every message is handled once, in order, if its header is good, and reported if its header is bad or directly after the handler failed on it; the final error call is made if and only if receiving failed, once and last |
| `Requests.NumbersDistinct` | odp/netlink.go:135-145 | requests fewer than 2^32 apart have different numbers |
| `Requests.NumberFollows` | odp/netlink.go:140 | the numbers are those that finishing one request after the other gives |
| `Requests.NextValid` | odp/netlink.go:611-653 | every step of the socket keeps that queued replies carry the numbers of requests made |
| `Requests.RunValid` | odp/netlink.go:611-653 | so does every run |
| `Requests.ReturnsEnabled` | odp/netlink.go:611-653 | every call that returns is a step of such a run |
| `Requests.StaleNeverDelivered` | odp/netlink.go:290-311 | in every run with fewer than 2^32 earlier requests, nothing that `RequestMulti` or `Request` delivers answers an earlier request, whatever abandoned dumps left queued |
| `Requests.FirstDumpReturns` | odp/netlink.go:646-649 | a dump whose consumer fails leaves the second datagram of its replies queued |
| `Requests.LateRequestReturns` | odp/netlink.go:140 | with the counter wrapped around, a request is handed such a leftover |
| `Requests.WrappedNumberCollides` | odp/netlink.go:135-145 | the bound is sharp: there is a run in which the request after 2^32 others is handed the leftover reply to the first |
| `UpcallPorts.StartInv` | odp/packet.go:42-47 | the invariant holds at the start |
| `UpcallPorts.KernelKeeps` | odp/packet.go:88-91 | creating, deleting and re-creating vports keeps it |
| `UpcallPorts.EnumActKeeps` | odp/packet.go:92-106 | so does a SET, a skip or an abort by the enumerating thread |
| `UpcallPorts.EventActKeeps` | odp/packet.go:92-117 | so does the event thread's processing of a creation or deletion |
| `UpcallPorts.OtherKeeps` | odp/packet.go:49-70 | so does every other step of the threads |
| `UpcallPorts.StepKeeps` | odp/packet.go:42-117 | every step of the kernel and of either thread keeps the invariant |
| `UpcallPorts.QuiescentMeansSet` | odp/packet.go:42-70 | in every run, whenever the queue is drained and the enumeration has finished, every existing vport has our upcall port |
| `UpcallPorts.SetsBounded` | odp/packet.go:88-106 | in every run, successful SETs of a vport number at most one more than its processed deletions |
| `UpcallPorts.EnumerateFirstMisses` | odp/packet.go:49-63 | with the enumeration before the subscription, a run exists that misses a vport |
| `UpcallPorts.ThreadStepDecreases` | odp/packet.go:88-117 | every step of a thread decreases the measure over queued events, undone vports and remaining enumeration |
| `UpcallPorts.Progress` | odp/packet.go:92-117 | until all is quiet or the enumeration is aborted, some thread can move |
| `UpcallPorts.LoopEnds` | odp/packet.go:88-117 | once the kernel leaves the vports alone the threads take at most as many steps as the measure says, and then every vport has our port unless the enumeration was aborted |
| `UpcallRun.BoundReached` | odp/packet.go:42-117 | there is a run with a vport created during the dump, reached by both threads, deleted and its number reused before its echo is read; it comes to rest with the port set, and the bound on SETs is reached |
| `UpcallConsumer.Kernel.SetUpcallPort` | odp/vport.go:346-355 | SET succeeds on existing vports only, and then announces the vport |
| `UpcallConsumer.WholeSet` | odp/packet.go:92-106 | what a whole call does to the shared state when nothing comes between its steps |
| `UpcallConsumer.MissVportConsumer.constructor` | odp/packet.go:42-47 | no vport is done at first |
| `UpcallConsumer.MissVportConsumer.SetVportUpcallPortId` | odp/packet.go:92-106 | refines the protocol's steps, and fails exactly when the vport is neither done nor exists |
| `UpcallConsumer.MissVportConsumer.VportCreated` | odp/packet.go:108-110 | refines the event thread's steps for a creation, and fails exactly when the vport is neither done nor exists |
| `UpcallConsumer.MissVportConsumer.VportDeleted` | odp/packet.go:112-117 | refines the event thread's step for a deletion |
| `MissSockets.Socket.Close` | odp/netlink.go:73-81 | closes the descriptor that the socket has, and none once it is closed, even if its number is in use again |
| `MissSockets.Reopen` | odp/dpif.go:112-119 | a new socket with a descriptor not in use, or nothing has changed |
| `MissSockets.ConsumeVportEvents` | odp/vport.go:367-386 | one new socket and the subscription if the group is known, the socket opens and it joins; on failure at any point nothing has changed |
| `MissSockets.SetAll` | odp/packet.go:65-70 | the loop refines the enumerating thread's steps, keeps the protocol's invariant, and succeeds if and only if all enumerated vports exist, which then have our port |
| `MissSockets.ConsumeMissesBody` | odp/packet.go:12-76 | at every return, early or not, the deferred closes are exactly those of the sockets opened so far, and it succeeds if and only if nothing fails |
| `MissSockets.RunDeferred` | odp/packet.go:22-26 | running the deferred closes last to first leaves what was open before |
| `MissSockets.ConsumeMisses` | odp/packet.go:12-76 | succeeds if and only if every system call does and every enumerated vport exists; on every failing exit, at any vport of the list, all sockets it opened are closed; on success exactly three new ones are open and every enumerated vport has our port |
| `MissSockets.Play` | odp/packet.go:147-148 | in any schedule of cancellations, the miss loop's end and others' opening and closing with reused numbers, each closes its own descriptors only |
| `MissSockets.WhatIsClosed` | odp/dpif.go:194-196 | the miss socket is closed if and only if there was a cancellation, the other two if and only if the loop ended, and others' descriptors stay open unless they close them |
| `MissSockets.ConsumeAndCancel` | odp/packet.go:12-76 | with cancellation and loop end in either order, possibly repeated, no socket is left and nobody else's is closed |

## Left out

- System calls, socket addresses and loading the kernel module: a socket is a queue of datagrams and errors, whether a call succeeds is a parameter, and a failing send ends a request before anything modelled here.
- `unsafe.Pointer` casts as memory operations: they are host-order reads and writes at an offset of a byte sequence.
- `align` for alignments other than 4, the only one the library uses.
- `nextSeqNo` as a shared variable: the counter's value before the atomic increment is a parameter of `Finish`, and `Requests` counts all requests of the process.
- Goroutines as such: the two threads of the upcall port protocol are interleaved steps on values, with the lock held from a SET until it is recorded; checking `vportsDone` and the SET are one step, since only the holder of the lock changes the set.
- The kernel in that protocol is trusted with lossless, ordered events, with a NEW for each SET, with SETs that succeed on existing vports, with a dump that reports at least the vports that exist throughout it, and nobody else changes upcall ports. An enumeration that is aborted, because a reported vport is gone when its turn comes, promises nothing.
- UpcallPorts.LoopEnds: bounds the threads' steps once the kernel is quiet; that each thread gets its turn is up to the scheduler.
- `consumeVportEvents` and `parseVport`: events are given as creations and deletions in our datapath, and the filter by datapath and the parsing of vport specifications, including the option errors that the latter loses, would only add easy members.
- `Requests`: the kernel is trusted to answer with the numbers of requests that were made.
- FlowSpecCodec.FlowRoundTrip: covers key sets whose keys have the Go type and size that the parser table yields for their type, as the constructors and the parser make them.
- FlowEquality.EqualsLawfulIff: unknown keys are as the parser makes them, never exact and masked at once.
- MissSockets.SetAll: the loop runs without the event thread coming between; the interleavings are those of `UpcallPorts`.
- MissSockets.ConsumeMisses: sockets of other processes and the goroutines that read from the sockets are not represented, only the descriptors.
- `Execute`, `DeleteFlow`, flow statistics and flow enumeration, datapath and vport requests, and `LookupGenlFamily`: they add nothing beyond the codec and the request loops.
- Setters of keys and actions, which only assign fields.
- `String` methods, error texts and the command line tool in tool/odp.
