# Mooshimeter configuration tree and command channel, in Dafny

This project models the core of the Mooshimeter Android app's newer
meter protocol. The core has three parts:

- **The configuration tree** (`ConfigTree`). Nodes are structural (PLAIN,
  CHOOSER), references (LINK, COPY) or values (VAL_U8 … VAL_FLT).
  `assignShortCodes` walks the tree in pre-order. It numbers every node
  that needs a short code 0, 1, 2, …, links each child to its parent and
  attaches every node to the tree. `getShortCodeList` inverts that
  numbering. Nodes are looked up by colon-separated long names. A node
  records its last notified value and calls its notify handlers. A tree
  packs into a list of items and unpacks back from it.
- **The device** (`MooshimeterDeviceNew`). It builds the bootstrap tree
  ADMIN{CRC32, TREE, DIAGNOSTIC} and keeps its short-code list.
  `sendCommand` turns a command into a 19-byte payload: the opcode, with
  bit 7 set for a write, then the value. `sendToMeter` frames the payload
  behind a wrapping 8-bit sequence number. `interpretAggregate` takes
  notifications off the receive buffer message by message and hands each
  one to the node its opcode names.
- **The base device helpers** (`MooshimeterDeviceBase`): the 24-bit
  integer put and get on a `ByteBuffer`, the OAD-mode decision, the
  initialised flag around `discover` and `disconnect`, and the digit
  normalisation and truncation of `formatReading`.

Modules:

| module | contents |
|---|---|
| `Bytes` | big-endian and little-endian byte strings, signed reads, Java narrowing casts |
| `ByteBuffers` | the part of `java.nio.ByteBuffer` the code uses, as a class over an array |
| `ConfigNodes` | node types and tags, the node datatype, pre-order traversal and its ordering |
| `ConfigNames` | `String.split`, upper-casing, `getChildByName`, `getNodeAtLongname` |
| `ShortCodes` | the codes, parent links and attachments a walk leaves, and their inverse |
| `ConfigPacking` | `packToEndOfList` and `unpackFromFrontOfList` on decoded items |
| `ConfigTrees` | `class ConfigTree` with the per-node fields the code updates in place |
| `MeterBase` | `putInt24`, `getInt24`, `isInOADMode`, `discover`, `disconnect`, `formatReading` |
| `MeterDevices` | `class MeterDevice`: bootstrap, command encoder, frames, receive loop |

A node is identified by its index path from the root (`Path = seq<nat>`).
The tree's shape is an immutable datatype. The per-node fields the Java
code assigns (`code`, `parent`, `tree`, `last_value`, `notify_handlers`,
`cache_longname`) are maps keyed by path inside `class ConfigTree`, and
the methods that assign them reassign those maps. A handler call is
recorded as an `Event` appended to the tree's `events` log.

## Model

All source paths below are under `app/src/main/java/com/mooshim/mooshimeter/common/`,
written out in full.

| member | source | states |
|---|---|---|
| ConfigNodes.TypeOfTag | app/src/main/java/com/mooshim/mooshimeter/common/ConfigTree.java:29-44 | a tag names a node type exactly when it is 0..12, and that type's tag is the tag read |
| ConfigNodes.TagRoundTrip | app/src/main/java/com/mooshim/mooshimeter/common/ConfigTree.java:29-44 | every node type's tag decodes back to that type |
| ConfigNodes.NeedsShortCodeByType | app/src/main/java/com/mooshim/mooshimeter/common/ConfigTree.java:238-241 | a well-formed node needs a short code exactly when its type is not PLAIN, LINK or COPY: choosers and values do, the rest do not |
| ConfigNodes.PreOrderSound | app/src/main/java/com/mooshim/mooshimeter/common/ConfigTree.java:368-373 | every node `walk` visits lies below its start, at the path it is visited with |
| ConfigNodes.PreOrderComplete | app/src/main/java/com/mooshim/mooshimeter/common/ConfigTree.java:368-373 | every node below the start is visited, with its own path |
| ConfigNodes.PreOrderIncreasing | app/src/main/java/com/mooshim/mooshimeter/common/ConfigTree.java:368-373 | `walk` visits paths in strictly increasing pre-order: a parent before its children, siblings left to right |
| ConfigNames.Split | app/src/main/java/com/mooshim/mooshimeter/common/ConfigTree.java:398 | no token of `split(":")` contains the separator |
| ConfigNames.SplitJoinRoundTrip | app/src/main/java/com/mooshim/mooshimeter/common/ConfigTree.java:398 | splitting tokens joined with ':' gives the tokens back, when none holds ':' and the last is not empty (limit-0 split drops trailing empty strings) |
| ConfigNames.SplitLimit | app/src/main/java/com/mooshim/mooshimeter/common/MooshimeterDeviceNew.java:238 | a split with a limit yields at least one and at most limit tokens |
| ConfigNames.UpperAscii | app/src/main/java/com/mooshim/mooshimeter/common/MooshimeterDeviceNew.java:246 | same length; each ASCII lower-case letter becomes its upper-case letter and every other character is kept |
| ConfigNames.ChildByName | app/src/main/java/com/mooshim/mooshimeter/common/ConfigTree.java:167-174 | Found is the first child with that name, and every child before it has a different name; NullName (the NullPointerException of `c.name.equals`) exactly when a nameless child comes before any match; otherwise NotFound |
| ConfigNames.Descend | app/src/main/java/com/mooshim/mooshimeter/common/ConfigTree.java:400-407 | a found node lies one step down per token, the names along its path are exactly the tokens, and no child on that path is shadowed by an earlier sibling that is nameless or has the same name |
| ConfigNames.ChildByNameFirst | app/src/main/java/com/mooshim/mooshimeter/common/ConfigTree.java:167-174 | a named child with no nameless or same-named sibling before it is the one the scan returns |
| ConfigNames.DescendComplete | app/src/main/java/com/mooshim/mooshimeter/common/ConfigTree.java:397-408 | every path whose names are the tokens and on which no child is shadowed is found: the lookup misses no reachable node |
| ConfigNames.DescendSnoc | app/src/main/java/com/mooshim/mooshimeter/common/ConfigTree.java:400-406 | one more token is one more `getChildByName` from the node reached so far; a failure (not found, or the NullPointerException) stays a failure |
| ConfigTrees.ConfigTree.GetNodeAtLongname | app/src/main/java/com/mooshim/mooshimeter/common/ConfigTree.java:397-408 | a found node exists, the names from the root's children down to it are the ':'-separated tokens of the long name, and no child on the way is shadowed; conversely every such path is the one found |
| ShortCodes.TreeCodesInPreOrder | app/src/main/java/com/mooshim/mooshimeter/common/ConfigTree.java:377-396 | the k-th node in pre-order that needs a code gets code k; a smaller code always belongs to an earlier node |
| ShortCodes.TreeCodesExactly | app/src/main/java/com/mooshim/mooshimeter/common/ConfigTree.java:389-392 | a path has a code exactly when a node is there and it needs one (for a well-formed tree, exactly when its type is not PLAIN, LINK or COPY) |
| ShortCodes.TreeLinks | app/src/main/java/com/mooshim/mooshimeter/common/ConfigTree.java:384-388 | exactly the non-root nodes get a parent, and it is the node one step up their path |
| ShortCodes.TreePaths | app/src/main/java/com/mooshim/mooshimeter/common/ConfigTree.java:383 | every node of the tree, and nothing else, is attached to the tree |
| ShortCodes.ShortCodeListIsInverse | app/src/main/java/com/mooshim/mooshimeter/common/ConfigTree.java:436-448 | the short-code list's keys are exactly 0..k-1 for the k nodes with codes, each mapped to a node that needs a code and carries that key as its code |
| ShortCodes.InverseOfCodes | app/src/main/java/com/mooshim/mooshimeter/common/ConfigTree.java:436-448 | when the codes number the nodes that need one consecutively from c, collecting (code, node) over the walk enumerates those nodes from c in walk order |
| ConfigPacking.Unpack | app/src/main/java/com/mooshim/mooshimeter/common/ConfigTree.java:207-227 | a decoded node has the type it was asked for and the class `nodeFactory` picks for it, and it takes at least two items from the list |
| ConfigPacking.TagMismatchIgnored | app/src/main/java/com/mooshim/mooshimeter/common/ConfigTree.java:212-215 | a wrong type tag is only logged: decoding goes on as if the tag had matched |
| ConfigPacking.UnpackPacked | app/src/main/java/com/mooshim/mooshimeter/common/ConfigTree.java:228-237 | a well-formed node decodes from its packed items whatever follows them, and takes exactly those items |
| ConfigPacking.UnpackTreePacked | app/src/main/java/com/mooshim/mooshimeter/common/ConfigTree.java:336-363 | unpacking the packed item list of a well-formed tree gives the tree back |
| ConfigPacking.PackToEndOfList | app/src/main/java/com/mooshim/mooshimeter/common/ConfigTree.java:228-237 | appends exactly the node's packed items to the list |
| ConfigPacking.UnpackFromFrontOfList | app/src/main/java/com/mooshim/mooshimeter/common/ConfigTree.java:207-227 | removes from the front exactly the items the node decodes from, or reports the decode error |
| ConfigTrees.ConfigTree.constructor | app/src/main/java/com/mooshim/mooshimeter/common/ConfigTree.java:320-322 | a new tree on a root: no codes, links, attachments, values, handlers or cached names yet |
| ConfigTrees.ConfigTree.LinkChildren | app/src/main/java/com/mooshim/mooshimeter/common/ConfigTree.java:384-388 | the loop links each child of the node to the node and changes no other link |
| ConfigTrees.ConfigTree.Walk | app/src/main/java/com/mooshim/mooshimeter/common/ConfigTree.java:368-373 | walking the subtree at p adds exactly that subtree's codes (numbered on from the counter), parent links and attachments, and moves the counter past the codes handed out |
| ConfigTrees.ConfigTree.AssignShortCodes | app/src/main/java/com/mooshim/mooshimeter/common/ConfigTree.java:377-396 | afterwards the codes, parent links and attachments are exactly those of the whole tree's walk; the properties of that state are the `ShortCodes` lemmas above |
| ConfigTrees.ConfigTree.GetShortCodeList | app/src/main/java/com/mooshim/mooshimeter/common/ConfigTree.java:436-448 | the result inverts the codes over the walk; once codes are assigned, its keys are exactly 0..k-1, each mapped to a node whose code is that key |
| ConfigTrees.ConfigTree.GetPath | app/src/main/java/com/mooshim/mooshimeter/common/ConfigTree.java:124-140 | the root's path is empty; once parent links are assigned, climbing them gives back the node's own index path |
| ConfigTrees.PathOfLinked | app/src/main/java/com/mooshim/mooshimeter/common/ConfigTree.java:127-132 | with the links `assignShortCodes` sets, climbing to the root and collecting indices rebuilds the path |
| ConfigTrees.LongNameOfLinked | app/src/main/java/com/mooshim/mooshimeter/common/ConfigTree.java:144-151 | with the links set, the raw long name is the names from the root down to the node, each followed by the separator |
| ConfigTrees.LongNameUnlinked | app/src/main/java/com/mooshim/mooshimeter/common/ConfigTree.java:144-151 | with no links, the raw long name is the node's own name and the separator |
| ConfigTrees.ConfigTree.GetLongName | app/src/main/java/com/mooshim/mooshimeter/common/ConfigTree.java:152-163 | a cached name is returned unchanged; otherwise the raw name loses its first and last character and is cached, or StringIndexOutOfBounds is thrown when it is shorter than two characters |
| ConfigTrees.ConfigTree.AddNotifyHandler | app/src/main/java/com/mooshim/mooshimeter/common/ConfigTree.java:178-182 | a null handler is ignored; any other is appended to the node's handlers |
| ConfigTrees.ConfigTree.RemoveNotifyHandler | app/src/main/java/com/mooshim/mooshimeter/common/ConfigTree.java:183-185 | the first occurrence of the handler is removed from the node's list, and no other node's list changes |
| ConfigTrees.RemoveFirstCount | app/src/main/java/com/mooshim/mooshimeter/common/ConfigTree.java:183-185 | removing takes out one occurrence of the handler and keeps all others |
| ConfigTrees.RemoveFirstCut | app/src/main/java/com/mooshim/mooshimeter/common/ConfigTree.java:183-185 | removing a handler that is absent changes nothing; otherwise the list is cut at its first occurrence |
| ConfigTrees.ConfigTree.ClearNotifyHandlers | app/src/main/java/com/mooshim/mooshimeter/common/ConfigTree.java:186-188 | the node is left with no handlers, and other nodes keep theirs |
| ConfigTrees.HandlerCalls | app/src/main/java/com/mooshim/mooshimeter/common/ConfigTree.java:195-197 | one call per registered handler, in registration order, each with the node and the value |
| ConfigTrees.ConfigTree.Notify | app/src/main/java/com/mooshim/mooshimeter/common/ConfigTree.java:189-198 | the node's last value becomes the notification, and each of its handlers is called with it, in order |
| ConfigTrees.ConfigTree.GetValueAt | app/src/main/java/com/mooshim/mooshimeter/common/ConfigTree.java:416-422 | an error exactly when the lookup throws; a value exactly when the node is found and has been notified, and it is that node's last value |
| ConfigTrees.ConfigTree.GetChosenNode | app/src/main/java/com/mooshim/mooshimeter/common/ConfigTree.java:423-432 | a missing node throws NullPointerException; an unset choice becomes 0 first; an Integer choice in range gives that child, one out of range IndexOutOfBounds, any other boxed value ClassCastException |
| ConfigTrees.ConfigTree.GetChosenName | app/src/main/java/com/mooshim/mooshimeter/common/ConfigTree.java:433-435 | the name (null for a reference node) of the child `getChosenNode` picks; it fails with the same error in the same cases, and leaves the last values as `getChosenNode` does |
| ConfigTrees.ConfigTree.Unpack | app/src/main/java/com/mooshim/mooshimeter/common/ConfigTree.java:350-363 | fails exactly when the item list does not decode, and then changes nothing; otherwise the decoded root replaces the tree, node state starts empty, and codes, links and attachments are reassigned; the tree stays valid either way |
| ByteBuffers.ByteBuffer.PutField | app/src/main/java/com/mooshim/mooshimeter/common/MooshimeterDeviceNew.java:281-288 | a put that fits writes the value's n bytes in the buffer's order at the cursor and advances it; one that does not fit changes nothing |
| ByteBuffers.ByteBuffer.GetField | app/src/main/java/com/mooshim/mooshimeter/common/MooshimeterDeviceNew.java:91-97 | a get that fits returns the signed value of the next n bytes in the buffer's order and advances the cursor; otherwise it fails and the cursor stays |
| Bytes.BigEndianSignedRoundTrip | app/src/main/java/com/mooshim/mooshimeter/common/MooshimeterDeviceNew.java:281-284 | reading back the n big-endian bytes written for x gives x narrowed to n bytes, as Java's casts narrow it |
| MeterBase.Int24BytesAreHigh | app/src/main/java/com/mooshim/mooshimeter/common/MooshimeterDeviceBase.java:78-86 | the three bytes `putInt24` writes are the top three of `putInt`'s big-endian int: (arg mod 2^32) div 256 |
| MeterBase.Int24BytesNotLowBytes | app/src/main/java/com/mooshim/mooshimeter/common/MooshimeterDeviceBase.java:79-85 | for arg = 1 the bytes written are 0, 0, 0, not the bottom three bytes 0, 0, 1 |
| MeterBase.PutInt24 | app/src/main/java/com/mooshim/mooshimeter/common/MooshimeterDeviceBase.java:78-86 | three bytes written at the cursor when they fit, and the cursor advanced by three; otherwise nothing changes |
| MeterBase.Int24Value | app/src/main/java/com/mooshim/mooshimeter/common/MooshimeterDeviceBase.java:87-97 | the value lies in -2^23 .. 2^23-1 and is negative exactly when the third byte's top bit is set |
| MeterBase.SignExtended | app/src/main/java/com/mooshim/mooshimeter/common/MooshimeterDeviceBase.java:90-96 | extending with 0xFF or 0x00 by the third byte's sign and reading little-endian gives the signed 24-bit value |
| MeterBase.GetInt24 | app/src/main/java/com/mooshim/mooshimeter/common/MooshimeterDeviceBase.java:87-97 | when three bytes remain, returns their signed little-endian 24-bit value and advances by three; otherwise fails and the cursor stays |
| MeterBase.OadDecision | app/src/main/java/com/mooshim/mooshimeter/common/MooshimeterDeviceBase.java:166-178 | the OAD service means OAD mode; otherwise the meter service means not; with neither, the previous answer stands |
| MeterBase.MeterState.IsInOADMode | app/src/main/java/com/mooshim/mooshimeter/common/MooshimeterDeviceBase.java:166-178 | stores and returns that decision |
| MeterBase.OadDecisionStable | app/src/main/java/com/mooshim/mooshimeter/common/MooshimeterDeviceBase.java:166-178 | calling `isInOADMode` again with the same services keeps the mode it stored |
| MeterBase.MeterState.Discover | app/src/main/java/com/mooshim/mooshimeter/common/MooshimeterDeviceBase.java:121-128 | passes the connection layer's result on; a result of 0 sets the initialised flag, any other leaves the flag as it was |
| MeterBase.MeterState.Disconnect | app/src/main/java/com/mooshim/mooshimeter/common/MooshimeterDeviceBase.java:130-133 | clears the initialised flag and passes the result on |
| MeterBase.NormalHigh | app/src/main/java/com/mooshim/mooshimeter/common/MooshimeterDeviceBase.java:209-216 | the digit count ends in 1..4 and differs from where it started by a multiple of 3 |
| MeterBase.NormalHighClosedForm | app/src/main/java/com/mooshim/mooshimeter/common/MooshimeterDeviceBase.java:209-216 | the two loops end at (h-5) mod 3 + 2 from above, at (h-1) mod 3 + 1 from below, and leave 1..4 alone |
| MeterBase.NormalHighIdempotent | app/src/main/java/com/mooshim/mooshimeter/common/MooshimeterDeviceBase.java:209-216 | normalising twice is normalising once |
| MeterBase.NormaliseDigits | app/src/main/java/com/mooshim/mooshimeter/common/MooshimeterDeviceBase.java:209-216 | the loops leave `digits.high` normalised, and the reading divided by 1000 once per step down and multiplied by 1000 once per step up: scaled by 1000 to the power (new high - old high) / 3 |
| MeterBase.ScaledSign | app/src/main/java/com/mooshim/mooshimeter/common/MooshimeterDeviceBase.java:211-219 | scaling by a power of 1000 keeps the reading's sign, so `neg` is the sign of the reading passed in |
| MeterBase.Truncate | app/src/main/java/com/mooshim/mooshimeter/common/MooshimeterDeviceBase.java:232-234 | a prefix of the string of at most 8 characters, the whole string when it is no longer |
| MeterBase.FormatFields | app/src/main/java/com/mooshim/mooshimeter/common/MooshimeterDeviceBase.java:219-222 | the format's width is the digit count plus one for a sign, and width minus precision is the integer digits plus the sign |
| MeterBase.FormatReading | app/src/main/java/com/mooshim/mooshimeter/common/MooshimeterDeviceBase.java:206-235 | leaves `digits.high` in 1..4, formats the scaled reading with the sign, width and precision of the format string, and returns at most 8 characters of the text |
| MeterDevices.MeterDevice.constructor | app/src/main/java/com/mooshim/mooshimeter/common/MooshimeterDeviceNew.java:136-146 | the bootstrap tree with codes CRC32 = 0, TREE = 1, DIAGNOSTIC = 2, each child linked to ADMIN, all four nodes attached, and a code list naming each code's node and type |
| MeterDevices.BootstrapSetup | app/src/main/java/com/mooshim/mooshimeter/common/MooshimeterDeviceNew.java:144-146 | `assignShortCodes` on the bootstrap tree gives exactly those codes, and `getShortCodeList` maps them back to the three values |
| MeterDevices.BootstrapLinks | app/src/main/java/com/mooshim/mooshimeter/common/MooshimeterDeviceNew.java:144-145 | each bootstrap child's parent is ADMIN, ADMIN has none, and all four nodes are attached |
| MeterDevices.BootstrapLookups | app/src/main/java/com/mooshim/mooshimeter/common/MooshimeterDeviceNew.java:147 | "ADMIN:TREE" is not found, because the lookup starts among the root's children; "TREE" is found at the second child |
| MeterDevices.BootstrapLongName | app/src/main/java/com/mooshim/mooshimeter/common/ConfigTree.java:152-163 | on the linked bootstrap tree the long name of TREE is "DMIN:TREE": the root's name starts the raw name, so the first deleted character is the root name's first letter, not a separator |
| MeterDevices.SeqAfterIsSum | app/src/main/java/com/mooshim/mooshimeter/common/MooshimeterDeviceNew.java:230-232 | after k frames the sequence number is the start plus k, modulo 256, and lies in 0..255 |
| MeterDevices.SeqWrapsAround | app/src/main/java/com/mooshim/mooshimeter/common/MooshimeterDeviceNew.java:230-232 | after 256 frames the sequence number is back where it started |
| MeterDevices.MeterDevice.SendToMeter | app/src/main/java/com/mooshim/mooshimeter/common/MooshimeterDeviceNew.java:223-235 | a payload over 19 bytes is dropped and nothing changes; otherwise the frame is the sequence number's low byte then the payload, and the number advances by one modulo 256 |
| MeterDevices.SetWriteBit | app/src/main/java/com/mooshim/mooshimeter/common/MooshimeterDeviceNew.java:262 | the result's low byte has bit 7 set and its low seven bits are the code's |
| MeterDevices.CommandBytes | app/src/main/java/com/mooshim/mooshimeter/common/MooshimeterDeviceNew.java:258-305 | a sent payload is 19 bytes; a read always sends; a write to PLAIN, LINK, COPY or BIN sends nothing; only a STR value over 16 characters overflows |
| MeterDevices.ReadCommandDecodes | app/src/main/java/com/mooshim/mooshimeter/common/MooshimeterDeviceNew.java:302-305 | a read of code 0..127 is that code followed by 18 zero bytes |
| MeterDevices.WriteNumberDecodes | app/src/main/java/com/mooshim/mooshimeter/common/MooshimeterDeviceNew.java:268-300 | a numeric write carries the code with bit 7 set, then the value narrowed to the type's width big-endian, which reads back as that narrowed value, then zeros |
| MeterDevices.WriteTextDecodes | app/src/main/java/com/mooshim/mooshimeter/common/MooshimeterDeviceNew.java:289-294 | a text write carries the code with bit 7 set, then the 16-bit length, which reads back as the length, then each character's low byte, then zeros |
| MeterDevices.EncodeCommand | app/src/main/java/com/mooshim/mooshimeter/common/MooshimeterDeviceNew.java:258-305 | the ByteBuffer puts produce exactly the bytes above (or the early return or exception) |
| MeterDevices.PutText | app/src/main/java/com/mooshim/mooshimeter/common/MooshimeterDeviceNew.java:289-294 | the length and then each character land after the opcode; more than 16 characters overflow the buffer |
| MeterDevices.PutNumber | app/src/main/java/com/mooshim/mooshimeter/common/MooshimeterDeviceNew.java:277-288 | an unparsable number throws; otherwise its low bytes land after the opcode |
| MeterDevices.CommandIsAlwaysARead | app/src/main/java/com/mooshim/mooshimeter/common/MooshimeterDeviceNew.java:238-245 | `split(" ", 1)` never splits, so a command never carries a payload |
| MeterDevices.MeterDevice.SendCommand | app/src/main/java/com/mooshim/mooshimeter/common/MooshimeterDeviceNew.java:236-306 | an unknown name sends nothing; a nameless node on the way throws NullPointerException; a node without a code sends nothing; a node with a code sends the read frame for its code; nothing else changes |
| MeterDevices.MeterDevice.LoadTree | app/src/main/java/com/mooshim/mooshimeter/common/MooshimeterDeviceNew.java:307-309 | on the bootstrap tree "ADMIN:TREE" does not resolve, so nothing is sent |
| MeterDevices.AdminTreeUnresolved | app/src/main/java/com/mooshim/mooshimeter/common/MooshimeterDeviceNew.java:307-309 | the upper-cased "ADMIN:TREE" is not found in the bootstrap tree |
| MeterDevices.Peek | app/src/main/java/com/mooshim/mooshimeter/common/MooshimeterDeviceNew.java:65-123 | stops on an unknown opcode exactly when it is not in the code list, and on PLAIN, LINK or COPY exactly when it names one; an incomplete STR or BIN has fewer bytes than its length; a taken message consumes 3 bytes (STR, BIN) or 1 plus the type's width and notifies the node the opcode names |
| MeterDevices.Drain | app/src/main/java/com/mooshim/mooshimeter/common/MooshimeterDeviceNew.java:60-129 | the loop ends normally exactly when the buffer is empty |
| MeterDevices.DrainLeavesSuffix | app/src/main/java/com/mooshim/mooshimeter/common/MooshimeterDeviceNew.java:124-127 | what the loop leaves is a tail of the buffer it was given |
| MeterDevices.DrainStopsAtPeek | app/src/main/java/com/mooshim/mooshimeter/common/MooshimeterDeviceNew.java:60-129 | when the loop stops early, the message at the front of what is left is the one that stopped it |
| MeterDevices.DrainIdempotent | app/src/main/java/com/mooshim/mooshimeter/common/MooshimeterDeviceNew.java:60-129 | running the loop again on what it left notifies nothing and stops for the same reason |
| MeterDevices.HighByteStops | app/src/main/java/com/mooshim/mooshimeter/common/MooshimeterDeviceNew.java:71-72 | a first byte of 128 or more is read as a negative opcode, matches no code, and stops the loop with the buffer untouched |
| MeterDevices.TextBodyReread | app/src/main/java/com/mooshim/mooshimeter/common/MooshimeterDeviceNew.java:99-114 | a complete STR or BIN message notifies the node with the whole buffer, then consumes only the opcode and length, so its body is read again as messages |
| MeterDevices.PeekSample | app/src/main/java/com/mooshim/mooshimeter/common/MooshimeterDeviceNew.java:87-98 | a fixed-width message is read back whole, as the value sent narrowed to its width, whatever follows it |
| MeterDevices.StreamDrains | app/src/main/java/com/mooshim/mooshimeter/common/MooshimeterDeviceNew.java:60-129 | a stream of complete fixed-width messages is read to the end, notifying each named node in order with the value sent |
| MeterDevices.MeterDevice.ReadFront | app/src/main/java/com/mooshim/mooshimeter/common/MooshimeterDeviceNew.java:63-71 | copying the buffer into an array and reading the opcode through a ByteBuffer gives the message that `Peek` describes |
| MeterDevices.MeterDevice.ReadMessage | app/src/main/java/com/mooshim/mooshimeter/common/MooshimeterDeviceNew.java:74-118 | the switch on the node's type reads the value its type calls for, and leaves the cursor after what it consumed |
| MeterDevices.MeterDevice.Advance | app/src/main/java/com/mooshim/mooshimeter/common/MooshimeterDeviceNew.java:62-127 | one turn: a stopping message leaves everything as it was; otherwise the node is notified and the message's bytes are dropped from the front, which is the first step of `Drain` |
| MeterDevices.MeterDevice.InterpretAggregate | app/src/main/java/com/mooshim/mooshimeter/common/MooshimeterDeviceNew.java:60-129 | the buffer is left as `Drain` leaves it, every node named is notified in order (last values and handler calls), and the result is why the loop stopped |

## Left out

- MessagePack encoding and decoding, and the Deflater and Inflater around
  `pack` and `unpack`, are not modelled: packing works on a list of
  already-decoded items (integers, strings, nested lists).
- Floating point is not modelled. A float payload is taken as its 32 raw
  bits, supplied by a parser parameter. A float notification is kept as
  its four bytes.
- MeterBase.FormatReading: the reading is an exact real number, so the
  rounding of the double divisions and multiplications by 1000 is not
  modelled. A tiny negative reading that Java scales to -0.0 counts as
  negative here, where Java's `val<0` is false. `String.format` is the
  `render` parameter.
- `Integer.parseInt` and `Float.parseFloat` are parameters returning
  `None` where Java throws NumberFormatException.
- `new String(bytes)` is kept as the undecoded bytes, because charset
  decoding is not modelled.
- ConfigNames.UpperAscii: only the ASCII letters a..z are upper-cased.
  Java's `toUpperCase` follows the default locale (the Turkish dotless i,
  for example) and maps non-ASCII letters, some to several characters.
- MeterDevices.CommandBytes: a text character is one Unicode scalar value
  (a Dafny `char`), where a Java `String` is a sequence of UTF-16 code
  units. A STR write counts its length, its 16-character limit and its
  bytes per scalar value. Java counts `length()` and puts `(byte) c` per
  code unit. So text outside the Basic Multilingual Plane gives a
  different length field and overflows at a different point: nine U+1F600
  characters are sent here, but are 18 units in Java and overflow.
- MeterDevices.PutText: counts and writes per scalar value, not per UTF-16
  code unit, as for CommandBytes above.
- MeterDevices.WriteTextDecodes: the length field and the per-character
  bytes it states are per scalar value, not per UTF-16 code unit.
- ConfigTrees.ConfigTree.GetLongName: `deleteCharAt` removes one UTF-16
  code unit. For a root name whose first character lies outside the Basic
  Multilingual Plane, Java removes only its high surrogate, while the
  model removes the whole character. The last character removed is
  always the ':' separator, so that end agrees.
- Bluetooth is modelled only as the frames handed to `send`, recorded in
  order. Service discovery is reduced to the set of service names found
  and to the result code of the superclass `discover` and `disconnect`.
  Shared preferences, logging, `enumerate` and `toString` are left out,
  because they only print or store settings.
- The filling of `recv_buf` by Bluetooth notifications, and concurrency
  between that and `interpretAggregate`, are not modelled. The loop runs
  on the buffer as it stands.
- `recv_seq_n` is declared but never used, so it is not modelled.
- The handler wiring at MooshimeterDeviceNew.java lines 149-161 is not
  modelled. It assigns a `notification_handler` field that ConfigNode
  does not declare. Even with that fixed, `getNodeAtLongname("ADMIN:TREE")`
  returns null there, as BootstrapLookups states.
- After `unpack` replaces the tree, `code_list` is not rebuilt, in the
  model as in the code.
- MeterDevices.MeterDevice.InterpretAggregate: a code list entry names a
  node by its path, and notifying it updates the node at that path in the
  current tree. Java's `code_list` holds the constructor's node objects.
  After `tree.unpack` those objects are detached, so Java updates their
  `last_value` and calls their handlers, not the new tree's. The model
  notifies the new tree's node at that path instead.
- ConfigTrees.ConfigTree.Unpack: when decoding fails part-way, Java has
  already replaced `root` with the partly built node. The model leaves the
  tree unchanged and reports the decode error.
- ConfigTrees.ConfigTree.GetPath: states the path only once the links of
  `assignShortCodes` are in place, not for a partly linked tree.
- MeterDevices.MeterDevice.LoadTree: states the outcome only for the
  bootstrap tree, which is the only tree it is called on.
- The `getBufLen`, `getBuffer`, `pauseStream`, `playSampleStream`,
  `isStreaming`, `bumpRange`, `applyAutorange`, `getSigDigits`,
  `getDescriptor`, `getUnits` and `getInputLabel` overrides of
  `MooshimeterDeviceNew` are empty, so they are not modelled.
- Java `assert` statements are off by default, so they are modelled as
  no-ops.
- `getNodeAtPath` is the function `ConfigNodes.NodeAtPath`. It returns
  `None` where Java's `children.get` throws IndexOutOfBoundsException.
- `RefNode.getShortName`, the `toString` methods and `enumerate` are not
  modelled. They only build text for logging or follow a reference's
  path by name, which `getNodeAtLongname` already covers.
- The fallback of `formatReading` to "%f" after an
  UnknownFormatConversionException belongs to the `render` parameter. The
  leading space for a non-negative reading does too.
- ConfigTrees.ConfigTree.Notify: the `time_utc` argument is left out. The
  one-argument `notify` always passes 0. A handler call is recorded as an
  event in the tree's log. What a handler then does is outside the model.
